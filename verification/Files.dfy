/** Open files: the end of every pipeline. */
module Files {
  import opened Sizes
  import opened FlatFiles
  import opened Requests

  /** The errors modelled: downstream input and output itself does not fail. */
  datatype Error = OK | EOF | Failure(message: string)

  /** The position that asks for the end of the file. */
  const FILE_END_POSITION: int := -1

  /** The files of one name: file `i` is the name's segment `i`; an unsplit file is file 0. */
  class Storage {
    var files: map<nat, Bytes>

    constructor ()
      ensures files == map[]
    {
      files := map[];
    }
  }

  /** What has been asked of an open file or filter. */
  class RequestLog {
    ghost var requests: seq<Io>

    constructor ()
      ensures requests == []
    {
      requests := [];
    }
  }

  /** An open file: the end of every pipeline. Transfers may be shorter than asked for. */
  class FileSystemBottom {
    const store: Storage
    const idx: nat
    const log: RequestLog
    var pos: nat

    ghost predicate Exists()
      reads store
    {
      idx in store.files
    }

    ghost function Contents(): Bytes
      requires Exists()
      reads store
    {
      store.files[idx]
    }

    ghost predicate Valid()
      reads this, store
    {
      Exists() && pos <= |Contents()|
    }

    constructor Open(store: Storage, idx: nat, create: bool, truncate: bool)
      requires create || idx in store.files
      modifies store
      ensures this.store == store && this.idx == idx && pos == 0 && Valid()
      ensures fresh(log) && log.requests == []
      ensures store.files == if idx !in old(store.files) || truncate then old(store.files)[idx := []]
                             else old(store.files)
    {
      this.store := store;
      this.idx := idx;
      log := new RequestLog();
      pos := 0;
      new;
      if idx !in store.files || truncate {
        store.files := store.files[idx := []];
      }
    }

    method Read(size: nat) returns (data: Bytes, e: Error)
      requires Valid() && size > 0
      modifies this
      ensures Valid() && |data| <= size && pos == old(pos) + |data|
      ensures data == Contents()[old(pos)..pos]
      ensures e == if data == [] then EOF else OK
      ensures data == [] <==> old(pos) == |Contents()|
    {
      var available := |store.files[idx]| - pos;
      if available == 0 {
        return [], EOF;
      }
      var n :| 1 <= n <= size && n <= available;
      data, e := store.files[idx][pos..pos + n], OK;
      pos := pos + n;
    }

    method Write(data: Bytes) returns (n: nat)
      requires Valid() && |data| > 0
      modifies this, store
      ensures Valid() && 0 < n <= |data| && pos == old(pos) + n
      ensures store.files == old(store.files)[idx := Overwrite(old(Contents()), old(pos), data[..n])]
    {
      n :| 1 <= n <= |data|;
      store.files := store.files[idx := Overwrite(store.files[idx], pos, data[..n])];
      pos := pos + n;
    }

    /** Seeking past the end would leave a hole: callers do not. */
    method Seek(position: nat)
      requires Exists() && position <= |Contents()|
      modifies this
      ensures Valid() && pos == position
    {
      pos := position;
    }

    method SeekEnd() returns (size: nat)
      requires Exists()
      modifies this
      ensures Valid() && pos == size == |Contents()|
    {
      pos := |store.files[idx]|;
      size := pos;
    }
  }

  lemma OneKeyChanged(before: map<nat, Bytes>, after: map<nat, Bytes>, idx: nat)
    requires idx in after && after - {idx} == before - {idx}
    ensures after == before[idx := after[idx]]
  {
    forall i: nat | i != idx
      ensures i in after <==> i in before
      ensures i in after ==> after[i] == before[i]
    {
      assert i in after <==> i in after - {idx};
      assert i in before <==> i in before - {idx};
    }
  }
}
