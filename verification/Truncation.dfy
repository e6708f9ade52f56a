/** Deleting the segments of a group, and opening a group anew. */
module Truncation {
  import opened Sizes
  import opened Segments
  import opened Files
  import opened Pipelines

  /** How many of the segments from `start` up to `i` do not exist. */
  function Missing(files: map<nat, Bytes>, start: nat, i: nat): nat
    requires start <= i
  {
    if i == start then 0 else Missing(files, start, i - 1) + if i - 1 in files then 0 else 1
  }

  lemma {:induction false} MissingGrows(files: map<nat, Bytes>, start: nat, i: nat, j: nat)
    requires start <= i <= j
    ensures Missing(files, start, i) <= Missing(files, start, j)
    decreases j
  {
    if i < j {
      MissingGrows(files, start, i, j - 1);
    }
  }

  lemma {:induction false} MissingCounts(files: map<nat, Bytes>, start: nat, i: nat)
    requires start <= i
    ensures Missing(files, start, i) == |set j: nat | start <= j < i && j !in files|
    decreases i
  {
    var all := set j: nat | start <= j < i && j !in files;
    if i == start {
      assert all == {};
    } else {
      MissingCounts(files, start, i - 1);
      var fewer := set j: nat | start <= j < i - 1 && j !in files;
      assert all == if i - 1 in files then fewer else fewer + {i - 1};
    }
  }

  /** Deleting gives up after this many missing segments. */
  const MAX_FAILURES: nat := 10

  /** A segment that deleting from `start` on gets to. */
  ghost predicate Reached(files: map<nat, Bytes>, start: nat, i: nat) {
    start <= i && Missing(files, start, i) < MAX_FAILURES
  }

  /** Deleting gets over nine missing segments, and not over ten. */
  lemma ReachedExactly(files: map<nat, Bytes>, start: nat, i: nat)
    ensures Reached(files, start, i) <==> start <= i && |set j: nat | start <= j < i && j !in files| <= 9
  {
    if start <= i {
      MissingCounts(files, start, i);
    }
  }

  /** Unlinks one segment. */
  method DeleteSegment(store: Storage, segmentIdx: nat) returns (notFound: bool)
    modifies store
    ensures notFound <==> segmentIdx !in old(store.files)
    ensures store.files == old(store.files) - {segmentIdx}
  {
    notFound := segmentIdx !in store.files;
    store.files := store.files - {segmentIdx};
  }

  /** Deletes segments upwards, passing over a few that are missing. */
  method DeleteHigherSegments(store: Storage, start: nat)
    modifies store
    ensures forall i: nat :: i in store.files <==> i in old(store.files) && !Reached(old(store.files), start, i)
    ensures forall i: nat :: i in store.files <==>
      i in old(store.files) && (i < start || |set j: nat | start <= j < i && j !in old(store.files)| >= 10)
    ensures forall i: nat :: i in store.files ==> store.files[i] == old(store.files)[i]
  {
    ghost var files := store.files;
    var segmentNr := start;
    var failures := 0;
    while failures < MAX_FAILURES
      invariant 0 <= failures <= MAX_FAILURES && segmentNr >= start
      invariant Missing(files, start, segmentNr) == failures
      invariant failures > 0 ==> segmentNr > start && segmentNr - 1 !in files
      invariant forall i: nat :: i in store.files <==> i in files && !(start <= i < segmentNr)
      invariant forall i: nat :: i in store.files ==> store.files[i] == files[i]
    {
      var notFound := false;
      while !notFound
        invariant segmentNr >= start
        invariant Missing(files, start, segmentNr) == failures + if notFound then 1 else 0
        invariant notFound ==> segmentNr > start && segmentNr - 1 !in files
        invariant forall i: nat :: i in store.files <==> i in files && !(start <= i < segmentNr)
        invariant forall i: nat :: i in store.files ==> store.files[i] == files[i]
        decreases |store.files|, !notFound
      {
        ghost var before := store.files;
        notFound := DeleteSegment(store, segmentNr);
        if !notFound {
          assert store.files.Keys == before.Keys - {segmentNr};
        }
        segmentNr := segmentNr + 1;
      }
      failures := failures + 1;
    }
    forall i: nat | i in files
      ensures i in store.files <==> !Reached(files, start, i)
      ensures i in store.files <==> i < start || |set j: nat | start <= j < i && j !in files| >= 10
    {
      if start <= i < segmentNr {
        MissingGrows(files, start, i, segmentNr - 1);
      } else if segmentNr <= i {
        MissingGrows(files, start, segmentNr, i);
      }
      ReachedExactly(files, start, i);
    }
  }

  /** A missing segment hides only what lies beyond ten of them. */
  ghost predicate NoneBeyond(files: map<nat, Bytes>) {
    forall i: nat :: i in files && i >= 1 ==> Reached(files, 1, i)
  }

  /**
   Empties the first segment of a group and deletes the others. What is left is an empty group exactly
   if no segment was out of reach.
   */
  method TruncateGroup(store: Storage) returns (first: FileSystemBottom)
    modifies store
    ensures fresh(first) && first.store == store && first.idx == 0 && first.Valid() && first.pos == 0
    ensures store.files == map[0 := []] <==> NoneBeyond(old(store.files))
    ensures forall i: nat :: i in store.files <==>
      i == 0 || (i in old(store.files) && |set j: nat | 1 <= j < i && j !in old(store.files)| >= 10)
    ensures forall i: nat :: i in store.files && i >= 1 ==> store.files[i] == old(store.files)[i]
    ensures 0 in store.files && store.files[0] == []
  {
    ghost var files := store.files;
    first := new FileSystemBottom.Open(store, 0, true, true);
    ghost var after := store.files;
    forall i: nat | i >= 1 ensures Reached(after, 1, i) <==> Reached(files, 1, i) {
      MissingAgrees(after, files, 1, i);
    }
    DeleteHigherSegments(store, 1);
    assert 0 in store.files && store.files[0] == [];
    forall i: nat ensures Reached(files, 1, i) <==> 1 <= i && |set j: nat | 1 <= j < i && j !in files| <= 9 {
      ReachedExactly(files, 1, i);
    }
    if NoneBeyond(files) {
      assert store.files.Keys == {0};
    }
  }

  lemma {:induction false} MissingAgrees(f: map<nat, Bytes>, g: map<nat, Bytes>, start: nat, i: nat)
    requires start <= i && forall j: nat :: j >= start ==> (j in f <==> j in g)
    ensures Missing(f, start, i) == Missing(g, start, i)
    decreases i
  {
    if i > start {
      MissingAgrees(f, g, start, i - 1);
    }
  }

  lemma {:induction false} AllMissing(files: map<nat, Bytes>, start: nat, i: nat)
    requires start <= i && forall j: nat :: start <= j < i ==> j !in files
    ensures Missing(files, start, i) == i - start
    decreases i
  {
    if i > start {
      AllMissing(files, start, i - 1);
    }
  }

  /** A stray segment behind nine missing ones goes, and one behind ten stays, when its group is truncated. */
  method TruncateFails(store: Storage, stray: nat)
    requires stray == 10 || stray == 11
    modifies store
    ensures store.files == if stray == 10 then map[0 := []] else map[0 := [], 11 := []]
  {
    store.files := map[0 := [], stray := []];
    ghost var files := store.files;
    AllMissing(files, 1, stray);
    MissingCounts(files, 1, stray);
    var _ := TruncateGroup(store);
    assert stray in store.files <==> stray == 11;
  }

  /** Opens a group anew, when deleting reaches all of its segments. */
  method OpenTruncated(store: Storage, suggestedSize: nat, blockSize: nat) returns (s: FileSplit)
    requires suggestedSize >= 1 && blockSize >= 1 && NoneBeyond(store.files)
    modifies store
    ensures s.Positioned() && s.Contents() == [] && s.position == 0 && s.store == store
    ensures fresh(s.Repr() - {store})
  {
    var _ := TruncateGroup(store);
    OpensAtStart(store.files, 1, RoundUp(suggestedSize, blockSize));
    s := new FileSplit.Open(store, suggestedSize, blockSize, 1);
  }
}
