/** Linking filters into a pipeline, each with a cached pointer to the next handler of every event. */
module Filters {
  datatype Event = Open | Read | Write | Close | Sync | Abort | BlockSize | Seek | Delete

  /** A filter handles the events in its interface and passes on the others. */
  class Filter {
    const next: Filter?
    const iface: set<Event>
    const nextOpen: Filter?
    const nextRead: Filter?
    const nextWrite: Filter?
    const nextClose: Filter?
    const nextSync: Filter?
    const nextAbort: Filter?
    const nextBlockSize: Filter?
    const nextSeek: Filter?
    const nextDelete: Filter?
    /** The filters after this one. */
    ghost const chain: seq<Filter>

    /** The cached pointer for an event. */
    function Cached(e: Event): Filter? {
      match e
      case Open => nextOpen
      case Read => nextRead
      case Write => nextWrite
      case Close => nextClose
      case Sync => nextSync
      case Abort => nextAbort
      case BlockSize => nextBlockSize
      case Seek => nextSeek
      case Delete => nextDelete
    }

    /** The links make up the chain, and every cached pointer in it is what a scan would find. */
    ghost predicate Valid()
      decreases |chain|
    {
      && nextOpen == Scan(chain, Open)
      && nextRead == Scan(chain, Read)
      && nextWrite == Scan(chain, Write)
      && nextClose == Scan(chain, Close)
      && nextSync == Scan(chain, Sync)
      && nextAbort == Scan(chain, Abort)
      && nextBlockSize == Scan(chain, BlockSize)
      && nextSeek == Scan(chain, Seek)
      && nextDelete == Scan(chain, Delete)
      && (chain == [] ==> next == null)
      && (chain != [] ==> next == chain[0] && chain[0].chain == chain[1..] && chain[0].Valid())
    }

    /** The last filter of a pipeline. */
    constructor Sink(iface: set<Event>)
      ensures Valid() && chain == [] && this.iface == iface
    {
      next, this.iface, chain := null, iface, [];
      nextOpen, nextRead, nextWrite, nextClose, nextSync := null, null, null, null, null;
      nextAbort, nextBlockSize, nextSeek, nextDelete := null, null, null, null;
    }

    /** Links a filter to its successor. Each pointer is taken from the successor or from its cache. */
    constructor Init(iface: set<Event>, next: Filter)
      requires next.Valid() && BlockSize in iface
      ensures Valid() && this.iface == iface && this.next == next && chain == [next] + next.chain
      ensures nextOpen == Scan(chain, Open) && nextRead == Scan(chain, Read) && nextWrite == Scan(chain, Write)
      ensures nextClose == Scan(chain, Close) && nextSync == Scan(chain, Sync) && nextAbort == Scan(chain, Abort)
      ensures nextBlockSize == Scan(chain, BlockSize) && nextSeek == Scan(chain, Seek)
      ensures nextDelete == Scan(chain, Delete)
    {
      this.next, this.iface := next, iface;
      nextOpen := next.GetNext(Open);
      nextRead := next.GetNext(Read);
      nextWrite := next.GetNext(Write);
      nextClose := next.GetNext(Close);
      nextSync := next.GetNext(Sync);
      nextAbort := next.GetNext(Abort);
      nextBlockSize := next.GetNext(BlockSize);
      nextSeek := next.GetNext(Seek);
      nextDelete := next.GetNext(Delete);
      chain := [next] + next.chain;
      new;
      assert chain[1..] == next.chain;
    }

    /** What the predecessor of this filter caches for an event. */
    function GetNext(e: Event): (r: Filter?)
      requires Valid()
      ensures r == Scan([this] + chain, e)
    {
      assert ([this] + chain)[1..] == chain;
      if e !in iface then Cached(e) else this
    }
  }

  /** The first filter of a chain that handles an event, found by looking at each in turn. */
  ghost function Scan(chain: seq<Filter>, e: Event): Filter? {
    if chain == [] then null else if e in chain[0].iface then chain[0] else Scan(chain[1..], e)
  }

  /** A scan finds the first handler, or nothing exactly if there is none. */
  lemma {:induction false} ScanIsFirst(chain: seq<Filter>, e: Event)
    ensures Scan(chain, e) == null <==> forall i :: 0 <= i < |chain| ==> e !in chain[i].iface
    ensures Scan(chain, e) != null ==>
      exists i :: 0 <= i < |chain| && Scan(chain, e) == chain[i] && e in chain[i].iface
                  && forall j :: 0 <= j < i ==> e !in chain[j].iface
  {
    if chain == [] {
    } else if e in chain[0].iface {
      assert Scan(chain, e) == chain[0];
    } else {
      ScanIsFirst(chain[1..], e);
      if Scan(chain[1..], e) != null {
        var i :| 0 <= i < |chain[1..]| && Scan(chain[1..], e) == chain[1..][i] && e in chain[1..][i].iface
                 && forall j :: 0 <= j < i ==> e !in chain[1..][j].iface;
        assert Scan(chain, e) == chain[i + 1];
        forall j | 0 <= j < i + 1 ensures e !in chain[j].iface {
          if j > 0 {
            assert chain[j] == chain[1..][j - 1];
          }
        }
      } else {
        forall i | 0 <= i < |chain| ensures e !in chain[i].iface {
          if i > 0 {
            assert chain[i] == chain[1..][i - 1];
          }
        }
      }
    }
  }

  /** Behind every filter of a linked chain are the filters after it. */
  ghost predicate Linked(chain: seq<Filter>) {
    forall i :: 0 <= i < |chain| ==> chain[i].Valid() && chain[i].chain == chain[i + 1..]
  }

  lemma {:induction false} ChainIsLinked(top: Filter)
    requires top.Valid()
    ensures Linked([top] + top.chain)
    decreases |top.chain|
  {
    var all := [top] + top.chain;
    if top.chain != [] {
      var rest := [top.chain[0]] + top.chain[0].chain;
      ChainIsLinked(top.chain[0]);
      assert rest == top.chain;
      forall i | 0 < i < |all| ensures all[i].Valid() && all[i].chain == all[i + 1..] {
        assert all[i] == rest[i - 1] && all[i + 1..] == rest[i..];
      }
    }
    assert all[1..] == top.chain;
  }

  /** In a pipeline built from the bottom up, every cached pointer of every filter is the first later handler. */
  method Build(sink: set<Event>, ifaces: seq<set<Event>>) returns (top: Filter)
    requires forall i :: 0 <= i < |ifaces| ==> BlockSize in ifaces[i]
    ensures top.Valid() && |top.chain| == |ifaces|
    ensures top.iface == if ifaces == [] then sink else ifaces[|ifaces| - 1]
    ensures forall i :: 0 <= i < |top.chain| ==>
      top.chain[i].iface == if i == |ifaces| - 1 then sink else ifaces[|ifaces| - 2 - i]
    ensures
      var all := [top] + top.chain;
      forall i {:trigger all[i]} :: 0 <= i < |all| ==>
        && all[i].nextOpen == Scan(all[i + 1..], Open)
        && all[i].nextRead == Scan(all[i + 1..], Read)
        && all[i].nextWrite == Scan(all[i + 1..], Write)
        && all[i].nextClose == Scan(all[i + 1..], Close)
        && all[i].nextSync == Scan(all[i + 1..], Sync)
        && all[i].nextAbort == Scan(all[i + 1..], Abort)
        && all[i].nextBlockSize == Scan(all[i + 1..], BlockSize)
        && all[i].nextSeek == Scan(all[i + 1..], Seek)
        && all[i].nextDelete == Scan(all[i + 1..], Delete)
  {
    top := new Filter.Sink(sink);
    for n := 0 to |ifaces|
      invariant top.Valid() && |top.chain| == n
      invariant top.iface == if n == 0 then sink else ifaces[n - 1]
      invariant forall i :: 0 <= i < n ==> top.chain[i].iface == if i == n - 1 then sink else ifaces[n - 2 - i]
    {
      top := new Filter.Init(ifaces[n], top);
    }
    ChainIsLinked(top);
  }
}
