/** What one stage asks of the next, request by request. */
module Requests {
  import opened Sizes

  /** A read or a write names where it starts and how much it asks for; a write, how long the file was. */
  datatype Io =
    | ReadIo(start: nat, size: nat) | WriteIo(start: nat, size: nat, length: nat) | SeekIo(start: nat) | EndIo
  {
    /** Starts on a block and moves whole blocks, except a write of the last block of the file. */
    predicate Aligned(blockSize: nat)
      requires blockSize >= 1
    {
      match this
      case ReadIo(start, size) => start % blockSize == 0 && size % blockSize == 0
      case WriteIo(start, size, length) =>
        start % blockSize == 0 && (size % blockSize == 0 || (size < blockSize && start + size >= length))
      case SeekIo(start) => start % blockSize == 0
      case EndIo => true
    }

    /** Asks for what is left of a transfer that was cut short. */
    predicate Continues(previous: Io) {
      match this
      case ReadIo(start, size) =>
        previous.ReadIo? && previous.start <= start && start + size == previous.start + previous.size
      case WriteIo(start, size, _) =>
        previous.WriteIo? && previous.start <= start && start + size == previous.start + previous.size
      case _ => false
    }

    predicate Seeks() {
      SeekIo? || EndIo?
    }
  }

  /** A request is aligned, or continues the one before it. */
  predicate Fits(requests: seq<Io>, i: nat, blockSize: nat)
    requires i < |requests| && blockSize >= 1
  {
    requests[i].Aligned(blockSize) || (i > 0 && requests[i].Continues(requests[i - 1]))
  }

  ghost predicate AllAligned(requests: seq<Io>, blockSize: nat) {
    blockSize >= 1 && forall i: nat :: i < |requests| ==> Fits(requests, i, blockSize)
  }

  /** How many of the requests are seeks. */
  function SeekCount(requests: seq<Io>): nat {
    if requests == [] then 0
    else SeekCount(requests[..|requests| - 1]) + if requests[|requests| - 1].Seeks() then 1 else 0
  }

  /**
   What alignment means for a log: seeks go to blocks; a read or a write is what is left of one, itself perhaps, that
   starts on a block and moves whole blocks, or writes the last block of the file.
   */
  lemma {:induction false} LogIsAligned(requests: seq<Io>, blockSize: nat, i: nat) returns (j: nat)
    requires AllAligned(requests, blockSize) && i < |requests|
    ensures j <= i && (requests[i].SeekIo? ==> requests[i].start % blockSize == 0)
    ensures requests[i].ReadIo? || requests[i].WriteIo? ==>
      && requests[j].ReadIo? == requests[i].ReadIo? && requests[j].WriteIo? == requests[i].WriteIo?
      && requests[j].start % blockSize == 0 && requests[j].start <= requests[i].start
      && requests[j].start + requests[j].size == requests[i].start + requests[i].size
      && (requests[j].size % blockSize == 0
          || (requests[j].WriteIo? && requests[j].size < blockSize
              && requests[j].start + requests[j].size >= requests[j].length))
    decreases i
  {
    assert Fits(requests, i, blockSize);
    j := i;
    if !requests[i].Aligned(blockSize) {
      j := LogIsAligned(requests, blockSize, i - 1);
    }
  }

  /** The seeks are those requests that seek to a position or to the end. */
  lemma {:induction false} SeeksCounted(requests: seq<Io>)
    ensures SeekCount(requests) == |set i | 0 <= i < |requests| && (requests[i].SeekIo? || requests[i].EndIo?)|
  {
    var seeks := set i | 0 <= i < |requests| && (requests[i].SeekIo? || requests[i].EndIo?);
    if requests == [] {
      assert seeks == {};
    } else {
      var init := requests[..|requests| - 1];
      SeeksCounted(init);
      var fewer := set i | 0 <= i < |init| && (init[i].SeekIo? || init[i].EndIo?);
      assert seeks == if requests[|init|].Seeks() then fewer + {|init|} else fewer;
    }
  }

  lemma OneMore(requests: seq<Io>, io: Io, blockSize: nat)
    requires AllAligned(requests, blockSize) && io.Aligned(blockSize)
    ensures AllAligned(requests + [io], blockSize)
    ensures SeekCount(requests + [io]) == SeekCount(requests) + if io.Seeks() then 1 else 0
  {
    var more := requests + [io];
    assert more[..|requests|] == requests;
    forall i: nat | i < |more| ensures Fits(more, i, blockSize) {
      if i < |requests| {
        assert Fits(requests, i, blockSize);
      }
    }
  }

  /** From `before` to `after` there is one transfer: a first request, and others that continue it. */
  ghost predicate Transfer(before: seq<Io>, after: seq<Io>, first: Io) {
    && |before| < |after| && after[..|before|] == before && after[|before|] == first
    && forall i :: |before| < i < |after| ==> after[i].Continues(after[i - 1])
  }

  /** A transfer of whole blocks keeps all requests aligned, and does not seek. */
  lemma {:induction false} TransferKeeps(before: seq<Io>, after: seq<Io>, first: Io, blockSize: nat)
    requires AllAligned(before, blockSize) && first.Aligned(blockSize) && !first.Seeks()
    requires Transfer(before, after, first)
    ensures AllAligned(after, blockSize) && SeekCount(after) == SeekCount(before)
    decreases |after|
  {
    var init := after[..|after| - 1];
    if |after| == |before| + 1 {
      OneMore(before, first, blockSize);
      assert after == before + [first];
    } else {
      assert init[..|before|] == before;
      TransferKeeps(before, init, first, blockSize);
      forall i: nat | i < |after| ensures Fits(after, i, blockSize) {
        if i < |init| {
          assert Fits(init, i, blockSize);
        }
      }
    }
  }

  /** Where a transfer is: not started, or with this much left to ask for at this position. */
  ghost predicate Asking(before: seq<Io>, now: seq<Io>, first: Io, position: nat, rest: nat, started: bool) {
    && (first.ReadIo? || first.WriteIo?)
    && position + rest == first.start + first.size
    && if !started then now == before && position == first.start else
         && Transfer(before, now, first)
         && var last := now[|now| - 1];
         && (if first.ReadIo? then last.ReadIo? else last.WriteIo?)
         && last.start + last.size == first.start + first.size && last.start <= position
  }

  lemma AskFirst(before: seq<Io>, first: Io)
    requires first.ReadIo? || first.WriteIo?
    ensures Asking(before, before, first, first.start, first.size, false)
  {
  }

  lemma AskedAll(before: seq<Io>, now: seq<Io>, first: Io, position: nat, rest: nat, started: bool)
    requires Asking(before, now, first, position, rest, started)
    ensures if started then Transfer(before, now, first) else now == before
  {
  }

  /** The next request of a transfer asks for all that is left. */
  lemma AskMore(before: seq<Io>, now: seq<Io>, first: Io, io: Io, started: bool)
    requires io.ReadIo? || io.WriteIo?
    requires Asking(before, now, first, io.start, io.size, started)
    requires first.ReadIo? == io.ReadIo? && (io.WriteIo? && !started ==> io.length == first.length)
    ensures Transfer(before, now + [io], first)
    ensures Asking(before, now + [io], first, io.start, io.size, true)
  {
    var more := now + [io];
    assert started ==> io.Continues(now[|now| - 1]);
    assert more[|more| - 1] == io;
  }

  lemma AskedSome(before: seq<Io>, now: seq<Io>, first: Io, position: nat, rest: nat, n: nat)
    requires n <= rest && Asking(before, now, first, position, rest, true)
    ensures Asking(before, now, first, position + n, rest - n, true)
  {
  }

  lemma SeekMore(before: seq<Io>, start: nat, blockSize: nat)
    requires AllAligned(before, blockSize) && start % blockSize == 0
    ensures AllAligned(before + [SeekIo(start)], blockSize)
    ensures SeekCount(before + [SeekIo(start)]) == SeekCount(before) + 1
  {
    OneMore(before, SeekIo(start), blockSize);
  }
}
