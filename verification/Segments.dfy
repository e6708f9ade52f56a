/** A group of segment files that stands for their concatenation. */
module Segments {
  import opened Sizes
  import opened FlatFiles

  /** The first `n` segments, appended together. */
  function Flatten(files: map<nat, Bytes>, n: nat): Bytes
    requires forall i: nat :: i < n ==> i in files
  {
    if n == 0 then [] else Flatten(files, n - 1) + files[n - 1]
  }

  /** Exactly the segments below `n` exist; all are full except the last, which never is. */
  ghost predicate Group(files: map<nat, Bytes>, n: nat, segmentSize: nat) {
    && n >= 1 && segmentSize >= 1
    && (forall i: nat :: i in files <==> i < n)
    && (forall i: nat :: i + 1 < n ==> |files[i]| == segmentSize)
    && |files[n - 1]| < segmentSize
  }

  lemma {:induction false} FlattenAgrees(f: map<nat, Bytes>, g: map<nat, Bytes>, n: nat)
    requires forall i: nat :: i < n ==> i in f && i in g && f[i] == g[i]
    ensures Flatten(f, n) == Flatten(g, n)
  {
    if n > 0 {
      FlattenAgrees(f, g, n - 1);
    }
  }

  lemma {:induction false} FlattenLength(files: map<nat, Bytes>, n: nat, segmentSize: nat)
    requires forall i: nat :: i < n ==> i in files && |files[i]| == segmentSize
    ensures |Flatten(files, n)| == n * segmentSize
  {
    if n > 0 {
      FlattenLength(files, n - 1, segmentSize);
      assert n * segmentSize == (n - 1) * segmentSize + segmentSize;
    }
  }

  /** The group's length counts the full segments and the last one. */
  lemma GroupLength(files: map<nat, Bytes>, n: nat, segmentSize: nat)
    requires Group(files, n, segmentSize)
    ensures |Flatten(files, n)| == (n - 1) * segmentSize + |files[n - 1]|
  {
    FlattenLength(files, n - 1, segmentSize);
  }

  /** Where a position of the concatenation falls: which segment, and where in it. */
  lemma Locate(files: map<nat, Bytes>, n: nat, segmentSize: nat, position: nat)
    requires Group(files, n, segmentSize)
    requires position <= |Flatten(files, n)|
    ensures
      var idx, offset := position / segmentSize, position % segmentSize;
      && idx < n && position == |Flatten(files, idx)| + offset
      && offset <= |files[idx]|
      && (position == |Flatten(files, n)| <==> idx == n - 1 && offset == |files[idx]|)
      && (offset == |files[idx]| ==> idx == n - 1)
  {
    var idx, offset := position / segmentSize, position % segmentSize;
    assert position == idx * segmentSize + offset;
    GroupLength(files, n, segmentSize);
    if idx > n - 1 {
      MulGap(n - 1, idx, segmentSize);
    } else if idx < n - 1 {
      MulGap(idx, n - 1, segmentSize);
    }
    FlattenLength(files, idx, segmentSize);
  }

  /** Reading inside one segment reads the concatenation. */
  lemma {:induction false} FlattenSlice(files: map<nat, Bytes>, n: nat, idx: nat, a: nat, b: nat)
    requires forall i: nat :: i < n ==> i in files
    requires idx < n && a <= b <= |files[idx]|
    ensures |Flatten(files, idx)| + |files[idx]| <= |Flatten(files, n)|
    ensures Flatten(files, n)[|Flatten(files, idx)| + a..|Flatten(files, idx)| + b] == files[idx][a..b]
  {
    var before := Flatten(files, n - 1);
    var start := |Flatten(files, idx)|;
    if idx == n - 1 {
      assert (before + files[idx])[start + a..start + b] == files[idx][a..b];
    } else {
      FlattenSlice(files, n - 1, idx, a, b);
      assert (before + files[n - 1])[start + a..start + b] == before[start + a..start + b];
    }
  }

  /** Writing inside one segment writes the concatenation. */
  lemma {:induction false} FlattenWrite(files: map<nat, Bytes>, n: nat, idx: nat, offset: nat, d: Bytes)
    requires forall i: nat :: i < n ==> i in files
    requires idx < n && offset <= |files[idx]|
    requires idx < n - 1 ==> offset + |d| <= |files[idx]|
    ensures |Flatten(files, idx)| + |files[idx]| <= |Flatten(files, n)|
    ensures Flatten(files[idx := Overwrite(files[idx], offset, d)], n)
         == Overwrite(Flatten(files, n), |Flatten(files, idx)| + offset, d)
  {
    var g := files[idx := Overwrite(files[idx], offset, d)];
    var before := Flatten(files, n - 1);
    var p := |Flatten(files, idx)| + offset;
    if idx == n - 1 {
      FlattenAgrees(files, g, n - 1);
      OverwriteRight(before, files[idx], offset, d);
    } else {
      FlattenWrite(files, n - 1, idx, offset, d);
      assert Flatten(g, n) == Overwrite(before, p, d) + files[n - 1];
      OverwriteLeft(before, files[n - 1], p, d);
    }
  }

  /** A new empty segment at the end adds nothing to the concatenation. */
  lemma FlattenExtend(files: map<nat, Bytes>, n: nat)
    requires forall i: nat :: i < n ==> i in files
    ensures Flatten(files[n := []], n + 1) == Flatten(files, n)
  {
    FlattenAgrees(files, files[n := []], n);
  }

  /** The handle on segment `idx` at offset `pos` stands at `position` of the concatenation. */
  ghost predicate StandsAt(files: map<nat, Bytes>, n: nat, segmentSize: nat, position: nat, idx: nat, pos: nat) {
    && Group(files, n, segmentSize)
    && position <= |Flatten(files, n)|
    && idx == position / segmentSize && pos == position % segmentSize
  }

  lemma StandsInside(files: map<nat, Bytes>, n: nat, segmentSize: nat, position: nat, idx: nat, pos: nat)
    requires StandsAt(files, n, segmentSize, position, idx, pos)
    ensures idx in files && idx < n && pos <= |files[idx]| && pos < segmentSize
    ensures |files[idx]| <= segmentSize
  {
    Locate(files, n, segmentSize, position);
  }

  /** Reading `k` bytes from the open segment, then opening the next one if this one is used up. */
  lemma ReadStep(files: map<nat, Bytes>, n: nat, segmentSize: nat, position: nat, idx: nat, pos: nat, size: nat, k: nat)
    requires StandsAt(files, n, segmentSize, position, idx, pos)
    requires size > 0 && idx < n && pos <= |files[idx]|
    requires k == Min(pos + Min(segmentSize - pos, size), |files[idx]|) - pos
    ensures position + k <= |Flatten(files, n)|
    ensures files[idx][pos..pos + k] == Flatten(files, n)[position..position + k]
    ensures k == 0 <==> position == |Flatten(files, n)|
    ensures pos + k == segmentSize ==>
      idx + 1 < n && StandsAt(files, n, segmentSize, position + k, idx + 1, 0)
    ensures pos + k < segmentSize ==> StandsAt(files, n, segmentSize, position + k, idx, pos + k)
  {
    Locate(files, n, segmentSize, position);
    FlattenSlice(files, n, idx, pos, pos + k);
    StepInBlock(position, segmentSize, k);
  }

  /**
   The group after `d` is written into segment `idx` where its handle stands, with a new segment if that is
   taken to fill the segment: it is, if it starts at `offset`.
   */
  function Written(files: map<nat, Bytes>, segmentSize: nat, idx: nat, offset: nat, pos: nat, d: Bytes): map<nat, Bytes>
    requires idx in files && pos <= |files[idx]|
  {
    var g := files[idx := Overwrite(files[idx], pos, d)];
    if offset + |d| == segmentSize && idx + 1 !in g then g[idx + 1 := []] else g
  }

  lemma WriteStep(files: map<nat, Bytes>, n: nat, segmentSize: nat, position: nat, idx: nat, pos: nat, d: Bytes)
    requires StandsAt(files, n, segmentSize, position, idx, pos)
    requires idx < n && pos <= |files[idx]| && pos + |d| <= segmentSize
    ensures
      var g := Written(files, segmentSize, idx, pos, pos, d);
      var m := if pos + |d| == segmentSize && idx + 1 == n then n + 1 else n;
      && Group(g, m, segmentSize)
      && Flatten(g, m) == Overwrite(Flatten(files, n), position, d)
      && (pos + |d| == segmentSize ==> idx + 1 < m && StandsAt(g, m, segmentSize, position + |d|, idx + 1, 0))
      && (pos + |d| < segmentSize ==> StandsAt(g, m, segmentSize, position + |d|, idx, pos + |d|))
  {
    Locate(files, n, segmentSize, position);
    FlattenWrite(files, n, idx, pos, d);
    StepInBlock(position, segmentSize, |d|);
    if pos + |d| == segmentSize && idx + 1 == n {
      FlattenExtend(files[idx := Overwrite(files[idx], pos, d)], n);
    }
  }

  /** A new group, or an existing one, opened at its first segment. */
  lemma OpensAtStart(files: map<nat, Bytes>, n: nat, segmentSize: nat)
    requires segmentSize >= 1
    ensures StandsAt(map[0 := []], 1, segmentSize, 0, 0, 0) && Flatten(map[0 := []], 1) == []
    ensures Group(files, n, segmentSize) ==> StandsAt(files, n, segmentSize, 0, 0, 0) && 0 in files
  {
    DivModUnique(0, segmentSize, 0);
    var one: map<nat, Bytes> := map[0 := []];
    assert Flatten(one, 1) == Flatten(one, 0) + one[0];
  }
}
