/** The flat file of bytes with a position: what every filter presents to the stage above it. */
module FlatFiles {
  import opened Sizes

  /** The file after writing `d` at offset `p`, extending it when the data runs past its end. */
  function Overwrite(s: Bytes, p: nat, d: Bytes): (r: Bytes)
    requires p <= |s|
    ensures |r| == Max(|s|, p + |d|)
  {
    s[..p] + d + s[Min(p + |d|, |s|)..]
  }

  lemma OverwriteAt(s: Bytes, p: nat, d: Bytes, i: nat)
    requires p <= |s|
    requires i < |Overwrite(s, p, d)|
    ensures Overwrite(s, p, d)[i] == if p <= i < p + |d| then d[i - p] else s[i]
  {
  }

  /** Two adjacent writes are one write. */
  lemma OverwriteTwice(s: Bytes, p: nat, a: Bytes, b: Bytes)
    requires p <= |s|
    ensures Overwrite(Overwrite(s, p, a), p + |a|, b) == Overwrite(s, p, a + b)
  {
    var once := Overwrite(s, p, a);
    assert once[..p + |a|] == s[..p] + a;
    var m, n := Min(p + |a| + |b|, |once|), Min(p + |a| + |b|, |s|);
    assert once[m..] == s[n..];
  }

  /** Writing back what is already there changes nothing. */
  lemma OverwriteSame(s: Bytes, p: nat, d: Bytes)
    requires p + |d| <= |s|
    requires s[p..p + |d|] == d
    ensures Overwrite(s, p, d) == s
  {
  }

  lemma OverwriteNothing(s: Bytes, p: nat)
    requires p <= |s|
    ensures Overwrite(s, p, []) == s
  {
  }

  lemma OverwriteRead(s: Bytes, p: nat, d: Bytes)
    requires p <= |s|
    ensures Overwrite(s, p, d)[p..p + |d|] == d
  {
  }

  lemma OverwriteLeft(a: Bytes, b: Bytes, p: nat, d: Bytes)
    requires p + |d| <= |a|
    ensures Overwrite(a + b, p, d) == Overwrite(a, p, d) + b
  {
    assert (a + b)[..p] == a[..p];
    assert (a + b)[p + |d|..] == a[p + |d|..] + b;
  }

  lemma OverwriteRight(a: Bytes, b: Bytes, p: nat, d: Bytes)
    requires p <= |b|
    ensures Overwrite(a + b, |a| + p, d) == a + Overwrite(b, p, d)
  {
    assert (a + b)[..|a| + p] == a + b[..p];
    assert (a + b)[Min(|a| + p + |d|, |a| + |b|)..] == b[Min(p + |d|, |b|)..];
  }

  lemma SliceOfPrefix(s: Bytes, m: nat, a: nat, b: nat)
    requires a <= b <= m <= |s|
    ensures s[..m][a..b] == s[a..b]
  {
  }

  lemma SliceBehind(a: Bytes, b: Bytes, i: nat, j: nat)
    requires i <= j <= |b|
    ensures (a + b)[|a| + i..|a| + j] == b[i..j]
  {
  }

  /** A write behind the first `n` bytes leaves them alone. */
  lemma OverwriteSkips(s: Bytes, n: nat, p: nat, d: Bytes)
    requires n + p <= |s|
    ensures Overwrite(s, n + p, d)[..n] == s[..n] && Overwrite(s, n + p, d)[n..] == Overwrite(s[n..], p, d)
  {
    assert s == s[..n] + s[n..];
    OverwriteRight(s[..n], s[n..], p, d);
  }

  lemma SliceConcat(s: Bytes, a: nat, b: nat, c: nat)
    requires a <= b <= c <= |s|
    ensures s[a..b] + s[b..c] == s[a..c]
  {
  }

  /** A write over the tail of a file that reaches at least as far. */
  lemma OverwriteTail(before: Bytes, tail: Bytes, d: Bytes)
    requires |d| >= |tail|
    ensures Overwrite(before + tail, |before|, d) == before + d
    ensures tail == [] ==> Overwrite(before, |before|, d) == before + d
  {
    assert (before + tail)[..|before|] == before;
  }

  /** A write that is split after its first `n` bytes. */
  lemma OverwriteMore(s: Bytes, p: nat, data: Bytes, n: nat, k: nat)
    requires p <= |s| && n + k <= |data|
    ensures Overwrite(Overwrite(s, p, data[..n]), p + n, data[n..][..k]) == Overwrite(s, p, data[..n + k])
  {
    OverwriteTwice(s, p, data[..n], data[n..][..k]);
    assert data[..n] + data[n..][..k] == data[..n + k];
  }
}
