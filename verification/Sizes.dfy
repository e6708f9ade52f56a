/** Bytes, and the size arithmetic shared by every filter. */
module Sizes {

  type Byte = x: int | 0 <= x < 256 witness 0

  type Bytes = seq<Byte>

  type Positive = x: int | x >= 1 witness 1

  /** Sizes and file positions have 64 bits. */
  const TWO_TO_THE_64: nat := 0x1_0000_0000_0000_0000

  function Min(a: int, b: int): int {
    if a < b then a else b
  }

  function Max(a: int, b: int): int {
    if a > b then a else b
  }

  function RoundDown(size: nat, factor: nat): (r: nat)
    requires factor > 0
    ensures r <= size < r + factor
    ensures r % factor == 0
  {
    RoundDownIsMultiple(size, factor);
    size - size % factor
  }

  function RoundUp(size: nat, factor: nat): (r: nat)
    requires factor > 0
    ensures size <= r < size + factor
    ensures r % factor == 0
  {
    RoundDown(size + factor - 1, factor)
  }

  predicate Multiple(a: nat, b: nat) {
    b > 0 && a % b == 0
  }

  lemma RoundDownIsMultiple(size: nat, factor: nat)
    requires factor > 0
    ensures (size - size % factor) % factor == 0
  {
    var q := size / factor;
    assert size - size % factor == q * factor;
    MultipleMod(q, factor);
  }

  lemma RoundDownWhole(size: nat, factor: nat)
    requires factor > 0 && size % factor == 0
    ensures RoundDown(size, factor) == size
  {
  }

  lemma MultipleMod(q: nat, factor: nat)
    requires factor > 0
    ensures (q * factor) % factor == 0
    ensures (q * factor) / factor == q
  {
    DivModUnique(q, factor, 0);
  }

  /** The quotient and the remainder of a number written as `q * factor + r`. */
  lemma DivModUnique(q: nat, factor: nat, r: nat)
    requires r < factor
    ensures (q * factor + r) / factor == q
    ensures (q * factor + r) % factor == r
  {
    var n := q * factor + r;
    var q' := n / factor;
    if q < q' {
      MulGap(q, q', factor);
    } else if q' < q {
      MulGap(q', q, factor);
    }
  }

  lemma MulGap(a: nat, b: nat, factor: nat)
    requires a < b
    ensures a * factor + factor <= b * factor
  {
    var more := b - a - 1;
    assert b == a + 1 + more;
    assert (a + 1 + more) * factor == a * factor + factor + more * factor;
  }

  /** Multiples of a factor are closed under addition and subtraction. */
  lemma AddMultiple(a: nat, b: nat, factor: nat)
    requires factor > 0
    requires b % factor == 0
    ensures (a + b) % factor == a % factor
  {
    var qa, qb := a / factor, b / factor;
    assert a + b == (qa + qb) * factor + a % factor;
    DivModUnique(qa + qb, factor, a % factor);
  }

  lemma SubMultiple(a: nat, b: nat, factor: nat)
    requires factor > 0
    requires a % factor == 0 && b % factor == 0 && b <= a
    ensures (a - b) % factor == 0
  {
    AddMultiple(a - b, b, factor);
  }

  /** A multiple of a multiple of the factor is a multiple of the factor. */
  lemma MultipleTransitive(a: nat, b: nat, factor: nat)
    requires factor > 0 && b > 0
    requires a % b == 0 && b % factor == 0
    ensures a % factor == 0
  {
    var qa, qb := a / b, b / factor;
    assert a == qa * b && b == qb * factor;
    assert a == (qa * qb) * factor;
    MultipleMod(qa * qb, factor);
  }

  /** No multiple of a factor lies strictly between two consecutive multiples. */
  lemma NextMultiple(a: nat, b: nat, factor: nat)
    requires factor > 0
    requires a % factor == 0 && b % factor == 0
    requires a < b
    ensures a + factor <= b
  {
    var qa, qb := a / factor, b / factor;
    assert a == qa * factor && b == qb * factor;
    if qa < qb {
      MulGap(qa, qb, factor);
    } else if qb < qa {
      MulGap(qb, qa, factor);
    }
  }

  /** `i` times `size`, by repeated addition. */
  function Times(i: nat, size: nat): nat {
    if i == 0 then 0 else Times(i - 1, size) + size
  }

  lemma {:induction false} TimesIsProduct(i: nat, size: nat)
    ensures Times(i, size) == i * size
  {
    if i > 0 {
      TimesIsProduct(i - 1, size);
      assert i * size == (i - 1) * size + size;
    }
  }

  /** The quotient and remainder, by repeated addition. */
  lemma Divide(n: nat, size: nat)
    requires size > 0
    ensures Times(n / size, size) + n % size == n
  {
    TimesIsProduct(n / size, size);
  }

  lemma TimesDivides(i: nat, size: nat, r: nat)
    requires r < size
    ensures (Times(i, size) + r) / size == i && (Times(i, size) + r) % size == r
  {
    TimesIsProduct(i, size);
    DivModUnique(i, size, r);
  }

  /** Moving forward inside a block, or exactly to the end of it. */
  lemma StepInBlock(position: nat, size: nat, n: nat)
    requires size > 0 && position % size + n <= size
    ensures position % size + n < size ==>
      (position + n) / size == position / size && (position + n) % size == position % size + n
    ensures position % size + n == size ==>
      (position + n) / size == position / size + 1 && (position + n) % size == 0
  {
    var q, r := position / size, position % size;
    assert position == q * size + r;
    if r + n < size {
      DivModUnique(q, size, r + n);
    } else {
      assert position + n == (q + 1) * size;
      MultipleMod(q + 1, size);
    }
  }

  /** Two numbers round down to the same multiple exactly when their quotients agree. */
  lemma SameBlock(a: nat, b: nat, size: nat)
    requires size > 0
    ensures RoundDown(a, size) == RoundDown(b, size) <==> a / size == b / size
  {
    assert a - a % size == (a / size) * size;
    assert b - b % size == (b / size) * size;
    if a / size < b / size {
      MulGap(a / size, b / size, size);
    } else if b / size < a / size {
      MulGap(b / size, a / size, size);
    }
  }

  lemma SmallRemainder(n: nat, factor: nat)
    requires factor > 0
    ensures 0 < n < factor ==> n % factor == n
  {
    if n < factor {
      DivModUnique(0, factor, n);
    }
  }

  /** The remainder is what rounding down leaves. */
  lemma Remainder(n: nat, factor: nat)
    requires factor > 0
    ensures 0 <= n % factor < factor && n % factor <= n
    ensures n - n % factor == RoundDown(n, factor)
  {
  }
}
