// Powers of two and aligned intervals, used wherever the kernel relies on
// blocks that are aligned on their own power-of-two size.
module Powers {

  function Pow2(n: nat): (p: nat)
    ensures p > 0
  {
    if n == 0 then 1 else 2 * Pow2(n - 1)
  }

  lemma {:induction false} Pow2Monotone(i: nat, j: nat)
    requires i <= j
    ensures Pow2(i) <= Pow2(j)
    ensures i < j ==> 2 * Pow2(i) <= Pow2(j)
  {
    if i < j {
      Pow2Monotone(i, j - 1);
    }
  }

  lemma {:induction false} Pow2Product(i: nat, j: nat)
    requires i <= j
    ensures Pow2(j) == Pow2(j - i) * Pow2(i)
  {
    if i < j {
      Pow2Product(i, j - 1);
      DoubleProduct(Pow2(j - 1 - i), Pow2(i));
    }
  }

  lemma DoubleProduct(a: int, b: int)
    ensures 2 * (a * b) == (2 * a) * b
  {
  }

  lemma Pow2Order(i: nat, j: nat)
    requires Pow2(i) <= Pow2(j)
    ensures i <= j
  {
    if j < i {
      Pow2Monotone(j, i);
    }
  }

  /** `a` is a multiple of 2^i. */
  predicate Aligned(a: int, i: nat) {
    a % Pow2(i) == 0
  }

  lemma MultipleBound(d: int, m: int)
    requires m > 0
    ensures d >= 1 ==> d * m >= m
    ensures d <= -1 ==> d * m <= -m
  {
    assert d >= 1 ==> (d - 1) * m >= 0;
    assert d <= -1 ==> (-1 - d) * m >= 0;
  }

  lemma DivisionIs(k: int, m: int, r: int)
    requires 0 <= r < m
    ensures (k * m + r) / m == k && (k * m + r) % m == r
  {
    var a := k * m + r;
    assert (k - a / m) * m == a % m - r by { assert a == a / m * m + a % m; }
    MultipleBound(k - a / m, m);
  }

  lemma ExactMultiple(k: int, m: int)
    requires m > 0
    ensures (k * m) % m == 0 && (k * m) / m == k
  {
    DivisionIs(k, m, 0);
  }

  lemma SmallRemainder(a: nat, m: nat)
    requires a < m
    ensures a % m == a && a / m == 0
  {
    DivisionIs(0, m, a);
  }

  lemma MultipleIsAligned(k: int, i: nat)
    ensures Aligned(k * Pow2(i), i)
  {
    ExactMultiple(k, Pow2(i));
  }

  lemma MultipleQuotient(k: int, i: nat)
    ensures (k * Pow2(i)) / Pow2(i) == k
  {
    ExactMultiple(k, Pow2(i));
  }

  lemma AlignedQuotient(a: int, i: nat) returns (k: int)
    requires Aligned(a, i)
    ensures a == k * Pow2(i)
    ensures k == a / Pow2(i)
  {
    k := a / Pow2(i);
  }

  lemma SumTimes(k: int, l: int, m: int)
    ensures (k + l) * m == k * m + l * m && (k - l) * m == k * m - l * m
  {
  }

  lemma AlignedSum(a: int, b: int, i: nat)
    requires Aligned(a, i) && Aligned(b, i)
    ensures Aligned(a + b, i) && Aligned(a - b, i)
  {
    hide Aligned, Pow2;
    var k := AlignedQuotient(a, i);
    var l := AlignedQuotient(b, i);
    SumTimes(k, l, Pow2(i));
    MultipleIsAligned(k + l, i);
    MultipleIsAligned(k - l, i);
  }

  lemma AlignedDown(a: int, i: nat, j: nat)
    requires i <= j && Aligned(a, j)
    ensures Aligned(a, i)
  {
    var k := AlignedQuotient(a, j);
    Pow2Product(i, j);
    assert a == (k * Pow2(j - i)) * Pow2(i);
    MultipleIsAligned(k * Pow2(j - i), i);
  }

  lemma PowerIsAligned(i: nat, j: nat)
    requires i <= j
    ensures Aligned(Pow2(j), i)
  {
    MultipleIsAligned(1, j);
    AlignedDown(Pow2(j), i, j);
  }

  /** Two multiples of 2^i are either equal or at least 2^i apart. */
  lemma AlignedGap(a: int, b: int, i: nat)
    requires Aligned(a, i) && Aligned(b, i) && a < b
    ensures a + Pow2(i) <= b
  {
    var k := AlignedQuotient(a, i);
    var l := AlignedQuotient(b, i);
    var m := Pow2(i);
    assert (l - k) * m == b - a;
    MultipleBound(l - k, m);
  }

  /** An aligned block that meets a larger aligned block lies inside it. */
  lemma AlignedNesting(a: int, i: nat, b: int, j: nat)
    requires i <= j && Aligned(a, i) && Aligned(b, j)
    requires a < b + Pow2(j) && b < a + Pow2(i)
    ensures b <= a && a + Pow2(i) <= b + Pow2(j)
  {
    AlignedDown(b, i, j);
    PowerIsAligned(i, j);
    AlignedSum(b, Pow2(j), i);
    if a < b {
      AlignedGap(a, b, i);
    }
    AlignedGap(a, b + Pow2(j), i);
  }
}
