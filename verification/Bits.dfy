/** Unsigned words as natural numbers: powers of two, shifts and the two
    bitwise operators the ring buffer uses, defined bit by bit. */
module Bits {

  /** The number of values of a 64-bit `size_t`. */
  const SIZE_MOD: nat := 0x1_0000_0000_0000_0000

  function Pow2(k: nat): (p: nat)
    ensures p >= 1
  {
    if k == 0 then 1 else 2 * Pow2(k - 1)
  }

  function Shr(v: nat, i: nat): nat {
    if i == 0 then v else Shr(v / 2, i - 1)
  }

  function Or(a: nat, b: nat): nat {
    if a == 0 && b == 0 then 0
    else 2 * Or(a / 2, b / 2) + (if a % 2 == 1 || b % 2 == 1 then 1 else 0)
  }

  function And(a: nat, b: nat): nat {
    if a == 0 || b == 0 then 0
    else 2 * And(a / 2, b / 2) + (if a % 2 == 1 && b % 2 == 1 then 1 else 0)
  }

  lemma MulAtLeast(d: int, k: int)
    requires d > 0 && k >= 1
    ensures d * k >= d
  {
  }

  lemma DivUnique(a: int, d: int, q: int, r: int)
    requires d > 0 && a == d * q + r && 0 <= r < d
    ensures a / d == q && a % d == r
  {
    var x, y := a / d, a % d;
    assert a == d * x + y;
    assert d * (x - q) == d * x - d * q == r - y;
    if x > q {
      MulAtLeast(d, x - q);
    } else if x < q {
      MulAtLeast(d, q - x);
    }
  }

  lemma ModDouble(v: nat, p: nat)
    requires p > 0
    ensures v / (2 * p) == v / 2 / p && v % (2 * p) == 2 * (v / 2 % p) + v % 2
  {
    var h := v / 2;
    var q, r := h / p, h % p;
    assert h == p * q + r;
    assert 2 * p * q == 2 * (p * q);
    DivUnique(v, 2 * p, q, 2 * r + v % 2);
  }

  /** Masking with 2^k - 1 is reduction modulo 2^k. */
  lemma {:induction false} AndMask(v: nat, k: nat)
    ensures And(v, Pow2(k) - 1) == v % Pow2(k)
  {
    if k > 0 {
      var p: nat := Pow2(k - 1);
      AndMask(v / 2, k - 1);
      ModDouble(v, p);
      assert (2 * p - 1) / 2 == p - 1;
    }
  }

  lemma {:induction false} Pow2Monotonic(i: nat, j: nat)
    requires i <= j
    ensures Pow2(i) <= Pow2(j)
  {
    if i < j {
      Pow2Monotonic(i, j - 1);
    }
  }

  lemma Pow2At63()
    ensures Pow2(63) == SIZE_MOD / 2 && Pow2(64) == SIZE_MOD
  {
    assert Pow2(12) == 4096;
    assert Pow2(24) == 4096 * Pow2(12);
    assert Pow2(36) == 4096 * Pow2(24);
    assert Pow2(48) == 4096 * Pow2(36);
    assert Pow2(63) == 32768 * Pow2(48);
  }

  /** A mask of k ones leaves a k-bit word alone and clears 2^k itself. */
  lemma {:induction false} AndWraps(v: nat, k: nat)
    requires v <= Pow2(k)
    ensures And(v, Pow2(k) - 1) == if v == Pow2(k) then 0 else v
  {
    if k > 0 {
      AndWraps(v / 2, k - 1);
      assert (Pow2(k) - 1) / 2 == Pow2(k - 1) - 1;
    }
  }

  lemma {:induction false} OrZero(v: nat)
    ensures Or(v, 0) == v
  {
    if v > 0 {
      OrZero(v / 2);
    }
  }

  /** Or-ing ones into all zero positions of a word whose upper bits are ones. */
  lemma {:induction false} OrFill(v: nat, n: nat, t: nat)
    requires t <= n && Pow2(n) - Pow2(t) <= v < Pow2(n)
    ensures Or(v, Pow2(t) - 1) == Pow2(n) - 1
  {
    if t == 0 {
      OrZero(v);
    } else {
      var w := Pow2(t) - 1;
      assert w / 2 == Pow2(t - 1) - 1;
      OrFill(v / 2, n - 1, t - 1);
    }
  }

  lemma {:induction false} ShrHalf(v: nat, j: nat)
    ensures Shr(v, j) / 2 == Shr(v / 2, j)
  {
    if j > 0 {
      ShrHalf(v / 2, j - 1);
    }
  }

  /** Shifting j places a word of t + j bits whose top t bits are ones. */
  lemma {:induction false} ShrOnes(v: nat, t: nat, j: nat)
    requires Pow2(t + j) - Pow2(j) <= v < Pow2(t + j)
    ensures Shr(v, j) == Pow2(t) - 1
  {
    if j > 0 {
      ShrOnes(v / 2, t, j - 1);
    }
  }

  /** One smearing step: if the top j of n bits are ones, or-ing the word
      shifted by j makes the top 2j bits ones. */
  lemma {:induction false} SmearStep(v: nat, n: nat, j: nat)
    requires 1 <= j <= n && Pow2(n) - Pow2(n - j) <= v < Pow2(n)
    ensures var top := if 2 * j <= n then 2 * j else n;
            Pow2(n) - Pow2(n - top) <= Or(v, Shr(v, j)) < Pow2(n)
  {
    if n <= 2 * j {
      var t := n - j;
      Pow2Monotonic(t, j);
      ShrOnes(v, t, j);
      OrFill(v, n, t);
    } else {
      ShrHalf(v, j);
      assert Pow2(n - j) == 2 * Pow2(n - j - 1);
      SmearStep(v / 2, n - 1, j);
      assert Or(v, Shr(v, j)) / 2 == Or(v / 2, Shr(v, j) / 2);
    }
  }

  /** A shift by at least the bit length leaves nothing to or in. */
  lemma SmearDone(v: nat, n: nat, i: nat)
    requires n <= i && v < Pow2(n)
    ensures Or(v, Shr(v, i)) == v
  {
    Pow2Monotonic(n, i);
    ShrOnes(v, 0, i);
    OrZero(v);
  }

  /** The number of bits of v. */
  function BitLength(v: nat): (n: nat)
    ensures v < Pow2(n)
    ensures v > 0 ==> n > 0 && Pow2(n - 1) <= v
  {
    if v == 0 then 0 else BitLength(v / 2) + 1
  }
}
