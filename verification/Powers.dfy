/** Powers of two and bit masks: the arithmetic under CIDR alignment. */
module Powers {

  function Pow2(n: nat): (r: nat)
    ensures r > 0
  {
    if n == 0 then 1 else 2 * Pow2(n - 1)
  }

  lemma {:induction false} Pow2Add(a: nat, b: nat)
    ensures Pow2(a + b) == Pow2(a) * Pow2(b)
  {
    if a > 0 {
      Pow2Add(a - 1, b);
      assert Pow2(a + b) == 2 * Pow2(a - 1 + b);
      MulAssoc(2, Pow2(a - 1), Pow2(b));
    }
  }

  lemma MulAssoc(x: int, y: int, z: int)
    ensures (x * y) * z == x * (y * z)
  {
  }

  lemma {:induction false} Pow2Mono(a: nat, b: nat)
    requires a <= b
    ensures Pow2(a) <= Pow2(b)
    ensures a < b ==> Pow2(a) < Pow2(b)
    decreases b
  {
    if a < b {
      Pow2Mono(a, b - 1);
    }
  }

  lemma Pow2Values()
    ensures Pow2(16) == 0x1_0000
    ensures Pow2(32) == 0x1_0000_0000
    ensures Pow2(63) == 0x8000_0000_0000_0000
    ensures Pow2(64) == 0x1_0000_0000_0000_0000
  {
    assert Pow2(8) == 256;
    Pow2Add(8, 8);
    Pow2Add(16, 16);
    Pow2Add(32, 32);
    assert Pow2(64) == 2 * Pow2(63);
  }

  /** `x` with its `n` low bits cleared: the multiple of 2^n at or below `x`. */
  function ClearLow(x: nat, n: nat): (r: nat)
    ensures r <= x < r + Pow2(n)
    decreases x
  {
    if x < Pow2(n) then 0 else Pow2(n) + ClearLow(x - Pow2(n), n)
  }

  predicate Aligned(x: nat, n: nat) {
    ClearLow(x, n) == x
  }

  lemma {:induction false} ClearLowAligned(x: nat, n: nat)
    ensures Aligned(ClearLow(x, n), n)
    decreases x
  {
    if x >= Pow2(n) {
      ClearLowAligned(x - Pow2(n), n);
    }
  }

  /** Distinct aligned numbers are a whole block apart. */
  lemma {:induction false} AlignedApart(x: nat, y: nat, n: nat)
    requires Aligned(x, n) && Aligned(y, n) && x < y
    ensures x + Pow2(n) <= y
    decreases x
  {
    if x >= Pow2(n) {
      AlignedApart(x - Pow2(n), y - Pow2(n), n);
    }
  }

  lemma ClearLowUnique(x: nat, n: nat, r: nat)
    requires Aligned(r, n) && r <= x < r + Pow2(n)
    ensures r == ClearLow(x, n)
  {
    var d := ClearLow(x, n);
    ClearLowAligned(x, n);
    if r < d {
      AlignedApart(r, d, n);
    } else if d < r {
      AlignedApart(d, r, n);
    }
  }

  lemma {:induction false} AlignedSum(x: nat, y: nat, n: nat)
    requires Aligned(x, n) && Aligned(y, n)
    ensures Aligned(x + y, n)
    decreases x
  {
    if x >= Pow2(n) {
      AlignedSum(x - Pow2(n), y, n);
    }
  }

  lemma {:induction false} PowerAligned(m: nat, n: nat)
    requires n <= m
    ensures Aligned(Pow2(m), n)
    decreases m
  {
    if n < m {
      PowerAligned(m - 1, n);
      AlignedSum(Pow2(m - 1), Pow2(m - 1), n);
    }
  }

  lemma {:induction false} AlignedFiner(x: nat, fine: nat, coarse: nat)
    requires fine <= coarse && Aligned(x, coarse)
    ensures Aligned(x, fine)
    decreases x
  {
    if x >= Pow2(coarse) {
      AlignedFiner(x - Pow2(coarse), fine, coarse);
      PowerAligned(coarse, fine);
      AlignedSum(x - Pow2(coarse), Pow2(coarse), fine);
    }
  }
}
