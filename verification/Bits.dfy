/** Machine words as bounded naturals, the bit operators the kernel applies to
    them, and the division/remainder laws every other module reasons with. */
module Bits {

  const TWO64: nat := 0x1_0000_0000_0000_0000

  type U64 = n: nat | n < 0x1_0000_0000_0000_0000

  function Pow2(k: nat): (r: nat)
    ensures r > 0
  {
    if k == 0 then 1 else 2 * Pow2(k - 1)
  }

  function And(a: nat, b: nat): (r: nat)
    ensures r <= a && r <= b
  {
    if a == 0 || b == 0 then 0
    else 2 * And(a / 2, b / 2) + (if a % 2 == 1 && b % 2 == 1 then 1 else 0)
  }

  function Or(a: nat, b: nat): (r: nat)
    ensures a <= r <= a + b && b <= r
  {
    if a == 0 then b
    else if b == 0 then a
    else 2 * Or(a / 2, b / 2) + (if a % 2 == 1 || b % 2 == 1 then 1 else 0)
  }

  function Shr(a: nat, k: nat): nat {
    if k == 0 then a else Shr(a / 2, k - 1)
  }

  /** Shifting a 64-bit word left drops the bits that leave it. */
  function Shl(a: nat, k: nat): U64 {
    a * Pow2(k) % TWO64
  }

  function Not(a: U64): U64 {
    TWO64 - 1 - a
  }

  lemma {:induction false} Pow2Add(j: nat, k: nat)
    ensures Pow2(j + k) == Pow2(j) * Pow2(k)
  {
    if j > 0 {
      Pow2Add(j - 1, k);
      assert Pow2(j + k) == 2 * (Pow2(j - 1) * Pow2(k)) == Pow2(j) * Pow2(k);
    }
  }

  lemma {:induction false} ShrDivides(a: nat, k: nat)
    ensures Shr(a, k) == a / Pow2(k)
  {
    if k > 0 {
      ShrDivides(a / 2, k - 1);
      HalfDiv(a, k - 1);
    }
  }

  /** The low `k` bits. */
  function Low(a: nat, k: nat): nat {
    if k == 0 then 0 else 2 * Low(a / 2, k - 1) + a % 2
  }

  lemma {:induction false} LowIsMod(a: nat, k: nat)
    ensures Low(a, k) == a % Pow2(k)
  {
    if k > 0 {
      LowIsMod(a / 2, k - 1);
      HalfMod(a, k - 1);
    }
  }

  /** Ones from bit `lo` up to bit `hi`. */
  function Ones(lo: nat, hi: nat): nat
    decreases hi
  {
    if hi == 0 then 0
    else if lo == 0 then 2 * Ones(0, hi - 1) + 1
    else 2 * Ones(lo - 1, hi - 1)
  }

  lemma {:induction false} OnesIsDifference(lo: nat, hi: nat)
    requires lo <= hi
    ensures Ones(lo, hi) == Pow2(hi) - Pow2(lo)
    decreases hi
  {
    if hi > 0 {
      OnesIsDifference(if lo == 0 then 0 else lo - 1, hi - 1);
    }
  }

  lemma {:induction false} AndOnes(a: nat, lo: nat, hi: nat)
    requires lo <= hi
    ensures And(a, Ones(lo, hi)) == Low(a, hi) - Low(a, lo)
    decreases hi
  {
    if hi > 0 && lo > 0 {
      AndOnes(a / 2, lo - 1, hi - 1);
      AndEven(a, Ones(lo - 1, hi - 1));
    } else if hi > 0 {
      AndOnes(a / 2, 0, hi - 1);
      AndOdd(a, Ones(0, hi - 1));
    }
  }

  /** Dropping low bits, as a division by a known power of two. */
  lemma ShrBy(a: nat, k: nat, p: nat)
    requires p == Pow2(k)
    ensures Shr(a, k) == a / p
  {
    ShrDivides(a, k);
  }

  /** Keeping low bits, as a remainder by a known power of two. */
  lemma AndBy(a: nat, k: nat, p: nat)
    requires p == Pow2(k)
    ensures And(a, p - 1) == a % p
  {
    AndField(a, 0, k);
  }

  lemma ShlBy(a: nat, k: nat, p: nat)
    requires p == Pow2(k) && a * p < TWO64
    ensures Shl(a, k) == a * p
  {
    assert a * Pow2(k) == a * p;
  }

  lemma Powers()
    ensures Pow2(9) == 512 && Pow2(10) == 1024 && Pow2(12) == 4096
    ensures Pow2(21) == 0x20_0000 && Pow2(30) == 0x4000_0000 && Pow2(44) == 0x1000_0000_0000
    ensures Pow2(39) == 0x80_0000_0000 && Pow2(48) == 0x1_0000_0000_0000
  {
    Pow2Add(9, 12);
    Pow2Add(9, 21);
    Pow2Add(9, 30);
    Pow2Add(9, 39);
    Pow2Add(22, 22);
    assert Pow2(22) == 2 * Pow2(21);
  }

  lemma WordSize()
    ensures Pow2(64) == TWO64
  {
    Powers();
    Pow2Add(44, 20);
    Pow2Add(10, 10);
  }

  /** Masking with a run of ones from bit `lo` up to bit `hi` selects that field. */
  lemma AndField(a: nat, lo: nat, hi: nat)
    requires lo <= hi
    ensures Pow2(lo) <= Pow2(hi)
    ensures And(a, Pow2(hi) - Pow2(lo)) == a % Pow2(hi) - a % Pow2(lo)
  {
    OnesIsDifference(lo, hi);
    AndOnes(a, lo, hi);
    LowIsMod(a, lo);
    LowIsMod(a, hi);
  }

  /** Testing a single bit. */
  lemma {:induction false} AndBit(a: nat, k: nat)
    ensures And(a, Pow2(k)) == if Shr(a, k) % 2 == 1 then Pow2(k) else 0
  {
    if k > 0 {
      AndBit(a / 2, k - 1);
      AndEven(a, Pow2(k - 1));
    } else {
      AndOdd(a, 0);
    }
  }

  /** Setting a clear bit. */
  lemma {:induction false} OrBit(a: nat, k: nat)
    requires Shr(a, k) % 2 == 0
    ensures Or(a, Pow2(k)) == a + Pow2(k)
  {
    if k > 0 && a > 0 {
      OrBit(a / 2, k - 1);
    }
  }

  lemma AndEven(a: nat, mask: nat)
    ensures And(a, 2 * mask) == 2 * And(a / 2, mask)
  {
    assert 2 * mask / 2 == mask && 2 * mask % 2 == 0;
  }

  lemma AndOdd(a: nat, mask: nat)
    ensures And(a, 2 * mask + 1) == 2 * And(a / 2, mask) + a % 2
  {
  }

  lemma HalfDiv(a: nat, k: nat)
    ensures a / Pow2(k + 1) == a / 2 / Pow2(k)
  {
    var p := Pow2(k);
    var q, r := a / 2 / p, a / 2 % p;
    assert a / 2 == q * p + r;
    assert a == q * (2 * p) + (2 * r + a % 2);
    ModUnique(a, 2 * p, q, 2 * r + a % 2);
  }

  lemma HalfMod(a: nat, k: nat)
    ensures a % Pow2(k + 1) == 2 * (a / 2 % Pow2(k)) + a % 2
  {
    var p := Pow2(k);
    var q, r := a / 2 / p, a / 2 % p;
    assert a == 2 * (q * p + r) + a % 2;
    assert a == q * (2 * p) + (2 * r + a % 2);
    ModUnique(a, 2 * p, q, 2 * r + a % 2);
  }

  lemma ModUnique(a: nat, d: nat, q: nat, r: nat)
    requires 0 <= r < d && a == q * d + r
    ensures a % d == r && a / d == q
  {
    DivisorsOrder(a, d, a / d, a % d, q, r);
    DivisorsOrder(a, d, q, r, a / d, a % d);
  }

  lemma DivisorsOrder(a: nat, d: nat, q: nat, r: nat, q': nat, r': nat)
    requires r < d && r' < d
    requires a == q * d + r == q' * d + r'
    ensures q <= q'
  {
    if q > q' {
      MulStep(q', q, d);
    }
  }

  lemma MulStep(x: nat, y: nat, d: nat)
    requires x < y
    ensures x * d + d <= y * d
  {
    assert y * d == (x + 1) * d + (y - x - 1) * d;
  }

  /** A field of `n` values at weight `d` does not see what is added above it. */
  lemma FieldIgnoresHigh(h: nat, r: nat, d: nat, n: nat, j: nat)
    requires d > 0 && n > 0
    ensures (h * (d * (n * j)) + r) / d % n == r / d % n
  {
    var x := r / d;
    MulRegroup(h, d, n, j);
    AddMultiple(h * j * n, d, r);
    AddMultiple(h * j, n, x);
  }

  lemma MulRegroup(h: nat, d: nat, n: nat, j: nat)
    ensures h * (d * (n * j)) == h * j * n * d
  {
    assert d * (n * j) == j * n * d;
    assert h * (j * n * d) == h * (j * n) * d;
    assert h * (j * n) == h * j * n;
  }

  lemma AddMultiple(q: nat, d: nat, r: nat)
    requires d > 0
    ensures (q * d + r) / d == q + r / d && (q * d + r) % d == r % d
  {
    assert q * d + r == (q + r / d) * d + r % d;
    ModUnique(q * d + r, d, q + r / d, r % d);
  }

  /** Words that share no bits are joined by addition. */
  lemma {:induction false} OrDisjoint(a: nat, b: nat, k: nat)
    requires a % Pow2(k) == 0 && b < Pow2(k)
    ensures Or(a, b) == a + b
  {
    if k > 0 && a > 0 && b > 0 {
      HalfMod(a, k - 1);
      OrDisjoint(a / 2, b / 2, k - 1);
    }
  }

  lemma {:induction false} OrCommutes(a: nat, b: nat)
    ensures Or(a, b) == Or(b, a)
  {
    if a > 0 && b > 0 {
      OrCommutes(a / 2, b / 2);
    }
  }

  /** A word filling bits `j` to `k` is joined by addition to one that leaves them clear. */
  lemma {:induction false} OrBetween(a: nat, high: nat, low: nat, j: nat, k: nat)
    requires j <= k && a % Pow2(j) == 0 && a < Pow2(k) && low < Pow2(j)
    ensures Or(a, high * Pow2(k) + low) == high * Pow2(k) + a + low
    decreases k
  {
    hide And, Or, Shr;
    if j > 0 {
      HalfMod(a, j - 1);
      OrBetween(a / 2, high, low / 2, j - 1, k - 1);
      assert high * Pow2(k) == 2 * (high * Pow2(k - 1)) by {
        MulRegroup(high, 1, 2, Pow2(k - 1));
      }
      HalfSum(high * Pow2(k - 1), low);
      OrHalves(a, high * Pow2(k) + low);
    } else {
      MulMod(high, Pow2(k));
      OrDisjoint(high * Pow2(k), a, k);
      OrCommutes(a, high * Pow2(k));
    }
  }

  lemma MulMod(q: nat, d: nat)
    requires d > 0
    ensures q * d % d == 0
  {
    ModUnique(q * d, d, q, 0);
  }

  lemma OrHalves(a: nat, b: nat)
    requires a % 2 == 0
    ensures Or(a, b) == 2 * Or(a / 2, b / 2) + b % 2
  {
  }

  lemma HalfSum(x: nat, low: nat)
    ensures (2 * x + low) / 2 == x + low / 2 && (2 * x + low) % 2 == low % 2
  {
  }

  /** The low bits of a disjunction are clear exactly when both words clear them. */
  lemma {:induction false} OrLowBits(a: nat, b: nat, k: nat)
    ensures Or(a, b) % Pow2(k) == 0 <==> a % Pow2(k) == 0 && b % Pow2(k) == 0
    decreases k
  {
    hide Or;
    if k > 0 {
      HalfMod(a, k - 1);
      HalfMod(b, k - 1);
      HalfMod(Or(a, b), k - 1);
      OrHalf(a, b);
      OrLowBits(a / 2, b / 2, k - 1);
    }
  }

  lemma OrHalf(a: nat, b: nat)
    ensures Or(a, b) / 2 == Or(a / 2, b / 2)
    ensures Or(a, b) % 2 == 0 <==> a % 2 == 0 && b % 2 == 0
  {
  }

  lemma {:induction false} AndBitAt(a: nat, b: nat, k: nat)
    ensures Shr(And(a, b), k) % 2 == 1 <==> Shr(a, k) % 2 == 1 && Shr(b, k) % 2 == 1
  {
    ShrOfZero(k);
    if k > 0 && a > 0 && b > 0 {
      AndBitAt(a / 2, b / 2, k - 1);
    }
  }

  lemma {:induction false} OrBitAt(a: nat, b: nat, k: nat)
    ensures Shr(Or(a, b), k) % 2 == 1 <==> Shr(a, k) % 2 == 1 || Shr(b, k) % 2 == 1
  {
    ShrOfZero(k);
    if k > 0 && a > 0 && b > 0 {
      OrBitAt(a / 2, b / 2, k - 1);
    }
  }

  lemma {:induction false} ShrOfZero(k: nat)
    ensures Shr(0, k) == 0
  {
    if k > 0 {
      ShrOfZero(k - 1);
    }
  }

  lemma {:induction false} PowerBit(j: nat, k: nat)
    ensures Shr(Pow2(j), k) % 2 == if j == k then 1 else 0
  {
    ShrOfZero(k);
    if k > 0 {
      if j > 0 {
        PowerBit(j - 1, k - 1);
      } else {
        ShrOfZero(k - 1);
      }
    }
  }

  lemma {:induction false} ComplementBit(a: nat, n: nat, k: nat)
    requires k < n && a < Pow2(n)
    ensures Shr(Pow2(n) - 1 - a, k) % 2 == 1 - Shr(a, k) % 2
  {
    if k > 0 {
      ComplementBit(a / 2, n - 1, k - 1);
      assert (Pow2(n) - 1 - a) / 2 == Pow2(n - 1) - 1 - a / 2;
    }
  }
}
