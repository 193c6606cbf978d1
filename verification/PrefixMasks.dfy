/** C's `&` and `|` on unsigned integers, and what they do to the masks of address prefixes:
    comparing under a mask is the same as lying in an aligned range. */
module PrefixMasks {
  import opened Unsigned

  function Pow2(n: nat): (p: nat)
    ensures p > 0
  {
    if n == 0 then 1 else 2 * Pow2(n - 1)
  }

  function And(a: nat, b: nat): nat
    decreases a, b
  {
    if a == 0 || b == 0 then 0
    else (if a % 2 == 1 && b % 2 == 1 then 1 else 0) + 2 * And(a / 2, b / 2)
  }

  function Or(a: nat, b: nat): nat
    decreases a + b
  {
    if a == 0 && b == 0 then 0
    else (if a % 2 == 1 || b % 2 == 1 then 1 else 0) + 2 * Or(a / 2, b / 2)
  }

  /** x without its k lowest bits, C's `x >> k`. */
  function Prefix(x: nat, k: nat): nat
    decreases k, x
  {
    if k == 0 then x else Prefix(x / 2, k - 1)
  }

  /** x with its k lowest bits cleared. */
  function ClearLow(x: nat, k: nat): nat
    decreases k, x
  {
    if k == 0 then x else 2 * ClearLow(x / 2, k - 1)
  }

  /** x with its k lowest bits set. */
  function SetLow(x: nat, k: nat): nat
    decreases k, x
  {
    if k == 0 then x else 2 * SetLow(x / 2, k - 1) + 1
  }

  lemma {:induction false} Pow2Monotone(k: nat, n: nat)
    requires k <= n
    ensures Pow2(k) <= Pow2(n)
    decreases n
  {
    if k < n { Pow2Monotone(k, n - 1); }
  }

  /** `x & ~((1 << k) - 1)` in a type of n bits. */
  lemma {:induction false} AndMask(x: nat, k: nat, n: nat)
    requires k <= n && x < Pow2(n)
    ensures Pow2(k) <= Pow2(n)
    ensures And(x, Pow2(n) - Pow2(k)) == ClearLow(x, k)
    decreases n
  {
    Pow2Monotone(k, n);
    var m := Pow2(n) - Pow2(k);
    if n > 0 && k == 0 {
      AndMask(x / 2, 0, n - 1);
      assert m / 2 == Pow2(n - 1) - Pow2(0) && m % 2 == 1;
    } else if k > 0 {
      AndMask(x / 2, k - 1, n - 1);
      assert m / 2 == Pow2(n - 1) - Pow2(k - 1) && m % 2 == 0;
      ClearLowOfZero(k);
      assert ClearLow(x, k) == 2 * ClearLow(x / 2, k - 1);
    }
  }

  lemma {:induction false} ClearLowOfZero(k: nat)
    ensures ClearLow(0, k) == 0
  {
    if k > 0 { ClearLowOfZero(k - 1); }
  }

  /** `x | ((1 << k) - 1)` */
  lemma {:induction false} OrMask(x: nat, k: nat)
    ensures Or(x, Pow2(k) - 1) == SetLow(x, k)
    decreases k
  {
    if k == 0 {
      OrZero(x);
    } else {
      assert (Pow2(k) - 1) / 2 == Pow2(k - 1) - 1 && (Pow2(k) - 1) % 2 == 1;
      OrMask(x / 2, k - 1);
    }
  }

  lemma {:induction false} OrZero(x: nat)
    ensures Or(x, 0) == x
    decreases x
  {
    if x > 0 { OrZero(x / 2); }
  }

  lemma {:induction false} OrSelf(x: nat)
    ensures Or(x, x) == x
    decreases x
  {
    if x > 0 { OrSelf(x / 2); }
  }

  lemma {:induction false} OrBelow(a: nat, b: nat, n: nat)
    requires a < Pow2(n) && b < Pow2(n)
    ensures Or(a, b) < Pow2(n)
    decreases n
  {
    if n > 0 { OrBelow(a / 2, b / 2, n - 1); }
  }

  lemma OrOfDouble(x: nat, b: nat)
    ensures Or(2 * x, b) == 2 * Or(x, b / 2) + b % 2
  {}

  lemma DoublePower(a: nat, k: nat)
    requires k > 0
    ensures a * Pow2(k) == 2 * (a * Pow2(k - 1))
    ensures a * Pow2(k - 1) >= 0
  {}

  /** Or-ing something in below adds it. */
  lemma {:induction false} OrIsSum(a: nat, b: nat, k: nat)
    requires b < Pow2(k)
    ensures a * Pow2(k) >= 0 && Or(a * Pow2(k), b) == a * Pow2(k) + b
    decreases k
  {
    hide Or, Pow2;
    if k == 0 {
      assert Pow2(0) == 1 by { PowerZero(); }
      OrZero(a);
    } else {
      HalfBelow(b, k);
      OrIsSum(a, b / 2, k - 1);
      DoublePower(a, k);
      OrOfDouble(a * Pow2(k - 1), b);
    }
  }

  lemma PowerZero()
    ensures Pow2(0) == 1
  {}

  lemma HalfBelow(b: nat, k: nat)
    requires k > 0 && b < Pow2(k)
    ensures b / 2 < Pow2(k - 1)
  {}

  /** Lying in the aligned range of a is having the same prefix as a. */
  lemma {:induction false} RangeIsPrefix(a: nat, x: nat, k: nat)
    ensures ClearLow(a, k) <= x <= SetLow(a, k) <==> Prefix(x, k) == Prefix(a, k)
    decreases k
  {
    if k > 0 { RangeIsPrefix(a / 2, x / 2, k - 1); }
  }

  /** Equality with the low bits cleared is equality of prefixes. */
  lemma {:induction false} ClearLowIsPrefix(a: nat, x: nat, k: nat)
    ensures ClearLow(a, k) == ClearLow(x, k) <==> Prefix(x, k) == Prefix(a, k)
    decreases k
  {
    if k > 0 { ClearLowIsPrefix(a / 2, x / 2, k - 1); }
  }

  lemma {:induction false} PrefixAdd(x: nat, j: nat, k: nat)
    ensures Prefix(x, j + k) == Prefix(Prefix(x, j), k)
    decreases j
  {
    if j > 0 { PrefixAdd(x / 2, j - 1, k); }
  }

  lemma {:induction false} PrefixOfMasked(x: nat, j: nat, k: nat)
    ensures Prefix(ClearLow(x, j + k), j) == ClearLow(Prefix(x, j), k)
    ensures Prefix(SetLow(x, j + k), j) == SetLow(Prefix(x, j), k)
    decreases j
  {
    if j > 0 { PrefixOfMasked(x / 2, j - 1, k); }
  }

  lemma {:induction false} PrefixIsQuotient(x: nat, k: nat)
    ensures Prefix(x, k) == x / Pow2(k)
    decreases k
  {
    if k > 0 {
      PrefixIsQuotient(x / 2, k - 1);
      QuotientOfHalf(x, Pow2(k - 1));
    }
  }

  lemma QuotientOfHalf(x: nat, d: nat)
    requires d > 0
    ensures x / 2 / d == x / (2 * d)
  {
    var q, r := x / (2 * d), x % (2 * d);
    assert x == 2 * (q * d) + r;
    assert x / 2 == q * d + r / 2;
    assert r / 2 < d;
    QuotientUnique(x / 2, d, q, r / 2);
  }

  lemma PrefixEight(x: nat)
    ensures Prefix(x, 8) == x / 0x100
  {
    var x1 := x / 2; var x2 := x1 / 2; var x3 := x2 / 2; var x4 := x3 / 2;
    var x5 := x4 / 2; var x6 := x5 / 2; var x7 := x6 / 2;
    assert Prefix(x, 8) == Prefix(x1, 7) == Prefix(x2, 6) == Prefix(x3, 5) == Prefix(x4, 4);
    assert Prefix(x4, 4) == Prefix(x5, 3) == Prefix(x6, 2) == Prefix(x7, 1) == x7 / 2;
  }

  lemma Pow32()
    ensures Pow2(32) == 0x1_0000_0000
  {
    assert Pow2(8) == 0x100;
    assert Pow2(16) == 0x1_0000;
    assert Pow2(24) == 0x100_0000;
  }

  /** The mask of a prefix of the given length, `~((unsigned int)(1 << (32 - subnet)) - 1)`; the
      remainder is the conversion to `unsigned int`. */
  function Mask(subnet: nat): nat
    requires subnet <= 32
  {
    0xffff_ffff - (LowMask(subnet) % 0x1_0000_0000)
  }

  /** `(1 << (32 - subnet)) - 1` */
  function LowMask(subnet: nat): nat
    requires subnet <= 32
  {
    Pow2(32 - subnet) - 1
  }

  lemma MaskValue(subnet: nat)
    requires subnet <= 32
    ensures LowMask(subnet) <= 0xffff_ffff
    ensures Mask(subnet) == Pow2(32) - Pow2(32 - subnet)
  {
    Pow32();
    Pow2Monotone(32 - subnet, 32);
  }

  /** Comparing two addresses under a mask. */
  lemma MaskedEquality(a: Uint32, x: Uint32, subnet: nat)
    requires subnet <= 32
    ensures And(x, Mask(subnet)) == And(a, Mask(subnet)) <==> Prefix(x, 32 - subnet) == Prefix(a, 32 - subnet)
  {
    hide And, Pow2;
    var k := 32 - subnet;
    Pow32();
    MaskValue(subnet);
    AndMask(x, k, 32);
    AndMask(a, k, 32);
    ClearLowIsPrefix(a, x, k);
  }

  /** Masks versus aligned ranges: for prefixes of at most 24 bits, an address matches under the
      mask if and only if its upper 24 bits lie between those of the two ends of the range. */
  lemma MaskIsRange(a: Uint32, x: Uint32, subnet: nat)
    requires subnet <= 24
    ensures And(x, Mask(subnet)) == And(a, Mask(subnet))
       <==> And(a, Mask(subnet)) / 0x100 <= x / 0x100 <= Or(a, LowMask(subnet)) / 0x100
  {
    hide And, Or, Pow2, Prefix, ClearLow, SetLow;
    var k := 32 - subnet;
    MaskedEquality(a, x, subnet);
    Pow32();
    MaskValue(subnet);
    AndMask(a, k, 32);
    OrMask(a, k);
    PrefixEight(a);
    PrefixEight(x);
    PrefixEight(ClearLow(a, k));
    PrefixEight(SetLow(a, k));
    PrefixOfMasked(a, 8, k - 8);
    PrefixAdd(a, 8, k - 8);
    PrefixAdd(x, 8, k - 8);
    RangeIsPrefix(a / 0x100, x / 0x100, k - 8);
  }

  lemma {:induction false} SetLowBelow(x: nat, k: nat, n: nat)
    requires k <= n && x < Pow2(n)
    ensures SetLow(x, k) < Pow2(n)
    decreases k
  {
    if k > 0 { SetLowBelow(x / 2, k - 1, n - 1); }
  }

  /** Both ends of the range are addresses. */
  lemma RangeEnds(a: Uint32, subnet: nat)
    requires subnet <= 32
    ensures And(a, Mask(subnet)) <= 0xffff_ffff
    ensures Or(a, LowMask(subnet)) <= 0xffff_ffff
    ensures And(a, Mask(subnet)) <= Or(a, LowMask(subnet))
  {
    hide And, Or, Pow2, ClearLow, SetLow;
    var k := 32 - subnet;
    Pow32();
    MaskValue(subnet);
    AndMask(a, k, 32);
    OrMask(a, k);
    SetLowBelow(a, k, 32);
    RangeIsPrefix(a, a, k);
  }
}
