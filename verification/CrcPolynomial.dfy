/** The check sequence as a remainder of polynomials over GF(2), the definition in section 3.2.9
    of IEEE 802.3-2012. A polynomial is the list of its coefficients, the constant term first;
    trailing zeros do not matter. */
module CrcPolynomial {
  import opened BitWords
  import opened Crc32
  import opened CrcDetection

  type Poly = seq<bool>

  /** x^32 and the terms of VALUE. */
  const GENERATOR: Poly := VALUE + [true]

  predicate Coeff(p: Poly, i: int)
  {
    0 <= i < |p| && p[i]
  }

  ghost predicate Same(p: Poly, q: Poly)
  {
    forall i :: Coeff(p, i) == Coeff(q, i)
  }

  function Add(p: Poly, q: Poly): Poly
  {
    seq(if |p| < |q| then |q| else |p|, i => Coeff(p, i) != Coeff(q, i))
  }

  /** p times x^k. */
  function Shift(p: Poly, k: nat): Poly
  {
    Fill(k, false) + p
  }

  function Mul(q: Poly, d: Poly): Poly
    decreases |q|
  {
    if q == [] then [] else Add(Shift(Mul(q[1..], d), 1), if q[0] then d else [])
  }

  /** r is a remainder of n on division by the generator. */
  ghost predicate IsRemainder(n: Poly, r: Poly)
  {
    |r| == 32 && exists q :: Same(n, Add(Mul(q, GENERATOR), r))
  }

  /** A message as a polynomial: the bit fed first has the highest power. */
  function MessagePoly(m: seq<bool>): Poly
  {
    Reverse(m)
  }

  lemma CoeffAdd(p: Poly, q: Poly, i: int)
    ensures Coeff(Add(p, q), i) == (Coeff(p, i) != Coeff(q, i))
  {}

  lemma CoeffShift(p: Poly, k: nat, i: int)
    ensures Coeff(Shift(p, k), i) == Coeff(p, i - k)
  {}

  /** One more bit b of quotient in front: x·q + b. */
  lemma CoeffMulNext(b: bool, q: Poly, d: Poly, i: int)
    ensures Coeff(Mul([b] + q, d), i) == (Coeff(Mul(q, d), i - 1) != (b && Coeff(d, i)))
  {
    hide Coeff, Shift, Add;
    assert ([b] + q)[1..] == q;
    CoeffShift(Mul(q, d), 1, i);
    CoeffAdd(Shift(Mul(q, d), 1), if b then d else [], i);
    CoeffNone(i);
  }

  lemma CoeffNone(i: int)
    ensures !Coeff([], i)
  {}

  lemma CoeffGenerator(i: int)
    ensures Coeff(GENERATOR, i) == (i == 32 || (0 <= i < 32 && VALUE[i]))
  {
    hide VALUE;
  }

  /** One more quotient bit. If r' is x·r reduced with `top` and its constant term is `low`, then
      the new combination is x times the old one, plus `low`, plus x^32 when r's top bit and
      `top` differ. */
  lemma DivisionStep(q: Poly, r: Word32, r': Word32, top: bool, low: bool, i: int)
    requires r'[0] == (low != (top && VALUE[0]))
    requires forall j :: 0 < j < 32 ==> r'[j] == (r[j - 1] != (top && VALUE[j]))
    ensures Coeff(Add(Mul([top] + q, GENERATOR), r'), i)
         == ((i == 0 && low) != (Coeff(Add(Mul(q, GENERATOR), r), i - 1) != (i == 32 && r[31] != top)))
  {
    hide Mul, VALUE, GENERATOR, Add;
    CoeffMulNext(top, q, GENERATOR, i);
    CoeffGenerator(i);
    CoeffAdd(Mul([top] + q, GENERATOR), r', i);
    CoeffAdd(Mul(q, GENERATOR), r, i - 1);
    CoeffNegative(Mul(q, GENERATOR), i - 1);
  }

  lemma CoeffNegative(p: Poly, i: int)
    ensures i < 0 ==> !Coeff(p, i)
  {}

  /** The quotient that the active step builds, its constant term first. */
  function Quotient(crc: Word32, m: seq<bool>): Poly
    decreases |m|
  {
    if m == [] then []
    else
      var n := |m| - 1;
      [Run(crc, m[..n])[31] != m[n]] + Quotient(crc, m[..n])
  }

  function PlainQuotient(crc: Word32, m: seq<bool>): Poly
    decreases |m|
  {
    if m == [] then []
    else
      var n := |m| - 1;
      [PlainRun(crc, m[..n])[31]] + PlainQuotient(crc, m[..n])
  }

  /** What the active form divides: the start value times x^|m| plus the message times x^32. */
  function Dividend(crc: Word32, m: seq<bool>): Poly
  {
    Add(Shift(crc, |m|), Shift(MessagePoly(m), 32))
  }

  /** What the plain form divides: the start value times x^|m| plus the message. */
  function PlainDividend(crc: Word32, m: seq<bool>): Poly
  {
    Add(Shift(crc, |m|), MessagePoly(m))
  }

  lemma MessageNext(m: seq<bool>, b: bool, i: int)
    ensures Coeff(MessagePoly(m + [b]), i) == (if i == 0 then b else Coeff(MessagePoly(m), i - 1))
  {}

  lemma DividendNext(crc: Word32, m: seq<bool>, b: bool, i: int)
    ensures Coeff(Dividend(crc, m + [b]), i) == (Coeff(Dividend(crc, m), i - 1) != (i == 32 && b))
    ensures Coeff(PlainDividend(crc, m + [b]), i) == (Coeff(PlainDividend(crc, m), i - 1) != (i == 0 && b))
  {
    hide Add, Shift, MessagePoly, Coeff;
    var n := |m|;
    var p, p' := MessagePoly(m), MessagePoly(m + [b]);
    CoeffAdd(Shift(crc, n + 1), Shift(p', 32), i);
    CoeffAdd(Shift(crc, n), Shift(p, 32), i - 1);
    CoeffAdd(Shift(crc, n + 1), p', i);
    CoeffAdd(Shift(crc, n), p, i - 1);
    CoeffShift(crc, n + 1, i);
    CoeffShift(crc, n, i - 1);
    CoeffShift(p', 32, i);
    CoeffShift(p, 32, i - 1);
    MessageNext(m, b, i - 32);
    MessageNext(m, b, i);
    CoeffNegative(p, i - 33);
    CoeffNegative(p, i - 1);
  }

  lemma PlainStepBit(crc: Word32, bit: bool, i: nat)
    requires i < 32
    ensures PlainStep(crc, bit)[i] == ((if i == 0 then bit else crc[i - 1]) != (crc[31] && VALUE[i]))
  {
    hide VALUE;
  }

  lemma RunNext(crc: Word32, m: seq<bool>, b: bool)
    ensures Run(crc, m + [b]) == Step(Run(crc, m), b)
  {
    hide Step;
    RunAppend(crc, m, [b]);
    assert Run(Run(crc, m), [b]) == Run(Step(Run(crc, m), b), []);
  }

  lemma {:induction false} PlainRunNext(crc: Word32, m: seq<bool>, b: bool)
    ensures PlainRun(crc, m + [b]) == PlainStep(PlainRun(crc, m), b)
    decreases |m|
  {
    hide PlainStep;
    if m == [] {
      assert m + [b] == [b] && [b][1..] == [];
    } else {
      assert (m + [b])[1..] == m[1..] + [b];
      PlainRunNext(PlainStep(crc, m[0]), m[1..], b);
    }
  }

  lemma QuotientNext(crc: Word32, m: seq<bool>, b: bool)
    ensures Quotient(crc, m + [b]) == [Run(crc, m)[31] != b] + Quotient(crc, m)
    ensures PlainQuotient(crc, m + [b]) == [PlainRun(crc, m)[31]] + PlainQuotient(crc, m)
  {
    hide Run, PlainRun;
    assert (m + [b])[..|m|] == m;
  }

  /** The register is what is left of the dividend after subtracting quotient times generator. */
  lemma {:induction false} ActiveFormDivides(crc: Word32, m: seq<bool>, i: int)
    ensures Coeff(Dividend(crc, m), i) == Coeff(Add(Mul(Quotient(crc, m), GENERATOR), Run(crc, m)), i)
    decreases |m|
  {
    hide Coeff, Dividend, Mul, GENERATOR, Quotient, Run, Step, VALUE, Add;
    if m == [] {
      DividesNothing(crc, i);
    } else {
      var n := |m| - 1;
      var m', b := m[..n], m[n];
      assert m == m' + [b];
      var r := Run(crc, m');
      ActiveFormDivides(crc, m', i - 1);
      DividendNext(crc, m', b, i);
      RunNext(crc, m', b);
      QuotientNext(crc, m', b);
      forall j | 0 <= j < 32 ensures Step(r, b)[j] == ((j > 0 && r[j - 1]) != (r[31] != b && VALUE[j])) {
        StepBit(r, b, j);
      }
      DivisionStep(Quotient(crc, m'), r, Step(r, b), r[31] != b, false, i);
    }
  }

  lemma {:induction false} PlainFormDivides(crc: Word32, m: seq<bool>, i: int)
    ensures Coeff(PlainDividend(crc, m), i)
         == Coeff(Add(Mul(PlainQuotient(crc, m), GENERATOR), PlainRun(crc, m)), i)
    decreases |m|
  {
    hide Coeff, PlainDividend, Mul, GENERATOR, PlainQuotient, PlainRun, PlainStep, VALUE, Add;
    if m == [] {
      DividesNothing(crc, i);
    } else {
      var n := |m| - 1;
      var m', b := m[..n], m[n];
      assert m == m' + [b];
      var r := PlainRun(crc, m');
      PlainFormDivides(crc, m', i - 1);
      DividendNext(crc, m', b, i);
      PlainRunNext(crc, m', b);
      QuotientNext(crc, m', b);
      forall j | 0 <= j < 32
        ensures PlainStep(r, b)[j] == ((if j == 0 then b else r[j - 1]) != (r[31] && VALUE[j]))
      {
        PlainStepBit(r, b, j);
      }
      DivisionStep(PlainQuotient(crc, m'), r, PlainStep(r, b), r[31], b, i);
    }
  }

  lemma DividesNothing(crc: Word32, i: int)
    ensures Coeff(Dividend(crc, []), i) == Coeff(Add(Mul(Quotient(crc, []), GENERATOR), Run(crc, [])), i)
    ensures Coeff(PlainDividend(crc, []), i)
         == Coeff(Add(Mul(PlainQuotient(crc, []), GENERATOR), PlainRun(crc, [])), i)
  {
    hide GENERATOR;
  }

  lemma {:induction false} ZeroMul(q: Poly, d: Poly, i: int)
    requires forall k :: 0 <= k < |q| ==> !q[k]
    ensures !Coeff(Mul(q, d), i)
    decreases |q|
  {
    hide Coeff, Add, Shift;
    if q == [] {
      CoeffNone(i);
    } else {
      assert q == [q[0]] + q[1..];
      CoeffMulNext(q[0], q[1..], d, i);
      ZeroMul(q[1..], d, i - 1);
    }
  }

  /** The leading term of a multiple of the generator is 32 above the leading term of the factor. */
  lemma {:induction false} LeadingTerm(q: Poly, k: nat)
    requires k < |q| && q[k] && forall j :: k < j < |q| ==> !q[j]
    ensures Coeff(Mul(q, GENERATOR), k + 32)
    decreases |q|
  {
    hide Coeff, Add, Shift, Mul, GENERATOR;
    assert q == [q[0]] + q[1..];
    CoeffMulNext(q[0], q[1..], GENERATOR, k + 32);
    CoeffGenerator(k + 32);
    if k == 0 {
      ZeroMul(q[1..], GENERATOR, k + 31);
    } else {
      LeadingTerm(q[1..], k - 1);
    }
  }

  lemma AddNext(p: Poly, q: Poly)
    requires p != [] && q != []
    ensures Add(p, q) == [p[0] != q[0]] + Add(p[1..], q[1..])
  {}

  lemma AddNothing(p: Poly)
    ensures Add(p, []) == p && Add([], p) == p
  {}

  lemma {:induction false} MulDistributes(p: Poly, q: Poly, d: Poly, i: int)
    ensures Coeff(Mul(Add(p, q), d), i) == (Coeff(Mul(p, d), i) != Coeff(Mul(q, d), i))
    decreases |p|
  {
    hide Coeff, Add, Shift, Mul;
    if p == [] {
      AddNothing(q);
      ZeroMul([], d, i);
    } else if q == [] {
      AddNothing(p);
      ZeroMul([], d, i);
    } else {
      AddNext(p, q);
      assert p == [p[0]] + p[1..] && q == [q[0]] + q[1..];
      CoeffMulNext(p[0] != q[0], Add(p[1..], q[1..]), d, i);
      CoeffMulNext(p[0], p[1..], d, i);
      CoeffMulNext(q[0], q[1..], d, i);
      MulDistributes(p[1..], q[1..], d, i - 1);
    }
  }

  /** A multiple of the generator whose degree is below 32 is zero, factor and all. */
  lemma SmallMultipleIsZero(q: Poly, k: nat)
    requires forall i :: i >= 32 ==> !Coeff(Mul(q, GENERATOR), i)
    requires k <= |q|
    ensures forall j :: k <= j < |q| ==> !q[j]
    decreases |q| - k
  {
    hide Coeff, Mul;
    if k < |q| {
      SmallMultipleIsZero(q, k + 1);
      if q[k] { LeadingTerm(q, k); }
    }
  }

  lemma UniqueRemainder(n: Poly, r: Word32, r': Word32)
    requires IsRemainder(n, r) && IsRemainder(n, r')
    ensures r == r'
  {
    hide Coeff, Mul, GENERATOR, Add;
    var q :| Same(n, Add(Mul(q, GENERATOR), r));
    var q' :| Same(n, Add(Mul(q', GENERATOR), r'));
    var d := Add(q, q');
    forall i ensures Coeff(Mul(d, GENERATOR), i) == (Coeff(r, i) != Coeff(r', i)) {
      MulDistributes(q, q', GENERATOR, i);
      CoeffAdd(Mul(q, GENERATOR), r, i);
      CoeffAdd(Mul(q', GENERATOR), r', i);
    }
    forall i | i >= 32 ensures !Coeff(Mul(d, GENERATOR), i) {
      CoeffPast(r, i);
      CoeffPast(r', i);
    }
    SmallMultipleIsZero(d, 0);
    forall i | 0 <= i < 32 ensures r[i] == r'[i] {
      ZeroMul(d, GENERATOR, i);
      CoeffIn(r, i);
      CoeffIn(r', i);
    }
  }

  lemma CoeffPast(p: Poly, i: int)
    ensures i >= |p| ==> !Coeff(p, i)
  {}

  lemma CoeffIn(p: Poly, i: int)
    ensures 0 <= i < |p| ==> Coeff(p, i) == p[i]
  {}

  /** Polynomial division: the active form computes the remainder of start·x^n + message·x^32,
      and nothing else is a remainder of it. */
  lemma ActiveFormIsRemainder(crc: Word32, m: seq<bool>, r: Word32)
    ensures r == Run(crc, m) <==> IsRemainder(Dividend(crc, m), r)
  {
    hide Coeff, Dividend, Mul, GENERATOR, Quotient, Run, Add;
    forall i ensures Coeff(Dividend(crc, m), i)
                  == Coeff(Add(Mul(Quotient(crc, m), GENERATOR), Run(crc, m)), i) {
      ActiveFormDivides(crc, m, i);
    }
    assert Same(Dividend(crc, m), Add(Mul(Quotient(crc, m), GENERATOR), Run(crc, m)));
    if IsRemainder(Dividend(crc, m), r) { UniqueRemainder(Dividend(crc, m), r, Run(crc, m)); }
  }

  /** The disabled form computes the remainder of start·x^n + message. */
  lemma PlainFormIsRemainder(crc: Word32, m: seq<bool>, r: Word32)
    ensures r == PlainRun(crc, m) <==> IsRemainder(PlainDividend(crc, m), r)
  {
    hide Coeff, PlainDividend, Mul, GENERATOR, PlainQuotient, PlainRun, Add;
    forall i ensures Coeff(PlainDividend(crc, m), i)
                  == Coeff(Add(Mul(PlainQuotient(crc, m), GENERATOR), PlainRun(crc, m)), i) {
      PlainFormDivides(crc, m, i);
    }
    assert Same(PlainDividend(crc, m), Add(Mul(PlainQuotient(crc, m), GENERATOR), PlainRun(crc, m)));
    if IsRemainder(PlainDividend(crc, m), r) { UniqueRemainder(PlainDividend(crc, m), r, PlainRun(crc, m)); }
  }

  lemma SameDividend(n: Poly, n': Poly, r: Word32)
    requires Same(n, n')
    ensures IsRemainder(n, r) <==> IsRemainder(n', r)
  {
    hide Coeff, Mul, GENERATOR, Add;
    if IsRemainder(n, r) {
      var q :| Same(n, Add(Mul(q, GENERATOR), r));
      assert Same(n', Add(Mul(q, GENERATOR), r));
    }
    if IsRemainder(n', r) {
      var q :| Same(n', Add(Mul(q, GENERATOR), r));
      assert Same(n, Add(Mul(q, GENERATOR), r));
    }
  }

  /** The fast form refines the simple one: on every message the active step, started at zero,
      ends where long division ends on the message followed by 32 zero bits. */
  lemma ActiveEqualsPlain(m: seq<bool>)
    ensures Run(ZERO32, m) == PlainRun(ZERO32, m + Fill(32, false))
  {
    hide Run, PlainRun, IsRemainder;
    var n, n' := Dividend(ZERO32, m), PlainDividend(ZERO32, m + Fill(32, false));
    assert Same(n, n') by { DividendOfPadded(m); }
    var r := Run(ZERO32, m);
    SameDividend(n, n', r);
    ActiveFormIsRemainder(ZERO32, m, r);
    PlainFormIsRemainder(ZERO32, m + Fill(32, false), r);
  }

  lemma DividendOfPadded(m: seq<bool>)
    ensures Same(Dividend(ZERO32, m), PlainDividend(ZERO32, m + Fill(32, false)))
  {
    forall i ensures Coeff(Dividend(ZERO32, m), i) == Coeff(PlainDividend(ZERO32, m + Fill(32, false)), i) {
      var padded := m + Fill(32, false);
      CoeffAdd(Shift(ZERO32, |m|), Shift(MessagePoly(m), 32), i);
      CoeffAdd(Shift(ZERO32, |padded|), MessagePoly(padded), i);
      CoeffMessage(m, i - 32);
      CoeffMessage(padded, i);
      CoeffShift(ZERO32, |m|, i);
      CoeffShift(ZERO32, |padded|, i);
      CoeffShift(MessagePoly(m), 32, i);
      hide Shift, Add, MessagePoly;
    }
  }

  lemma CoeffMessage(m: seq<bool>, i: int)
    ensures Coeff(MessagePoly(m), i) == (0 <= i < |m| && m[|m| - 1 - i])
  {}

  /** The message with its first 32 bits complemented, step (a) of section 3.2.9. */
  function ComplementFirst(m: seq<bool>): seq<bool>
    requires |m| >= 32
  {
    Not(m[..32]) + m[32..]
  }

  lemma DividendOfComplemented(m: seq<bool>, i: int)
    requires |m| >= 32
    ensures Coeff(Dividend(ONES32, m), i) == Coeff(Shift(MessagePoly(ComplementFirst(m)), 32), i)
  {
    CoeffAdd(Shift(ONES32, |m|), Shift(MessagePoly(m), 32), i);
    CoeffShift(ONES32, |m|, i);
    CoeffShift(MessagePoly(m), 32, i);
    CoeffShift(MessagePoly(ComplementFirst(m)), 32, i);
    CoeffMessage(m, i - 32);
    CoeffMessage(ComplementFirst(m), i - 32);
    hide Shift, Add, MessagePoly;
  }

  /** The definition of the check sequence in section 3.2.9 of IEEE 802.3-2012: for every frame of
      at least four bytes the register is the remainder of the frame, its first 32 bits
      complemented, times x^32. */
  lemma RegisterIsIeeeRemainder(frame: seq<Word8>, r: Word32)
    requires |frame| >= 4
    ensures r == Register(frame)
       <==> IsRemainder(Shift(MessagePoly(ComplementFirst(MessageBits(frame))), 32), r)
  {
    hide Run, IsRemainder, Dividend, MessagePoly, ComplementFirst, Shift, Coeff;
    var m := MessageBits(frame);
    ActiveFormIsRemainder(ONES32, m, r);
    forall i ensures Coeff(Dividend(ONES32, m), i) == Coeff(Shift(MessagePoly(ComplementFirst(m)), 32), i) {
      DividendOfComplemented(m, i);
    }
    SameDividend(Dividend(ONES32, m), Shift(MessagePoly(ComplementFirst(m)), 32), r);
  }

  /** Presetting the register to ones is complementing the first 32 bits. */
  lemma PresetIsComplement(m: seq<bool>)
    requires |m| >= 32
    ensures Run(ONES32, m) == Run(ZERO32, ComplementFirst(m))
  {
    hide Run, IsRemainder, Dividend, ComplementFirst, Coeff;
    var r := Run(ONES32, m);
    var c := ComplementFirst(m);
    forall i ensures Coeff(Dividend(ONES32, m), i) == Coeff(Dividend(ZERO32, c), i) {
      DividendOfComplemented(m, i);
      DividendFromZero(c, i);
    }
    SameDividend(Dividend(ONES32, m), Dividend(ZERO32, c), r);
    ActiveFormIsRemainder(ONES32, m, r);
    ActiveFormIsRemainder(ZERO32, c, r);
  }

  lemma DividendFromZero(m: seq<bool>, i: int)
    ensures Coeff(Dividend(ZERO32, m), i) == Coeff(Shift(MessagePoly(m), 32), i)
  {
    CoeffAdd(Shift(ZERO32, |m|), Shift(MessagePoly(m), 32), i);
    CoeffShift(ZERO32, |m|, i);
    hide Shift, Add, MessagePoly;
  }
}
