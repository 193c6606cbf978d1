/** What the Ethernet CRC detects. The step is linear over GF(2), so two streams reach the same
    register exactly when their difference drives the register from zero back to zero. */
module CrcDetection {
  import opened BitWords
  import opened Crc32

  /** The m lowest bits are zero: the register is divisible by 2^m. */
  ghost predicate LowZero(d: Word32, m: nat)
  {
    m <= 32 && forall i :: 0 <= i < m ==> !d[i]
  }

  lemma GeneratorIsOdd()
    ensures VALUE[0]
  {}

  lemma StepBit(crc: Word32, bit: bool, i: nat)
    requires i < 32
    ensures Step(crc, bit)[i] == ((i > 0 && crc[i - 1]) != (crc[31] != bit && VALUE[i]))
  {}

  lemma StepLinear(a: Word32, b: Word32, x: bool, y: bool)
    ensures Step(Xor(a, b), x != y) == Xor(Step(a, x), Step(b, y))
  {
    hide Step;
    forall i | 0 <= i < 32 ensures Step(Xor(a, b), x != y)[i] == Xor(Step(a, x), Step(b, y))[i] {
      StepBit(Xor(a, b), x != y, i);
      StepBit(a, x, i);
      StepBit(b, y, i);
    }
  }

  lemma {:induction false} RunLinear(a: Word32, b: Word32, x: seq<bool>, y: seq<bool>)
    requires |x| == |y|
    ensures Run(Xor(a, b), Xor(x, y)) == Xor(Run(a, x), Run(b, y))
    decreases |x|
  {
    hide Step;
    if x != [] {
      StepLinear(a, b, x[0], y[0]);
      assert Xor(x, y)[1..] == Xor(x[1..], y[1..]);
      RunLinear(Step(a, x[0]), Step(b, y[0]), x[1..], y[1..]);
    }
  }

  lemma XorSelf(a: Word32)
    ensures Xor(a, a) == ZERO32
  {}

  lemma XorZeroOnly(a: Word32, b: Word32)
    requires Xor(a, b) == ZERO32
    ensures a == b
  {
    forall i | 0 <= i < 32 ensures a[i] == b[i] { assert !Xor(a, b)[i]; }
  }

  lemma XorZero(a: Word32)
    ensures Xor(a, ZERO32) == a && Xor(ZERO32, a) == a
  {}

  /** Equal registers after x and y say exactly that the difference returns zero to zero. */
  lemma SameRegister(crc: Word32, x: seq<bool>, y: seq<bool>)
    requires |x| == |y|
    ensures Run(crc, x) == Run(crc, y) <==> Run(ZERO32, Xor(x, y)) == ZERO32
  {
    hide Step, Run;
    RunLinear(crc, crc, x, y);
    XorSelf(crc);
    XorSelf(Run(crc, x));
    if Run(ZERO32, Xor(x, y)) == ZERO32 { XorZeroOnly(Run(crc, x), Run(crc, y)); }
  }

  /** Undoing one step: if the register is divisible by 2^m after it, m > 0, then no feedback
      took place and it was divisible by 2^(m-1) before. */
  lemma StepBack(d: Word32, bit: bool, m: nat)
    requires 0 < m && LowZero(Step(d, bit), m)
    ensures d[31] == bit && LowZero(d, m - 1)
  {
    hide Step;
    GeneratorIsOdd();
    StepBit(d, bit, 0);
    forall i | 0 <= i < m - 1 ensures !d[i] { StepBit(d, bit, i + 1); }
  }

  lemma {:induction false} RunBack(d: Word32, e: seq<bool>, m: nat)
    requires |e| < m && LowZero(Run(d, e), m)
    ensures LowZero(d, m - |e|)
    decreases |e|
  {
    hide Step;
    if e != [] {
      RunBack(Step(d, e[0]), e[1..], m);
      StepBack(d, e[0], m - |e| + 1);
    }
  }

  lemma StepOnZero()
    ensures Step(ZERO32, false) == ZERO32
    ensures Step(ZERO32, true) == VALUE
  {
    hide Step;
    forall i | 0 <= i < 32 ensures Step(ZERO32, false)[i] == ZERO32[i] { StepBit(ZERO32, false, i); }
    forall i | 0 <= i < 32 ensures Step(ZERO32, true)[i] == VALUE[i] { StepBit(ZERO32, true, i); }
  }

  /** A stream of zeros keeps the register zero if and only if it was zero. */
  lemma {:induction false} ZeroStream(d: Word32, n: nat)
    ensures Run(d, Fill(n, false)) == ZERO32 <==> d == ZERO32
    decreases n
  {
    hide Step;
    if n > 0 {
      assert Fill(n, false)[1..] == Fill(n - 1, false);
      ZeroStream(Step(d, false), n - 1);
      StepOnZero();
      if Step(d, false) == ZERO32 {
        StepBack(d, false, 32);
        assert d == ZERO32;
      }
    }
  }

  lemma EndsInZeros(e: seq<bool>, n: nat)
    requires n <= |e| && forall i :: n <= i < |e| ==> !e[i]
    ensures e == e[..n] + Fill(|e| - n, false)
  {}

  /** Zeros at the end of a stream do not change whether the register is zero. */
  lemma AfterZeros(d: Word32, e: seq<bool>, n: nat)
    requires n <= |e| && forall i :: n <= i < |e| ==> !e[i]
    ensures Run(d, e) == ZERO32 <==> Run(d, e[..n]) == ZERO32
  {
    hide Step, Run;
    EndsInZeros(e, n);
    RunAppend(d, e[..n], Fill(|e| - n, false));
    ZeroStream(Run(d, e[..n]), |e| - n);
  }

  /** Zeros at the start leave the register at zero. */
  lemma BeforeZeros(f: nat, e: seq<bool>)
    ensures Run(ZERO32, Fill(f, false) + e) == Run(ZERO32, e)
  {
    hide Step, Run;
    RunAppend(ZERO32, Fill(f, false), e);
    ZeroStream(ZERO32, f);
  }

  /** The first one-bit loads the generator, an odd register, which 31 further bits cannot drive
      to zero. */
  lemma OneSurvives(rest: seq<bool>, k: nat)
    requires k <= 31 && k <= |rest| && forall i :: k <= i < |rest| ==> !rest[i]
    ensures Run(ZERO32, [true] + rest) != ZERO32
  {
    hide Step;
    assert ([true] + rest)[1..] == rest;
    StepOnZero();
    assert Run(ZERO32, [true] + rest) == Run(VALUE, rest);
    if Run(VALUE, rest) == ZERO32 {
      AfterZeros(VALUE, rest, k);
      RunBack(VALUE, rest[..k], 32);
      GeneratorIsOdd();
      assert false;
    }
  }

  lemma {:induction false} FirstDifference(x: seq<bool>, y: seq<bool>) returns (f: nat)
    requires |x| == |y| && x != y
    ensures f < |x| && x[f] != y[f] && forall i :: 0 <= i < f ==> x[i] == y[i]
  {
    f := 0;
    while x[f] == y[f]
      invariant f < |x| && forall i :: 0 <= i < f ==> x[i] == y[i]
      decreases |x| - f
    {
      if f + 1 == |x| { assert false; }
      f := f + 1;
    }
  }

  /** The difference of two streams whose first difference is at f, in a window that ends at
      `end`: zeros, a one, and nothing set from the end of the window on. */
  lemma DifferenceShape(x: seq<bool>, y: seq<bool>, f: nat, end: nat) returns (rest: seq<bool>, k: nat)
    requires |x| == |y| && f < |x| && x[f] != y[f] && f < end
    requires forall i :: 0 <= i < f || end <= i < |x| ==> x[i] == y[i]
    ensures Xor(x, y) == Fill(f, false) + ([true] + rest)
    ensures k <= |rest| && k < end - f && forall i :: k <= i < |rest| ==> !rest[i]
  {
    rest := Xor(x, y)[f + 1..];
    k := if end <= |x| then end - (f + 1) else |rest|;
  }

  /** Streams that differ only inside a window of 32 bits never reach the same register. */
  lemma BurstDetectedInBits(crc: Word32, x: seq<bool>, y: seq<bool>, w: nat)
    requires |x| == |y| && x != y
    requires forall k :: 0 <= k < |x| && !(w <= k < w + 32) ==> x[k] == y[k]
    ensures Run(crc, x) != Run(crc, y)
  {
    hide Step, Run;
    var f := FirstDifference(x, y);
    var rest, k := DifferenceShape(x, y, f, w + 32);
    BeforeZeros(f, [true] + rest);
    OneSurvives(rest, k);
    SameRegister(crc, x, y);
  }

  lemma {:induction false} SameMessage(a: seq<Word8>, b: seq<Word8>)
    requires |a| == |b| && MessageBits(a) == MessageBits(b)
    ensures a == b
    decreases |a|
  {
    if a != [] {
      assert MessageBits(a)[..8] == a[0] && MessageBits(b)[..8] == b[0];
      assert MessageBits(a)[8..] == MessageBits(a[1..]) && MessageBits(b)[8..] == MessageBits(b[1..]);
      SameMessage(a[1..], b[1..]);
      assert a == [a[0]] + a[1..] && b == [b[0]] + b[1..];
    }
  }

  /** No two registers print the same word. */
  lemma FcsWordInjective(a: Word32, b: Word32)
    requires FcsWord(a) == FcsWord(b)
    ensures a == b
  {
    hide ByteSwap;
    var x, y := ByteSwap(Reverse(a)), ByteSwap(Reverse(b));
    assert x == y by { forall i | 0 <= i < 32 ensures x[i] == y[i] { assert Not(x)[i] == Not(y)[i]; } }
    ByteSwapInvolution(Reverse(a));
    ByteSwapInvolution(Reverse(b));
    ReverseInvolution(a);
    ReverseInvolution(b);
  }

  /** Burst detection: two messages of the same length that differ, but only inside a window of
      32 consecutive bits, end with different registers and different printed words. */
  lemma BurstDetected(a: seq<Word8>, b: seq<Word8>, w: nat)
    requires |a| == |b| && a != b
    requires forall k :: 0 <= k < 8 * |a| && !(w <= k < w + 32) ==> MessageBits(a)[k] == MessageBits(b)[k]
    ensures Register(a) != Register(b)
    ensures FcsWord(Register(a)) != FcsWord(Register(b))
  {
    hide Step, Run, FcsWord;
    if MessageBits(a) == MessageBits(b) { SameMessage(a, b); }
    BurstDetectedInBits(ONES32, MessageBits(a), MessageBits(b), w);
    if FcsWord(Register(a)) == FcsWord(Register(b)) { FcsWordInjective(Register(a), Register(b)); }
  }

  /** Feeding the register its own top bits shifts it out without feedback. */
  lemma {:induction false} OwnBitsShiftOut(c: Word32, bits: seq<bool>)
    requires |bits| <= 32
    requires forall i :: 0 <= i < |bits| ==> bits[i] == c[31 - i]
    ensures Run(c, bits) == Shl(c, |bits|)
    decreases |bits|
  {
    hide Step;
    if bits == [] {
      assert Shl(c, 0) == c;
    } else {
      var next := Step(c, bits[0]);
      assert next == Shl(c, 1) by { forall i | 0 <= i < 32 ensures next[i] == Shl(c, 1)[i] { StepBit(c, bits[0], i); } }
      OwnBitsShiftOut(next, bits[1..]);
      assert Shl(Shl(c, 1), |bits| - 1) == Shl(c, |bits|);
    }
  }

  lemma OwnBitsCancel(c: Word32)
    ensures Run(c, Reverse(c)) == ZERO32
  {
    hide Step, Run;
    OwnBitsShiftOut(c, Reverse(c));
    assert Shl(c, 32) == ZERO32;
  }

  /** The 33 coefficients of the generator, highest power first. */
  function GeneratorBits(): (bits: seq<bool>)
    ensures |bits| == 33
  {
    [true] + Reverse(VALUE)
  }

  /** 33 bits that start with a one return the register to zero only as the generator. */
  lemma OnlyTheGenerator(rest: seq<bool>)
    requires |rest| == 32
    ensures Run(ZERO32, [true] + rest) == ZERO32 <==> rest == Reverse(VALUE)
  {
    hide Step;
    assert ([true] + rest)[1..] == rest;
    StepOnZero();
    OwnBitsCancel(VALUE);
    if rest != Reverse(VALUE) { BurstDetectedInBits(VALUE, rest, Reverse(VALUE), 0); }
  }

  /** The 32-bit window cannot be widened: in a window of 33 bits exactly one difference, the
      generator itself, goes undetected, whatever surrounds it. */
  lemma Window33(crc: Word32, x: seq<bool>, y: seq<bool>, w: nat)
    requires |x| == |y| && w + 33 <= |x| && x != y
    requires forall k :: 0 <= k < |x| && !(w <= k < w + 33) ==> x[k] == y[k]
    ensures Run(crc, x) == Run(crc, y) <==> Xor(x, y)[w..w + 33] == GeneratorBits()
  {
    hide Step, Run;
    var e := Xor(x, y);
    if x[w] == y[w] {
      BurstDetectedInBits(crc, x, y, w + 1);
      assert !e[w..w + 33][0];
    } else {
      SameRegister(crc, x, y);
      AfterZeros(ZERO32, e, w + 33);
      var rest := e[w + 1..w + 33];
      assert e[w..w + 33] == [true] + rest;
      assert e[..w + 33] == Fill(w, false) + ([true] + rest);
      BeforeZeros(w, [true] + rest);
      OnlyTheGenerator(rest);
      assert GeneratorBits()[1..] == Reverse(VALUE) && e[w..w + 33][1..] == rest;
    }
  }
}
