/** The register read backwards is the CRC of section 8 of RFC 1952, which shifts right and works
    byte by byte from a table. */
module CrcReflected {
  import opened BitWords
  import opened Crc32
  import opened CrcDetection

  /** 0xEDB88320 */
  const REFLECTED: Word32 := JoinBytes(HexPair(0xe, 0xd), HexPair(0xb, 0x8), HexPair(0x8, 0x3), HexPair(0x2, 0x0))

  /** The right-shifting step. */
  function ReflectedStep(crc: Word32, bit: bool): Word32
  {
    Xor(Shr(crc, 1), if crc[0] != bit then REFLECTED else ZERO32)
  }

  function ReflectedRun(crc: Word32, bits: seq<bool>): Word32
    decreases |bits|
  {
    if bits == [] then crc else ReflectedRun(ReflectedStep(crc, bits[0]), bits[1..])
  }

  /** The inner loop of `make_crc_table`. */
  function TableShifts(c: Word32, k: nat): Word32
    decreases k
  {
    if k == 0 then c
    else TableShifts(if c[0] then Xor(REFLECTED, Shr(c, 1)) else Shr(c, 1), k - 1)
  }

  /** `crc_table[n]` */
  function Table(n: Word8): Word32
  {
    TableShifts(ToWord(n), 8)
  }

  /** The loop of `update_crc`. */
  function UpdateCrc(c: Word32, buf: seq<Word8>): Word32
    decreases |buf|
  {
    if buf == [] then c
    else UpdateCrc(Xor(Table(ToByte(Xor(c, ToWord(buf[0])))), Shr(c, 8)), buf[1..])
  }

  /** `crc(buf, len)` of RFC 1952. */
  function Rfc1952Crc(buf: seq<Word8>): Word32
  {
    Not(UpdateCrc(ONES32, buf))
  }

  lemma ReversedBytes()
    ensures Reverse(HexPair(0xb, 0x7)) == HexPair(0xe, 0xd)
    ensures Reverse(HexPair(0x1, 0xd)) == HexPair(0xb, 0x8)
    ensures Reverse(HexPair(0xc, 0x1)) == HexPair(0x8, 0x3)
    ensures Reverse(HexPair(0x0, 0x4)) == HexPair(0x2, 0x0)
  {}

  lemma ReverseJoined(b3: Word8, b2: Word8, b1: Word8, b0: Word8)
    ensures Reverse(JoinBytes(b3, b2, b1, b0)) == JoinBytes(Reverse(b0), Reverse(b1), Reverse(b2), Reverse(b3))
  {}

  /** The two generators are each other's mirror image. */
  lemma ReversedGenerator()
    ensures Reverse(VALUE) == REFLECTED
  {
    hide HexPair, JoinBytes, Reverse;
    ReversedBytes();
    ReverseJoined(HexPair(0x0, 0x4), HexPair(0xc, 0x1), HexPair(0x1, 0xd), HexPair(0xb, 0x7));
  }

  /** The generator as a number, the coefficient of x^31 on top, and its mirror image. */
  lemma GeneratorValues()
    ensures Value(VALUE) == 0x04C1_1DB7
    ensures Value(REFLECTED) == 0xEDB8_8320
  {
    hide Value, HexPair, JoinBytes;
    WordValue(0x0, 0x4, 0xc, 0x1, 0x1, 0xd, 0xb, 0x7);
    WordValue(0xe, 0xd, 0xb, 0x8, 0x8, 0x3, 0x2, 0x0);
    assert VALUE == JoinBytes(HexPair(0x0, 0x4), HexPair(0xc, 0x1), HexPair(0x1, 0xd), HexPair(0xb, 0x7));
    assert REFLECTED == JoinBytes(HexPair(0xe, 0xd), HexPair(0xb, 0x8), HexPair(0x8, 0x3), HexPair(0x2, 0x0));
  }

  lemma ReversedStep(crc: Word32, bit: bool)
    ensures Reverse(Step(crc, bit)) == ReflectedStep(Reverse(crc), bit)
  {
    hide Step, VALUE, REFLECTED;
    ReversedGenerator();
    var l, r := Reverse(Step(crc, bit)), ReflectedStep(Reverse(crc), bit);
    forall i | 0 <= i < 32 ensures l[i] == r[i] {
      StepBit(crc, bit, 31 - i);
      assert REFLECTED[i] == VALUE[31 - i];
    }
  }

  /** Reading the register backwards after any stream gives the right-shifting recurrence. */
  lemma {:induction false} ReversedRun(crc: Word32, bits: seq<bool>)
    ensures Reverse(Run(crc, bits)) == ReflectedRun(Reverse(crc), bits)
    decreases |bits|
  {
    hide Step, ReflectedStep, Reverse;
    if bits != [] {
      ReversedStep(crc, bits[0]);
      ReversedRun(Step(crc, bits[0]), bits[1..]);
    }
  }

  lemma ReflectedStepBit(crc: Word32, bit: bool, i: nat)
    requires i < 32
    ensures ReflectedStep(crc, bit)[i] == ((i < 31 && crc[i + 1]) != (crc[0] != bit && REFLECTED[i]))
  {
    hide REFLECTED;
  }

  lemma ShiftIsStep(c: Word32)
    ensures (if c[0] then Xor(REFLECTED, Shr(c, 1)) else Shr(c, 1)) == ReflectedStep(c, false)
  {
    hide REFLECTED;
  }

  lemma TableShiftsNext(c: Word32, k: nat)
    requires k > 0
    ensures TableShifts(c, k) == TableShifts(ReflectedStep(c, false), k - 1)
  {
    hide ReflectedStep, REFLECTED;
    ShiftIsStep(c);
  }

  lemma ReflectedStepLinear(a: Word32, b: Word32, x: bool, y: bool)
    ensures ReflectedStep(Xor(a, b), x != y) == Xor(ReflectedStep(a, x), ReflectedStep(b, y))
  {
    hide ReflectedStep;
    var l, r := ReflectedStep(Xor(a, b), x != y), Xor(ReflectedStep(a, x), ReflectedStep(b, y));
    forall i | 0 <= i < 32 ensures l[i] == r[i] {
      ReflectedStepBit(Xor(a, b), x != y, i);
      ReflectedStepBit(a, x, i);
      ReflectedStepBit(b, y, i);
    }
  }

  lemma {:induction false} TableShiftsLinear(a: Word32, b: Word32, k: nat)
    ensures TableShifts(Xor(a, b), k) == Xor(TableShifts(a, k), TableShifts(b, k))
    decreases k
  {
    hide ReflectedStep;
    if k > 0 {
      TableShiftsNext(Xor(a, b), k);
      TableShiftsNext(a, k);
      TableShiftsNext(b, k);
      ReflectedStepLinear(a, b, false, false);
      TableShiftsLinear(ReflectedStep(a, false), ReflectedStep(b, false), k - 1);
    }
  }

  /** A word without low bits is only shifted. */
  lemma {:induction false} TableShiftsHigh(c: Word32, k: nat)
    requires k <= 32 && forall i :: 0 <= i < k ==> !c[i]
    ensures TableShifts(c, k) == Shr(c, k)
    decreases k
  {
    hide ReflectedStep;
    if k == 0 {
      assert Shr(c, 0) == c;
    } else {
      var next := ReflectedStep(c, false);
      forall i | 0 <= i < 32 ensures next[i] == Shr(c, 1)[i] { ReflectedStepBit(c, false, i); }
      assert next == Shr(c, 1);
      TableShiftsNext(c, k);
      TableShiftsHigh(next, k - 1);
      assert Shr(Shr(c, 1), k - 1) == Shr(c, k);
    }
  }

  /** Data bits may be exchanged for register bits before the shifts begin. */
  lemma {:induction false} FoldedBits(c: Word32, bits: seq<bool>)
    requires |bits| <= 32
    ensures ReflectedRun(c, bits) == TableShifts(Xor(c, bits + Fill(32 - |bits|, false)), |bits|)
    decreases |bits|
  {
    hide ReflectedStep;
    var data: Word32 := bits + Fill(32 - |bits|, false);
    if bits == [] {
      assert Xor(c, data) == c;
    } else {
      var rest := bits[1..];
      var data': Word32 := rest + Fill(32 - |rest|, false);
      var l, r := ReflectedStep(Xor(c, data), false), Xor(ReflectedStep(c, bits[0]), data');
      forall i | 0 <= i < 32 ensures l[i] == r[i] {
        ReflectedStepBit(Xor(c, data), false, i);
        ReflectedStepBit(c, bits[0], i);
      }
      assert l == r;
      TableShiftsNext(Xor(c, data), |bits|);
      FoldedBits(ReflectedStep(c, bits[0]), rest);
    }
  }

  lemma SplitWord(d: Word32)
    ensures d == Xor(ToWord(ToByte(d)), Fill(8, false) + d[8..])
    ensures Shr(Fill(8, false) + d[8..], 8) == Shr(d, 8)
  {}

  /** One table step takes in eight bits. */
  lemma TableStep(c: Word32, b: Word8)
    ensures ReflectedRun(c, b) == Xor(Table(ToByte(Xor(c, ToWord(b)))), Shr(c, 8))
  {
    hide ReflectedRun, TableShifts, ToByte;
    FoldedBits(c, b);
    var d := Xor(c, ToWord(b));
    SplitWord(d);
    TableShiftsLinear(ToWord(ToByte(d)), Fill(8, false) + d[8..], 8);
    TableShiftsHigh(Fill(8, false) + d[8..], 8);
    assert Shr(d, 8) == Shr(c, 8);
  }

  lemma {:induction false} ReflectedRunAppend(crc: Word32, a: seq<bool>, b: seq<bool>)
    ensures ReflectedRun(crc, a + b) == ReflectedRun(ReflectedRun(crc, a), b)
    decreases |a|
  {
    hide ReflectedStep;
    if a == [] {
      assert a + b == b;
    } else {
      assert (a + b)[1..] == a[1..] + b;
      ReflectedRunAppend(ReflectedStep(crc, a[0]), a[1..], b);
    }
  }

  lemma {:induction false} UpdateIsRun(c: Word32, buf: seq<Word8>)
    ensures UpdateCrc(c, buf) == ReflectedRun(c, MessageBits(buf))
    decreases |buf|
  {
    hide ReflectedRun, Table, ToByte, ToWord, Shr;
    if buf == [] {
      assert ReflectedRun(c, []) == c by { NothingRun(c); }
    } else {
      TableStep(c, buf[0]);
      ReflectedRunAppend(c, buf[0], MessageBits(buf[1..]));
      UpdateIsRun(ReflectedRun(c, buf[0]), buf[1..]);
    }
  }

  lemma NothingRun(c: Word32)
    ensures ReflectedRun(c, []) == c
  {}

  /** The printed word is the RFC 1952 CRC of the same bytes with its bytes swapped, and the
      register is that CRC complemented and read backwards. */
  lemma PrintedIsSwappedRfc1952(msg: seq<Word8>)
    ensures FcsWord(Register(msg)) == ByteSwap(Rfc1952Crc(msg))
    ensures Register(msg) == Reverse(Not(Rfc1952Crc(msg)))
  {
    hide Run, ReflectedRun, MessageBits, UpdateCrc, ByteSwap;
    ReversedRun(ONES32, MessageBits(msg));
    assert Reverse(ONES32) == ONES32;
    UpdateIsRun(ONES32, msg);
    ByteSwapNot(UpdateCrc(ONES32, msg));
    ReverseInvolution(Register(msg));
    assert Not(Rfc1952Crc(msg)) == UpdateCrc(ONES32, msg);
  }
}
