/** The constant residue: a frame followed by its own printed check sequence always leaves the
    register at the same value. */
module CrcResidue {
  import opened BitWords
  import opened Characters
  import opened Unsigned
  import opened Crc32
  import opened CrcDetection

  /** 0xC704DD7B */
  const RESIDUE: Word32 := JoinBytes(HexPair(0xc, 0x7), HexPair(0x0, 0x4), HexPair(0xd, 0xd), HexPair(0x7, 0xb))

  /** What the program prints for a frame followed by its own printed word, 0x1CDF4421. */
  const SELF_CHECK: Word32 := JoinBytes(HexPair(0x1, 0xc), HexPair(0xd, 0xf), HexPair(0x4, 0x4), HexPair(0x2, 0x1))

  function NibbleOf(bits: seq<bool>): (d: Nibble)
    requires |bits| == 4
    ensures NibbleBits(d) == bits
  {
    (if bits[0] then 1 else 0) + (if bits[1] then 2 else 0) + (if bits[2] then 4 else 0) + (if bits[3] then 8 else 0)
  }

  function HexChar(d: Nibble): (c: Uint8)
    ensures IsHexDigit(c) && HexValue(c) == d
  {
    if d < 10 then '0' as int + d else 'A' as int + (d - 10)
  }

  /** `printf("%02X")`. */
  function PrintByte(b: Word8): (text: seq<Uint8>)
  {
    [HexChar(NibbleOf(b[4..])), HexChar(NibbleOf(b[..4]))]
  }

  /** `printf("%08X")`: eight digits, most significant first. */
  function PrintHex(w: Word32): (text: seq<Uint8>)
  {
    PrintByte(ByteAt(w, 3)) + PrintByte(ByteAt(w, 2)) + PrintByte(ByteAt(w, 1)) + PrintByte(ByteAt(w, 0))
  }

  /** The bytes that the eight printed digits stand for. */
  function PrintedBytes(w: Word32): (bytes: seq<Word8>)
  {
    [ByteAt(w, 3)] + [ByteAt(w, 2)] + [ByteAt(w, 1)] + [ByteAt(w, 0)]
  }

  /** A text without a '!' is read digit by digit, in order. */
  lemma {:induction false} HexDigitsAppend(a: seq<Uint8>, b: seq<Uint8>)
    requires '!' as int !in a
    ensures HexDigits(a + b) == HexDigits(a) + HexDigits(b)
    decreases |a|
  {
    if a == [] {
      assert a + b == b;
    } else {
      assert (a + b)[1..] == a[1..] + b;
      HexDigitsAppend(a[1..], b);
    }
  }

  lemma {:induction false} PairUpAppend(a: seq<Nibble>, b: seq<Nibble>)
    requires |a| % 2 == 0
    ensures PairUp(a + b) == PairUp(a) + PairUp(b)
    decreases |a|
  {
    if a == [] {
      assert a + b == b;
    } else {
      assert (a + b)[2..] == a[2..] + b;
      PairUpAppend(a[2..], b);
    }
  }

  /** A text with whole bytes in it can be continued by another. */
  lemma HexBytesAppend(a: seq<Uint8>, b: seq<Uint8>)
    requires '!' as int !in a && |HexDigits(a)| % 2 == 0
    ensures HexBytes(a + b) == HexBytes(a) + HexBytes(b)
  {
    HexDigitsAppend(a, b);
    PairUpAppend(HexDigits(a), HexDigits(b));
  }

  lemma ReadDigit(d: Nibble, rest: seq<Uint8>)
    ensures HexDigits([HexChar(d)] + rest) == [d] + HexDigits(rest)
  {
    hide HexChar;
    assert ([HexChar(d)] + rest)[1..] == rest;
  }

  lemma ReadPrintedByte(b: Word8)
    ensures |HexDigits(PrintByte(b))| == 2 && HexBytes(PrintByte(b)) == [b]
    ensures '!' as int !in PrintByte(b)
  {
    hide NibbleOf, HexChar, NibbleBits, HexDigits;
    var hi, lo := NibbleOf(b[4..]), NibbleOf(b[..4]);
    ReadDigit(hi, [HexChar(lo)]);
    ReadDigit(lo, []);
    assert PrintByte(b) == [HexChar(hi)] + [HexChar(lo)] && [HexChar(lo)] + [] == [HexChar(lo)];
    assert HexDigits([]) == [] by { ReadNothing(); }
    assert HexDigits(PrintByte(b)) == [hi, lo];
    assert [hi, lo][2..] == [];
    assert PairUp([hi, lo]) == [HexPair(hi, lo)];
    assert HexPair(hi, lo) == b[..4] + b[4..] == b;
  }

  lemma ReadNothing()
    ensures HexDigits([]) == []
  {}

  /** Reading the printed digits back gives the bytes of the printed word, top byte first. */
  lemma PrintedHexRoundTrip(w: Word32)
    ensures HexBytes(PrintHex(w)) == PrintedBytes(w)
    ensures '!' as int !in PrintHex(w)
  {
    hide PrintByte, HexBytes, ByteAt;
    var b3, b2, b1, b0 := ByteAt(w, 3), ByteAt(w, 2), ByteAt(w, 1), ByteAt(w, 0);
    ReadPrintedByte(b3);
    ReadPrintedByte(b2);
    ReadPrintedByte(b1);
    ReadPrintedByte(b0);
    var t3, t2, t1, t0 := PrintByte(b3), PrintByte(b2), PrintByte(b1), PrintByte(b0);
    HexBytesAppend(t3, t2 + (t1 + t0));
    HexBytesAppend(t2, t1 + t0);
    HexBytesAppend(t1, t0);
    assert PrintHex(w) == t3 + (t2 + (t1 + t0));
  }

  lemma {:induction false} MessageBitsAppend(a: seq<Word8>, b: seq<Word8>)
    ensures MessageBits(a + b) == MessageBits(a) + MessageBits(b)
    decreases |a|
  {
    if a == [] {
      assert a + b == b;
    } else {
      assert (a + b)[1..] == a[1..] + b;
      MessageBitsAppend(a[1..], b);
    }
  }

  lemma ByteBits(b: Word8)
    ensures MessageBits([b]) == b
  {
    assert MessageBits([b]) == b + MessageBits([]);
  }

  lemma PrintedBits(w: Word32)
    ensures MessageBits(PrintedBytes(w)) == ByteSwap(w)
  {
    hide ByteAt, MessageBits;
    var b3, b2, b1, b0 := ByteAt(w, 3), ByteAt(w, 2), ByteAt(w, 1), ByteAt(w, 0);
    MessageBitsAppend([b3] + [b2] + [b1], [b0]);
    MessageBitsAppend([b3] + [b2], [b1]);
    MessageBitsAppend([b3], [b2]);
    ByteBits(b3);
    ByteBits(b2);
    ByteBits(b1);
    ByteBits(b0);
  }

  /** The printed bytes carry the complemented register, top bit first. */
  lemma PrintedFcsBits(crc: Word32)
    ensures MessageBits(PrintedBytes(FcsWord(crc))) == Not(Reverse(crc))
  {
    hide ByteSwap, PrintedBytes, MessageBits, Reverse;
    PrintedBits(FcsWord(crc));
    ByteSwapNot(ByteSwap(Reverse(crc)));
    ByteSwapInvolution(Reverse(crc));
  }

  /** A register as its eight hex digits, in which single steps are cheap to evaluate. */
  datatype Hex = Hex(d7: Nibble, d6: Nibble, d5: Nibble, d4: Nibble,
                     d3: Nibble, d2: Nibble, d1: Nibble, d0: Nibble)

  function FromHex(h: Hex): Word32
  {
    JoinBytes(HexPair(h.d7, h.d6), HexPair(h.d5, h.d4), HexPair(h.d3, h.d2), HexPair(h.d1, h.d0))
  }

  /** A digit shifted left by one, the top bit of the digit below it coming in. */
  function Doubled(d: Nibble, below: Nibble): Nibble
  {
    (if d < 8 then 2 * d as int else 2 * d as int - 16) + (if below < 8 then 0 else 1)
  }

  /** A digit with one of its bits flipped, or all of them. */
  function Xor1(d: Nibble): Nibble
  {
    if d == 0 || d == 2 || d == 4 || d == 6 || d == 8 || d == 10 || d == 12 || d == 14 then d + 1 else d - 1
  }

  function Xor2(d: Nibble): Nibble
  {
    if d < 2 || 4 <= d < 6 || 8 <= d < 10 || 12 <= d < 14 then d + 2 else d - 2
  }

  function Xor4(d: Nibble): Nibble
  {
    if d < 4 || 8 <= d < 12 then d + 4 else d - 4
  }

  function Xor8(d: Nibble): Nibble
  {
    if d < 8 then d + 8 else d - 8
  }

  function Xor15(d: Nibble): Nibble
  {
    15 - d
  }

  function HexDouble(h: Hex): Hex
  {
    Hex(Doubled(h.d7, h.d6), Doubled(h.d6, h.d5), Doubled(h.d5, h.d4), Doubled(h.d4, h.d3),
        Doubled(h.d3, h.d2), Doubled(h.d2, h.d1), Doubled(h.d1, h.d0), Doubled(h.d0, 0))
  }

  /** Exclusive or with 0x04c11db7, digit by digit. */
  function HexXorValue(h: Hex): Hex
  {
    Hex(h.d7, Xor4(h.d6), Xor8(Xor4(h.d5)), Xor1(h.d4),
        Xor1(h.d3), Xor15(Xor2(h.d2)), Xor15(Xor4(h.d1)), Xor15(Xor8(h.d0)))
  }

  /** A step on a one-bit, digit by digit. */
  function HexStep(h: Hex): Hex
  {
    if h.d7 < 8 then HexXorValue(HexDouble(h)) else HexDouble(h)
  }

  lemma XorOneBit(d: Nibble)
    ensures NibbleBits(d) == Xor(NibbleBits(d), NibbleBits(0x0))
    ensures NibbleBits(Xor1(d)) == Xor(NibbleBits(d), NibbleBits(0x1))
    ensures NibbleBits(Xor4(d)) == Xor(NibbleBits(d), NibbleBits(0x4))
  {}

  lemma XorMoreBits(d: Nibble)
    ensures NibbleBits(Xor15(Xor8(d))) == Xor(NibbleBits(d), NibbleBits(0x7))
    ensures NibbleBits(Xor15(Xor4(d))) == Xor(NibbleBits(d), NibbleBits(0xb))
  {}

  lemma XorTwoBits(d: Nibble)
    ensures NibbleBits(Xor8(Xor4(d))) == Xor(NibbleBits(d), NibbleBits(0xc))
    ensures NibbleBits(Xor15(Xor2(d))) == Xor(NibbleBits(d), NibbleBits(0xd))
  {}

  lemma XorPair(hi: Nibble, lo: Nibble, khi: Nibble, klo: Nibble, rhi: Nibble, rlo: Nibble)
    requires NibbleBits(rhi) == Xor(NibbleBits(hi), NibbleBits(khi))
    requires NibbleBits(rlo) == Xor(NibbleBits(lo), NibbleBits(klo))
    ensures HexPair(rhi, rlo) == Xor(HexPair(hi, lo), HexPair(khi, klo))
  {
    hide NibbleBits;
  }

  lemma XorJoined(b3: Word8, b2: Word8, b1: Word8, b0: Word8, c3: Word8, c2: Word8, c1: Word8, c0: Word8)
    ensures JoinBytes(Xor(b3, c3), Xor(b2, c2), Xor(b1, c1), Xor(b0, c0))
            == Xor(JoinBytes(b3, b2, b1, b0), JoinBytes(c3, c2, c1, c0))
  {}

  lemma HexXorValueIsXor(h: Hex)
    ensures FromHex(HexXorValue(h)) == Xor(FromHex(h), VALUE)
  {
    hide NibbleBits, HexPair, JoinBytes, Xor1, Xor2, Xor4, Xor8, Xor15;
    var r := HexXorValue(h);
    XorOneBit(h.d7);
    XorOneBit(h.d6);
    XorPair(h.d7, h.d6, 0x0, 0x4, r.d7, r.d6);
    XorTwoBits(h.d5);
    XorOneBit(h.d4);
    XorPair(h.d5, h.d4, 0xc, 0x1, r.d5, r.d4);
    XorOneBit(h.d3);
    XorTwoBits(h.d2);
    XorPair(h.d3, h.d2, 0x1, 0xd, r.d3, r.d2);
    XorMoreBits(h.d1);
    XorMoreBits(h.d0);
    XorPair(h.d1, h.d0, 0xb, 0x7, r.d1, r.d0);
    XorJoined(HexPair(h.d7, h.d6), HexPair(h.d5, h.d4), HexPair(h.d3, h.d2), HexPair(h.d1, h.d0),
              HexPair(0x0, 0x4), HexPair(0xc, 0x1), HexPair(0x1, 0xd), HexPair(0xb, 0x7));
  }

  /** Digit k of a register, k counted from the least significant end. */
  function DigitAt(h: Hex, k: nat): Nibble
    requires k < 8
  {
    if k == 0 then h.d0 else if k == 1 then h.d1 else if k == 2 then h.d2 else if k == 3 then h.d3
    else if k == 4 then h.d4 else if k == 5 then h.d5 else if k == 6 then h.d6 else h.d7
  }

  lemma FromHexAt(h: Hex, k: nat, i: nat)
    requires k < 8 && i < 4
    ensures FromHex(h)[4 * k + i] == NibbleBits(DigitAt(h, k))[i]
  {
    hide NibbleBits;
    if k < 4 { if k == 0 {} else if k == 1 {} else if k == 2 {} else {} }
    else { if k == 4 {} else if k == 5 {} else if k == 6 {} else {} }
  }

  lemma DoubledBits(d: Nibble, below: Nibble)
    ensures NibbleBits(Doubled(d, below)) == [NibbleBits(below)[3]] + NibbleBits(d)[..3]
  {}

  lemma HexDoubleAt(h: Hex, k: nat)
    requires k < 8
    ensures DigitAt(HexDouble(h), k) == Doubled(DigitAt(h, k), if k == 0 then 0 else DigitAt(h, k - 1))
  {}

  lemma HexDoubleIsShift(h: Hex)
    ensures FromHex(HexDouble(h)) == Shl(FromHex(h), 1)
  {
    hide FromHex, HexDouble, DigitAt;
    forall j | 0 <= j < 32 ensures FromHex(HexDouble(h))[j] == Shl(FromHex(h), 1)[j] {
      ShiftedDigitBit(h, j / 4, j % 4);
    }
  }

  lemma ShiftedDigitBit(h: Hex, k: nat, i: nat)
    requires k < 8 && i < 4
    ensures FromHex(HexDouble(h))[4 * k + i] == (4 * k + i > 0 && FromHex(h)[4 * k + i - 1])
  {
    hide FromHex, HexDouble, DigitAt, NibbleBits, Doubled;
    var below := if k == 0 then 0 else DigitAt(h, k - 1);
    FromHexAt(HexDouble(h), k, i);
    HexDoubleAt(h, k);
    DoubledBits(DigitAt(h, k), below);
    if i > 0 {
      FromHexAt(h, k, i - 1);
    } else if k > 0 {
      FromHexAt(h, k - 1, 3);
    } else {
      assert !NibbleBits(0)[3] by { NoTopBit(); }
    }
  }

  lemma NoTopBit()
    ensures !NibbleBits(0)[3]
  {}

  lemma TopBit(h: Hex)
    ensures FromHex(h)[31] == (h.d7 >= 8)
  {
    FromHexAt(h, 7, 3);
  }

  lemma HexStepIsStep(h: Hex)
    ensures FromHex(HexStep(h)) == Step(FromHex(h), true)
  {
    hide FromHex, HexDouble, HexXorValue, VALUE;
    TopBit(h);
    HexDoubleIsShift(h);
    HexXorValueIsXor(HexDouble(h));
    XorZero(Shl(FromHex(h), 1));
  }

  function HexRun(h: Hex, n: nat): Hex
    decreases n, h
  {
    if n == 0 then h else HexRun(HexStep(h), n - 1)
  }

  lemma {:induction false} HexRunIsRun(h: Hex, n: nat)
    ensures FromHex(HexRun(h, n)) == Run(FromHex(h), Fill(n, true))
    decreases n
  {
    hide HexStep, FromHex, Step;
    if n > 0 {
      HexStepIsStep(h);
      assert Fill(n, true)[1..] == Fill(n - 1, true);
      HexRunIsRun(HexStep(h), n - 1);
    }
  }

  lemma NoStep(h: Hex)
    ensures HexRun(h, 0) == h
  {}

  lemma OneStep(h: Hex, next: Hex, n: nat)
    requires HexStep(h) == next
    ensures HexRun(h, n + 1) == HexRun(next, n)
  {}

  lemma Steps1To4(n: nat)
    ensures HexRun(Hex(0x0, 0x0, 0x0, 0x0, 0x0, 0x0, 0x0, 0x0), n + 4)
         == HexRun(Hex(0x3, 0x8, 0x4, 0xf, 0xb, 0xd, 0xb, 0xd), n)
  {
    OneStep(Hex(0x0, 0x0, 0x0, 0x0, 0x0, 0x0, 0x0, 0x0), Hex(0x0, 0x4, 0xc, 0x1, 0x1, 0xd, 0xb, 0x7), n + 3);
    OneStep(Hex(0x0, 0x4, 0xc, 0x1, 0x1, 0xd, 0xb, 0x7), Hex(0x0, 0xd, 0x4, 0x3, 0x2, 0x6, 0xd, 0x9), n + 2);
    OneStep(Hex(0x0, 0xd, 0x4, 0x3, 0x2, 0x6, 0xd, 0x9), Hex(0x1, 0xe, 0x4, 0x7, 0x5, 0x0, 0x0, 0x5), n + 1);
    OneStep(Hex(0x1, 0xe, 0x4, 0x7, 0x5, 0x0, 0x0, 0x5), Hex(0x3, 0x8, 0x4, 0xf, 0xb, 0xd, 0xb, 0xd), n);
  }

  lemma Steps5To8(n: nat)
    ensures HexRun(Hex(0x3, 0x8, 0x4, 0xf, 0xb, 0xd, 0xb, 0xd), n + 4)
         == HexRun(Hex(0xb, 0x1, 0xf, 0x7, 0x4, 0x0, 0xb, 0x4), n)
  {
    OneStep(Hex(0x3, 0x8, 0x4, 0xf, 0xb, 0xd, 0xb, 0xd), Hex(0x7, 0x4, 0x5, 0xe, 0x6, 0x6, 0xc, 0xd), n + 3);
    OneStep(Hex(0x7, 0x4, 0x5, 0xe, 0x6, 0x6, 0xc, 0xd), Hex(0xe, 0xc, 0x7, 0xd, 0xd, 0x0, 0x2, 0xd), n + 2);
    OneStep(Hex(0xe, 0xc, 0x7, 0xd, 0xd, 0x0, 0x2, 0xd), Hex(0xd, 0x8, 0xf, 0xb, 0xa, 0x0, 0x5, 0xa), n + 1);
    OneStep(Hex(0xd, 0x8, 0xf, 0xb, 0xa, 0x0, 0x5, 0xa), Hex(0xb, 0x1, 0xf, 0x7, 0x4, 0x0, 0xb, 0x4), n);
  }

  lemma Steps9To12(n: nat)
    ensures HexRun(Hex(0xb, 0x1, 0xf, 0x7, 0x4, 0x0, 0xb, 0x4), n + 4)
         == HexRun(Hex(0x0, 0xc, 0x7, 0x0, 0x7, 0xd, 0x9, 0xc), n)
  {
    OneStep(Hex(0xb, 0x1, 0xf, 0x7, 0x4, 0x0, 0xb, 0x4), Hex(0x6, 0x3, 0xe, 0xe, 0x8, 0x1, 0x6, 0x8), n + 3);
    OneStep(Hex(0x6, 0x3, 0xe, 0xe, 0x8, 0x1, 0x6, 0x8), Hex(0xc, 0x3, 0x1, 0xc, 0x1, 0xf, 0x6, 0x7), n + 2);
    OneStep(Hex(0xc, 0x3, 0x1, 0xc, 0x1, 0xf, 0x6, 0x7), Hex(0x8, 0x6, 0x3, 0x8, 0x3, 0xe, 0xc, 0xe), n + 1);
    OneStep(Hex(0x8, 0x6, 0x3, 0x8, 0x3, 0xe, 0xc, 0xe), Hex(0x0, 0xc, 0x7, 0x0, 0x7, 0xd, 0x9, 0xc), n);
  }

  lemma Steps13To16(n: nat)
    ensures HexRun(Hex(0x0, 0xc, 0x7, 0x0, 0x7, 0xd, 0x9, 0xc), n + 4)
         == HexRun(Hex(0xf, 0xf, 0x4, 0x8, 0x6, 0x4, 0x7, 0xd), n)
  {
    OneStep(Hex(0x0, 0xc, 0x7, 0x0, 0x7, 0xd, 0x9, 0xc), Hex(0x1, 0xc, 0x2, 0x1, 0xe, 0x6, 0x8, 0xf), n + 3);
    OneStep(Hex(0x1, 0xc, 0x2, 0x1, 0xe, 0x6, 0x8, 0xf), Hex(0x3, 0xc, 0x8, 0x2, 0xd, 0x0, 0xa, 0x9), n + 2);
    OneStep(Hex(0x3, 0xc, 0x8, 0x2, 0xd, 0x0, 0xa, 0x9), Hex(0x7, 0xd, 0xc, 0x4, 0xb, 0xc, 0xe, 0x5), n + 1);
    OneStep(Hex(0x7, 0xd, 0xc, 0x4, 0xb, 0xc, 0xe, 0x5), Hex(0xf, 0xf, 0x4, 0x8, 0x6, 0x4, 0x7, 0xd), n);
  }

  lemma Steps17To20(n: nat)
    ensures HexRun(Hex(0xf, 0xf, 0x4, 0x8, 0x6, 0x4, 0x7, 0xd), n + 4)
         == HexRun(Hex(0xf, 0x4, 0x8, 0x6, 0x4, 0x7, 0xd, 0x0), n)
  {
    OneStep(Hex(0xf, 0xf, 0x4, 0x8, 0x6, 0x4, 0x7, 0xd), Hex(0xf, 0xe, 0x9, 0x0, 0xc, 0x8, 0xf, 0xa), n + 3);
    OneStep(Hex(0xf, 0xe, 0x9, 0x0, 0xc, 0x8, 0xf, 0xa), Hex(0xf, 0xd, 0x2, 0x1, 0x9, 0x1, 0xf, 0x4), n + 2);
    OneStep(Hex(0xf, 0xd, 0x2, 0x1, 0x9, 0x1, 0xf, 0x4), Hex(0xf, 0xa, 0x4, 0x3, 0x2, 0x3, 0xe, 0x8), n + 1);
    OneStep(Hex(0xf, 0xa, 0x4, 0x3, 0x2, 0x3, 0xe, 0x8), Hex(0xf, 0x4, 0x8, 0x6, 0x4, 0x7, 0xd, 0x0), n);
  }

  lemma Steps21To24(n: nat)
    ensures HexRun(Hex(0xf, 0x4, 0x8, 0x6, 0x4, 0x7, 0xd, 0x0), n + 4)
         == HexRun(Hex(0x4, 0x8, 0x6, 0x4, 0x7, 0xd, 0x0, 0x0), n)
  {
    OneStep(Hex(0xf, 0x4, 0x8, 0x6, 0x4, 0x7, 0xd, 0x0), Hex(0xe, 0x9, 0x0, 0xc, 0x8, 0xf, 0xa, 0x0), n + 3);
    OneStep(Hex(0xe, 0x9, 0x0, 0xc, 0x8, 0xf, 0xa, 0x0), Hex(0xd, 0x2, 0x1, 0x9, 0x1, 0xf, 0x4, 0x0), n + 2);
    OneStep(Hex(0xd, 0x2, 0x1, 0x9, 0x1, 0xf, 0x4, 0x0), Hex(0xa, 0x4, 0x3, 0x2, 0x3, 0xe, 0x8, 0x0), n + 1);
    OneStep(Hex(0xa, 0x4, 0x3, 0x2, 0x3, 0xe, 0x8, 0x0), Hex(0x4, 0x8, 0x6, 0x4, 0x7, 0xd, 0x0, 0x0), n);
  }

  lemma Steps25To28(n: nat)
    ensures HexRun(Hex(0x4, 0x8, 0x6, 0x4, 0x7, 0xd, 0x0, 0x0), n + 4)
         == HexRun(Hex(0xa, 0xd, 0x0, 0xc, 0x1, 0xb, 0x6, 0x1), n)
  {
    OneStep(Hex(0x4, 0x8, 0x6, 0x4, 0x7, 0xd, 0x0, 0x0), Hex(0x9, 0x4, 0x0, 0x9, 0xe, 0x7, 0xb, 0x7), n + 3);
    OneStep(Hex(0x9, 0x4, 0x0, 0x9, 0xe, 0x7, 0xb, 0x7), Hex(0x2, 0x8, 0x1, 0x3, 0xc, 0xf, 0x6, 0xe), n + 2);
    OneStep(Hex(0x2, 0x8, 0x1, 0x3, 0xc, 0xf, 0x6, 0xe), Hex(0x5, 0x4, 0xe, 0x6, 0x8, 0x3, 0x6, 0xb), n + 1);
    OneStep(Hex(0x5, 0x4, 0xe, 0x6, 0x8, 0x3, 0x6, 0xb), Hex(0xa, 0xd, 0x0, 0xc, 0x1, 0xb, 0x6, 0x1), n);
  }

  lemma Steps29To32(n: nat)
    ensures HexRun(Hex(0xa, 0xd, 0x0, 0xc, 0x1, 0xb, 0x6, 0x1), n + 4)
         == HexRun(Hex(0xc, 0x7, 0x0, 0x4, 0xd, 0xd, 0x7, 0xb), n)
  {
    OneStep(Hex(0xa, 0xd, 0x0, 0xc, 0x1, 0xb, 0x6, 0x1), Hex(0x5, 0xa, 0x1, 0x8, 0x3, 0x6, 0xc, 0x2), n + 3);
    OneStep(Hex(0x5, 0xa, 0x1, 0x8, 0x3, 0x6, 0xc, 0x2), Hex(0xb, 0x0, 0xf, 0x1, 0x7, 0x0, 0x3, 0x3), n + 2);
    OneStep(Hex(0xb, 0x0, 0xf, 0x1, 0x7, 0x0, 0x3, 0x3), Hex(0x6, 0x1, 0xe, 0x2, 0xe, 0x0, 0x6, 0x6), n + 1);
    OneStep(Hex(0x6, 0x1, 0xe, 0x2, 0xe, 0x0, 0x6, 0x6), Hex(0xc, 0x7, 0x0, 0x4, 0xd, 0xd, 0x7, 0xb), n);
  }

  lemma HexRunOfOnes()
    ensures HexRun(Hex(0x0, 0x0, 0x0, 0x0, 0x0, 0x0, 0x0, 0x0), 32) == Hex(0xc, 0x7, 0x0, 0x4, 0xd, 0xd, 0x7, 0xb)
  {
    hide HexRun;
    Steps1To4(28);
    Steps5To8(24);
    Steps9To12(20);
    Steps13To16(16);
    Steps17To20(12);
    Steps21To24(8);
    Steps25To28(4);
    Steps29To32(0);
    NoStep(Hex(0xc, 0x7, 0x0, 0x4, 0xd, 0xd, 0x7, 0xb));
  }

  lemma HexZero()
    ensures FromHex(Hex(0x0, 0x0, 0x0, 0x0, 0x0, 0x0, 0x0, 0x0)) == ZERO32
  {
    assert NibbleBits(0) == Fill(4, false);
    assert HexPair(0, 0) == Fill(8, false);
  }

  lemma ResidueOfOnes()
    ensures Run(ZERO32, Fill(32, true)) == RESIDUE
  {
    hide HexRun, Run, HexPair, JoinBytes;
    HexRunIsRun(Hex(0x0, 0x0, 0x0, 0x0, 0x0, 0x0, 0x0, 0x0), 32);
    HexRunOfOnes();
    HexZero();
  }

  lemma NotIsXorOnes(bits: seq<bool>)
    ensures Not(bits) == Xor(bits, Fill(|bits|, true))
  {}

  /** The register after the bytes it prints does not depend on what was printed. */
  lemma PrintedBytesGiveResidue(crc: Word32)
    ensures Run(crc, MessageBits(PrintedBytes(FcsWord(crc)))) == RESIDUE
  {
    hide Run, RESIDUE, MessageBits, PrintedBytes, FcsWord, Xor, Not;
    PrintedFcsBits(crc);
    NotIsXorOnes(Reverse(crc));
    RunLinear(crc, ZERO32, Reverse(crc), Fill(32, true));
    OwnBitsCancel(crc);
    XorZero(crc);
    ResidueOfOnes();
    XorZero(RESIDUE);
  }

  /** The receiver's test: four bytes after a message leave the residue if and only if they are
      the ones printed for that message. */
  lemma ResidueIffFcs(msg: seq<Word8>, tail: seq<Word8>)
    requires |tail| == 4
    ensures Register(msg + tail) == RESIDUE <==> tail == PrintedBytes(FcsWord(Register(msg)))
  {
    hide Run, RESIDUE, MessageBits, PrintedBytes, FcsWord;
    var crc := Register(msg);
    var printed := PrintedBytes(FcsWord(crc));
    MessageBitsAppend(msg, tail);
    RunAppend(ONES32, MessageBits(msg), MessageBits(tail));
    PrintedBytesGiveResidue(crc);
    assert |printed| == 4 by { FourBytes(FcsWord(crc)); }
    if Register(msg + tail) == RESIDUE && MessageBits(tail) != MessageBits(printed) {
      BurstDetectedInBits(crc, MessageBits(tail), MessageBits(printed), 0);
    }
    if MessageBits(tail) == MessageBits(printed) { SameMessage(tail, printed); }
  }

  lemma FourBytes(w: Word32)
    ensures |PrintedBytes(w)| == 4
  {}

  lemma ByteAtJoined(b3: Word8, b2: Word8, b1: Word8, b0: Word8)
    ensures var w := JoinBytes(b3, b2, b1, b0);
            ByteAt(w, 3) == b3 && ByteAt(w, 2) == b2 && ByteAt(w, 1) == b1 && ByteAt(w, 0) == b0
  {}

  lemma NotJoined(b3: Word8, b2: Word8, b1: Word8, b0: Word8)
    ensures Not(JoinBytes(b3, b2, b1, b0)) == JoinBytes(Not(b3), Not(b2), Not(b1), Not(b0))
  {}

  /** The printed word, byte by byte. */
  lemma FcsWordOfBytes(b3: Word8, b2: Word8, b1: Word8, b0: Word8)
    ensures FcsWord(JoinBytes(b3, b2, b1, b0))
            == JoinBytes(Not(Reverse(b3)), Not(Reverse(b2)), Not(Reverse(b1)), Not(Reverse(b0)))
  {
    hide JoinBytes, Not, Reverse, ByteSwap, ByteAt;
    ByteAtJoined(b3, b2, b1, b0);
    BytewiseReversal(JoinBytes(b3, b2, b1, b0));
    NotJoined(Reverse(b3), Reverse(b2), Reverse(b1), Reverse(b0));
  }

  lemma SelfCheckBytes()
    ensures Not(Reverse(HexPair(0xc, 0x7))) == HexPair(0x1, 0xc)
    ensures Not(Reverse(HexPair(0x0, 0x4))) == HexPair(0xd, 0xf)
    ensures Not(Reverse(HexPair(0xd, 0xd))) == HexPair(0x4, 0x4)
    ensures Not(Reverse(HexPair(0x7, 0xb))) == HexPair(0x2, 0x1)
  {}

  lemma SelfCheckOfResidue()
    ensures FcsWord(RESIDUE) == SELF_CHECK
  {
    hide FcsWord, JoinBytes, HexPair, Not, Reverse;
    SelfCheckBytes();
    FcsWordOfBytes(HexPair(0xc, 0x7), HexPair(0x0, 0x4), HexPair(0xd, 0xd), HexPair(0x7, 0xb));
  }

  /** Feeding the program a text and then the eight digits it printed for that text: the register
      ends at the residue and the program prints one fixed word, whatever the text was. */
  lemma ConstantResidue(text: seq<Uint8>)
    requires '!' as int !in text && |HexDigits(text)| % 2 == 0
    ensures var again := text + PrintHex(FcsWord(Register(HexBytes(text))));
            Register(HexBytes(again)) == RESIDUE && FcsWord(Register(HexBytes(again))) == SELF_CHECK
  {
    hide Register, HexDigits, HexBytes, PrintHex, FcsWord, RESIDUE, SELF_CHECK, PrintedBytes;
    var fcs := FcsWord(Register(HexBytes(text)));
    HexBytesAppend(text, PrintHex(fcs));
    PrintedHexRoundTrip(fcs);
    FourBytes(fcs);
    ResidueIffFcs(HexBytes(text), PrintedBytes(fcs));
    SelfCheckOfResidue();
  }

  /** The printed characters, two for each byte, top byte first: each is that of four bits of the word,
      0 to 9 or an upper-case letter. */
  lemma PrintedCharacters(w: Word32, j: nat)
    requires j < 4
    ensures |PrintHex(w)| == 8
    ensures var hi, lo := Value(w[28 - 8 * j..32 - 8 * j]), Value(w[24 - 8 * j..28 - 8 * j]);
            && hi < 16 && PrintHex(w)[2 * j] == (if hi < 10 then 48 + hi else 55 + hi)
            && lo < 16 && PrintHex(w)[2 * j + 1] == (if lo < 10 then 48 + lo else 55 + lo)
  {
    hide PrintHex, PrintByte, ByteAt, Value;
    var b := ByteAt(w, 3 - j);
    CharacterOf(w, j);
    assert b[..4] == w[24 - 8 * j..28 - 8 * j] && b[4..] == w[28 - 8 * j..32 - 8 * j];
    CharactersOf(b);
  }

  lemma CharacterOf(w: Word32, j: nat)
    requires j < 4
    ensures |PrintHex(w)| == 8
    ensures PrintHex(w)[2 * j..2 * j + 2] == PrintByte(ByteAt(w, 3 - j))
    ensures PrintHex(w)[2 * j] == PrintByte(ByteAt(w, 3 - j))[0]
    ensures PrintHex(w)[2 * j + 1] == PrintByte(ByteAt(w, 3 - j))[1]
  {
    hide HexChar, NibbleOf, ByteAt;
    if j == 0 {} else if j == 1 {} else if j == 2 {} else {}
  }

  lemma CharactersOf(b: Word8)
    ensures Value(b[4..]) < 16 && Value(b[..4]) < 16
    ensures PrintByte(b)[0] == HexChar(Value(b[4..])) && PrintByte(b)[1] == HexChar(Value(b[..4]))
  {
    hide Value, HexChar;
    FourBits(b[4..]);
    FourBits(b[..4]);
  }

  lemma DigitPrinted(hi: Nibble, lo: Nibble)
    ensures PrintByte(HexPair(hi, lo)) == [HexChar(hi), HexChar(lo)]
  {
    hide NibbleBits, HexChar;
    var b := HexPair(hi, lo);
    assert b[4..] == NibbleBits(hi) && b[..4] == NibbleBits(lo);
    SameNibble(NibbleOf(b[4..]), hi);
    SameNibble(NibbleOf(b[..4]), lo);
  }

  lemma SameNibble(d: Nibble, e: Nibble)
    requires NibbleBits(d) == NibbleBits(e)
    ensures d == e
  {
    NibbleValue(d);
    NibbleValue(e);
  }

  /** A word given by its digits is printed as they stand. */
  lemma DigitsPrinted(h: Hex)
    ensures PrintHex(FromHex(h))
         == [HexChar(h.d7), HexChar(h.d6), HexChar(h.d5), HexChar(h.d4),
             HexChar(h.d3), HexChar(h.d2), HexChar(h.d1), HexChar(h.d0)]
  {
    hide HexPair, JoinBytes, ByteAt, PrintByte, HexChar;
    ByteAtJoined(HexPair(h.d7, h.d6), HexPair(h.d5, h.d4), HexPair(h.d3, h.d2), HexPair(h.d1, h.d0));
    DigitPrinted(h.d7, h.d6);
    DigitPrinted(h.d5, h.d4);
    DigitPrinted(h.d3, h.d2);
    DigitPrinted(h.d1, h.d0);
  }

  /** The residue and the self check as numbers, and the latter as it is printed, "1CDF4421". */
  lemma SelfCheckPrinted()
    ensures Value(RESIDUE) == 0xC704_DD7B && Value(SELF_CHECK) == 0x1CDF_4421
    ensures PrintHex(SELF_CHECK) == ['1' as int, 'C' as int, 'D' as int, 'F' as int,
                                     '4' as int, '4' as int, '2' as int, '1' as int]
  {
    hide Value, HexPair, JoinBytes, PrintHex;
    WordValue(0xc, 0x7, 0x0, 0x4, 0xd, 0xd, 0x7, 0xb);
    WordValue(0x1, 0xc, 0xd, 0xf, 0x4, 0x4, 0x2, 0x1);
    assert RESIDUE == JoinBytes(HexPair(0xc, 0x7), HexPair(0x0, 0x4), HexPair(0xd, 0xd), HexPair(0x7, 0xb));
    assert SELF_CHECK == FromHex(Hex(0x1, 0xc, 0xd, 0xf, 0x4, 0x4, 0x2, 0x1));
    DigitsPrinted(Hex(0x1, 0xc, 0xd, 0xf, 0x4, 0x4, 0x2, 0x1));
  }

  /** A step on a zero bit, digit by digit. */
  function HexZeroStep(h: Hex): Hex
  {
    if h.d7 < 8 then HexDouble(h) else HexXorValue(HexDouble(h))
  }

  lemma HexZeroStepIsStep(h: Hex)
    ensures FromHex(HexZeroStep(h)) == Step(FromHex(h), false)
  {
    hide FromHex, HexDouble, HexXorValue, VALUE;
    TopBit(h);
    HexDoubleIsShift(h);
    HexXorValueIsXor(HexDouble(h));
    XorZero(Shl(FromHex(h), 1));
  }

  function HexZeroRun(h: Hex, n: nat): Hex
    decreases n, h
  {
    if n == 0 then h else HexZeroRun(HexZeroStep(h), n - 1)
  }

  lemma {:induction false} HexZeroRunIsRun(h: Hex, n: nat)
    ensures FromHex(HexZeroRun(h, n)) == Run(FromHex(h), Fill(n, false))
    decreases n
  {
    hide HexZeroStep, FromHex, Step;
    if n > 0 {
      HexZeroStepIsStep(h);
      assert Fill(n, false)[1..] == Fill(n - 1, false);
      HexZeroRunIsRun(HexZeroStep(h), n - 1);
    }
  }

  lemma ZeroStep(h: Hex, next: Hex, n: nat)
    requires HexZeroStep(h) == next
    ensures HexZeroRun(h, n + 1) == HexZeroRun(next, n)
  {}

  lemma ZeroSteps1And2(n: nat)
    ensures HexZeroRun(Hex(0xf, 0xf, 0xf, 0xf, 0xf, 0xf, 0xf, 0xf), n + 2)
         == HexZeroRun(Hex(0xf, 0x2, 0xb, 0xc, 0xd, 0x9, 0x2, 0x5), n)
  {
    hide HexZeroRun;
    ZeroStep(Hex(0xf, 0xf, 0xf, 0xf, 0xf, 0xf, 0xf, 0xf), Hex(0xf, 0xb, 0x3, 0xe, 0xe, 0x2, 0x4, 0x9), n + 1);
    ZeroStep(Hex(0xf, 0xb, 0x3, 0xe, 0xe, 0x2, 0x4, 0x9), Hex(0xf, 0x2, 0xb, 0xc, 0xd, 0x9, 0x2, 0x5), n);
  }

  lemma ZeroSteps3And4(n: nat)
    ensures HexZeroRun(Hex(0xf, 0x2, 0xb, 0xc, 0xd, 0x9, 0x2, 0x5), n + 2)
         == HexZeroRun(Hex(0xc, 0x7, 0xb, 0x0, 0x4, 0x2, 0x4, 0xd), n)
  {
    hide HexZeroRun;
    ZeroStep(Hex(0xf, 0x2, 0xb, 0xc, 0xd, 0x9, 0x2, 0x5), Hex(0xe, 0x1, 0xb, 0x8, 0xa, 0xf, 0xf, 0xd), n + 1);
    ZeroStep(Hex(0xe, 0x1, 0xb, 0x8, 0xa, 0xf, 0xf, 0xd), Hex(0xc, 0x7, 0xb, 0x0, 0x4, 0x2, 0x4, 0xd), n);
  }

  lemma ZeroSteps5And6(n: nat)
    ensures HexZeroRun(Hex(0xc, 0x7, 0xb, 0x0, 0x4, 0x2, 0x4, 0xd), n + 2)
         == HexZeroRun(Hex(0x1, 0x3, 0x8, 0x2, 0x2, 0xf, 0xe, 0xd), n)
  {
    hide HexZeroRun;
    ZeroStep(Hex(0xc, 0x7, 0xb, 0x0, 0x4, 0x2, 0x4, 0xd), Hex(0x8, 0xb, 0xa, 0x1, 0x9, 0x9, 0x2, 0xd), n + 1);
    ZeroStep(Hex(0x8, 0xb, 0xa, 0x1, 0x9, 0x9, 0x2, 0xd), Hex(0x1, 0x3, 0x8, 0x2, 0x2, 0xf, 0xe, 0xd), n);
  }

  lemma ZeroSteps7And8(n: nat)
    ensures HexZeroRun(Hex(0x1, 0x3, 0x8, 0x2, 0x2, 0xf, 0xe, 0xd), n + 2)
         == HexZeroRun(Hex(0x4, 0xe, 0x0, 0x8, 0xb, 0xf, 0xb, 0x4), n)
  {
    hide HexZeroRun;
    ZeroStep(Hex(0x1, 0x3, 0x8, 0x2, 0x2, 0xf, 0xe, 0xd), Hex(0x2, 0x7, 0x0, 0x4, 0x5, 0xf, 0xd, 0xa), n + 1);
    ZeroStep(Hex(0x2, 0x7, 0x0, 0x4, 0x5, 0xf, 0xd, 0xa), Hex(0x4, 0xe, 0x0, 0x8, 0xb, 0xf, 0xb, 0x4), n);
  }

  lemma ZeroSteps()
    ensures Run(FromHex(Hex(0xf, 0xf, 0xf, 0xf, 0xf, 0xf, 0xf, 0xf)), Fill(8, false))
         == FromHex(Hex(0x4, 0xe, 0x0, 0x8, 0xb, 0xf, 0xb, 0x4))
  {
    hide Run, FromHex, HexZeroRun;
    HexZeroRunIsRun(Hex(0xf, 0xf, 0xf, 0xf, 0xf, 0xf, 0xf, 0xf), 8);
    ZeroSteps1And2(6);
    ZeroSteps3And4(4);
    ZeroSteps5And6(2);
    ZeroSteps7And8(0);
    NoZeroStep(Hex(0x4, 0xe, 0x0, 0x8, 0xb, 0xf, 0xb, 0x4));
  }

  lemma NoZeroStep(h: Hex)
    ensures HexZeroRun(h, 0) == h
  {}

  lemma HexOnes()
    ensures FromHex(Hex(0xf, 0xf, 0xf, 0xf, 0xf, 0xf, 0xf, 0xf)) == ONES32
  {
    assert NibbleBits(0xf) == Fill(4, true);
    assert HexPair(0xf, 0xf) == Fill(8, true);
  }

  lemma FourFcsBytes()
    ensures Not(Reverse(HexPair(0x4, 0xe))) == HexPair(0x8, 0xd)
    ensures Not(Reverse(HexPair(0x0, 0x8))) == HexPair(0xe, 0xf)
    ensures Not(Reverse(HexPair(0xb, 0xf))) == HexPair(0x0, 0x2)
    ensures Not(Reverse(HexPair(0xb, 0x4))) == HexPair(0xd, 0x2)
  {}

  lemma FcsOfRegister()
    ensures FcsWord(FromHex(Hex(0x4, 0xe, 0x0, 0x8, 0xb, 0xf, 0xb, 0x4)))
         == FromHex(Hex(0x8, 0xd, 0xe, 0xf, 0x0, 0x2, 0xd, 0x2))
  {
    hide FcsWord, HexPair, JoinBytes, Reverse, Not;
    FcsWordOfBytes(HexPair(0x4, 0xe), HexPair(0x0, 0x8), HexPair(0xb, 0xf), HexPair(0xb, 0x4));
    FourFcsBytes();
  }

  /** The whole program on the text "00": it prints "8DEF02D2". */
  lemma ZeroBytePrinted()
    ensures PrintHex(FcsWord(Register(HexBytes(['0' as int, '0' as int]))))
         == ['8' as int, 'D' as int, 'E' as int, 'F' as int, '0' as int, '2' as int, 'D' as int, '2' as int]
  {
    hide Run, FromHex, HexPair, PrintHex, FcsWord, HexBytes;
    var text: seq<Uint8> := ['0' as int, '0' as int];
    assert HexBytes(text) == [Fill(8, false)] by { ReadZeros(); }
    assert MessageBits([Fill(8, false)]) == Fill(8, false) by { ByteBits(Fill(8, false)); }
    HexOnes();
    ZeroSteps();
    FcsOfRegister();
    DigitsPrinted(Hex(0x8, 0xd, 0xe, 0xf, 0x0, 0x2, 0xd, 0x2));
  }

  lemma ReadZeros()
    ensures HexBytes(['0' as int, '0' as int]) == [Fill(8, false)]
  {
    var text: seq<Uint8> := ['0' as int, '0' as int];
    assert text[1..] == ['0' as int] && text[1..][1..] == [];
    assert HexDigits(text[1..]) == [0] + HexDigits([]);
    assert HexDigits(text) == [0, 0] && [0, 0][2..] == [];
    assert HexPair(0, 0) == Fill(8, false) by { assert NibbleBits(0) == Fill(4, false); }
  }
}
