/** The program crc32/crc32.c: it reads hex digits, feeds every byte to a 32-bit shift
    register bit by bit, least significant bit first, and prints the Ethernet frame check
    sequence. */
module Crc32 {
  import opened BitWords
  import opened Characters
  import opened Unsigned

  /** The generator of section 3.2.9 of IEEE 802.3-2012 without its x^32 term, 0x04c11db7. */
  const VALUE: Word32 := JoinBytes(HexPair(0x0, 0x4), HexPair(0xc, 0x1), HexPair(0x1, 0xd), HexPair(0xb, 0x7))

  const XOR: Word32 := ONES32

  /** The active step: the data bit joins the bit that leaves the register. */
  function Step(crc: Word32, bit: bool): Word32
  {
    Xor(Shl(crc, 1), if crc[31] != bit then VALUE else ZERO32)
  }

  /** The disabled step: plain long division, the data bit enters at the low end. */
  function PlainStep(crc: Word32, bit: bool): Word32
  {
    Xor(Or(Shl(crc, 1), [bit] + Fill(31, false)), if crc[31] then VALUE else ZERO32)
  }

  /** The register after a stream of bits. */
  function Run(crc: Word32, bits: seq<bool>): Word32
    decreases |bits|
  {
    if bits == [] then crc else Run(Step(crc, bits[0]), bits[1..])
  }

  function PlainRun(crc: Word32, bits: seq<bool>): Word32
    decreases |bits|
  {
    if bits == [] then crc else PlainRun(PlainStep(crc, bits[0]), bits[1..])
  }

  /** The bits of a message in the order in which they are fed. */
  function MessageBits(msg: seq<Word8>): (bits: seq<bool>)
    ensures |bits| == 8 * |msg|
  {
    if msg == [] then [] else msg[0] + MessageBits(msg[1..])
  }

  /** The register after a whole message. */
  function Register(msg: seq<Word8>): Word32
  {
    Run(ONES32, MessageBits(msg))
  }

  /** The printed word: the register reversed, its bytes swapped, complemented. */
  function FcsWord(crc: Word32): Word32
  {
    Not(ByteSwap(Reverse(crc)))
  }

  /** The values of the hex digits up to the end of the input or the first '!'. */
  function HexDigits(input: seq<Uint8>): seq<Nibble>
  {
    if input == [] || input[0] == '!' as int then []
    else if IsHexDigit(input[0]) then [HexValue(input[0])] + HexDigits(input[1..])
    else HexDigits(input[1..])
  }

  /** Two digits make a byte; an odd last digit is dropped. */
  function PairUp(digits: seq<Nibble>): seq<Word8>
  {
    if |digits| < 2 then [] else [HexPair(digits[0], digits[1])] + PairUp(digits[2..])
  }

  function HexBytes(input: seq<Uint8>): seq<Word8>
  {
    PairUp(HexDigits(input))
  }

  /** Bits as they stand after i passes of a reversal loop. */
  ghost predicate ReversedUpTo(c: seq<bool>, r: seq<bool>, i: nat)
  {
    |r| == |c| && forall j :: 0 <= j < |r| ==> r[j] == (|c| - i <= j && c[|c| - 1 - j])
  }

  method Rev8(c: Word8) returns (r: Word8)
    ensures r == Reverse(c)
  {
    r := Fill(8, false);
    for i := 0 to 8
      invariant ReversedUpTo(c, r, i)
    {
      r := Or(r, if c[i] then OneHot(8, 7 - i) else Fill(8, false));
    }
  }

  method Rev32(c: Word32) returns (r: Word32)
    ensures r == Reverse(c)
  {
    r := Fill(32, false);
    for i := 0 to 32
      invariant ReversedUpTo(c, r, i)
    {
      r := Or(r, if c[i] then OneHot(32, 31 - i) else Fill(32, false));
    }
  }

  lemma {:induction false} RunAppend(crc: Word32, a: seq<bool>, b: seq<bool>)
    ensures Run(crc, a + b) == Run(Run(crc, a), b)
    decreases |a|
  {
    if a == [] {
      assert a + b == b;
    } else {
      assert (a + b)[1..] == a[1..] + b;
      RunAppend(Step(crc, a[0]), a[1..], b);
    }
  }

  /** The inner bit loop: eight steps on the byte just read. */
  method FeedByte(crc: Word32, byte: Word8) returns (crc0: Word32)
    ensures crc0 == Run(crc, byte)
  {
    crc0 := crc;
    var value := ToWord(byte);
    for i := 0 to 8
      invariant value[..8 - i] == byte[i..]
      invariant Run(crc0, byte[i..]) == Run(crc, byte)
    {
      NextBit(crc0, value, byte, i);
      crc0 := Step(crc0, value[0]);
      value := Shr(value, 1);
    }
  }

  /** One pass of the bit loop: the low bit of `value` is fed and shifted away. */
  lemma NextBit(crc: Word32, value: Word32, byte: Word8, i: nat)
    requires i < 8 && value[..8 - i] == byte[i..]
    ensures Shr(value, 1)[..8 - (i + 1)] == byte[i + 1..]
    ensures Run(Step(crc, value[0]), byte[i + 1..]) == Run(crc, byte[i..])
  {
    var rest := byte[i..];
    assert rest[0] == value[..8 - i][0] == value[0];
    assert rest[1..] == byte[i + 1..];
    assert Shr(value, 1)[..8 - (i + 1)] == value[..8 - i][1..];
  }

  /** One inner reading loop: skip to the next hex digit; a '!' ends the input. */
  method ReadHexDigit(input: seq<Uint8>, start: nat) returns (found: bool, c: Uint8, pos: nat)
    requires start <= |input|
    ensures start <= pos <= |input|
    ensures !found ==> HexDigits(input[start..]) == []
    ensures found ==> start < pos && IsHexDigit(c)
    ensures found ==> HexDigits(input[start..]) == [HexValue(c)] + HexDigits(input[pos..])
  {
    pos := start;
    c := 0;
    while true
      invariant start <= pos <= |input|
      invariant HexDigits(input[pos..]) == HexDigits(input[start..])
      decreases |input| - pos
    {
      if pos == |input| || input[pos] == '!' as int {
        return false, c, pos;
      }
      assert input[pos..][1..] == input[pos + 1..];
      c, pos := input[pos], pos + 1;
      if IsHexDigit(c) {
        return true, c, pos;
      }
    }
  }

  /** The reversal of every byte and the final complement. */
  method PrintedFcs(crc0: Word32) returns (fcs: Word32)
    ensures fcs == FcsWord(crc0)
  {
    var r3 := Rev8(ByteAt(crc0, 3));
    var r2 := Rev8(ByteAt(crc0, 2));
    var r1 := Rev8(ByteAt(crc0, 1));
    var r0 := Rev8(ByteAt(crc0, 0));
    var crc1 := Or(Or(Or(Shl(ToWord(r3), 24), Shl(ToWord(r2), 16)), Shl(ToWord(r1), 8)), ToWord(r0));
    AssembledBytes(r3, r2, r1, r0);
    BytewiseReversal(crc0);
    XorOnes(crc1);
    fcs := Xor(crc1, XOR);
  }

  /** Reversing byte by byte is a reversal of the word followed by a byte swap. */
  lemma BytewiseReversal(crc: Word32)
    ensures JoinBytes(Reverse(ByteAt(crc, 3)), Reverse(ByteAt(crc, 2)),
                      Reverse(ByteAt(crc, 1)), Reverse(ByteAt(crc, 0)))
            == ByteSwap(Reverse(crc))
  {
    ReversedByte(crc, 3);
    ReversedByte(crc, 2);
    ReversedByte(crc, 1);
    ReversedByte(crc, 0);
  }

  lemma XorOnes(w: Word32)
    ensures Xor(w, ONES32) == Not(w)
  {}

  lemma FirstPair(digits: seq<Nibble>, hi: Nibble, lo: Nibble, rest: seq<Nibble>)
    requires digits == [hi] + ([lo] + rest)
    ensures PairUp(digits) == [HexPair(hi, lo)] + PairUp(rest)
  {
    assert digits[2..] == rest;
  }

  lemma FeedFirst(crc: Word32, value: Word8, rest: seq<Word8>)
    ensures Run(crc, MessageBits([value] + rest)) == Run(Run(crc, value), MessageBits(rest))
  {
    assert ([value] + rest)[1..] == rest;
    RunAppend(crc, value, MessageBits(rest));
  }

  /** The whole program: the word it prints for the bytes on its standard input. */
  method EthernetFcs(input: seq<Uint8>) returns (fcs: Word32)
    ensures fcs == FcsWord(Register(HexBytes(input)))
  {
    var crc0 := ONES32;
    var pos := 0;
    while true
      invariant pos <= |input|
      invariant Run(crc0, MessageBits(HexBytes(input[pos..]))) == Register(HexBytes(input))
      decreases |input| - pos
    {
      var found0, c0, pos0 := ReadHexDigit(input, pos);
      if !found0 { break; }
      var found1, c1, pos1 := ReadHexDigit(input, pos0);
      if !found1 { break; }
      var value := HexPair(HexValue(c0), HexValue(c1));
      FirstPair(HexDigits(input[pos..]), HexValue(c0), HexValue(c1), HexDigits(input[pos1..]));
      FeedFirst(crc0, value, HexBytes(input[pos1..]));
      crc0 := FeedByte(crc0, value);
      pos := pos1;
    }
    fcs := PrintedFcs(crc0);
  }

  /** Two hex digits in a row are read as one byte, the first one on top. */
  lemma TwoDigitsRead(c: Uint8, d: Uint8)
    requires IsHexDigit(c) && IsHexDigit(d)
    ensures |HexBytes([c, d])| == 1 && Value(HexBytes([c, d])[0]) == 16 * HexValue(c) + HexValue(d)
  {
    hide HexPair, HexValue, Value, PairUp;
    var hi, lo := HexValue(c), HexValue(d);
    assert [c, d][1..] == [d] && [d][1..] == [];
    assert HexDigits([d]) == [lo] + HexDigits([]);
    assert HexDigits([c, d]) == [hi] + ([lo] + []);
    FirstPair(HexDigits([c, d]), hi, lo, []);
    assert PairUp([]) == [] by { NothingPaired(); }
    assert HexBytes([c, d])[0] == HexPair(hi, lo);
    HexPairValue(hi, lo);
  }

  lemma NothingPaired()
    ensures PairUp([]) == []
  {}
}
