/** C's unsigned words as lists of their bits, bit 0 first. The operators `^`, `|`, `~`, `<<` and
    `>>` act on the lists, so a shift keeps the width of its operand as it does in C. */
module BitWords {

  type Word8 = w: seq<bool> | |w| == 8 witness seq(8, _ => false)

  type Word32 = w: seq<bool> | |w| == 32 witness seq(32, _ => false)

  /** A hex digit's value. */
  type Nibble = x: int | 0 <= x < 16

  function Fill(n: nat, b: bool): (w: seq<bool>)
    ensures |w| == n && forall i {:trigger w[i]} :: 0 <= i < n ==> w[i] == b
  {
    seq(n, _ => b)
  }

  const ZERO32: Word32 := Fill(32, false)

  const ONES32: Word32 := Fill(32, true)

  function Xor(a: seq<bool>, b: seq<bool>): (w: seq<bool>)
    requires |a| == |b|
    ensures |w| == |a| && forall i {:trigger w[i]} :: 0 <= i < |w| ==> w[i] == (a[i] != b[i])
  {
    seq(|a|, i requires 0 <= i < |a| => a[i] != b[i])
  }

  function Or(a: seq<bool>, b: seq<bool>): (w: seq<bool>)
    requires |a| == |b|
    ensures |w| == |a| && forall i {:trigger w[i]} :: 0 <= i < |w| ==> w[i] == (a[i] || b[i])
  {
    seq(|a|, i requires 0 <= i < |a| => a[i] || b[i])
  }

  function Not(a: seq<bool>): (w: seq<bool>)
    ensures |w| == |a| && forall i {:trigger w[i]} :: 0 <= i < |w| ==> w[i] == !a[i]
  {
    seq(|a|, i requires 0 <= i < |a| => !a[i])
  }

  function Shl(a: seq<bool>, k: nat): (w: seq<bool>)
    ensures |w| == |a| && forall i {:trigger w[i]} :: 0 <= i < |w| ==> w[i] == (i >= k && a[i - k])
  {
    seq(|a|, i requires 0 <= i < |a| => i >= k && a[i - k])
  }

  function Shr(a: seq<bool>, k: nat): (w: seq<bool>)
    ensures |w| == |a| && forall i {:trigger w[i]} :: 0 <= i < |w| ==> w[i] == (i + k < |a| && a[i + k])
  {
    seq(|a|, i requires 0 <= i < |a| => i + k < |a| && a[i + k])
  }

  /** Bit i alone, C's `1 << i`. */
  function OneHot(n: nat, i: nat): (w: seq<bool>)
    ensures |w| == n && forall j {:trigger w[j]} :: 0 <= j < n ==> w[j] == (j == i)
  {
    seq(n, j => j == i)
  }

  /** The bits in the opposite order. */
  function Reverse(a: seq<bool>): (w: seq<bool>)
    ensures |w| == |a| && forall i {:trigger w[i]} :: 0 <= i < |w| ==> w[i] == a[|a| - 1 - i]
  {
    seq(|a|, i requires 0 <= i < |a| => a[|a| - 1 - i])
  }

  /** Conversion to `unsigned char`. */
  function ToByte(w: Word32): Word8
  {
    w[..8]
  }

  /** Conversion from `unsigned char`. */
  function ToWord(b: Word8): Word32
  {
    b + Fill(24, false)
  }

  /** Byte k of a word, k counted from the least significant end. */
  function ByteAt(w: Word32, k: nat): (b: Word8)
    requires k < 4
    ensures forall i :: 0 <= i < 8 ==> b[i] == w[8 * k + i]
  {
    ToByte(Shr(w, 8 * k))
  }

  /** The same four bytes in the opposite order. */
  function ByteSwap(w: Word32): Word32
  {
    JoinBytes(ByteAt(w, 0), ByteAt(w, 1), ByteAt(w, 2), ByteAt(w, 3))
  }

  function NibbleBits(d: Nibble): (w: seq<bool>)
    ensures |w| == 4
  {
    var r3 := if d < 8 then d else d - 8;
    var r2 := if r3 < 4 then r3 else r3 - 4;
    [r2 == 1 || r2 == 3, r2 >= 2, r3 >= 4, d >= 8]
  }

  /** The byte written with two hex digits. */
  function HexPair(hi: Nibble, lo: Nibble): (b: Word8)
  {
    NibbleBits(lo) + NibbleBits(hi)
  }

  /** The word with the given bytes, most significant first. */
  function JoinBytes(b3: Word8, b2: Word8, b1: Word8, b0: Word8): Word32
  {
    b0 + b1 + b2 + b3
  }

  /** The number that a word stands for. */
  function Value(w: seq<bool>): nat
  {
    if w == [] then 0 else (if w[0] then 1 else 0) + 2 * Value(w[1..])
  }

  lemma NibbleValue(d: Nibble)
    ensures Value(NibbleBits(d)) == d
  {
    FourBits(NibbleBits(d));
  }

  lemma FourBits(w: seq<bool>)
    requires |w| == 4
    ensures Value(w) == (if w[0] then 1 else 0) + (if w[1] then 2 else 0) + (if w[2] then 4 else 0)
                        + if w[3] then 8 else 0
  {
    assert w[1..][1..] == w[2..] && w[2..][1..] == w[3..] && w[3..][1..] == [];
    assert Value(w[3..]) == if w[3] then 1 else 0;
    assert Value(w[2..]) == (if w[2] then 1 else 0) + 2 * Value(w[3..]);
    assert Value(w[1..]) == (if w[1] then 1 else 0) + 2 * Value(w[2..]);
  }

  /** Four bits more in front: the other bits weigh sixteen times as much. */
  lemma ValueBehindNibble(n: seq<bool>, w: seq<bool>)
    requires |n| == 4
    ensures Value(n + w) == Value(n) + 16 * Value(w)
  {
    FourBits(n);
    assert (n + w)[1..] == n[1..] + w && (n[1..] + w)[1..] == n[2..] + w;
    assert (n[2..] + w)[1..] == n[3..] + w && (n[3..] + w)[1..] == w;
    assert Value(n[3..] + w) == (if n[3] then 1 else 0) + 2 * Value(w);
    assert Value(n[2..] + w) == (if n[2] then 1 else 0) + 2 * Value(n[3..] + w);
    assert Value(n[1..] + w) == (if n[1] then 1 else 0) + 2 * Value(n[2..] + w);
  }

  /** Two hex digits make the byte 16·hi + lo. */
  lemma HexPairValue(hi: Nibble, lo: Nibble)
    ensures Value(HexPair(hi, lo)) == 16 * hi + lo
  {
    hide NibbleBits;
    NibbleValue(hi);
    NibbleValue(lo);
    ValueBehindNibble(NibbleBits(lo), NibbleBits(hi));
  }

  lemma ValueBehindByte(b: Word8, w: seq<bool>)
    ensures Value(b + w) == Value(b) + 0x100 * Value(w)
  {
    assert b + w == b[..4] + (b[4..] + w) && b == b[..4] + b[4..] && b[4..] + [] == b[4..];
    ValueBehindNibble(b[..4], b[4..] + w);
    ValueBehindNibble(b[4..], w);
    ValueBehindNibble(b[..4], b[4..]);
    hide Value;
  }

  /** Four bytes make a word, the first argument on top. */
  lemma JoinBytesValue(b3: Word8, b2: Word8, b1: Word8, b0: Word8)
    ensures Value(JoinBytes(b3, b2, b1, b0))
         == 0x100_0000 * Value(b3) + 0x1_0000 * Value(b2) + 0x100 * Value(b1) + Value(b0)
  {
    hide Value;
    assert b0 + b1 + b2 + b3 == b0 + (b1 + (b2 + b3));
    ValueBehindByte(b0, b1 + (b2 + b3));
    ValueBehindByte(b1, b2 + b3);
    ValueBehindByte(b2, b3);
  }

  lemma WordValue(h7: Nibble, h6: Nibble, h5: Nibble, h4: Nibble, h3: Nibble, h2: Nibble, h1: Nibble, h0: Nibble)
    ensures Value(JoinBytes(HexPair(h7, h6), HexPair(h5, h4), HexPair(h3, h2), HexPair(h1, h0)))
         == 0x1000_0000 * h7 + 0x100_0000 * h6 + 0x10_0000 * h5 + 0x1_0000 * h4
            + 0x1000 * h3 + 0x100 * h2 + 0x10 * h1 + h0
  {
    hide Value, HexPair, JoinBytes;
    HexPairValue(h7, h6);
    HexPairValue(h5, h4);
    HexPairValue(h3, h2);
    HexPairValue(h1, h0);
    JoinBytesValue(HexPair(h7, h6), HexPair(h5, h4), HexPair(h3, h2), HexPair(h1, h0));
  }

  lemma ByteSwapAt(w: Word32, k: nat, i: nat)
    requires k < 4 && i < 8
    ensures ByteSwap(w)[8 * k + i] == w[8 * (3 - k) + i]
  {
    if k == 0 {} else if k == 1 {} else if k == 2 {} else {}
  }

  lemma ByteSwapInvolution(w: Word32)
    ensures ByteSwap(ByteSwap(w)) == w
  {
    forall j | 0 <= j < 32 ensures ByteSwap(ByteSwap(w))[j] == w[j] {
      ByteSwapAt(ByteSwap(w), j / 8, j % 8);
      ByteSwapAt(w, 3 - j / 8, j % 8);
    }
  }

  lemma ByteSwapNot(w: Word32)
    ensures ByteSwap(Not(w)) == Not(ByteSwap(w))
  {
    forall j | 0 <= j < 32 ensures ByteSwap(Not(w))[j] == Not(ByteSwap(w))[j] {
      ByteSwapAt(w, j / 8, j % 8);
      ByteSwapAt(Not(w), j / 8, j % 8);
    }
  }

  /** Assembling a word from its bytes with shifts, as C does. */
  lemma AssembledBytes(b3: Word8, b2: Word8, b1: Word8, b0: Word8)
    ensures Or(Or(Or(Shl(ToWord(b3), 24), Shl(ToWord(b2), 16)), Shl(ToWord(b1), 8)), ToWord(b0))
            == JoinBytes(b3, b2, b1, b0)
  {}

  /** Reversing a word reverses every byte and their order. */
  lemma ReversedByte(w: Word32, k: nat)
    requires k < 4
    ensures Reverse(ByteAt(w, k)) == ByteAt(Reverse(w), 3 - k)
  {}

  lemma ReverseInvolution(w: seq<bool>)
    ensures Reverse(Reverse(w)) == w
  {}
}
