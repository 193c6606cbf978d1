/** The program ipsum/ipsum.c on any packet: a plain sum of 16-bit words, one fold and a
    complement; and what it has in common with `ip_fast_csum`. */
module IpSum {
  import opened Unsigned
  import opened OnesComplement

  /** `( sum & 0xffff ) + ( sum >> 16 )` */
  function Fold(sum: nat): nat
  {
    sum % 0x1_0000 + sum / 0x1_0000
  }

  /** `sum ^ 0xffff` on the 64-bit `unsigned long`: the low half is complemented. */
  function ComplementLow(sum: nat): nat
  {
    sum - sum % 0x1_0000 + (0xffff - sum % 0x1_0000)
  }

  /** What the program prints for a packet. */
  function Printed(packet: seq<Uint16>): nat
  {
    ComplementLow(Fold(Sum(packet)))
  }

  lemma {:induction false} SumPrefix(packet: seq<Uint16>, i: nat)
    requires i < |packet|
    ensures Sum(packet[..i + 1]) == Sum(packet[..i]) + packet[i]
  {
    assert packet[..i + 1] == packet[..i] + ([packet[i]] + []);
    SumAppend(packet[..i], [packet[i]] + []);
    SumNext(packet[i], []);
  }

  lemma {:induction false} SumBound(packet: seq<Uint16>)
    ensures Sum(packet) <= 0xffff * |packet|
  {
    if packet != [] { SumBound(packet[1..]); }
  }

  /** The program. Its index is an `unsigned short`, so a packet of 65536 words or more would
      never be finished; below that nothing overflows the `unsigned long`. */
  method IpSum(packet: seq<Uint16>) returns (sum: nat)
    requires |packet| <= 0xffff
    ensures sum == Printed(packet)
    ensures sum < 0x1_0000 ==> sum == InternetChecksum(packet)
    ensures sum >= 0x1_0000 ==> sum == InternetChecksum(packet) + 0x1_0001
  {
    sum := 0;
    var i: Uint16 := 0;
    while i as int < |packet|
      invariant i as int <= |packet| && sum == Sum(packet[..i])
      decreases |packet| - i
    {
      SumPrefix(packet, i);
      sum := sum + packet[i];
      if i == 0xffff { assert false; }
      i := (i + 1) % 0x1_0000;
    }
    assert packet[..i] == packet;
    sum := sum % 0x1_0000 + sum / 0x1_0000;
    sum := ComplementLow(sum);
    SingleFoldReach(packet);
  }

  /** Folding preserves the sum modulo 65535, and a sum that is not zero stays so. */
  lemma FoldCongruent(sum: nat)
    ensures sum == Fold(sum) + 65535 * (sum / 0x1_0000)
    ensures Fold(sum) == 0 <==> sum == 0
  {}

  lemma FoldStandsFor(r: Uint16, sum: nat)
    requires StandsFor(r, sum) && Fold(sum) <= 0x1_fffe
    ensures r == if Fold(sum) <= 0xffff then Fold(sum) else Fold(sum) - 0xffff
  {
    FoldCongruent(sum);
    var r': Uint16 := if Fold(sum) <= 0xffff then Fold(sum) else Fold(sum) - 0xffff;
    StandsForWitness(r', sum, sum / 0x1_0000 + if Fold(sum) <= 0xffff then 0 else 1);
    StandsForUnique(r, r', sum);
  }

  /** Exact reach of the single fold: the program prints the Internet checksum if and only if the
      two halves of the sum add up without a carry; otherwise it prints 0x10001 too much. */
  lemma SingleFoldReach(packet: seq<Uint16>)
    requires |packet| <= 0x1_0000
    ensures var sum := Sum(packet);
            && (Printed(packet) == InternetChecksum(packet) <==> sum % 0x1_0000 + sum / 0x1_0000 <= 0xffff)
            && (Printed(packet) != InternetChecksum(packet) ==>
                Printed(packet) == InternetChecksum(packet) + 0x1_0001)
            && (Printed(packet) < 0x1_0000 <==> Printed(packet) == InternetChecksum(packet))
  {
    hide Sum, OnesSum;
    SumBound(packet);
    OnesSumStandsForSum(packet);
    FoldStandsFor(OnesSum(packet), Sum(packet));
  }

  /** A second fold would make the program exact on all of them. */
  lemma SecondFoldIsExact(packet: seq<Uint16>)
    requires |packet| <= 0x1_0000
    ensures ComplementLow(Fold(Fold(Sum(packet)))) == InternetChecksum(packet)
  {
    hide Sum, OnesSum;
    SumBound(packet);
    OnesSumStandsForSum(packet);
    FoldStandsFor(OnesSum(packet), Sum(packet));
  }

  /** One fold is not always enough: on this packet the program is wrong. */
  lemma SingleFoldFails()
    ensures Printed([0xffff, 0xffff, 0x0001]) != InternetChecksum([0xffff, 0xffff, 0x0001])
  {
    hide OnesSum, Printed;
    var p: seq<Uint16> := [0xffff] + ([0xffff] + ([0x0001] + []));
    SumNext(0xffff, [0xffff] + ([0x0001] + []));
    SumNext(0xffff, [0x0001] + []);
    SumNext(0x0001, []);
    assert p == [0xffff, 0xffff, 0x0001];
    SingleFoldReach(p);
  }

  /** Byte-order independence across the two programs: on every header, `ip_fast_csum` on
      little-endian words is the byte swap of what `ipsum` prints for big-endian words, if and
      only if one fold suffices. */
  lemma ProgramsAgree(header: seq<Uint8>)
    requires |header| <= 0x2_0000
    ensures var sum := Sum(BigEndian(header));
            Printed(BigEndian(header)) == Swap16(InternetChecksum(LittleEndian(header)))
            <==> sum % 0x1_0000 + sum / 0x1_0000 <= 0xffff
  {
    hide Sum, OnesSum, BigEndian, LittleEndian;
    ByteOrderIndependence(header);
    SingleFoldReach(BigEndian(header));
  }

  /** Filling a zero word in adds to the one's-complement sum. */
  lemma {:induction false} OnesSumOfUpdate(ws: seq<Uint16>, i: nat, f: Uint16)
    requires i < |ws| && ws[i] == 0
    ensures OnesSum(ws[i := f]) == EndAround(OnesSum(ws), f)
  {
    hide OnesSum, StandsFor;
    var changed := ws[i := f];
    OnesSumStandsForSum(ws);
    OnesSumStandsForSum(changed);
    SumOfUpdate(ws, i, f);
    assert StandsFor(f, f) by { StandsForWitness(f, f, 0); }
    EndAroundStandsFor(OnesSum(ws), f, Sum(ws), f);
    StandsForUnique(OnesSum(changed), EndAround(OnesSum(ws), f), Sum(changed));
  }

  lemma {:induction false} SumOfUpdate(ws: seq<Uint16>, i: nat, f: Uint16)
    requires i < |ws| && ws[i] == 0
    ensures Sum(ws[i := f]) == Sum(ws) + f
    decreases i
  {
    if i > 0 {
      assert ws[i := f][1..] == ws[1..][i - 1 := f];
      SumOfUpdate(ws[1..], i - 1, f);
    } else {
      assert ws[i := f][1..] == ws[1..];
    }
  }

  /** The header with a 16-bit value stored low byte first at an even offset. */
  function Store16(header: seq<Uint8>, off: nat, x: Uint16): seq<Uint8>
    requires off + 1 < |header|
  {
    header[off := x % 0x100][off + 1 := x / 0x100]
  }

  lemma StoredHalf(header: seq<Uint8>, off: nat, x: Uint16)
    requires off % 2 == 0 && off + 1 < |header|
    ensures LittleEndian(Store16(header, off, x)) == LittleEndian(header)[off / 2 := x]
  {
    assert Pair(x / 0x100, x % 0x100) == x;
  }

  /** The receiver's test, RFC 1071 section 1: with the checksum field zeroed when the sum was
      taken, a header with the value x stored in that field checks out, that is, sums to a
      checksum of 0, if and only if x is the computed checksum or stands for the same number. */
  lemma StoredChecksumVerifies(header: seq<Uint8>, off: nat, x: Uint16)
    requires off % 2 == 0 && off + 1 < |header| && header[off] == 0 && header[off + 1] == 0
    ensures var c := InternetChecksum(LittleEndian(header));
            InternetChecksum(LittleEndian(Store16(header, off, x))) == 0
            <==> x == c || (c == 0 && x == 0xffff)
  {
    hide OnesSum, LittleEndian, Store16;
    var ws := LittleEndian(header);
    assert ws[off / 2] == 0 by { ZeroHalf(header, off); }
    StoredHalf(header, off, x);
    OnesSumOfUpdate(ws, off / 2, x);
  }

  lemma ZeroHalf(header: seq<Uint8>, off: nat)
    requires off % 2 == 0 && off + 1 < |header| && header[off] == 0 && header[off + 1] == 0
    ensures LittleEndian(header)[off / 2] == 0
  {}

  /** Checksum round trip: storing the computed checksum makes the sum check out, for every
      header, the all-zero one included. */
  lemma ChecksumRoundTrip(header: seq<Uint8>, off: nat)
    requires off % 2 == 0 && off + 1 < |header| && header[off] == 0 && header[off + 1] == 0
    ensures InternetChecksum(LittleEndian(Store16(header, off, InternetChecksum(LittleEndian(header))))) == 0
  {
    hide OnesSum, LittleEndian, Store16;
    StoredChecksumVerifies(header, off, InternetChecksum(LittleEndian(header)));
  }
}
