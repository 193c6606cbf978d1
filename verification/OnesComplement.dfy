/** One's-complement sums of 16-bit words, the arithmetic of RFC 1071. */
module OnesComplement {
  import opened Unsigned

  /** 16-bit addition with the carry added back in. */
  function EndAround(a: Uint16, b: Uint16): Uint16
  {
    if a + b > 0xffff then a + b - 0x1_0000 + 1 else a + b
  }

  /** The one's-complement sum of RFC 1071, section 1. */
  function OnesSum(ws: seq<Uint16>): Uint16
  {
    if ws == [] then 0 else EndAround(ws[0], OnesSum(ws[1..]))
  }

  function InternetChecksum(ws: seq<Uint16>): Uint16
  {
    0xffff - OnesSum(ws)
  }

  /** The ordinary sum. */
  function Sum(ws: seq<Uint16>): nat
  {
    if ws == [] then 0 else ws[0] + Sum(ws[1..])
  }

  /** r stands for n in 16-bit one's-complement arithmetic: they are congruent modulo 65535, and
      only nothing adds up to zero. */
  ghost predicate StandsFor(r: Uint16, n: nat)
  {
    (exists k: nat :: n == r + 65535 * k) && (r == 0 <==> n == 0)
  }

  lemma StandsForUnique(r: Uint16, r': Uint16, n: nat)
    requires StandsFor(r, n) && StandsFor(r', n)
    ensures r == r'
  {
    var k: nat :| n == r + 65535 * k;
    var k': nat :| n == r' + 65535 * k';
  }

  lemma StandsForWitness(r: Uint16, n: nat, k: nat)
    requires n == r + 65535 * k && (r == 0 <==> n == 0)
    ensures StandsFor(r, n)
  {}

  lemma EndAroundStandsFor(a: Uint16, b: Uint16, n: nat, m: nat)
    requires StandsFor(a, n) && StandsFor(b, m)
    ensures StandsFor(EndAround(a, b), n + m)
  {
    var k: nat :| n == a + 65535 * k;
    var j: nat :| m == b + 65535 * j;
    StandsForWitness(EndAround(a, b), n + m, k + j + if a + b > 0xffff then 1 else 0);
  }

  /** Deferred carries: the one's-complement sum is fixed by the ordinary sum. */
  lemma {:induction false} OnesSumStandsForSum(ws: seq<Uint16>)
    ensures StandsFor(OnesSum(ws), Sum(ws))
    ensures OnesSum(ws) % 65535 == Sum(ws) % 65535 && (OnesSum(ws) == 0 <==> Sum(ws) == 0)
  {
    hide EndAround;
    if ws == [] {
      StandsForWitness(0, 0, 0);
    } else {
      OnesSumStandsForSum(ws[1..]);
      StandsForWitness(ws[0], ws[0], 0);
      EndAroundStandsFor(ws[0], OnesSum(ws[1..]), ws[0], Sum(ws[1..]));
    }
  }

  /** The bytes taken in pairs, low byte first. */
  function LittleEndian(bytes: seq<Uint8>): (ws: seq<Uint16>)
    ensures |ws| == |bytes| / 2
  {
    seq(|bytes| / 2, i requires 0 <= i < |bytes| / 2 => Pair(bytes[2 * i + 1], bytes[2 * i]))
  }

  /** The bytes taken in pairs, high byte first. */
  function BigEndian(bytes: seq<Uint8>): (ws: seq<Uint16>)
    ensures |ws| == |bytes| / 2
  {
    seq(|bytes| / 2, i requires 0 <= i < |bytes| / 2 => Pair(bytes[2 * i], bytes[2 * i + 1]))
  }

  /** The halves from their bytes. */
  lemma HalvesAsWritten(bytes: seq<Uint8>, i: nat)
    requires i < |bytes| / 2
    ensures LittleEndian(bytes)[i] == bytes[2 * i] as int + 0x100 * bytes[2 * i + 1] as int
    ensures BigEndian(bytes)[i] == 0x100 * bytes[2 * i] as int + bytes[2 * i + 1] as int
  {}

  /** The numerical example of RFC 1071, section 3: the words 0001 f203 f4f5 f6f7 sum to ddf2. */
  lemma Rfc1071Example()
    ensures OnesSum([0x0001, 0xf203, 0xf4f5, 0xf6f7]) == 0xddf2
    ensures InternetChecksum([0x0001, 0xf203, 0xf4f5, 0xf6f7]) == 0x220d
  {
    hide OnesSum, Sum, StandsFor;
    var ws: seq<Uint16> := [0x0001] + ([0xf203] + ([0xf4f5] + ([0xf6f7] + [])));
    assert ws == [0x0001, 0xf203, 0xf4f5, 0xf6f7];
    SumNext(0x0001, [0xf203] + ([0xf4f5] + ([0xf6f7] + [])));
    SumNext(0xf203, [0xf4f5] + ([0xf6f7] + []));
    SumNext(0xf4f5, [0xf6f7] + []);
    SumNext(0xf6f7, []);
    assert Sum([]) == 0 by { SumNothing(); }
    OnesSumStandsForSum(ws);
  }

  lemma SumNothing()
    ensures Sum([]) == 0
  {}

  lemma {:induction false} SumAppend(a: seq<Uint16>, b: seq<Uint16>)
    ensures Sum(a + b) == Sum(a) + Sum(b)
    decreases |a|
  {
    if a == [] {
      assert a + b == b;
    } else {
      assert (a + b)[1..] == a[1..] + b;
      SumAppend(a[1..], b);
    }
  }

  lemma SumNext(w: Uint16, ws: seq<Uint16>)
    ensures Sum([w] + ws) == w + Sum(ws)
  {
    assert ([w] + ws)[1..] == ws;
  }

  lemma PairsNext(bytes: seq<Uint8>)
    requires |bytes| >= 2
    ensures LittleEndian(bytes) == [Pair(bytes[1], bytes[0])] + LittleEndian(bytes[2..])
    ensures BigEndian(bytes) == [Pair(bytes[0], bytes[1])] + BigEndian(bytes[2..])
  {
    hide Pair;
  }

  function Swap16(x: Uint16): Uint16
  {
    0x100 * (x % 0x100) + x / 0x100
  }

  /** Swapping bytes is multiplication by 256 modulo 65535. */
  lemma {:induction false} SumsOfBothOrders(bytes: seq<Uint8>) returns (k: nat)
    ensures 0x100 * Sum(LittleEndian(bytes)) == Sum(BigEndian(bytes)) + 65535 * k
    ensures Sum(LittleEndian(bytes)) == 0 <==> Sum(BigEndian(bytes)) == 0
    decreases |bytes|
  {
    hide LittleEndian, BigEndian;
    if |bytes| < 2 {
      assert LittleEndian(bytes) == BigEndian(bytes) == [];
      k := 0;
    } else {
      var j := SumsOfBothOrders(bytes[2..]);
      k := bytes[1] + j;
      PairsNext(bytes);
      SumNext(Pair(bytes[1], bytes[0]), LittleEndian(bytes[2..]));
      SumNext(Pair(bytes[0], bytes[1]), BigEndian(bytes[2..]));
    }
  }

  /** Byte order independence, RFC 1071 section 2(B). */
  lemma ByteOrderIndependence(bytes: seq<Uint8>)
    ensures OnesSum(BigEndian(bytes)) == Swap16(OnesSum(LittleEndian(bytes)))
    ensures InternetChecksum(BigEndian(bytes)) == Swap16(InternetChecksum(LittleEndian(bytes)))
  {
    var le, be := LittleEndian(bytes), BigEndian(bytes);
    var r := OnesSum(le);
    OnesSumStandsForSum(le);
    OnesSumStandsForSum(be);
    var k := SumsOfBothOrders(bytes);
    SwapStandsFor(r, Sum(le), Sum(be), k);
    StandsForUnique(OnesSum(be), Swap16(r), Sum(be));
    SwapOfComplement(r);
  }

  lemma SwapOfComplement(r: Uint16)
    ensures Swap16(0xffff - r) == 0xffff - Swap16(r)
  {
    var hi, lo := r / 0x100, r % 0x100;
    assert 0xffff - r == 0x100 * (0xff - hi) + (0xff - lo);
  }

  lemma SwapStandsFor(r: Uint16, n: nat, m: nat, k: nat)
    requires StandsFor(r, n)
    requires 0x100 * n == m + 65535 * k && (n == 0 <==> m == 0)
    ensures StandsFor(Swap16(r), m)
  {
    var j: nat :| n == r + 65535 * j;
    assert 0x100 * r == Swap16(r) + 65535 * (r / 0x100);
    var q := 0x100 * j + r / 0x100 - k;
    assert m == Swap16(r) + 65535 * q;
    StandsForWitness(Swap16(r), m, q);
  }
}
