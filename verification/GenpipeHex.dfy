/** The two hex readers of the repository, the packet pipe's and the CRC program's, side by side. */
module GenpipeHex {
  import opened BitWords
  import opened Characters
  import opened Unsigned
  import opened GenpipeText
  import Crc32
  import CrcResidue

  /** A character that the pipe takes for a digit and the CRC program does not read as one: a letter
      beyond F, or anything behind a '!'. */
  predicate Stray(line: seq<Uint8>, i: nat)
    requires i < |line|
  {
    CarriesDigit(line[i]) && !(IsHexDigit(line[i]) && '!' as int !in line[..i])
  }

  ghost predicate NoStray(line: seq<Uint8>)
  {
    forall i: nat :: i < |line| ==> !Stray(line, i)
  }

  lemma SameDigit(c: Uint8)
    ensures IsHexDigit(c) ==> CarriesDigit(c) && DigitValue(c) == HexValue(c)
    ensures !CarriesDigit('!' as int)
  {}

  lemma {:induction false} DigitsAppend(a: seq<Uint8>, b: seq<Uint8>)
    ensures Digits(a + b) == Digits(a) + Digits(b)
    decreases |b|
  {
    hide CarriesDigit, DigitValue;
    if b == [] {
      assert a + b == a;
    } else {
      var n := |b| - 1;
      assert (a + b)[..|a| + n] == a + b[..n];
      DigitsAppend(a, b[..n]);
    }
  }

  lemma FirstDigit(c: Uint8, rest: seq<Uint8>)
    ensures Digits([c] + rest) == (if CarriesDigit(c) then [DigitValue(c)] else []) + Digits(rest)
  {
    hide CarriesDigit, DigitValue;
    DigitsAppend([c], rest);
    assert [c][..0] == [];
  }

  lemma {:induction false} NoDigits(line: seq<Uint8>)
    ensures Digits(line) == [] <==> forall c :: c in line ==> !CarriesDigit(c)
    decreases |line|
  {
    hide CarriesDigit, DigitValue;
    if line != [] { NoDigits(line[..|line| - 1]); }
  }

  lemma StrayNext(line: seq<Uint8>)
    requires line != []
    ensures line[0] == '!' as int ==> (NoStray(line) <==> forall c :: c in line[1..] ==> !CarriesDigit(c))
    ensures line[0] != '!' as int ==>
              (NoStray(line) <==> (CarriesDigit(line[0]) ==> IsHexDigit(line[0])) && NoStray(line[1..]))
  {
    hide CarriesDigit, IsHexDigit;
    var rest := line[1..];
    SameDigit(line[0]);
    assert Stray(line, 0) <==> CarriesDigit(line[0]) && !IsHexDigit(line[0]);
    forall i: nat | i < |rest|
      ensures line[0] == '!' as int ==> (Stray(line, i + 1) <==> CarriesDigit(rest[i]))
      ensures line[0] != '!' as int ==> (Stray(line, i + 1) <==> Stray(rest, i))
    {
      assert line[..i + 1] == [line[0]] + rest[..i];
    }
    assert forall i: nat :: i < |line| ==> i == 0 || Stray(line, i) == Stray(line, (i - 1) + 1);
  }

  /** The two readers see the same digits exactly on lines without a stray character; else the pipe
      sees more of them. */
  lemma {:induction false} SameDigits(line: seq<Uint8>)
    ensures Digits(line) == Crc32.HexDigits(line) <==> NoStray(line)
    ensures |Crc32.HexDigits(line)| <= |Digits(line)|
    ensures |Crc32.HexDigits(line)| == |Digits(line)| ==> NoStray(line)
    decreases |line|
  {
    hide CarriesDigit, IsHexDigit, HexValue, DigitValue, NoStray, Digits;
    if line == [] {
      assert NoStray(line) by { NothingStray(); }
      NoDigits([]);
    } else {
      var c, rest := line[0], line[1..];
      assert line == [c] + rest;
      SameDigits(rest);
      SameDigit(c);
      FirstDigit(c, rest);
      StrayNext(line);
      NoDigits(rest);
    }
  }

  lemma NothingStray()
    ensures NoStray([])
  {}

  lemma SamePair(hi: Nibble, lo: Nibble)
    ensures Combine(hi, lo) == HexPair(hi, lo)
  {
    NoBits();
    hide NibbleBits;
  }

  lemma NoBits()
    ensures NibbleBits(0) == [false, false, false, false]
  {}

  lemma {:induction false} SamePairs(digits: seq<Nibble>)
    ensures PairBytes(digits) == Crc32.PairUp(digits)
    decreases |digits|
  {
    hide Combine, HexPair;
    if |digits| >= 2 {
      SamePair(digits[0], digits[1]);
      SamePairs(digits[2..]);
      assert PairBytes(digits) == [Combine(digits[0], digits[1])] + PairBytes(digits[2..]);
    }
  }

  /** Decoder agreement: on a line without stray characters, such as one of hex digits and spaces
      only, the pipe sends the bytes that the CRC program reads, an odd last digit dropped by both;
      only a line of more than MTU bytes is cut. */
  lemma DecodersAgree(line: seq<Uint8>)
    requires NoStray(line)
    ensures Decode(line) == Truncate(Crc32.HexBytes(line))
    ensures |Crc32.HexBytes(line)| <= MTU ==> Decode(line) == Crc32.HexBytes(line)
  {
    hide NoStray, Digits, PairBytes;
    SameDigits(line);
    SamePairs(Crc32.HexDigits(line));
  }

  /** The letters beyond F set them apart: the pipe sends a byte for "GG", the CRC program reads
      none. */
  lemma DecodersDiffer()
    ensures var line := ['G' as int, 'G' as int];
            |Decode(line)| == 1 && Crc32.HexBytes(line) == []
  {
    var line: seq<Uint8> := ['G' as int, 'G' as int];
    assert line[..1] == ['G' as int] && line[..1][..0] == [];
    assert Digits(line) == Digits(line[..1]) + [16] == [16, 16];
    assert line[1..][1..] == [];
    assert Crc32.HexDigits(line) == Crc32.HexDigits(line[1..]) == Crc32.HexDigits([]) == [];
  }

  predicate AllAre(b: seq<Uint8>, d: Nibble)
  {
    forall k :: 0 <= k < |b| ==> b[k] == d
  }

  /** A digit too many goes unnoticed in the bytes: v stands between the digits a and b that both
      readers see. The number of those is even, so that v pushes out only an odd last digit; the
      digits behind v all equal its low four bits, so that the shift does not show; and if v is the
      second of a pair, its higher bits are set in its partner already. */
  ghost predicate Unnoticed(a: seq<Uint8>, v: Uint8, b: seq<Uint8>)
  {
    && (|a| + |b|) % 2 == 0
    && AllAre(b, v % 16)
    && (|a| % 2 == 1 ==> HasBits(a[|a| - 1], v / 16))
  }

  /** The bits of h, which is at most 2, are set in u. */
  predicate HasBits(u: Uint8, h: Uint8)
  {
    (h == 1 ==> u % 2 == 1) && (h == 2 ==> u / 2 % 2 == 1)
  }

  lemma NibblesDiffer(d: Nibble, e: Nibble)
    ensures NibbleBits(d) == NibbleBits(e) <==> d == e
  {
    var x, y := NibbleBits(d), NibbleBits(e);
    if x == y { assert x[0] == y[0] && x[1] == y[1] && x[2] == y[2] && x[3] == y[3]; }
  }

  /** The byte that two digits make in the pipe, the first one cut to four bits. */
  lemma CombinedBits(hi: Uint8, lo: Uint8)
    ensures Combine(hi, lo) == NibbleBits(lo % 16) + Or(NibbleBits(hi % 16), NibbleBits(lo / 16))
  {
    hide NibbleBits;
  }

  /** u with the bits of h, which is at most 2, set. */
  function WithBits(u: Nibble, h: Uint8): Nibble
  {
    if h == 1 && u % 2 == 0 then u + 1
    else if h == 2 && u / 2 % 2 == 0 then u + 2
    else u
  }

  lemma OrSetsBits(u: Nibble, h: Nibble)
    requires h <= 2
    ensures Or(NibbleBits(u), NibbleBits(h)) == NibbleBits(WithBits(u, h))
  {
    var x, y, z := NibbleBits(u), NibbleBits(h), NibbleBits(WithBits(u, h));
    assert z[0] == (x[0] || y[0]) && z[1] == (x[1] || y[1]) && z[2] == (x[2] || y[2]) && z[3] == (x[3] || y[3]);
  }

  /** The digits hi and lo make the byte with the hex digits h and l in the pipe. */
  predicate Makes(hi: Uint8, lo: Uint8, h: Nibble, l: Nibble)
  {
    WithBits(hi % 16, lo / 16) == h && lo % 16 == l
  }

  lemma CombinedMakes(hi: Uint8, lo: Uint8, h: Nibble, l: Nibble)
    requires hi < 36 && lo < 36
    ensures Combine(hi, lo) == HexPair(h, l) <==> Makes(hi, lo, h, l)
  {
    hide NibbleBits, WithBits, Combine;
    CombinedBits(hi, lo);
    OrSetsBits(hi % 16, lo / 16);
    var x, y := NibbleBits(lo % 16), NibbleBits(WithBits(hi % 16, lo / 16));
    assert (x + y)[..4] == x && (x + y)[4..] == y;
    var b := HexPair(h, l);
    assert b[..4] == NibbleBits(l) && b[4..] == NibbleBits(h);
    NibblesDiffer(lo % 16, l);
    NibblesDiffer(WithBits(hi % 16, lo / 16), h);
  }

  lemma CombinedIs(hi: Uint8, lo: Uint8, h: Nibble, l: Nibble)
    requires hi < 36 && lo < 36 && (lo < 16 || hi == h)
    ensures Combine(hi, lo) == HexPair(h, l) <==> hi % 16 == h && lo % 16 == l && HasBits(h, lo / 16)
  {
    hide Combine, HexPair;
    CombinedMakes(hi, lo, h, l);
  }

  lemma AllHave(u: Nibble)
    ensures HasBits(u, 0)
  {}

  lemma NextPair(x: Uint8, y: Uint8, rest: seq<Uint8>)
    ensures PairBytes([x, y] + rest) == [Combine(x, y)] + PairBytes(rest)
  {
    hide Combine;
  }

  lemma NextHexPair(x: Nibble, y: Nibble, rest: seq<Nibble>)
    ensures Crc32.PairUp([x, y] + rest) == [HexPair(x, y)] + Crc32.PairUp(rest)
  {
    assert ([x, y] + rest)[2..] == rest;
  }

  lemma SameFirst(x: Word8, xs: Bytes, y: Word8, ys: Bytes)
    ensures [x] + xs == [y] + ys <==> x == y && xs == ys
  {
    assert ([x] + xs)[0] == x && ([x] + xs)[1..] == xs && ([y] + ys)[0] == y && ([y] + ys)[1..] == ys;
  }

  /** A digit too many in front of everything. */
  lemma {:induction false} UnnoticedInFront(v: Uint8, b: seq<Nibble>)
    requires v < 36
    ensures PairBytes([v] + b) == Crc32.PairUp(b) <==> |b| % 2 == 0 && AllAre(b, v % 16)
    decreases |b|
  {
    hide PairBytes, Combine, HexPair, HasBits, Crc32.PairUp;
    if |b| < 2 {
      PairCount([v] + b, b);
    } else {
      var rest := b[2..];
      assert [v] + b == [v, b[0]] + ([b[1]] + rest) && b == [b[0], b[1]] + rest;
      NextPair(v, b[0], [b[1]] + rest);
      NextHexPair(b[0], b[1], rest);
      CombinedIs(v, b[0], b[0], b[1]);
      AllHave(b[0]);
      UnnoticedInFront(b[1], rest);
      SameFirst(Combine(v, b[0]), PairBytes([b[1]] + rest), HexPair(b[0], b[1]), Crc32.PairUp(rest));
      assert AllAre(b, v % 16) <==> b[0] == v % 16 && b[1] == v % 16 && AllAre(rest, v % 16);
    }
  }

  lemma AllAreNext(b: seq<Uint8>, d: Nibble)
    requires b != []
    ensures AllAre(b, d) <==> b[0] == d && AllAre(b[1..], d)
  {
    assert forall k :: 0 < k < |b| ==> b[k] == b[1..][k - 1];
  }

  lemma SmallDigit(c: Nibble)
    ensures c % 16 == c
  {}

  /** A digit too many as the second of a pair. */
  lemma UnnoticedInPair(u: Nibble, v: Uint8, c: Nibble, rest: seq<Nibble>)
    requires v < 36
    ensures PairBytes([u, v] + ([c] + rest)) == Crc32.PairUp([u, c] + rest)
       <==> v % 16 == c && HasBits(u, v / 16) && |rest| % 2 == 0 && AllAre(rest, c)
  {
    hide PairBytes, Combine, HexPair, HasBits, Crc32.PairUp, AllAre;
    var xs, ys := PairBytes([c] + rest), Crc32.PairUp(rest);
    NextPair(u, v, [c] + rest);
    NextHexPair(u, c, rest);
    SameFirst(Combine(u, v), xs, HexPair(u, c), ys);
    assert Combine(u, v) == HexPair(u, c) <==> v % 16 == c && HasBits(u, v / 16) by {
      SmallDigit(u);
      CombinedIs(u, v, u, c);
    }
    assert xs == ys <==> |rest| % 2 == 0 && AllAre(rest, c) by {
      SmallDigit(c);
      UnnoticedInFront(c, rest);
    }
  }

  lemma {:induction false} UnnoticedPairs(a: seq<Nibble>, v: Uint8, b: seq<Nibble>)
    requires v < 36
    ensures PairBytes(a + [v] + b) == Crc32.PairUp(a + b) <==> Unnoticed(a, v, b)
    decreases |a|
  {
    hide PairBytes, Combine, HexPair, HasBits, Crc32.PairUp, AllAre;
    var d: seq<Uint8>, h := a + [v] + b, a + b;
    if |a| >= 2 {
      var rest := a[2..];
      assert d == [a[0], a[1]] + (rest + [v] + b) && h == [a[0], a[1]] + (rest + b);
      NextPair(a[0], a[1], rest + [v] + b);
      NextHexPair(a[0], a[1], rest + b);
      SamePair(a[0], a[1]);
      UnnoticedPairs(rest, v, b);
      SameFirst(HexPair(a[0], a[1]), PairBytes(rest + [v] + b), HexPair(a[0], a[1]), Crc32.PairUp(rest + b));
    } else if a == [] {
      assert d == [v] + b && h == b;
      UnnoticedInFront(v, b);
    } else if b == [] {
      PairCount(d, h);
    } else {
      var u, c, rest := a[0], b[0], b[1..];
      assert d == [u, v] + ([c] + rest) && h == [u, c] + rest;
      UnnoticedInPair(u, v, c, rest);
      AllAreNext(b, v % 16);
    }
  }

  lemma PairCount(d: seq<Uint8>, h: seq<Nibble>)
    ensures |PairBytes(d)| == |d| / 2
    ensures |Crc32.PairUp(h)| == |h| / 2
  {
    SamePairs(h);
  }

  ghost predicate OnlyStray(line: seq<Uint8>, i: nat)
    requires i < |line|
  {
    Stray(line, i) && forall j: nat :: j < |line| && j != i ==> !Stray(line, j)
  }

  lemma {:induction false} HexDigitsStop(a: seq<Uint8>, b: seq<Uint8>)
    requires '!' as int in a
    ensures Crc32.HexDigits(a + b) == Crc32.HexDigits(a)
    decreases |a|
  {
    if a[0] != '!' as int {
      assert (a + b)[1..] == a[1..] + b;
      HexDigitsStop(a[1..], b);
    }
  }

  /** Being stray behind position i. */
  lemma StrayBehind(line: seq<Uint8>, i: nat, j: nat)
    requires i < j < |line|
    ensures '!' as int in line[..i] ==> (Stray(line, j) <==> CarriesDigit(line[j]))
    ensures '!' as int !in line[..i + 1] ==> (Stray(line, j) <==> Stray(line[i + 1..], j - i - 1))
  {
    hide CarriesDigit, IsHexDigit;
    assert line[..j] == line[..i + 1] + line[i + 1..][..j - i - 1];
    assert line[..j] == line[..i] + line[i..j];
  }

  ghost predicate FirstStrayAt(line: seq<Uint8>, i: nat)
  {
    i < |line| && Stray(line, i) && forall j: nat :: j < i ==> !Stray(line, j)
  }

  lemma PlainFront(line: seq<Uint8>, i: nat)
    requires FirstStrayAt(line, i)
    ensures Digits(line[..i]) == Crc32.HexDigits(line[..i])
    ensures '!' as int !in line[..i] ==> '!' as int !in line[..i + 1] && !IsHexDigit(line[i])
  {
    hide CarriesDigit, IsHexDigit, Digits;
    forall j: nat | j < i ensures !Stray(line[..i], j) {
      assert !Stray(line, j) && line[..i][..j] == line[..j];
    }
    SameDigits(line[..i]);
    SameDigit(line[i]);
  }

  /** The digits that the readers see around the first stray character. */
  lemma DigitsAround(line: seq<Uint8>, i: nat)
    requires FirstStrayAt(line, i)
    ensures Digits(line) == Digits(line[..i]) + [DigitValue(line[i])] + Digits(line[i + 1..])
    ensures Crc32.HexDigits(line)
         == Digits(line[..i]) + if '!' as int in line[..i] then [] else Crc32.HexDigits(line[i + 1..])
  {
    hide DigitValue, IsHexDigit, HexValue, Digits, CarriesDigit;
    var x, c, y := line[..i], line[i], line[i + 1..];
    assert line == x + ([c] + y);
    DigitsAppend(x, [c] + y);
    FirstDigit(c, y);
    PlainFront(line, i);
    if '!' as int in x {
      HexDigitsStop(x, [c] + y);
    } else {
      CrcResidue.HexDigitsAppend(x, [c] + y);
      assert ([c] + y)[1..] == y;
      assert line[..i + 1][i] == c;
    }
  }

  /** Without another stray character the CRC program sees the same digits but one, else at least two
      less. */
  lemma DigitsMissed(line: seq<Uint8>, i: nat)
    requires FirstStrayAt(line, i)
    ensures var a, v, b := Digits(line[..i]), DigitValue(line[i]), Digits(line[i + 1..]);
            if OnlyStray(line, i) then Crc32.HexDigits(line) == a + b
            else |Crc32.HexDigits(line)| + 2 <= |Digits(line)|
  {
    hide DigitValue, IsHexDigit, HexValue, Digits, CarriesDigit, Stray;
    var y := line[i + 1..];
    assert CarriesDigit(line[i]) by { StrayCarries(line, i); }
    DigitsAround(line, i);
    PlainFront(line, i);
    forall j: nat | i < j < |line|
      ensures '!' as int in line[..i] ==> (Stray(line, j) <==> CarriesDigit(y[j - i - 1]))
      ensures '!' as int !in line[..i] ==> (Stray(line, j) <==> Stray(y, j - i - 1))
    {
      StrayBehind(line, i, j);
    }
    assert forall k: nat :: k < |y| ==> y[k] == line[i + 1 + k];
    NoDigits(y);
    SameDigits(y);
    if OnlyStray(line, i) {
      BehindOnly(line, i);
    } else {
      var j: nat :| j < |line| && j != i && Stray(line, j);
      assert i < j && y[j - i - 1] in y;
    }
  }

  lemma StrayCarries(line: seq<Uint8>, i: nat)
    requires i < |line|
    ensures Stray(line, i) ==> CarriesDigit(line[i])
  {}

  lemma BehindOnly(line: seq<Uint8>, i: nat)
    requires FirstStrayAt(line, i) && OnlyStray(line, i)
    ensures '!' as int in line[..i] ==> forall c :: c in line[i + 1..] ==> !CarriesDigit(c)
    ensures '!' as int !in line[..i] ==> NoStray(line[i + 1..])
  {
    hide CarriesDigit, IsHexDigit, Stray;
    var y := line[i + 1..];
    PlainFront(line, i);
    forall k: nat | k < |y|
      ensures '!' as int in line[..i] ==> !CarriesDigit(y[k])
      ensures '!' as int !in line[..i] ==> !Stray(y, k)
    {
      StrayBehind(line, i, i + 1 + k);
    }
  }

  lemma {:induction false} FirstStray(line: seq<Uint8>, n: nat) returns (i: nat)
    requires n < |line| && Stray(line, n)
    ensures FirstStrayAt(line, i)
    decreases n
  {
    hide Stray;
    if j: nat :| j < n && Stray(line, j) {
      i := FirstStray(line, j);
    } else {
      i := n;
    }
  }

  /** A line with one stray character that does not show in the bytes. */
  ghost predicate StrayUnnoticed(line: seq<Uint8>)
  {
    exists i: nat :: i < |line| && OnlyStray(line, i)
      && Unnoticed(Digits(line[..i]), DigitValue(line[i]), Digits(line[i + 1..]))
  }

  /** Exactly when the two readers make the same bytes of a line, before it is cut at MTU: it has no
      stray character, or a single one that goes unnoticed. */
  lemma SameBytes(line: seq<Uint8>)
    ensures PairBytes(Digits(line)) == Crc32.HexBytes(line) <==> NoStray(line) || StrayUnnoticed(line)
    ensures |Digits(line)| / 2 <= MTU ==>
              (Decode(line) == Crc32.HexBytes(line) <==> NoStray(line) || StrayUnnoticed(line))
  {
    hide CarriesDigit, DigitValue, IsHexDigit, HexValue, Digits, PairBytes, Unnoticed, Crc32.PairUp;
    SameDigits(line);
    SamePairs(Crc32.HexDigits(line));
    PairCount(Digits(line), []);
    if !NoStray(line) {
      var n: nat :| n < |line| && Stray(line, n);
      var i := FirstStray(line, n);
      var a, v, b := Digits(line[..i]), DigitValue(line[i]), Digits(line[i + 1..]);
      DigitsAround(line, i);
      DigitsMissed(line, i);
      PairCount(Digits(line), Crc32.HexDigits(line));
      if OnlyStray(line, i) {
        var h := Crc32.HexDigits(line);
        assert a == h[..|a|] && b == h[|a|..];
        UnnoticedPairs(h[..|a|], v, h[|a|..]);
      }
    }
  }

  lemma {:induction false} DigitsAreSmall(line: seq<Uint8>)
    ensures forall i :: 0 <= i < |Digits(line)| ==> Digits(line)[i] < 36
    decreases |line|
  {
    hide CarriesDigit;
    if line != [] { DigitsAreSmall(line[..|line| - 1]); }
  }

  /** How many bytes a line of n digits gives. */
  function Sent(n: nat): nat
  {
    if n / 2 <= MTU then n / 2 else MTU
  }

  /** Exactly when the pipe sends the bytes that the CRC program reads, cut at MTU, for every line:
      when the numbers of digits give as many bytes, and every two digits that the pipe sees make the
      byte of the two that the CRC program sees at the same place. */
  lemma SameFrames(line: seq<Uint8>)
    ensures var d, h := Digits(line), Crc32.HexDigits(line);
            Decode(line) == Truncate(Crc32.HexBytes(line))
            <==> Sent(|d|) == Sent(|h|)
                 && forall i :: 0 <= i < Sent(|h|) ==> Makes(d[2 * i], d[2 * i + 1], h[2 * i], h[2 * i + 1])
  {
    hide Digits, Combine, Makes, HexPair, Crc32.PairUp, Crc32.HexDigits;
    var d, h := Digits(line), Crc32.HexDigits(line);
    var x, y := Decode(line), Truncate(Crc32.HexBytes(line));
    DigitsAreSmall(line);
    SamePairs(h);
    SameDigits(line);
    assert |x| == Sent(|d|) && |y| == Sent(|h|);
    forall i | 0 <= i < |y|
      ensures i < |x| ==> (x[i] == y[i] <==> Makes(d[2 * i], d[2 * i + 1], h[2 * i], h[2 * i + 1]))
    {
      assert y[i] == PairBytes(h)[i] == Combine(h[2 * i], h[2 * i + 1]);
      SamePair(h[2 * i], h[2 * i + 1]);
      if i < |x| { CombinedMakes(d[2 * i], d[2 * i + 1], h[2 * i], h[2 * i + 1]); }
    }
  }

  /** A stray character behind the digits of MTU bytes does not show. */
  lemma StrayBehindCut(line: seq<Uint8>, n: nat)
    requires n <= |line| && NoStray(line[..n]) && |Digits(line[..n])| >= 2 * MTU
    ensures Decode(line) == Truncate(Crc32.HexBytes(line))
  {
    hide Digits, Crc32.HexDigits, NoStray, Makes, Decode, Crc32.HexBytes;
    var x, y := line[..n], line[n..];
    assert line == x + y;
    var a := Crc32.HexDigits(x);
    SameDigits(x);
    DigitsAppend(x, y);
    if '!' as int in x {
      HexDigitsStop(x, y);
    } else {
      CrcResidue.HexDigitsAppend(x, y);
    }
    forall i | 0 <= i < MTU ensures Makes(a[2 * i], a[2 * i + 1], a[2 * i], a[2 * i + 1]) {
      MakesItself(a[2 * i], a[2 * i + 1]);
    }
    SameFrames(line);
  }

  lemma MakesItself(h: Nibble, l: Nibble)
    ensures Makes(h, l, h, l)
  {}
}
