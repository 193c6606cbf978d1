/** The flattened forwarding table of cuda_iplookup/cuda_iplookup.cu: `mapping_fib` paints the
    range of every prefix into a table of 2^24 entries, shorter prefixes first, so that one
    array read replaces a search over all prefixes. */
module FibTable {
  import opened Unsigned
  import opened PrefixMasks
  import opened Wrappers

  /** `struct _fib` */
  datatype Entry = Entry(ip: Uint32, subnet: Uint8, gw: Uint8)

  const TABLE_SIZE: nat := 0x100_0000

  /** The prefix of an entry matches an address. */
  predicate Matches(e: Entry, ip: Uint32)
    requires e.subnet <= 32
  {
    And(ip, Mask(e.subnet)) == And(e.ip, Mask(e.subnet))
  }

  /** Matching by an entry whose length is at least `shortest` and at most 24. */
  predicate Eligible(e: Entry, ip: Uint32, shortest: nat)
  {
    shortest <= e.subnet <= 24 && Matches(e, ip)
  }

  /** The search that the table replaces: over the first n entries, keep the eligible one with the
      longest prefix, the later one on a tie. */
  function Search(fib: seq<Entry>, ip: Uint32, shortest: nat, n: nat): (best: Option<nat>)
    requires n <= |fib|
    ensures best.Some? ==> best.value < n
  {
    if n == 0 then None
    else
      var b := Search(fib, ip, shortest, n - 1);
      if Eligible(fib[n - 1], ip, shortest) && (b == None || fib[b.value].subnet <= fib[n - 1].subnet)
      then Some(n - 1)
      else b
  }

  /** The gateway found by the search, 0 when nothing matches. */
  function Gateway(fib: seq<Entry>, ip: Uint32, shortest: nat): Uint32
  {
    match Search(fib, ip, shortest, |fib|)
    case None => 0
    case Some(j) => fib[j].gw
  }

  /** j is the longest match among the first n entries, the highest index among equals. */
  ghost predicate IsLongestMatch(fib: seq<Entry>, ip: Uint32, shortest: nat, n: nat, j: nat)
  {
    && j < n <= |fib| && Eligible(fib[j], ip, shortest)
    && forall k :: 0 <= k < n && Eligible(fib[k], ip, shortest) ==>
         fib[k].subnet < fib[j].subnet || (fib[k].subnet == fib[j].subnet && k <= j)
  }

  /** The search finds the longest match, and finds nothing only when nothing matches. */
  lemma {:induction false} SearchIsLongestMatch(fib: seq<Entry>, ip: Uint32, shortest: nat, n: nat)
    requires n <= |fib|
    ensures var b := Search(fib, ip, shortest, n);
            match b
            case Some(j) => IsLongestMatch(fib, ip, shortest, n, j)
            case None => forall k :: 0 <= k < n ==> !Eligible(fib[k], ip, shortest)
    decreases n
  {
    hide Eligible;
    if n > 0 { SearchIsLongestMatch(fib, ip, shortest, n - 1); }
  }

  /** The entry covers a table cell: the cell lies between the ends of its range. */
  predicate Covers(e: Entry, cell: nat)
    requires e.subnet <= 32
  {
    And(e.ip, Mask(e.subnet)) / 0x100 <= cell <= Or(e.ip, LowMask(e.subnet)) / 0x100
  }

  /** The entry that painted a cell last once the painting has reached entry n of the pass for
      prefixes of length s. */
  function LastPainter(fib: seq<Entry>, cell: nat, s: nat, n: nat): (last: Option<nat>)
    requires 2 <= s && n <= |fib|
    ensures last.Some? ==> last.value < |fib|
    decreases s, n
  {
    if n > 0 then
      if fib[n - 1].subnet == s && s <= 24 && Covers(fib[n - 1], cell) then Some(n - 1)
      else LastPainter(fib, cell, s, n - 1)
    else if s > 2 then LastPainter(fib, cell, s - 1, |fib|)
    else None
  }

  /** The painting order is the order of the search: the last painter is the longest match among
      what has been painted. */
  lemma {:induction false} LastPainterIsLongestMatch(fib: seq<Entry>, ip: Uint32, s: nat, n: nat)
    requires 2 <= s && n <= |fib|
    ensures var p := LastPainter(fib, ip / 0x100, s, n);
            match p
            case Some(j) =>
              && Eligible(fib[j], ip, 2) && (fib[j].subnet < s || (fib[j].subnet == s && j < n))
              && forall k :: 0 <= k < |fib| && Eligible(fib[k], ip, 2) &&
                             (fib[k].subnet < s || (fib[k].subnet == s && k < n)) ==>
                   fib[k].subnet < fib[j].subnet || (fib[k].subnet == fib[j].subnet && k <= j)
            case None =>
              forall k :: 0 <= k < |fib| && Eligible(fib[k], ip, 2) ==>
                s < fib[k].subnet || (fib[k].subnet == s && k >= n)
    decreases s, n
  {
    hide And, Or, Mask, LowMask;
    if n > 0 {
      var e := fib[n - 1];
      if e.subnet <= 24 { MaskIsRange(e.ip, ip, e.subnet); }
      LastPainterIsLongestMatch(fib, ip, s, n - 1);
    } else if s > 2 {
      LastPainterIsLongestMatch(fib, ip, s - 1, |fib|);
    }
  }

  /** When all passes are over the last painter is what the search finds. */
  lemma PaintingRefinesSearch(fib: seq<Entry>, ip: Uint32)
    ensures LastPainter(fib, ip / 0x100, 25, 0) == Search(fib, ip, 2, |fib|)
  {
    hide Eligible, LastPainter, Search;
    LastPainterIsLongestMatch(fib, ip, 25, 0);
    SearchIsLongestMatch(fib, ip, 2, |fib|);
    assert forall e: Entry :: Eligible(e, ip, 2) ==> e.subnet <= 24 by { ShortEnough(ip); }
  }

  lemma ShortEnough(ip: Uint32)
    ensures forall e: Entry :: Eligible(e, ip, 2) ==> e.subnet <= 24
  {}

  /** What a cell shows: the gateway of its last painter, or its initial value. */
  function Shown(fib: seq<Entry>, last: Option<nat>, initial: Uint32): Uint32
    requires last.Some? ==> last.value < |fib|
  {
    match last
    case None => initial
    case Some(j) => fib[j].gw
  }

  /** The innermost loop: one entry's range is overwritten, nothing else changes. */
  method PaintRange(table: array<Uint32>, first: nat, last: nat, gw: Uint32)
    requires table.Length == TABLE_SIZE && first <= last < TABLE_SIZE
    modifies table
    ensures forall a :: 0 <= a < TABLE_SIZE ==>
              table[a] == if first <= a <= last then gw else old(table[a])
  {
    var ip := first;
    while ip <= last
      invariant first <= ip <= last + 1
      invariant forall a :: 0 <= a < TABLE_SIZE ==>
                  table[a] == if first <= a < ip then gw else old(table[a])
    {
      var addr := ip % TABLE_SIZE;
      table[addr] := gw;
      ip := ip + 1;
    }
  }

  /** `mapping_fib`: afterwards a single read at the upper 24 bits of any address gives the gateway
      of its longest match among the prefixes of length 2 to 24, and cells that no such prefix
      covers keep their value. */
  method MappingFib(fib: seq<Entry>, table: array<Uint32>)
    requires table.Length == TABLE_SIZE
    modifies table
    ensures forall ip: Uint32 :: table[ip / 0x100]
              == Shown(fib, Search(fib, ip, 2, |fib|), old(table[ip / 0x100]))
    ensures (forall a :: 0 <= a < TABLE_SIZE ==> old(table[a]) == 0) ==>
              forall ip: Uint32 :: table[ip / 0x100] == Gateway(fib, ip, 2)
  {
    hide And, Or, Mask, LowMask;
    ghost var initial := table[..];
    var subnet := 2;
    while subnet <= 24
      invariant 2 <= subnet <= 25
      invariant forall a :: 0 <= a < TABLE_SIZE ==>
                  table[a] == Shown(fib, LastPainter(fib, a, subnet, 0), initial[a])
    {
      var i := 0;
      while i < |fib|
        invariant 0 <= i <= |fib|
        invariant forall a :: 0 <= a < TABLE_SIZE ==>
                    table[a] == Shown(fib, LastPainter(fib, a, subnet, i), initial[a])
      {
        if fib[i].subnet == subnet {
          RangeEnds(fib[i].ip, subnet);
          var ipStart := And(fib[i].ip, Mask(subnet));
          var ipEnd := Or(fib[i].ip, LowMask(subnet));
          PaintRange(table, ipStart / 0x100, ipEnd / 0x100, fib[i].gw);
        }
        i := i + 1;
      }
      subnet := subnet + 1;
    }
    forall ip: Uint32 ensures table[ip / 0x100] == Shown(fib, Search(fib, ip, 2, |fib|), initial[ip / 0x100]) {
      PaintingRefinesSearch(fib, ip);
    }
  }

  /** An entry matches an address if their leading bits agree, as many as the entry's length. */
  lemma MatchesMeans(e: Entry, ip: Uint32)
    requires e.subnet <= 32
    ensures Matches(e, ip) <==> ip / Pow2(32 - e.subnet) == e.ip / Pow2(32 - e.subnet)
  {
    hide And, Mask, Prefix, Pow2;
    MaskedEquality(e.ip, ip, e.subnet);
    PrefixIsQuotient(ip, 32 - e.subnet);
    PrefixIsQuotient(e.ip, 32 - e.subnet);
  }

  /** Entry j matches ip and has a length that is painted. */
  predicate Painted(fib: seq<Entry>, ip: Uint32, j: nat)
    requires j < |fib|
  {
    2 <= fib[j].subnet <= 24 && ip / Pow2(32 - fib[j].subnet) == fib[j].ip / Pow2(32 - fib[j].subnet)
  }

  /** What the table of 2^24 cells shows, told on the entries: the gateway of the longest match, the
      last one of several, and 0 without any. */
  lemma TableShowsLongestMatch(fib: seq<Entry>, ip: Uint32)
    ensures TABLE_SIZE == 0x100_0000
    ensures forall j: nat :: j < |fib| && Painted(fib, ip, j) && NoneBetter(fib, ip, j) ==>
                               Gateway(fib, ip, 2) == fib[j].gw
    ensures (forall j: nat :: j < |fib| ==> !Painted(fib, ip, j)) ==> Gateway(fib, ip, 2) == 0
  {
    hide Search, Matches, Pow2;
    SearchIsLongestMatch(fib, ip, 2, |fib|);
    forall j: nat | j < |fib| ensures Painted(fib, ip, j) <==> Eligible(fib[j], ip, 2) {
      if fib[j].subnet <= 32 { MatchesMeans(fib[j], ip); }
    }
  }

  /** No other match is longer than entry j, and none as long comes behind it. */
  predicate NoneBetter(fib: seq<Entry>, ip: Uint32, j: nat)
    requires j < |fib|
  {
    forall k: nat :: k < |fib| && Painted(fib, ip, k) ==>
                       fib[k].subnet < fib[j].subnet || (fib[k].subnet == fib[j].subnet && k <= j)
  }

  /** Prefixes of length 0 and 1 are never painted: they matter only when nothing longer matches. */
  lemma LongerMatchWins(fib: seq<Entry>, ip: Uint32)
    ensures Search(fib, ip, 2, |fib|).Some? ==> Search(fib, ip, 0, |fib|) == Search(fib, ip, 2, |fib|)
    ensures Search(fib, ip, 0, |fib|) == None ==> Search(fib, ip, 2, |fib|) == None
  {
    hide Search, Matches;
    SearchIsLongestMatch(fib, ip, 2, |fib|);
    SearchIsLongestMatch(fib, ip, 0, |fib|);
    var b, c := Search(fib, ip, 0, |fib|), Search(fib, ip, 2, |fib|);
    if c.Some? && b.Some? {
      assert Eligible(fib[c.value], ip, 0);
      assert fib[c.value].subnet <= fib[b.value].subnet;
      assert Eligible(fib[b.value], ip, 2);
    } else if c.Some? {
      assert Eligible(fib[c.value], ip, 0);
    }
  }

  /** The longest match of an address is one of the prefixes that are never painted, and it has a
      gateway to lose: entry j is shorter than 2 bits, no match is longer, none as long comes after
      it, and its gateway is not 0. */
  ghost predicate Lost(fib: seq<Entry>, ip: Uint32, j: nat)
  {
    && j < |fib| && fib[j].subnet < 2 && Matches(fib[j], ip) && fib[j].gw != 0
    && forall k :: 0 <= k < |fib| && fib[k].subnet <= 24 && Matches(fib[k], ip) ==>
         fib[k].subnet < fib[j].subnet || (fib[k].subnet == fib[j].subnet && k <= j)
  }

  /** When the table agrees with longest-prefix match over all loaded prefixes, the short ones
      included: unless the longest match is a prefix of length 0 or 1. */
  lemma ShortPrefixesIgnored(fib: seq<Entry>, ip: Uint32)
    ensures Gateway(fib, ip, 2) == Gateway(fib, ip, 0) <==> forall j: nat :: !Lost(fib, ip, j)
  {
    hide Search, Matches;
    LongerMatchWins(fib, ip);
    SearchIsLongestMatch(fib, ip, 0, |fib|);
    var b := Search(fib, ip, 0, |fib|);
    forall j: nat ensures Lost(fib, ip, j) ==> b == Some(j) {
      if Lost(fib, ip, j) {
        assert Eligible(fib[j], ip, 0);
        assert b.Some? && Eligible(fib[b.value], ip, 0);
      }
    }
    SearchIsLongestMatch(fib, ip, 2, |fib|);
    var c := Search(fib, ip, 2, |fib|);
    assert c.Some? ==> Eligible(fib[c.value], ip, 2);
    assert b.Some? && fib[b.value].subnet >= 2 ==> Eligible(fib[b.value], ip, 2);
    if b.Some? && fib[b.value].subnet < 2 && fib[b.value].gw != 0 {
      forall k | 0 <= k < |fib| && fib[k].subnet <= 24 && Matches(fib[k], ip) ensures Eligible(fib[k], ip, 0) {}
      assert Lost(fib, ip, b.value);
    }
  }

  /** So the table is right for all addresses exactly when no address has such a longest match. */
  lemma TableIsComplete(fib: seq<Entry>)
    ensures (forall ip: Uint32 :: Gateway(fib, ip, 2) == Gateway(fib, ip, 0))
       <==> forall ip: Uint32, j: nat :: !Lost(fib, ip, j)
  {
    hide Lost, Gateway;
    if ip: Uint32, j: nat :| Lost(fib, ip, j) {
      ShortPrefixesIgnored(fib, ip);
    } else {
      forall ip: Uint32 ensures Gateway(fib, ip, 2) == Gateway(fib, ip, 0) { ShortPrefixesIgnored(fib, ip); }
    }
  }

  /** A default route is loaded but never painted. */
  lemma DefaultRouteIgnored(ip: Uint32)
    ensures var fib := [Entry(0, 0, 7)];
            Gateway(fib, ip, 0) == 7 && Gateway(fib, ip, 2) == 0
  {
    hide And, Mask;
    MaskedEquality(0, ip, 0);
    AllPrefixesEqual(ip);
    assert Eligible(Entry(0, 0, 7), ip, 0);
    assert Search([Entry(0, 0, 7)], ip, 0, 0) == None;
  }

  lemma AllPrefixesEqual(ip: Uint32)
    ensures Prefix(ip, 32) == Prefix(0, 32)
  {
    hide Prefix;
    Pow32();
    PrefixIsZero(ip, 32);
    PrefixIsZero(0, 32);
  }

  lemma {:induction false} PrefixIsZero(x: nat, k: nat)
    requires x < Pow2(k)
    ensures Prefix(x, k) == 0
    decreases k
  {
    if k > 0 { PrefixIsZero(x / 2, k - 1); }
  }

  /** One line of the routing file as `fscanf` reads it into five ints, with the gateway drawn for
      it. */
  datatype Line = Line(ip1: int, ip2: int, ip3: int, ip4: int, subnet: int, gw: Uint8)

  predicate Loads(line: Line)
  {
    line.ip1 <= 255 && line.subnet <= 24
  }

  /** An int as an `unsigned int`. */
  function Wrap(x: int): Uint32
  {
    x % 0x1_0000_0000
  }

  /** `|` on unsigned ints. */
  function Or32(a: Uint32, b: Uint32): Uint32
  {
    Pow32();
    OrBelow(a, b, 32);
    Or(a, b)
  }

  /** Only the first number and an upper bound on the length are looked at; the other numbers are
      or-ed in as they are, and the length is cut to an `unsigned char`. */
  function ToEntry(line: Line): Entry
  {
    var ip := Or32(Or32(Or32(Wrap(line.ip1 * 0x100_0000), Wrap(line.ip2 * 0x1_0000)), Wrap(line.ip3 * 0x100)),
                   Wrap(line.ip4));
    Entry(ip, line.subnet % 0x100, line.gw)
  }

  predicate IsOctet(x: int)
  {
    0 <= x <= 255
  }

  /** The four octets of an address, first octet on top. */
  predicate HasOctets(ip: Uint32, a: int, b: int, c: int, d: int)
  {
    ip / 0x100_0000 == a && ip / 0x1_0000 % 0x100 == b && ip / 0x100 % 0x100 == c && ip % 0x100 == d
  }

  /** The entry's address has the four numbers of its line as octets if and only if they are octets. */
  lemma OctetsInOrder(line: Line)
    ensures HasOctets(ToEntry(line).ip, line.ip1, line.ip2, line.ip3, line.ip4)
       <==> IsOctet(line.ip1) && IsOctet(line.ip2) && IsOctet(line.ip3) && IsOctet(line.ip4)
  {
    hide ToEntry;
    var ip := ToEntry(line).ip;
    if IsOctet(line.ip1) && IsOctet(line.ip2) && IsOctet(line.ip3) && IsOctet(line.ip4) {
      AddressIsSum(line);
      OctetsOfSum(ip, line.ip1, line.ip2, line.ip3, line.ip4);
    }
  }

  lemma OctetsOfSum(ip: Uint32, a: int, b: int, c: int, d: int)
    requires IsOctet(a) && IsOctet(b) && IsOctet(c) && IsOctet(d)
    requires ip == a * 0x100_0000 + b * 0x1_0000 + c * 0x100 + d
    ensures HasOctets(ip, a, b, c, d)
  {
    assert ip / 0x100 == a * 0x1_0000 + b * 0x100 + c;
    assert ip / 0x1_0000 == a * 0x100 + b;
  }

  lemma AddressIsSum(line: Line)
    requires IsOctet(line.ip1) && IsOctet(line.ip2) && IsOctet(line.ip3) && IsOctet(line.ip4)
    ensures ToEntry(line).ip == line.ip1 * 0x100_0000 + line.ip2 * 0x1_0000 + line.ip3 * 0x100 + line.ip4
  {
    hide Or, Pow2;
    SmallPowers();
    OrIsSum(line.ip1, line.ip2 * 0x1_0000, 24);
    OrIsSum(line.ip1 * 0x100 + line.ip2, line.ip3 * 0x100, 16);
    OrIsSum(line.ip1 * 0x1_0000 + line.ip2 * 0x100 + line.ip3, line.ip4, 8);
  }

  lemma SmallPowers()
    ensures Pow2(8) == 0x100 && Pow2(16) == 0x1_0000 && Pow2(24) == 0x100_0000
  {
    assert Pow2(8) == 0x100;
    assert Pow2(16) == 0x1_0000;
  }

  function Loaded(lines: seq<Line>): seq<Entry>
  {
    if lines == [] then []
    else Loaded(lines[..|lines| - 1]) + if Loads(lines[|lines| - 1]) then [ToEntry(lines[|lines| - 1])] else []
  }

  /** One line more: if its first number is at most 255 and its length at most 24, exactly one entry
      is loaded behind the others, with the line's gateway, its length as an `unsigned char` and, for
      octets, its address; otherwise nothing changes. */
  lemma OneMoreLine(lines: seq<Line>, line: Line)
    ensures Loaded([]) == []
    ensures !(line.ip1 <= 255 && line.subnet <= 24) ==> Loaded(lines + [line]) == Loaded(lines)
    ensures line.ip1 <= 255 && line.subnet <= 24 ==>
              var fib, n := Loaded(lines + [line]), |Loaded(lines)|;
              && |fib| == n + 1 && fib[..n] == Loaded(lines)
              && fib[n].gw == line.gw && fib[n].subnet == line.subnet % 0x100
              && (0 <= line.ip1 && 0 <= line.ip2 <= 255 && 0 <= line.ip3 <= 255 && 0 <= line.ip4 <= 255 ==>
                  fib[n].ip == line.ip1 * 0x100_0000 + line.ip2 * 0x1_0000 + line.ip3 * 0x100 + line.ip4)
  {
    hide Or32;
    assert (lines + [line])[..|lines|] == lines;
    if IsOctet(line.ip1) && IsOctet(line.ip2) && IsOctet(line.ip3) && IsOctet(line.ip4) { AddressIsSum(line); }
  }

  /** `load_fib`: the lines that pass the filter, in file order. */
  method LoadFib(lines: seq<Line>) returns (fib: seq<Entry>)
    ensures fib == Loaded(lines)
  {
    fib := [];
    for n := 0 to |lines|
      invariant fib == Loaded(lines[..n])
    {
      assert lines[..n + 1][..n] == lines[..n];
      if lines[n].ip1 > 255 || lines[n].subnet > 24 { continue; }
      fib := fib + [ToEntry(lines[n])];
    }
    assert lines[..|lines|] == lines;
  }

  /** "1.256.0.0/24" passes the filter and is loaded as 1.0.0.0/24: the second number falls onto the
      first. */
  lemma OverlappingOctets(gw: Uint8)
    ensures var line := Line(1, 256, 0, 0, 24, gw);
            && Loads(line) && ToEntry(line).ip == 0x100_0000
            && !HasOctets(ToEntry(line).ip, line.ip1, line.ip2, line.ip3, line.ip4)
  {
    hide Or;
    OrSelf(0x100_0000);
    OrZero(0x100_0000);
  }

  /** "10.0.0.0/-232" passes the filter and is loaded as a prefix of 24 bits. */
  lemma NegativeLength(gw: Uint8)
    ensures var line := Line(10, 0, 0, 0, -232, gw); Loads(line) && ToEntry(line).subnet == 24
  {
    hide Or32;
  }

  /** Line k is loaded as entry e. */
  ghost predicate LoadedFrom(lines: seq<Line>, k: int, e: Entry)
  {
    0 <= k < |lines| && Loads(lines[k]) && e == ToEntry(lines[k])
  }

  /** Exactly the lines that pass the filter are loaded, and if no length is negative, nothing longer
      than 24 bits is. */
  lemma {:induction false} LoadedEntries(lines: seq<Line>)
    ensures forall e :: e in Loaded(lines) <==> exists k :: LoadedFrom(lines, k, e)
    ensures (forall line :: line in lines ==> line.subnet >= 0) ==> forall e :: e in Loaded(lines) ==> e.subnet <= 24
    decreases |lines|
  {
    hide ToEntry;
    if lines != [] {
      var n := |lines| - 1;
      LoadedEntries(lines[..n]);
      forall e ensures e in Loaded(lines) <==> exists k :: LoadedFrom(lines, k, e) {
        if k :| LoadedFrom(lines[..n], k, e) { assert LoadedFrom(lines, k, e); }
        if k :| LoadedFrom(lines, k, e) && k < n { assert LoadedFrom(lines[..n], k, e); }
        assert e in Loaded(lines) && e !in Loaded(lines[..n]) ==> LoadedFrom(lines, n, e);
      }
      if Loads(lines[n]) { SubnetKept(lines[n]); }
    }
  }

  /** The length survives the cut to an `unsigned char` unless it is negative: -1 becomes 255, which
      matches nothing, and -232 becomes 24. */
  lemma SubnetKept(line: Line)
    requires Loads(line)
    ensures ToEntry(line).subnet == line.subnet <==> line.subnet >= 0
  {
    hide Or32;
  }
}
