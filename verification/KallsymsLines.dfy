/** The window search on a symbol file made of lines: when a pointer ends as the address on the
    first line that carries its symbol, and what it ends as otherwise. */
module KallsymsLines {
  import opened BitWords
  import opened Characters
  import opened Unsigned
  import opened Wrappers
  import opened KallsymsSearch

  /** A line of the symbol file: sixteen hex digits, a type letter and a name, which may be
      followed by a tab and a module. */
  datatype Symbol = Symbol(addr: seq<Uint8>, kind: Uint8, name: seq<Uint8>)

  ghost predicate Plain(s: seq<Uint8>)
  {
    forall i :: 0 <= i < |s| ==> s[i] != SPACE && s[i] != NEWLINE
  }

  ghost predicate WellFormed(sym: Symbol)
  {
    && |sym.addr| == 16 && (forall i :: 0 <= i < 16 ==> IsHexDigit(sym.addr[i]))
    && sym.kind != SPACE && sym.kind != NEWLINE
    && Plain(sym.name)
  }

  function RenderLine(sym: Symbol): seq<Uint8>
  {
    sym.addr + [SPACE] + [sym.kind] + [SPACE] + sym.name + [NEWLINE]
  }

  function Render(lines: seq<Symbol>): seq<Uint8>
  {
    if lines == [] then [] else RenderLine(lines[0]) + Render(lines[1..])
  }

  /** Where line i begins. */
  function Offset(lines: seq<Symbol>, i: nat): nat
    requires i <= |lines|
  {
    if i == 0 then 0 else |RenderLine(lines[0])| + Offset(lines[1..], i - 1)
  }

  /** What a line looks like from the outside. */
  lemma LineShape(sym: Symbol)
    requires WellFormed(sym)
    ensures var r := RenderLine(sym);
            && |r| == 20 + |sym.name|
            && r[..16] == sym.addr && r[16] == SPACE && r[17] == sym.kind && r[18] == SPACE
            && r[19..|r| - 1] == sym.name && r[|r| - 1] == NEWLINE
            && (forall i :: 0 <= i < |r| - 1 ==> r[i] != NEWLINE)
            && (forall i :: 0 <= i < |r| ==> (r[i] == SPACE <==> i == 16 || i == 18))
  {}

  /** A file: the lines one behind the other, each a 16-digit address, a letter and a name, with blanks,
      code 32, between them and a line feed, code 10, at the end. */
  lemma FileAsWritten(sym: Symbol, others: seq<Symbol>)
    ensures RenderLine(sym) == sym.addr + [32, sym.kind, 32] + sym.name + [10]
    ensures Render([sym] + others) == sym.addr + [32, sym.kind, 32] + sym.name + [10] + Render(others)
    ensures Render([]) == []
  {
    assert ([sym] + others)[1..] == others;
  }

  /** An occurrence, byte by byte. */
  lemma OccursAt(s: seq<Uint8>, p: seq<Uint8>, x: int, i: int)
    ensures Occurs(s, p, x) && 0 <= i < |p| ==> s[x + i] == p[i]
  {
    if Occurs(s, p, x) && 0 <= i < |p| { assert s[x..x + |p|][i] == s[x + i]; }
  }

  /** A pattern without a newline before its end occurs inside a single line. */
  lemma {:induction false} OccursInOneLine(lines: seq<Symbol>, p: seq<Uint8>, x: int) returns (i: nat, y: int)
    requires forall k :: 0 <= k < |lines| ==> WellFormed(lines[k])
    requires GoodPattern(p) && Occurs(Render(lines), p, x)
    ensures i < |lines| && x == Offset(lines, i) + y && Occurs(RenderLine(lines[i]), p, y)
    decreases |lines|
  {
    hide WellFormed, RenderLine;
    assert lines != [];
    var r, rest := RenderLine(lines[0]), Render(lines[1..]);
    var text := r + rest;
    LineShape(lines[0]);
    if x >= |r| {
      OccursShifted(text, p, |r|, x - |r|);
      assert text[|r|..] == rest;
      i, y := OccursInOneLine(lines[1..], p, x - |r|);
      i := i + 1;
    } else {
      var e := |r| - 1;
      assert text[e] == NEWLINE;
      OccursAt(text, p, x, e - x);
      OccursWithin(text, p, |r|, x);
      assert text[..|r|] == r;
      i, y := 0, x;
    }
  }

  /** And every occurrence in a line is one in the file. */
  lemma {:induction false} LineOccurs(lines: seq<Symbol>, p: seq<Uint8>, i: nat, y: int)
    requires i < |lines| && Occurs(RenderLine(lines[i]), p, y)
    ensures Occurs(Render(lines), p, Offset(lines, i) + y)
    decreases |lines|
  {
    hide RenderLine, Occurs;
    var r, rest := RenderLine(lines[0]), Render(lines[1..]);
    if i == 0 {
      OccursInFirst(r, rest, p, y);
    } else {
      LineOccurs(lines[1..], p, i - 1, y);
      OccursInSecond(r, rest, p, Offset(lines[1..], i - 1) + y);
    }
  }

  lemma OccursInFirst(r: seq<Uint8>, rest: seq<Uint8>, p: seq<Uint8>, y: int)
    requires Occurs(r, p, y)
    ensures Occurs(r + rest, p, y)
  {
    assert (r + rest)[..|r|] == r;
    OccursWithin(r + rest, p, |r|, y);
  }

  lemma OccursInSecond(r: seq<Uint8>, rest: seq<Uint8>, p: seq<Uint8>, y: int)
    requires Occurs(rest, p, y)
    ensures Occurs(r + rest, p, |r| + y)
  {
    assert (r + rest)[|r|..] == rest;
    OccursShifted(r + rest, p, |r|, y);
  }

  lemma {:induction false} OffsetsGrow(lines: seq<Symbol>, i: nat, j: nat)
    requires i < j <= |lines|
    ensures Offset(lines, i) + |RenderLine(lines[i])| <= Offset(lines, j)
    decreases |lines|
  {
    hide RenderLine;
    if i > 0 {
      OffsetsGrow(lines[1..], i - 1, j - 1);
    } else if j > 1 {
      OffsetsGrow(lines[1..], 0, j - 1);
    }
  }

  /** The text of line i within the file. */
  lemma {:induction false} LineInFile(lines: seq<Symbol>, i: nat)
    requires i < |lines|
    ensures Offset(lines, i) + |RenderLine(lines[i])| <= |Render(lines)|
    ensures Render(lines)[Offset(lines, i)..Offset(lines, i) + |RenderLine(lines[i])|] == RenderLine(lines[i])
    decreases |lines|
  {
    hide RenderLine;
    var r, rest := RenderLine(lines[0]), Render(lines[1..]);
    if i > 0 {
      LineInFile(lines[1..], i - 1);
      SliceOfSecond(r, rest, Offset(lines[1..], i - 1), |RenderLine(lines[i])|);
    }
  }

  lemma SliceOfSecond(r: seq<Uint8>, rest: seq<Uint8>, o: nat, n: nat)
    requires o + n <= |rest|
    ensures (r + rest)[|r| + o..|r| + o + n] == rest[o..o + n]
  {}

  /** What a line is searched for: a whole name, between a blank and a newline, or the beginning of
      a name, with nothing around it. */
  datatype Key = Named(name: seq<Uint8>) | Starting(prefix: seq<Uint8>)

  function Pattern(key: Key): seq<Uint8>
  {
    match key
    case Named(name) => [SPACE] + name + [NEWLINE]
    case Starting(prefix) => prefix
  }

  /** The line carries the symbol that is meant. */
  predicate Carries(sym: Symbol, key: Key)
  {
    match key
    case Named(name) => sym.name == name
    case Starting(prefix) => prefix <= sym.name
  }

  /** Where in a line the pattern is found: at the blank before the name, or wherever the name holds
      the prefix for the first time. */
  function Spot(sym: Symbol, key: Key): (column: Option<nat>)
    ensures column.Some? ==> 18 <= column.value && column.value + |Pattern(key)| <= 20 + |sym.name|
  {
    match key
    case Named(name) => if sym.name == name then Some(18) else None
    case Starting(prefix) =>
      match Find(sym.name, prefix)
      case None => None
      case Some(y) => Some(19 + y)
  }

  /** The bytes searched for: a name between a blank, code 32, and a line feed, code 10; a prefix as it
      is. */
  lemma PatternAsWritten(key: Key)
    ensures Pattern(key) == match key
                            case Named(name) => [32] + name + [10]
                            case Starting(prefix) => prefix
  {}

  ghost predicate GoodKey(key: Key)
  {
    match key
    case Named(name) => Plain(name) && 0 < |name| <= HALF - BACK - 2 && !IsSpace(name[0])
    case Starting(prefix) =>
      && Plain(prefix) && 2 <= |prefix| <= HALF - BACK && !IsSpace(prefix[0])
      && !IsHexDigit(prefix[0]) && !IsHexDigit(prefix[|prefix| - 1])
  }

  lemma PatternIsGood(key: Key)
    requires GoodKey(key)
    ensures GoodPattern(Pattern(key))
  {
    var p := Pattern(key);
    assert !IsSpace(p[if key.Named? then 1 else 0]);
  }

  lemma NameMatch(sym: Symbol, name: seq<Uint8>, y: int)
    requires WellFormed(sym) && Plain(name)
    ensures Occurs(RenderLine(sym), Pattern(Named(name)), y) <==> y == 18 && sym.name == name
  {
    hide WellFormed, RenderLine;
    LineShape(sym);
    var r, p := RenderLine(sym), Pattern(Named(name));
    if Occurs(r, p, y) {
      OccursAt(r, p, y, 0);
      OccursAt(r, p, y, 2);
      OccursAt(r, p, y, |p| - 1);
      assert y + |p| == |r| && y == 18;
      SlicesAgree(p, r, 18, |p|, 1, |p| - 1);
      assert p[1..|p| - 1] == name;
    }
    if y == 18 && sym.name == name {
      assert r[18..] == [r[18]] + r[19..|r| - 1] + [r[|r| - 1]];
      assert r[18..18 + |p|] == r[18..];
    }
  }

  /** A prefix occurs in a line exactly where it occurs in the name. */
  lemma PrefixMatch(sym: Symbol, prefix: seq<Uint8>, y: int)
    requires WellFormed(sym) && GoodKey(Starting(prefix))
    ensures Occurs(RenderLine(sym), prefix, y) <==> Occurs(sym.name, prefix, y - 19)
  {
    LineShape(sym);
    assert sym.addr == RenderLine(sym)[..16];
    hide RenderLine, IsHexDigit;
    var r, n := RenderLine(sym), |prefix|;
    var e := |r| - 1;
    if Occurs(r, prefix, y) {
      OccursAt(r, prefix, y, 0);
      OccursAt(r, prefix, y, 1);
      OccursAt(r, prefix, y, n - 1);
      assert y >= 19 && y + n <= e;
      assert sym.name[y - 19..y - 19 + n] == r[19..e][y - 19..y - 19 + n] == r[y..y + n];
    }
    if Occurs(sym.name, prefix, y - 19) {
      assert r[y..y + n] == r[19..e][y - 19..y - 19 + n];
    }
  }

  /** The pattern's first occurrence in a line. */
  lemma KeyMatch(sym: Symbol, key: Key)
    requires WellFormed(sym) && GoodKey(key)
    ensures Find(RenderLine(sym), Pattern(key)) == Spot(sym, key)
  {
    hide WellFormed, RenderLine, GoodKey, Occurs, FindFrom;
    var r, p := RenderLine(sym), Pattern(key);
    match key
    case Named(name) =>
      assert Plain(name) by { NameIsPlain(name); }
      forall y: int ensures Occurs(r, p, y) <==> y == 18 && sym.name == name { NameMatch(sym, name, y); }
      if sym.name == name { FindIs(r, p, 18); }
    case Starting(prefix) =>
      forall y: int ensures Occurs(r, p, y) <==> Occurs(sym.name, prefix, y - 19) { PrefixMatch(sym, prefix, y); }
      var f := Find(sym.name, prefix);
      if f.Some? {
        FindIs(r, p, 19 + f.value);
      } else {
        assert Find(r, p).Some? ==> Occurs(sym.name, prefix, Find(r, p).value - 19);
      }
  }

  lemma NameIsPlain(name: seq<Uint8>)
    requires GoodKey(Named(name))
    ensures Plain(name)
  {}

  /** The first line in which the pattern is found. */
  function FirstHolder(lines: seq<Symbol>, key: Key): (k: Option<nat>)
    ensures k.Some? ==> k.value < |lines| && Spot(lines[k.value], key).Some?
    ensures k.Some? ==> forall i :: 0 <= i < k.value ==> Spot(lines[i], key) == None
    ensures k == None ==> forall i :: 0 <= i < |lines| ==> Spot(lines[i], key) == None
  {
    hide Spot;
    if lines == [] then None
    else if Spot(lines[0], key).Some? then Some(0)
    else
      var k := FirstHolder(lines[1..], key);
      if k.Some? then Some(k.value + 1) else None
  }

  /** The first line that carries a key. */
  function FirstCarrier(lines: seq<Symbol>, key: Key): (k: Option<nat>)
    ensures k.Some? ==> k.value < |lines| && Carries(lines[k.value], key)
    ensures k.Some? ==> forall i :: 0 <= i < k.value ==> !Carries(lines[i], key)
    ensures k == None ==> forall i :: 0 <= i < |lines| ==> !Carries(lines[i], key)
  {
    if lines == [] then None
    else if Carries(lines[0], key) then Some(0)
    else
      var k := FirstCarrier(lines[1..], key);
      if k.Some? then Some(k.value + 1) else None
  }

  /** The address of a key: that of the first line that carries it, 0 when none does. */
  ghost function AddressOf(lines: seq<Symbol>, key: Key): nat
    requires forall i :: 0 <= i < |lines| ==> WellFormed(lines[i])
  {
    match FirstCarrier(lines, key)
    case None => 0
    case Some(k) => assert WellFormed(lines[k]); HexNumber(lines[k].addr)
  }

  ghost predicate AllWellFormed(lines: seq<Symbol>)
  {
    forall k :: 0 <= k < |lines| ==> WellFormed(lines[k])
  }

  /** The first half of the window as the call finds it does not hold the symbol. */
  ghost predicate CleanStart(head: seq<Uint8>, key: Key)
  {
    |head| == HALF && Absent(head, Pattern(key))
  }

  /** The first half and the file cannot share an occurrence: the file begins with an address, and
      the two blanks behind it do not fit into a pattern. */
  lemma NotAcross(head: seq<Uint8>, lines: seq<Symbol>, key: Key, x: int)
    requires CleanStart(head, key) && AllWellFormed(lines) && GoodKey(key)
    requires Occurs(head + Render(lines), Pattern(key), x)
    ensures x >= HALF && Occurs(Render(lines), Pattern(key), x - HALF)
  {
    hide WellFormed, RenderLine, Render, IsHexDigit;
    var p, file := Pattern(key), Render(lines);
    var text := head + file;
    assert text[..HALF] == head && text[HALF..] == file;
    OccursWithin(text, p, HALF, x);
    if lines == [] { assert file == [] by { NoLines(); } } else { FileBegins(lines); }
    OccursAt(text, p, x, |p| - 1);
    OccursAt(text, p, x, HALF + 16 - x);
    if x >= HALF { OccursShifted(text, p, HALF, x - HALF); }
  }

  lemma NoLines()
    ensures Render([]) == []
  {}

  lemma FileBegins(lines: seq<Symbol>)
    requires lines != [] && WellFormed(lines[0])
    ensures var file := Render(lines);
            && |file| >= 20 && file[16] == SPACE
            && (forall i :: 0 <= i < 16 ==> IsHexDigit(file[i]))
            && forall i :: 0 <= i < 19 ==> file[i] != NEWLINE
  {
    LineShape(lines[0]);
    assert lines[0].addr == RenderLine(lines[0])[..16];
    hide RenderLine, IsHexDigit;
    assert Render(lines)[..|RenderLine(lines[0])|] == RenderLine(lines[0]);
  }

  /** An occurrence is one in a line. */
  lemma WhereItOccurs(head: seq<Uint8>, lines: seq<Symbol>, key: Key, x: int) returns (k: nat, y: nat)
    requires CleanStart(head, key) && AllWellFormed(lines) && GoodKey(key)
    requires Occurs(head + Render(lines), Pattern(key), x)
    ensures k < |lines| && x == HALF + Offset(lines, k) + y
    ensures Spot(lines[k], key).Some? && Spot(lines[k], key).value <= y
  {
    hide WellFormed, RenderLine, Pattern, Occurs, Offset, FindFrom, Spot;
    NotAcross(head, lines, key, x);
    PatternIsGood(key);
    var z: int;
    k, z := OccursInOneLine(lines, Pattern(key), x - HALF);
    OccursStart(RenderLine(lines[k]), Pattern(key), z);
    y := z;
    KeyMatch(lines[k], key);
  }

  /** The pattern's occurrence on a line, seen in everything searched. */
  lemma LineMatches(head: seq<Uint8>, lines: seq<Symbol>, key: Key, k: nat)
    requires |head| == HALF && AllWellFormed(lines) && GoodKey(key)
    requires k < |lines| && Spot(lines[k], key).Some?
    ensures Occurs(head + Render(lines), Pattern(key), HALF + Offset(lines, k) + Spot(lines[k], key).value)
  {
    hide WellFormed, RenderLine, Pattern, Occurs, Offset, Render, FindFrom, Spot;
    var y := Spot(lines[k], key).value;
    KeyMatch(lines[k], key);
    LineOccurs(lines, Pattern(key), k, y);
    var text := head + Render(lines);
    assert text[HALF..] == Render(lines);
    OccursShifted(text, Pattern(key), HALF, Offset(lines, k) + y);
  }

  lemma SpotInLine(sym: Symbol, key: Key)
    requires WellFormed(sym) && GoodKey(key) && Spot(sym, key).Some?
    ensures Spot(sym, key).value < |RenderLine(sym)|
  {
    KeyMatch(sym, key);
  }

  /** The first occurrence in everything searched is on the first line that holds the pattern. */
  lemma FirstOccurrence(head: seq<Uint8>, lines: seq<Symbol>, key: Key)
    requires CleanStart(head, key) && AllWellFormed(lines) && GoodKey(key)
    ensures Find(head + Render(lines), Pattern(key))
         == match FirstHolder(lines, key)
            case None => None
            case Some(k) => Some(HALF + Offset(lines, k) + Spot(lines[k], key).value)
  {
    hide WellFormed, RenderLine, Pattern, Occurs, Offset, FirstHolder, CleanStart, Render, FindFrom, Spot, GoodKey;
    var f, first := Find(head + Render(lines), Pattern(key)), FirstHolder(lines, key);
    if first.Some? {
      LineMatches(head, lines, key, first.value) by { StartLength(head, key); }
      if f.Some? {
        var k, y := WhereItOccurs(head, lines, key, f.value);
        assert first.value <= k;
        if first.value < k {
          OffsetsGrow(lines, first.value, k);
          SpotInLine(lines[first.value], key);
        }
      }
    } else if f.Some? {
      var k, y := WhereItOccurs(head, lines, key, f.value);
    }
  }

  lemma StartLength(head: seq<Uint8>, key: Key)
    requires CleanStart(head, key)
    ensures |head| == HALF
  {}

  lemma {:induction false} HexLengthOf(digits: seq<Uint8>, rest: seq<Uint8>)
    requires forall i :: 0 <= i < |digits| ==> IsHexDigit(digits[i])
    requires rest != [] && !IsHexDigit(rest[0])
    ensures HexLength(digits + rest) == |digits|
    decreases |digits|
  {
    hide IsHexDigit;
    if digits == [] {
      assert digits + rest == rest;
    } else {
      assert (digits + rest)[1..] == digits[1..] + rest;
      HexLengthOf(digits[1..], rest);
    }
  }

  lemma HexIsNoSpace(c: Uint8)
    ensures IsHexDigit(c) ==> !IsSpace(c)
    ensures !IsHexDigit(SPACE) && IsSpace(SPACE) && IsSpace(NEWLINE)
  {}

  lemma BlanksOf(blank: seq<Uint8>, t: seq<Uint8>)
    requires |blank| <= 1 && (blank != [] ==> IsSpace(blank[0]))
    requires t != [] && !IsSpace(t[0])
    ensures Blanks(blank + t) == |blank|
  {
    hide IsSpace;
    if blank == [] {
      assert blank + t == t;
    } else {
      assert (blank + t)[1..] == t;
    }
  }

  /** Scanning a blank or nothing, then an address, then a blank gives the address. */
  lemma ScanAddress(blank: seq<Uint8>, addr: seq<Uint8>, rest: seq<Uint8>)
    requires |blank| <= 1 && (blank != [] ==> IsSpace(blank[0]))
    requires addr != [] && forall i :: 0 <= i < |addr| ==> IsHexDigit(addr[i])
    requires rest != [] && rest[0] == SPACE
    ensures ScanHex(blank + (addr + rest)) == Some(HexNumber(addr) % TWO_TO_THE_64)
  {
    hide IsHexDigit, IsSpace, Blanks, HexLength, HexNumber;
    var t := addr + rest;
    HexIsNoSpace(addr[0]);
    BlanksOf(blank, t);
    assert (blank + t)[|blank|..] == t;
    HexLengthOf(addr, rest);
    assert t[..|addr|] == addr;
  }

  /** The first d bytes of line k within everything searched. */
  lemma LineInText(head: seq<Uint8>, lines: seq<Symbol>, k: nat, d: nat)
    requires |head| == HALF && k < |lines| && d <= |RenderLine(lines[k])|
    ensures var text, o := head + Render(lines), HALF + Offset(lines, k);
            o + d <= |text| && text[o..o + d] == RenderLine(lines[k])[..d]
  {
    hide RenderLine, Render, Offset;
    var file, o := Render(lines), Offset(lines, k);
    var text, r := head + file, RenderLine(lines[k]);
    LineInFile(lines, k);
    assert text[HALF..HALF + |file|] == file;
    SlicesAgree(file, text, HALF, |file|, o, o + |r|);
    SlicesAgree(r, text, HALF + o, |r|, 0, d);
  }

  function Before(head: seq<Uint8>, k: nat): Uint8
    requires |head| == HALF
  {
    if k == 0 then head[HALF - 1] else NEWLINE
  }

  /** The byte before line k: the end of the previous line or of the first half. */
  lemma ByteBeforeLine(head: seq<Uint8>, lines: seq<Symbol>, k: nat)
    requires |head| == HALF && AllWellFormed(lines) && k < |lines|
    ensures var text, o := head + Render(lines), HALF + Offset(lines, k);
            o <= |text| && text[o - 1] == Before(head, k)
  {
    hide WellFormed, RenderLine, Render;
    if k > 0 {
      hide Offset;
      LineInText(head, lines, k, 0);
      OffsetNext(lines, k - 1);
      LineShape(lines[k - 1]);
      var n := |RenderLine(lines[k - 1])|;
      LineInText(head, lines, k - 1, n);
      var o := HALF + Offset(lines, k - 1);
      assert (head + Render(lines))[o..o + n][n - 1] == NEWLINE;
    }
  }

  lemma {:induction false} OffsetNext(lines: seq<Symbol>, k: nat)
    requires k < |lines|
    ensures Offset(lines, k + 1) == Offset(lines, k) + |RenderLine(lines[k])|
    decreases |lines|
  {
    hide RenderLine;
    if k > 0 { OffsetNext(lines[1..], k - 1); }
  }

  /** What is scanned for a match of n bytes at column `spot` of a line, `before` being the byte in
      front of the line. */
  function Scanned(before: Uint8, sym: Symbol, spot: nat, n: nat): Option<nat>
    requires |sym.addr| == 16 && 18 <= spot && spot + n <= 20 + |sym.name|
  {
    ScanHex(([before] + RenderLine(sym))[spot - 18..spot + 1 + n])
  }

  lemma AddressIsHex(sym: Symbol)
    requires WellFormed(sym)
    ensures |sym.addr| == 16 && forall i :: 0 <= i < 16 ==> IsHexDigit(sym.addr[i])
  {}

  /** What is scanned for a match on line k. */
  lemma ScannedBefore(head: seq<Uint8>, lines: seq<Symbol>, k: nat, spot: nat, p: seq<Uint8>)
    requires |head| == HALF && AllWellFormed(lines) && k < |lines|
    requires WellFormed(lines[k]) && 18 <= spot && spot + |p| <= 20 + |lines[k].name|
    ensures var text, x := head + Render(lines), HALF + Offset(lines, k) + spot;
            && BACK <= x && x + |p| <= |text|
            && ScanAt(text, p, x) == Scanned(Before(head, k), lines[k], spot, |p|)
  {
    hide Render, RenderLine, ScanHex, Offset, Before, WellFormed;
    var text, o := head + Render(lines), HALF + Offset(lines, k);
    var r, before := RenderLine(lines[k]), Before(head, k);
    LineShape(lines[k]);
    LineInText(head, lines, k, |r|);
    ByteBeforeLine(head, lines, k);
    assert text[o - 1..o + |r|] == [text[o - 1]] + text[o..o + |r|] == [before] + r;
    SlicesAgree([before] + r, text, o - 1, |r| + 1, spot - 18, spot + 1 + |p|);
  }

  /** 16^n, the weight of the digit that has n digits behind it. */
  function Place(n: nat): (p: nat)
    ensures p > 0
  {
    if n == 0 then 1 else 16 * Place(n - 1)
  }

  lemma {:induction false} PlaceGrows(m: nat, n: nat)
    requires m <= n
    ensures Place(m) <= Place(n)
    decreases n
  {
    if m < n { PlaceGrows(m, n - 1); }
  }

  lemma HexLast(digits: seq<Uint8>)
    requires digits != [] && forall i :: 0 <= i < |digits| ==> IsHexDigit(digits[i])
    ensures var n := |digits| - 1; HexNumber(digits) == 16 * HexNumber(digits[..n]) + HexValue(digits[n])
  {
    hide IsHexDigit, HexValue;
  }

  lemma HigherPlace(n: nat, v: nat, x: nat, y: nat, d: nat)
    requires y == Place(n) * v + x
    ensures 16 * y + d == Place(n + 1) * v + (16 * x + d)
  {}

  lemma RoomBelow(n: nat, x: nat, d: Nibble)
    requires x < Place(n)
    ensures 16 * x + d < Place(n + 1)
  {}

  /** A leading hex digit adds its value at the next place. */
  lemma {:induction false} HexPrepend(c: Uint8, digits: seq<Uint8>)
    requires IsHexDigit(c) && forall i :: 0 <= i < |digits| ==> IsHexDigit(digits[i])
    ensures HexNumber([c] + digits) == Place(|digits|) * HexValue(c) + HexNumber(digits)
    ensures HexNumber(digits) < Place(|digits|)
    decreases |digits|
  {
    hide IsHexDigit, HexValue, HexNumber, Place;
    HexLast([c] + digits);
    if digits == [] {
      NoDigits(c);
    } else {
      var n := |digits| - 1;
      HexPrepend(c, digits[..n]);
      assert ([c] + digits)[..n + 1] == [c] + digits[..n];
      HexLast(digits);
      HigherPlace(n, HexValue(c), HexNumber(digits[..n]), HexNumber([c] + digits[..n]), HexValue(digits[n]));
      RoomBelow(n, HexNumber(digits[..n]), HexValue(digits[n]));
    }
  }

  lemma NoDigits(c: Uint8)
    requires IsHexDigit(c)
    ensures Place(0) == 1 && HexNumber([]) == 0 && HexNumber([c] + []) == HexValue(c)
  {
    assert ([c] + [])[..0] == [];
  }

  /** A leading digit that is not 0 changes the number, and makes it larger than any shorter one. */
  lemma LeadingDigit(c: Uint8, digits: seq<Uint8>)
    requires IsHexDigit(c) && forall i :: 0 <= i < |digits| ==> IsHexDigit(digits[i])
    ensures HexNumber([c] + digits) == HexNumber(digits) <==> c == '0' as int
    ensures HexNumber(digits) != 0 ==> HexNumber([c] + digits) != 0
    ensures c != '0' as int ==> HexNumber([c] + digits) >= Place(|digits|)
  {
    hide HexNumber, Place;
    HexPrepend(c, digits);
    var v := HexValue(c);
    assert v >= 1 ==> Place(|digits|) * v >= Place(|digits|);
  }

  lemma {:induction false} SixteenDigits(digits: seq<Uint8>)
    requires |digits| <= 16 && forall i :: 0 <= i < |digits| ==> IsHexDigit(digits[i])
    ensures Place(16) == TWO_TO_THE_64
    ensures HexNumber(digits) < TWO_TO_THE_64
  {
    hide HexNumber;
    assert Place(4) == 0x1_0000;
    assert Place(8) == 0x1_0000_0000;
    assert Place(12) == 0x1_0000_0000_0000;
    HexPrepend('0' as int, digits);
    hide Place;
    PlaceGrows(|digits|, 16);
  }

  /** A seventeenth digit in front does not fit into 64 bits. */
  lemma SeventeenDigits(c: Uint8, addr: seq<Uint8>)
    requires IsHexDigit(c) && |addr| == 16 && forall i :: 0 <= i < 16 ==> IsHexDigit(addr[i])
    ensures HexNumber([c] + addr) % TWO_TO_THE_64 == HexNumber(addr)
  {
    hide HexNumber, Place;
    HexPrepend(c, addr);
    SixteenDigits(addr);
  }

  /** What is scanned for a whole name: the address if the byte in front of the line is a blank, as
      the end of the previous line is, or a hex digit, which is shifted out of the 64 bits; else
      nothing. */
  lemma ScannedForName(before: Uint8, sym: Symbol)
    requires WellFormed(sym)
    ensures Scanned(before, sym, 18, |sym.name| + 2)
         == if IsSpace(before) || IsHexDigit(before) then Some(HexNumber(sym.addr)) else None
  {
    hide ScanHex, HexNumber, Place;
    AddressIsHex(sym);
    var rest := [SPACE, sym.kind, SPACE] + sym.name + [NEWLINE];
    var r := [before] + RenderLine(sym);
    assert r[0..|r|] == [before] + (sym.addr + rest);
    SixteenDigits(sym.addr);
    if IsSpace(before) {
      ScanAddress([before], sym.addr, rest);
    } else if IsHexDigit(before) {
      assert [before] + (sym.addr + rest) == [] + (([before] + sym.addr) + rest);
      ScanAddress([], [before] + sym.addr, rest);
      SeventeenDigits(before, sym.addr);
    } else {
      ScanNothing([before] + (sym.addr + rest));
    }
  }

  lemma ScanNothing(s: seq<Uint8>)
    requires s != [] && !IsSpace(s[0]) && !IsHexDigit(s[0])
    ensures ScanHex(s) == None
  {
    assert s[0..] == s;
  }

  /** The address of a line without its first y digits. */
  ghost function AddressFrom(sym: Symbol, y: nat): nat
    requires WellFormed(sym) && y <= 16
  {
    HexNumber(sym.addr[y..])
  }

  /** What is scanned for a prefix of n bytes found y bytes into the name: the address without its
      first y digits; behind the address, the type letter if that is a hex digit; behind that, what
      the name itself holds. */
  lemma ScannedForPrefix(before: Uint8, sym: Symbol, y: nat, n: nat)
    requires WellFormed(sym) && y + n <= |sym.name|
    ensures y < 16 ==> Scanned(before, sym, 19 + y, n) == Some(AddressFrom(sym, y))
    ensures 16 <= y < 18 && !IsSpace(sym.kind) ==>
              Scanned(before, sym, 19 + y, n) == if IsHexDigit(sym.kind) then Some(HexValue(sym.kind)) else None
    ensures 18 <= y ==>
              Scanned(before, sym, 19 + y, n) == ScanHex(([SPACE] + sym.name)[y - 18..y + 1 + n])
  {
    hide ScanHex, HexNumber, IsHexDigit, IsSpace, HexValue, RenderLine, WellFormed;
    AddressIsHex(sym);
    BehindName(before, sym, y, n);
    var name := sym.name[..y + n];
    if y < 16 {
      SixteenDigits(sym.addr[y..]);
      ScanAddress([], sym.addr[y..], [SPACE, sym.kind, SPACE] + name);
    } else if y < 18 && !IsSpace(sym.kind) {
      HexIsNoSpace(SPACE);
      ScanKind(if y == 16 then [SPACE] else [], sym.kind, [SPACE] + name);
    }
  }

  /** The bytes scanned for a prefix of n bytes found y bytes into the name. */
  lemma BehindName(before: Uint8, sym: Symbol, y: nat, n: nat)
    requires |sym.addr| == 16 && y + n <= |sym.name|
    ensures |RenderLine(sym)| == 20 + |sym.name|
    ensures var s, name := ([before] + RenderLine(sym))[1 + y..20 + y + n], sym.name[..y + n];
            && (y < 16 ==> s == [] + (sym.addr[y..] + ([SPACE, sym.kind, SPACE] + name)))
            && (16 <= y < 18 ==> s == (if y == 16 then [SPACE] else []) + ([sym.kind] + ([SPACE] + name)))
            && (18 <= y ==> s == ([SPACE] + sym.name)[y - 18..y + 1 + n])
  {
    var r, name := [before] + RenderLine(sym), sym.name[..y + n];
    forall i | 17 <= i < 20 + y + n
      ensures r[i] == if i == 17 then SPACE else if i == 18 then sym.kind else if i == 19 then SPACE else name[i - 20]
    {}
    if y == 16 {
      assert r[17..36 + n] == [SPACE] + ([sym.kind] + ([SPACE] + name));
    } else if y == 17 {
      assert r[18..37 + n] == [] + ([sym.kind] + ([SPACE] + name));
    }
  }

  lemma ScanKind(blank: seq<Uint8>, kind: Uint8, rest: seq<Uint8>)
    requires |blank| <= 1 && (blank != [] ==> IsSpace(blank[0])) && !IsSpace(kind)
    requires rest != [] && rest[0] == SPACE
    ensures ScanHex(blank + ([kind] + rest)) == if IsHexDigit(kind) then Some(HexValue(kind)) else None
  {
    hide IsSpace, HexNumber, HexValue;
    if IsHexDigit(kind) {
      ScanAddress(blank, [kind], rest);
      NoDigits(kind);
      assert [kind] + [] == [kind];
    } else {
      var t := [kind] + rest;
      BlanksOf(blank, t);
      assert (blank + t)[|blank|..] == t;
    }
  }

  /** What the search scans for the first match of a symbol, 0 when no line holds its pattern. */
  function ScannedFor(head: seq<Uint8>, lines: seq<Symbol>, key: Key): Option<nat>
    requires |head| == HALF && forall i :: 0 <= i < |lines| ==> |lines[i].addr| == 16
  {
    match FirstHolder(lines, key)
    case None => Some(0)
    case Some(k) => Scanned(Before(head, k), lines[k], Spot(lines[k], key).value, |Pattern(key)|)
  }

  /** Where the first match of a symbol is, and what is scanned for it. */
  lemma FirstMatch(stale: seq<Uint8>, lines: seq<Symbol>, key: Key, k: nat)
    requires |stale| == 2 * HALF && Absent(stale, Pattern(key)) && AllWellFormed(lines) && GoodKey(key)
    requires FirstHolder(lines, key) == Some(k)
    ensures var text, x := stale[..HALF] + Render(lines), HALF + Offset(lines, k) + Spot(lines[k], key).value;
            && IsFirst(text, Pattern(key), x) && BACK <= x && x + |Pattern(key)| <= |text|
            && ScanAt(text, Pattern(key), x) == ScannedFor(stale[..HALF], lines, key)
  {
    hide WellFormed, RenderLine, Render, Pattern, Offset, ScanHex, FirstHolder, Occurs, FindFrom, Scanned, Spot;
    HalfIsClean(stale, key);
    FirstOccurrence(stale[..HALF], lines, key);
    SpotFits(lines[k], key);
    ScannedBefore(stale[..HALF], lines, k, Spot(lines[k], key).value, Pattern(key));
  }

  lemma SpotFits(sym: Symbol, key: Key)
    ensures Spot(sym, key).Some? ==>
              18 <= Spot(sym, key).value && Spot(sym, key).value + |Pattern(key)| <= 20 + |sym.name|
  {}

  /** If a number other than 0 is scanned for the first match, the pointer ends as that number. */
  lemma PointerIsScanned(stale: seq<Uint8>, lines: seq<Symbol>, key: Key)
    requires |stale| == 2 * HALF && Absent(stale, Pattern(key)) && AllWellFormed(lines) && GoodKey(key)
    requires var scanned := ScannedFor(stale[..HALF], lines, key);
             FirstHolder(lines, key).Some? ==> scanned.Some? && scanned.value != 0
    ensures Sweep(stale, Render(lines), 0, Pattern(key), 0) == ScannedFor(stale[..HALF], lines, key)
  {
    hide WellFormed, RenderLine, Render, Pattern, Offset, ScanHex, FirstHolder, Occurs, FindFrom, Scanned, Spot, Sweep;
    var head, p := stale[..HALF], Pattern(key);
    var text, first := head + Render(lines), FirstHolder(lines, key);
    PatternIsGood(key);
    FileEndsInNewline(lines);
    SearchExamines(stale, Render(lines), p);
    MatchStart(p);
    if first.Some? {
      FirstMatch(stale, lines, key, first.value);
      ExamineAddressed(text, p, 0, HALF + Offset(lines, first.value) + Spot(lines[first.value], key).value);
    } else {
      HalfIsClean(stale, key);
      FirstOccurrence(head, lines, key);
      ExamineNothing(text, p, 0);
    }
  }

  /** If 0 or nothing is scanned for the first match, the step back from it leaves the window where it
      starts less than 19 bytes into a 64-byte piece and another piece is read; else the search goes
      on with the next piece. */
  lemma PointerNotScanned(stale: seq<Uint8>, lines: seq<Symbol>, key: Key, k: nat)
    requires |stale| == 2 * HALF && Absent(stale, Pattern(key)) && AllWellFormed(lines) && GoodKey(key)
    requires FirstHolder(lines, key) == Some(k)
    requires ScannedFor(stale[..HALF], lines, key) == None || ScannedFor(stale[..HALF], lines, key) == Some(0)
    ensures var file, x := Render(lines), HALF + Offset(lines, k) + Spot(lines[k], key).value;
            var piece := x - x % HALF;
            Sweep(stale, file, 0, Pattern(key), 0)
            == if piece >= |file| then Some(0)
               else if x % HALF < BACK then None
               else Examine(stale[..HALF] + file, Pattern(key), piece + HALF)
  {
    hide WellFormed, RenderLine, Render, Pattern, Offset, ScanHex, FirstHolder, Occurs, FindFrom, Scanned, Spot, Sweep;
    PatternIsGood(key);
    FileEndsInNewline(lines);
    FirstMatch(stale, lines, key, k);
    UnaddressedMatch(stale, Render(lines), Pattern(key), HALF + Offset(lines, k) + Spot(lines[k], key).value);
  }

  lemma HalfIsClean(stale: seq<Uint8>, key: Key)
    requires |stale| == 2 * HALF && Absent(stale, Pattern(key))
    ensures CleanStart(stale[..HALF], key)
  {
    hide Occurs, Pattern;
    assert stale[0..HALF] == stale[..HALF];
    AbsentInPart(stale, Pattern(key), 0, HALF);
  }

  lemma {:induction false} FileEndsInNewline(lines: seq<Symbol>)
    ensures Render(lines) != [] ==> Render(lines)[|Render(lines)| - 1] == NEWLINE
  {
    if lines != [] { FileEndsInNewline(lines[1..]); }
  }

  /** A line that carries a symbol holds its pattern; a line that holds it carries a name always, a
      prefix only if the prefix begins the name. */
  lemma CarrierHolds(sym: Symbol, key: Key)
    requires GoodKey(key)
    ensures Carries(sym, key) ==> Spot(sym, key) == Some(if key.Named? then 18 else 19)
    ensures key.Named? && Spot(sym, key).Some? ==> Carries(sym, key)
  {
    hide FindFrom;
    if key.Starting? && Carries(sym, key) { FindIs(sym.name, key.prefix, 0); }
  }

  /** The condition for a pointer to end as it is meant: the first line that holds the pattern has an
      address, it carries the symbol, and if it is the very first line and a name is searched, the
      window's first half ends in a blank or a hex digit. */
  ghost predicate RightlyHeld(head: seq<Uint8>, lines: seq<Symbol>, key: Key)
    requires |head| == HALF && AllWellFormed(lines)
  {
    match FirstHolder(lines, key)
    case None => true
    case Some(k) =>
      && WellFormed(lines[k]) && HexNumber(lines[k].addr) != 0 && Carries(lines[k], key)
      && (key.Named? && k == 0 ==> IsSpace(head[HALF - 1]) || IsHexDigit(head[HALF - 1]))
  }

  lemma HolderIsCarrier(lines: seq<Symbol>, key: Key)
    requires GoodKey(key)
    requires FirstHolder(lines, key).Some? ==> Carries(lines[FirstHolder(lines, key).value], key)
    ensures FirstCarrier(lines, key) == FirstHolder(lines, key)
  {
    hide Spot, Carries, FirstCarrier, FirstHolder;
    var k, c := FirstHolder(lines, key), FirstCarrier(lines, key);
    if k.Some? { CarrierHolds(lines[k.value], key); }
    if c.Some? { CarrierHolds(lines[c.value], key); }
  }

  /** What the search leaves in a symbol's pointer is the address on the first line that carries the
      symbol, 0 when none does. */
  lemma PointerIsAddress(stale: seq<Uint8>, lines: seq<Symbol>, key: Key)
    requires |stale| == 2 * HALF && Absent(stale, Pattern(key)) && AllWellFormed(lines) && GoodKey(key)
    requires RightlyHeld(stale[..HALF], lines, key)
    ensures Sweep(stale, Render(lines), 0, Pattern(key), 0) == Some(AddressOf(lines, key))
  {
    hide Render, FirstHolder, FirstCarrier, Scanned, Sweep, GoodKey, Absent, HexNumber, IsSpace;
    var first := FirstHolder(lines, key);
    HolderIsCarrier(lines, key);
    if first.Some? {
      var sym, before := lines[first.value], Before(stale[..HALF], first.value);
      CarrierHolds(sym, key);
      if key.Named? {
        HexIsNoSpace(before);
        ScannedForName(before, sym);
      } else {
        ScannedForPrefix(before, sym, 0, |key.prefix|);
        assert sym.addr[0..] == sym.addr;
      }
    }
    PointerIsScanned(stale, lines, key);
  }

  /** A name on the very first line whose address is zero or hidden behind a byte that is neither a
      blank nor a hex digit: as soon as there is a second read the step back leaves the window. */
  lemma FirstLineName(stale: seq<Uint8>, lines: seq<Symbol>, key: Key)
    requires |stale| == 2 * HALF && Absent(stale, Pattern(key)) && AllWellFormed(lines) && GoodKey(key)
    requires key.Named? && lines != [] && Carries(lines[0], key) && WellFormed(lines[0])
    requires HexNumber(lines[0].addr) == 0 || !(IsSpace(stale[HALF - 1]) || IsHexDigit(stale[HALF - 1]))
    ensures Sweep(stale, Render(lines), 0, Pattern(key), 0) == if |Render(lines)| > HALF then None else Some(0)
  {
    hide Render, FirstCarrier, Scanned, Sweep, GoodKey, Absent, HexNumber, IsSpace, IsHexDigit, Examine;
    CarrierHolds(lines[0], key);
    assert FirstHolder(lines, key) == Some(0);
    ScannedForName(stale[HALF - 1], lines[0]);
    PointerNotScanned(stale, lines, key, 0);
  }

  /** Exactly when the pointer of a name is right: unless the very first line carries the name behind
      a byte that is neither a blank nor a hex digit. */
  lemma NamePointer(stale: seq<Uint8>, lines: seq<Symbol>, key: Key)
    requires |stale| == 2 * HALF && Absent(stale, Pattern(key)) && AllWellFormed(lines) && GoodKey(key)
    requires key.Named?
    requires match FirstCarrier(lines, key)
             case None => true
             case Some(k) => WellFormed(lines[k]) && HexNumber(lines[k].addr) != 0
    ensures Sweep(stale, Render(lines), 0, Pattern(key), 0) == Some(AddressOf(lines, key))
       <==> (FirstCarrier(lines, key) == Some(0) ==> IsSpace(stale[HALF - 1]) || IsHexDigit(stale[HALF - 1]))
  {
    hide Render, FirstCarrier, FirstHolder, Sweep, GoodKey, Absent, HexNumber, IsSpace, IsHexDigit;
    hide Pattern, Spot, Carries;
    var first, b := FirstHolder(lines, key), stale[HALF - 1];
    if first.Some? { CarrierHolds(lines[first.value], key); }
    HolderIsCarrier(lines, key);
    if first == Some(0) && !(IsSpace(b) || IsHexDigit(b)) {
      FirstLineName(stale, lines, key);
    } else {
      PointerIsAddress(stale, lines, key);
    }
  }

  /** Where a name occurs: at the blank before it, on every line that carries it. */
  lemma NameOccurs(head: seq<Uint8>, lines: seq<Symbol>, key: Key, x: int) returns (k: nat)
    requires CleanStart(head, key) && AllWellFormed(lines) && GoodKey(key) && key.Named?
    requires Occurs(head + Render(lines), Pattern(key), x)
    ensures k < |lines| && Carries(lines[k], key) && x == HALF + Offset(lines, k) + 18
  {
    hide WellFormed, RenderLine, Pattern, Occurs, Offset, FindFrom, Render, Absent;
    NotAcross(head, lines, key, x);
    PatternIsGood(key);
    var y: int;
    k, y := OccursInOneLine(lines, Pattern(key), x - HALF);
    NameIsPlain(key.name);
    NameMatch(lines[k], key.name, y);
  }

  /** The name's lines have no address. */
  ghost predicate AllZero(lines: seq<Symbol>, key: Key)
  {
    forall k :: 0 <= k < |lines| && Carries(lines[k], key) ==> WellFormed(lines[k]) && HexNumber(lines[k].addr) == 0
  }

  lemma ZeroIsUnaddressed(head: seq<Uint8>, lines: seq<Symbol>, key: Key, x: int)
    requires CleanStart(head, key) && AllWellFormed(lines) && GoodKey(key) && key.Named?
    requires AllZero(lines, key) && Occurs(head + Render(lines), Pattern(key), x)
    ensures !Addressed(head + Render(lines), Pattern(key), x)
  {
    hide RenderLine, Render, Pattern, Offset, ScanHex, Occurs, Scanned, Absent, Spot, Carries, GoodKey, HexNumber;
    var k := NameOccurs(head, lines, key, x);
    CarrierHolds(lines[k], key);
    SpotFits(lines[k], key);
    NameLength(lines[k], key);
    ScannedBefore(head, lines, k, 18, Pattern(key));
    ScannedForName(Before(head, k), lines[k]);
  }

  /** Line k carries the name and has the blank before it near the start of a piece. */
  ghost predicate StepsOut(lines: seq<Symbol>, key: Key, k: nat)
  {
    k < |lines| && Carries(lines[k], key) && NearStart(Render(lines), HALF + Offset(lines, k) + 18)
  }

  /** A name all of whose lines have a zero address, as readers without privileges see them: the
      pointer stays 0, unless some of the lines has the blank before its name less than 19 bytes into
      a 64-byte piece and another piece is read behind that; then a step back leaves the window. */
  lemma ZeroAddresses(stale: seq<Uint8>, lines: seq<Symbol>, key: Key)
    requires |stale| == 2 * HALF && Absent(stale, Pattern(key)) && AllWellFormed(lines) && GoodKey(key)
    requires key.Named? && AllZero(lines, key)
    ensures Sweep(stale, Render(lines), 0, Pattern(key), 0)
         == if exists k: nat :: StepsOut(lines, key, k) then None else Some(0)
  {
    hide WellFormed, Render, Pattern, Offset, Occurs, Sweep, Absent, NearStart, Carries, GoodKey, AllZero, Addressed;
    var head, file, p := stale[..HALF], Render(lines), Pattern(key);
    var text := head + file;
    PatternIsGood(key);
    FileEndsInNewline(lines);
    HalfIsClean(stale, key);
    forall x | Occurs(text, p, x) ensures !Addressed(text, p, x) { ZeroIsUnaddressed(head, lines, key, x); }
    BarrenMatches(stale, file, p);
    if x :| Occurs(text, p, x) && NearStart(file, x) {
      var k := NameOccurs(head, lines, key, x);
      assert StepsOut(lines, key, k);
    } else if k: nat :| StepsOut(lines, key, k) {
      NameMatches(head, lines, key, k);
    }
  }

  lemma NameMatches(head: seq<Uint8>, lines: seq<Symbol>, key: Key, k: nat)
    requires |head| == HALF && AllWellFormed(lines) && GoodKey(key) && key.Named?
    requires k < |lines| && Carries(lines[k], key)
    ensures Occurs(head + Render(lines), Pattern(key), HALF + Offset(lines, k) + 18)
  {
    hide Occurs, Render, Offset, Pattern, Carries;
    CarrierHolds(lines[k], key);
    LineMatches(head, lines, key, k);
  }

  lemma NameLength(sym: Symbol, key: Key)
    requires key.Named? && Carries(sym, key)
    ensures |Pattern(key)| == |sym.name| + 2
  {}

  /** What is scanned for a prefix that the first line holding it has y bytes into its name. */
  lemma PrefixScan(head: seq<Uint8>, lines: seq<Symbol>, key: Key, k: nat, y: nat)
    requires |head| == HALF && AllWellFormed(lines) && GoodKey(key) && key.Starting?
    requires FirstHolder(lines, key) == Some(k) && Find(lines[k].name, key.prefix) == Some(y)
    ensures key.prefix <= lines[k].name <==> y == 0
    ensures WellFormed(lines[k])
    ensures y < 16 ==> ScannedFor(head, lines, key) == Some(AddressFrom(lines[k], y))
    ensures 16 <= y < 18 && !IsSpace(lines[k].kind) ==>
              ScannedFor(head, lines, key) == if IsHexDigit(lines[k].kind) then Some(HexValue(lines[k].kind)) else None
  {
    hide FirstHolder, Scanned, HexNumber, FindFrom, IsSpace, IsHexDigit, HexValue;
    var sym := lines[k];
    assert WellFormed(sym);
    ScannedForPrefix(Before(head, k), sym, y, |key.prefix|);
    if key.prefix <= sym.name { CarrierHolds(sym, key); }
  }

  /** Exactly when the pointer of a prefix is right that the first line holding it has y bytes into its
      name, y below 16: it takes that line's address without its first y digits. So it is right if the
      name begins with the prefix, or if these digits are the address of the first line that is meant;
      when such addresses fill their sixteen digits, only if the name begins with the prefix. */
  lemma PrefixPointer(stale: seq<Uint8>, lines: seq<Symbol>, key: Key, k: nat, y: nat)
    requires |stale| == 2 * HALF && Absent(stale, Pattern(key)) && AllWellFormed(lines) && GoodKey(key)
    requires key.Starting? && FirstHolder(lines, key) == Some(k) && Find(lines[k].name, key.prefix) == Some(y)
    requires WellFormed(lines[k]) && y < 16 && AddressFrom(lines[k], y) != 0
    ensures Sweep(stale, Render(lines), 0, Pattern(key), 0) == Some(AddressFrom(lines[k], y))
    ensures Sweep(stale, Render(lines), 0, Pattern(key), 0) == Some(AddressOf(lines, key))
       <==> y == 0 || exists c: nat :: FirstCarrier(lines, key) == Some(c) && SameAddress(lines, c, k, y)
    ensures FullAddresses(lines, key) ==>
              (Sweep(stale, Render(lines), 0, Pattern(key), 0) == Some(AddressOf(lines, key)) <==> y == 0)
  {
    hide Render, FirstHolder, FirstCarrier, Scanned, Sweep, GoodKey, Absent, Pattern, HexNumber, FindFrom, Carries;
    PrefixScan(stale[..HALF], lines, key, k, y);
    PointerIsScanned(stale, lines, key);
    var c := FirstCarrier(lines, key);
    if y == 0 {
      CarrierHolds(lines[k], key);
      PrefixCarries(lines[k], key);
      HolderIsCarrier(lines, key);
      assert lines[k].addr[0..] == lines[k].addr;
    } else if c.Some? {
      assert SameAddress(lines, c.value, k, y) <==> AddressOf(lines, key) == AddressFrom(lines[k], y);
      if FullAddresses(lines, key) { ShorterIsSmaller(lines[c.value].addr, lines[k].addr[y..]); }
    }
  }

  lemma PrefixCarries(sym: Symbol, key: Key)
    requires key.Starting? && key.prefix <= sym.name
    ensures Carries(sym, key)
  {}

  /** The address on line c is that on line k without its first y digits. */
  ghost predicate SameAddress(lines: seq<Symbol>, c: nat, k: nat, y: nat)
    requires c < |lines| && k < |lines| && y <= 16 && AllWellFormed(lines)
  {
    WellFormed(lines[c]) && WellFormed(lines[k]) && HexNumber(lines[c].addr) == AddressFrom(lines[k], y)
  }

  /** No address of the symbol begins with a 0. */
  ghost predicate FullAddresses(lines: seq<Symbol>, key: Key)
  {
    forall j :: 0 <= j < |lines| && Carries(lines[j], key) ==> WellFormed(lines[j]) && lines[j].addr[0] != '0' as int
  }

  lemma ShorterIsSmaller(addr: seq<Uint8>, digits: seq<Uint8>)
    requires |addr| == 16 && (forall i :: 0 <= i < 16 ==> IsHexDigit(addr[i])) && addr[0] != '0' as int
    requires |digits| < 16 && forall i :: 0 <= i < |digits| ==> IsHexDigit(digits[i])
    ensures HexNumber(digits) < HexNumber(addr)
  {
    hide HexNumber, Place, IsHexDigit;
    assert addr == [addr[0]] + addr[1..];
    LeadingDigit(addr[0], addr[1..]);
    HexPrepend(addr[0], digits);
    PlaceGrows(|digits|, 15);
  }

  /** A prefix 16 or 17 bytes into the name: the type letter is scanned. If it is a hex digit other
      than 0, the pointer ends as that digit, which is no full address; else nothing usable is
      scanned. The same holds where the digits left of an address are all 0. Then the step back leaves
      the window, or the search goes on with the next piece. */
  lemma PrefixBehindAddress(stale: seq<Uint8>, lines: seq<Symbol>, key: Key, k: nat, y: nat)
    requires |stale| == 2 * HALF && Absent(stale, Pattern(key)) && AllWellFormed(lines) && GoodKey(key)
    requires key.Starting? && FirstHolder(lines, key) == Some(k) && Find(lines[k].name, key.prefix) == Some(y)
    requires WellFormed(lines[k])
    requires if y < 16 then AddressFrom(lines[k], y) == 0 else y < 18 && !IsSpace(lines[k].kind)
    ensures var kind, file, x := lines[k].kind, Render(lines), HALF + Offset(lines, k) + 19 + y;
            Sweep(stale, file, 0, Pattern(key), 0)
            == if y >= 16 && IsHexDigit(kind) && kind != '0' as int then Some(HexValue(kind))
               else if x - x % HALF >= |file| then Some(0)
               else if x % HALF < BACK then None
               else Examine(stale[..HALF] + file, Pattern(key), x - x % HALF + HALF)
  {
    hide Render, FirstHolder, Scanned, Sweep, GoodKey, Absent, Pattern, HexNumber, FindFrom, IsSpace, Examine, Offset;
    hide Spot, ScannedFor, WellFormed;
    PrefixScan(stale[..HALF], lines, key, k, y);
    PrefixSpot(lines[k], key, y);
    if y >= 16 && IsHexDigit(lines[k].kind) && lines[k].kind != '0' as int {
      PointerIsScanned(stale, lines, key);
    } else {
      PointerNotScanned(stale, lines, key, k);
    }
  }

  lemma PrefixSpot(sym: Symbol, key: Key, y: nat)
    requires key.Starting? && Find(sym.name, key.prefix) == Some(y)
    ensures Spot(sym, key) == Some(19 + y)
  {}

  /** `get_table_entry` on a file of lines: no step back leaves the window, and every pointer ends as
      the address on the first line that carries its symbol, 0 when none does. */
  method GetSymbols(buf: array<Uint8>, lines: seq<Symbol>, keys: seq<Key>)
    returns (inside: bool, symbols: seq<nat>)
    requires buf.Length == 2 * HALF && AllWellFormed(lines)
    requires forall key :: key in keys ==>
               GoodKey(key) && Absent(buf[..], Pattern(key)) && RightlyHeld(buf[..][..HALF], lines, key)
    modifies buf
    ensures inside && |symbols| == |keys|
    ensures forall k :: 0 <= k < |keys| ==> symbols[k] == AddressOf(lines, keys[k])
  {
    hide GoodKey, Absent, RightlyHeld, Pattern, Render, AddressOf, Sweep;
    ghost var stale := buf[..];
    var patterns := seq(|keys|, k requires 0 <= k < |keys| => Pattern(keys[k]));
    forall k | 0 <= k < |keys|
      ensures Sweep(stale, Render(lines), 0, patterns[k], 0) == Some(AddressOf(lines, keys[k]))
    {
      PointerIsAddress(stale, lines, keys[k]);
    }
    inside, symbols := GetTableEntry(buf, Render(lines), patterns);
  }

  function Ascii(s: string): seq<Uint8>
  {
    seq(|s|, i requires 0 <= i < |s| => s[i] as int % 0x100)
  }

  /** The symbols that the module looks up. */
  const SOURCE_KEYS: seq<Key> := [
    Named(Ascii("kfree_skb")), Named(Ascii("__dev_kfree_skb_any")), Named(Ascii("__netdev_alloc_skb")),
    Named(Ascii("netif_rx")), Named(Ascii("napi_gro_receive")), Named(Ascii("netif_receive_skb")),
    Starting(Ascii("ixgbe_clean_rx_irq")), Named(Ascii("arp_rcv")), Named(Ascii("ip_rcv")),
    Named(Ascii("ipv6_rcv")), Named(Ascii("ptype_all")), Named(Ascii("ptype_base"))]

  lemma NameIsGood(s: string)
    requires 0 < |s| <= 43 && forall i :: 0 <= i < |s| ==> 'A' <= s[i] <= 'z'  || '0' <= s[i] <= '9'
    ensures GoodKey(Named(Ascii(s)))
  {}

  /** All of them are within the reach of the search. */
  lemma SourceKeysAreGood()
    ensures forall key :: key in SOURCE_KEYS ==> GoodKey(key)
  {
    hide GoodKey;
    NameIsGood("kfree_skb");
    NameIsGood("__dev_kfree_skb_any");
    NameIsGood("__netdev_alloc_skb");
    NameIsGood("netif_rx");
    NameIsGood("napi_gro_receive");
    NameIsGood("netif_receive_skb");
    NameIsGood("arp_rcv");
    NameIsGood("ip_rcv");
    NameIsGood("ipv6_rcv");
    NameIsGood("ptype_all");
    NameIsGood("ptype_base");
    PrefixIsGood("ixgbe_clean_rx_irq");
  }

  lemma PrefixIsGood(s: string)
    requires 2 <= |s| <= 45 && forall i :: 0 <= i < |s| ==> 'A' <= s[i] <= 'z'  || '0' <= s[i] <= '9'
    requires 'g' <= s[0] <= 'z' && 'g' <= s[|s| - 1] <= 'z'
    ensures GoodKey(Starting(Ascii(s)))
  {}

  /** `get_table_entry` with the symbols that it looks up. */
  method LookUpSymbols(buf: array<Uint8>, lines: seq<Symbol>) returns (inside: bool, symbols: seq<nat>)
    requires buf.Length == 2 * HALF && AllWellFormed(lines)
    requires forall key :: key in SOURCE_KEYS ==>
               Absent(buf[..], Pattern(key)) && RightlyHeld(buf[..][..HALF], lines, key)
    modifies buf
    ensures inside && |symbols| == 12
    ensures forall k :: 0 <= k < 12 ==> symbols[k] == AddressOf(lines, SOURCE_KEYS[k])
  {
    hide GoodKey, Absent, RightlyHeld, Pattern, AddressOf;
    SourceKeysAreGood();
    inside, symbols := GetSymbols(buf, lines, SOURCE_KEYS);
  }

  /** The patterns in their order, as the program has them: the first six. */
  lemma FirstPatterns()
    ensures |SOURCE_KEYS| == 12
    ensures Pattern(SOURCE_KEYS[0]) == Ascii(" kfree_skb\n")
    ensures Pattern(SOURCE_KEYS[1]) == Ascii(" __dev_kfree_skb_any\n")
    ensures Pattern(SOURCE_KEYS[2]) == Ascii(" __netdev_alloc_skb\n")
    ensures Pattern(SOURCE_KEYS[3]) == Ascii(" netif_rx\n")
    ensures Pattern(SOURCE_KEYS[4]) == Ascii(" napi_gro_receive\n")
    ensures Pattern(SOURCE_KEYS[5]) == Ascii(" netif_receive_skb\n")
  {
    hide Ascii, Pattern;
    NamePattern("kfree_skb", " kfree_skb\n");
    NamePattern("__dev_kfree_skb_any", " __dev_kfree_skb_any\n");
    NamePattern("__netdev_alloc_skb", " __netdev_alloc_skb\n");
    NamePattern("netif_rx", " netif_rx\n");
    NamePattern("napi_gro_receive", " napi_gro_receive\n");
    NamePattern("netif_receive_skb", " netif_receive_skb\n");
  }

  /** And the other six. */
  lemma OtherPatterns()
    ensures |SOURCE_KEYS| == 12
    ensures Pattern(SOURCE_KEYS[6]) == Ascii("ixgbe_clean_rx_irq")
    ensures Pattern(SOURCE_KEYS[7]) == Ascii(" arp_rcv\n")
    ensures Pattern(SOURCE_KEYS[8]) == Ascii(" ip_rcv\n")
    ensures Pattern(SOURCE_KEYS[9]) == Ascii(" ipv6_rcv\n")
    ensures Pattern(SOURCE_KEYS[10]) == Ascii(" ptype_all\n")
    ensures Pattern(SOURCE_KEYS[11]) == Ascii(" ptype_base\n")
  {
    hide Ascii, Pattern;
    PatternAsWritten(SOURCE_KEYS[6]);
    NamePattern("arp_rcv", " arp_rcv\n");
    NamePattern("ip_rcv", " ip_rcv\n");
    NamePattern("ipv6_rcv", " ipv6_rcv\n");
    NamePattern("ptype_all", " ptype_all\n");
    NamePattern("ptype_base", " ptype_base\n");
  }

  lemma NamePattern(name: string, text: string)
    requires text == " " + name + "\n"
    ensures Pattern(Named(Ascii(name))) == Ascii(text)
  {}

  lemma AsciiAsWritten(s: string)
    requires forall i :: 0 <= i < |s| ==> s[i] < 128 as char
    ensures |Ascii(s)| == |s| && forall i :: 0 <= i < |s| ==> Ascii(s)[i] == s[i] as int
  {}

  /** A window that is full of one byte holds no pattern that begins with another. */
  lemma FullOf(c: Uint8, p: seq<Uint8>)
    requires p != [] && c != p[0]
    ensures Absent(seq(2 * HALF, _ => c), p)
  {
    var stale: seq<Uint8> := seq(2 * HALF, _ => c);
    forall x ensures !Occurs(stale, p, x) {
      OccursAt(stale, p, x, 0);
      OccursStart(stale, p, x);
      OccursEnd(stale, p, x);
    }
  }

  lemma OneMore(sym: Symbol, others: seq<Symbol>)
    requires WellFormed(sym) && AllWellFormed(others)
    ensures AllWellFormed([sym] + others)
  {
    hide WellFormed;
  }

  lemma LineIsGood(addr: string, kind: char, name: string)
    requires |addr| == 16 && forall i :: 0 <= i < 16 ==> '0' <= addr[i] <= '9' || 'a' <= addr[i] <= 'f'
    requires 'A' <= kind <= 'z' && forall i :: 0 <= i < |name| ==> 'A' <= name[i] <= 'z' || '0' <= name[i] <= '9'
    ensures WellFormed(Symbol(Ascii(addr), kind as int, Ascii(name)))
  {}

  /** A window full of '#', then a file whose first line is that of `ip_rcv`: its address is lost,
      and with more than 64 bytes in the file the search steps back out of the window. */
  lemma StaleByteHidesAddress(others: seq<Symbol>)
    requires AllWellFormed(others)
    ensures var stale: seq<Uint8> := seq(2 * HALF, _ => '#' as int);
            var lines := [Symbol(Ascii("ffffffff81000000"), 'T' as int, Ascii("ip_rcv"))] + others;
            var key := Named(Ascii("ip_rcv"));
            && AllWellFormed(lines) && AddressOf(lines, key) != 0
            && Sweep(stale, Render(lines), 0, Pattern(key), 0)
               == if |Render(lines)| > HALF then None else Some(0)
  {
    var stale: seq<Uint8> := seq(2 * HALF, _ => '#' as int);
    var sym := Symbol(Ascii("ffffffff81000000"), 'T' as int, Ascii("ip_rcv"));
    var lines, key := [sym] + others, Named(Ascii("ip_rcv"));
    hide HexNumber, Sweep, Render, FirstCarrier, Place, Occurs, WellFormed, IsHexDigit, GoodKey;
    LineIsGood("ffffffff81000000", 'T', "ip_rcv");
    OneMore(sym, others);
    NameIsGood("ip_rcv");
    FullOf('#' as int, Pattern(key));
    assert HexNumber(sym.addr) != 0 by {
      AddressIsHex(sym);
      assert sym.addr == ['f' as int] + sym.addr[1..];
      LeadingDigit('f' as int, sym.addr[1..]);
    }
    FirstLineName(stale, lines, key);
    assert FirstCarrier(lines, key) == Some(0);
  }

  /** A window full of newlines, then a file whose first line is that of `ip_rcv` with a zero address:
      with more than 64 bytes in the file the search steps back out of the window. */
  lemma ZeroAddressStepsOut(others: seq<Symbol>)
    requires AllWellFormed(others)
    ensures var stale: seq<Uint8> := seq(2 * HALF, _ => NEWLINE);
            var lines := [Symbol(Ascii("0000000000000000"), 'T' as int, Ascii("ip_rcv"))] + others;
            && AllWellFormed(lines)
            && Sweep(stale, Render(lines), 0, Pattern(Named(Ascii("ip_rcv"))), 0)
               == if |Render(lines)| > HALF then None else Some(0)
  {
    var stale: seq<Uint8> := seq(2 * HALF, _ => NEWLINE);
    var sym := Symbol(Ascii("0000000000000000"), 'T' as int, Ascii("ip_rcv"));
    var lines, key := [sym] + others, Named(Ascii("ip_rcv"));
    hide HexNumber, Sweep, Render, FirstCarrier, Place, Occurs, WellFormed, IsHexDigit, GoodKey;
    LineIsGood("0000000000000000", 'T', "ip_rcv");
    OneMore(sym, others);
    NameIsGood("ip_rcv");
    FullOf(NEWLINE, Pattern(key));
    OnlyZeros(sym.addr);
    FirstLineName(stale, lines, key);
  }

  lemma {:induction false} OnlyZeros(digits: seq<Uint8>)
    requires forall i :: 0 <= i < |digits| ==> digits[i] == '0' as int
    ensures HexNumber(digits) == 0
    decreases |digits|
  {
    if digits != [] { OnlyZeros(digits[..|digits| - 1]); }
  }

  lemma FoundBehind(c: Uint8, prefix: seq<Uint8>)
    requires prefix != [] && c != prefix[0]
    ensures Find([c] + prefix, prefix) == Some(1) && !(prefix <= [c] + prefix)
  {
    var name := [c] + prefix;
    assert name[1..1 + |prefix|] == prefix;
    assert name[0] != prefix[0];
    OccursAt(name, prefix, 0, 0);
    FindIs(name, prefix, 1);
  }

  /** A line whose name is the symbol with one more character in front takes the pointer from the
      line that is meant: it ends as the other line's address without the top digit. */
  lemma ShadowedPrefix(stale: seq<Uint8>, prefix: seq<Uint8>, c: Uint8, a: Symbol, b: Symbol)
    requires |stale| == 2 * HALF && Absent(stale, prefix) && GoodKey(Starting(prefix)) && c != prefix[0]
    requires WellFormed(a) && a.name == [c] + prefix && a.addr[1] != '0' as int
    requires WellFormed(b) && b.name == prefix && b.addr[0] != '0' as int
    ensures AddressOf([a, b], Starting(prefix)) == HexNumber(b.addr)
    ensures Sweep(stale, Render([a, b]), 0, prefix, 0) == Some(AddressFrom(a, 1))
    ensures AddressFrom(a, 1) != HexNumber(b.addr)
  {
    hide HexNumber, Sweep, Render, Place, Find, FindFrom, Scanned, IsHexDigit, IsSpace;
    var lines, key := [a, b], Starting(prefix);
    FoundBehind(c, prefix);
    assert FirstHolder(lines, key) == Some(0);
    assert lines[1..] == [b];
    assert FirstCarrier(lines, key) == Some(1);
    var digits := a.addr[1..];
    assert digits == [a.addr[1]] + digits[1..];
    LeadingDigit(a.addr[1], digits[1..]);
    ShorterIsSmaller(b.addr, digits);
    PrefixPointer(stale, lines, key, 0, 1);
  }

  /** For the driver's symbol: the line of `_ixgbe_clean_rx_irq` takes the pointer. */
  lemma UnderscoreTakesThePointer(stale: seq<Uint8>)
    requires |stale| == 2 * HALF && Absent(stale, Ascii("ixgbe_clean_rx_irq"))
    ensures var name := Ascii("ixgbe_clean_rx_irq");
            var a := Symbol(Ascii("ffffffffa0001000"), 't' as int, ['_' as int] + name);
            var b := Symbol(Ascii("ffffffffa0002000"), 't' as int, name);
            && WellFormed(a) && WellFormed(b)
            && Sweep(stale, Render([a, b]), 0, name, 0) != Some(AddressOf([a, b], Starting(name)))
  {
    hide HexNumber, Sweep, Render, FirstCarrier, AddressOf;
    var name := Ascii("ixgbe_clean_rx_irq");
    PrefixIsGood("ixgbe_clean_rx_irq");
    var a := Symbol(Ascii("ffffffffa0001000"), 't' as int, ['_' as int] + name);
    var b := Symbol(Ascii("ffffffffa0002000"), 't' as int, name);
    ShadowedPrefix(stale, name, '_' as int, a, b);
  }

  lemma FourMoreDigits(n: seq<Uint8>, a: Uint8, b: Uint8, c: Uint8, d: Uint8)
    requires forall i :: 0 <= i < |n| ==> IsHexDigit(n[i])
    requires IsHexDigit(a) && IsHexDigit(b) && IsHexDigit(c) && IsHexDigit(d)
    ensures HexNumber(n + [a, b, c, d])
         == 0x1_0000 * HexNumber(n) + 0x1000 * HexValue(a) + 0x100 * HexValue(b) + 0x10 * HexValue(c) + HexValue(d)
  {
    hide IsHexDigit, HexValue, HexNumber;
    NumberAsWritten(n, a);
    NumberAsWritten(n + [a], b);
    NumberAsWritten(n + [a] + [b], c);
    NumberAsWritten(n + [a] + [b] + [c], d);
    assert n + [a] + [b] + [c] + [d] == n + [a, b, c, d];
  }

  /** The digits of an address and the number they stand for. */
  lemma AddressValue(digits: seq<Uint8>)
    requires digits == ['f' as int, 'f' as int, 'f' as int, 'f' as int, 'f' as int, 'f' as int, 'f' as int, 'f' as int,
                        '8' as int, '1' as int, '0' as int, '0' as int, '0' as int, '0' as int, '4' as int, '0' as int]
    ensures (forall i :: 0 <= i < |digits| ==> IsHexDigit(digits[i])) && HexNumber(digits) == 0xffff_ffff_8100_0040
  {
    hide HexNumber;
    var f, zero: Uint8 := 'f' as int, '0' as int;
    NumberAsWritten([], zero);
    FourMoreDigits([], f, f, f, f);
    FourMoreDigits(digits[..4], f, f, f, f);
    FourMoreDigits(digits[..8], '8' as int, '1' as int, zero, zero);
    FourMoreDigits(digits[..12], zero, zero, '4' as int, zero);
    assert [] + [f, f, f, f] == digits[..4] && digits[..4] + [f, f, f, f] == digits[..8];
    assert digits[..8] + ['8' as int, '1' as int, zero, zero] == digits[..12];
    assert digits[..12] + [zero, zero, '4' as int, zero] == digits;
  }

  lemma AsciiAppend(s: string, t: string)
    ensures Ascii(s + t) == Ascii(s) + Ascii(t)
  {}

  /** A line as a string. */
  lemma AsciiLine(addr: string, kind: char, name: string)
    requires kind < 128 as char
    ensures RenderLine(Symbol(Ascii(addr), kind as int, Ascii(name))) == Ascii(addr + " " + [kind] + " " + name + "\n")
  {}

  /** A file of two lines: the pointer of `ip_rcv` ends as the address on the second. */
  lemma TwoLineFile(stale: seq<Uint8>)
    requires |stale| == 2 * HALF && Absent(stale, Ascii(" ip_rcv\n"))
    ensures Sweep(stale, Ascii("ffffffff81000000 T a\nffffffff81000040 T ip_rcv\n"), 0, Ascii(" ip_rcv\n"), 0)
         == Some(0xffff_ffff_8100_0040)
  {
    hide HexNumber, Sweep, RenderLine, WellFormed, Occurs, FindFrom, Pattern, IsHexDigit, GoodKey, Ascii;
    var a := Symbol(Ascii("ffffffff81000000"), 'T' as int, Ascii("a"));
    var b := Symbol(Ascii("ffffffff81000040"), 'T' as int, Ascii("ip_rcv"));
    var key := Named(Ascii("ip_rcv"));
    LineIsGood("ffffffff81000000", 'T', "a");
    LineIsGood("ffffffff81000040", 'T', "ip_rcv");
    NameIsGood("ip_rcv");
    NamePattern("ip_rcv", " ip_rcv\n");
    AsciiLine("ffffffff81000000", 'T', "a");
    AsciiLine("ffffffff81000040", 'T', "ip_rcv");
    AsciiAppend("ffffffff81000000 T a\n", "ffffffff81000040 T ip_rcv\n");
    FirstLineText();
    SecondLineText();
    BothLinesText();
    TwoLines(a, b);
    AsciiAsWritten("a");
    AsciiAsWritten("ip_rcv");
    SecondCarries(a, b, key);
    SecondAddress(b.addr);
    PointerIsAddress(stale, [a, b], key);
  }

  lemma FirstLineText()
    ensures "ffffffff81000000" + " " + ['T'] + " " + "a" + "\n" == "ffffffff81000000 T a\n"
  {}

  lemma SecondLineText()
    ensures "ffffffff81000040" + " " + ['T'] + " " + "ip_rcv" + "\n" == "ffffffff81000040 T ip_rcv\n"
  {}

  lemma BothLinesText()
    ensures "ffffffff81000000 T a\n" + "ffffffff81000040 T ip_rcv\n"
         == "ffffffff81000000 T a\nffffffff81000040 T ip_rcv\n"
  {}

  lemma SecondAddress(digits: seq<Uint8>)
    requires digits == Ascii("ffffffff81000040")
    ensures (forall i :: 0 <= i < |digits| ==> IsHexDigit(digits[i])) && HexNumber(digits) == 0xffff_ffff_8100_0040
  {
    hide HexNumber;
    AddressValue(digits);
  }

  lemma TwoLines(a: Symbol, b: Symbol)
    ensures Render([a, b]) == RenderLine(a) + RenderLine(b)
  {
    hide RenderLine;
    assert [a, b][1..] == [b] && [b][1..] == [];
    assert Render([b]) == RenderLine(b) + Render([]);
  }

  lemma SecondCarries(a: Symbol, b: Symbol, key: Key)
    requires key.Named? && a.name != key.name && b.name == key.name
    ensures FirstHolder([a, b], key) == FirstCarrier([a, b], key) == Some(1)
  {
    assert [a, b][1..] == [b];
  }
}
