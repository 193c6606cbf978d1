/** `get_table_entry` of bypass_ipstack/genpipe.c: the symbol file is read 64 bytes at a time into
    the upper half of a 128-byte window, every symbol not yet known is searched in the window, its
    address is scanned 19 bytes before the match, and the upper half becomes the lower one. */
module KallsymsSearch {
  import opened Characters
  import opened Unsigned
  import opened Wrappers

  const HALF: nat := 64

  /** How far before a match the address is scanned. */
  const BACK: nat := 19

  predicate Occurs(s: seq<Uint8>, p: seq<Uint8>, i: int)
  {
    0 <= i && i + |p| <= |s| && s[i..i + |p|] == p
  }

  ghost predicate Absent(s: seq<Uint8>, p: seq<Uint8>)
  {
    forall i :: !Occurs(s, p, i)
  }

  ghost predicate IsFirst(s: seq<Uint8>, p: seq<Uint8>, i: int)
  {
    Occurs(s, p, i) && forall j :: j < i ==> !Occurs(s, p, j)
  }

  predicate IsSpace(c: Uint8)
  {
    c == SPACE || 9 <= c <= 13
  }

  /** The number of leading white-space characters. */
  function Blanks(s: seq<Uint8>): (n: nat)
    ensures n <= |s|
  {
    if s == [] || !IsSpace(s[0]) then 0 else 1 + Blanks(s[1..])
  }

  /** The number of leading hex digits. */
  function HexLength(s: seq<Uint8>): (n: nat)
    ensures n <= |s| && forall i :: 0 <= i < n ==> IsHexDigit(s[i])
  {
    if s == [] || !IsHexDigit(s[0]) then 0 else 1 + HexLength(s[1..])
  }

  function HexNumber(digits: seq<Uint8>): nat
    requires forall i :: 0 <= i < |digits| ==> IsHexDigit(digits[i])
    decreases |digits|
  {
    if digits == [] then 0
    else 16 * HexNumber(digits[..|digits| - 1]) + HexValue(digits[|digits| - 1])
  }

  /** One more than the largest `unsigned long long`. */
  const TWO_TO_THE_64: nat := 0x1_0000_0000_0000_0000

  /** `sscanf(s, "%llx", ...)`: white space is skipped and a run of hex digits converted, as far as it
      fits into 64 bits; without a digit nothing is stored. */
  function ScanHex(s: seq<Uint8>): Option<nat>
  {
    var t := s[Blanks(s)..];
    var n := HexLength(t);
    if n == 0 then None else Some(HexNumber(t[..n]) % TWO_TO_THE_64)
  }

  /** A symbol pattern: short enough to fit behind its address, a newline only at its very end, not
      all blank, and with a last character that ends a number. */
  ghost predicate GoodPattern(p: seq<Uint8>)
  {
    && 0 < |p| <= HALF - BACK
    && (forall i :: 0 <= i < |p| - 1 ==> p[i] != NEWLINE)
    && (exists i :: 0 <= i < |p| && !IsSpace(p[i]))
    && !IsHexDigit(p[|p| - 1])
  }

  /** What is scanned for a match at i, from 19 bytes before it on. */
  function ScanAt(s: seq<Uint8>, p: seq<Uint8>, i: int): Option<nat>
    requires BACK <= i && i + |p| <= |s|
  {
    ScanHex(s[i - BACK..i + |p|])
  }

  /** A number other than 0 is scanned for a match at i. */
  predicate Addressed(s: seq<Uint8>, p: seq<Uint8>, i: int)
  {
    BACK <= i && i + |p| <= |s| && ScanAt(s, p, i).Some? && ScanAt(s, p, i).value != 0
  }

  /** a is the address at the first occurrence of p in s, 0 when there is none. */
  ghost predicate SymbolIs(s: seq<Uint8>, p: seq<Uint8>, a: nat)
  {
    if a == 0 then Absent(s, p)
    else exists i :: IsFirst(s, p, i) && Addressed(s, p, i) && ScanAt(s, p, i).value == a
  }

  /** The first occurrence that does not start before n. */
  function FindFrom(s: seq<Uint8>, p: seq<Uint8>, n: nat): (i: Option<nat>)
    requires n <= |s|
    ensures i.Some? ==> n <= i.value && Occurs(s, p, i.value)
    ensures i.Some? ==> forall j :: n <= j < i.value ==> !Occurs(s, p, j)
    ensures i == None ==> forall j :: n <= j ==> !Occurs(s, p, j)
    decreases |s| - n
  {
    if n + |p| > |s| then None
    else if s[n..n + |p|] == p then Some(n)
    else FindFrom(s, p, n + 1)
  }

  function Find(s: seq<Uint8>, p: seq<Uint8>): (i: Option<nat>)
    ensures i.Some? ==> IsFirst(s, p, i.value)
    ensures i == None ==> Absent(s, p)
  {
    FindFrom(s, p, 0)
  }

  lemma FindIs(s: seq<Uint8>, p: seq<Uint8>, i: int)
    requires IsFirst(s, p, i)
    ensures Find(s, p) == Some(i)
  {
    var f := Find(s, p);
    assert f.Some?;
    if f.value < i {} else if i < f.value {}
  }

  /** `strnstr` over the whole window. */
  method Strnstr(buf: array<Uint8>, p: seq<Uint8>) returns (ptr: Option<nat>)
    ensures ptr == Find(buf[..], p)
  {
    var n := 0;
    while n + |p| <= buf.Length
      invariant n <= buf.Length && FindFrom(buf[..], p, n) == Find(buf[..], p)
    {
      assert buf[..][n..n + |p|] == buf[n..n + |p|];
      if buf[n..n + |p|] == p { return Some(n); }
      n := n + 1;
    }
    return None;
  }

  lemma OccursWithin(s: seq<Uint8>, p: seq<Uint8>, n: nat, i: int)
    requires n <= |s|
    ensures Occurs(s[..n], p, i) <==> Occurs(s, p, i) && i + |p| <= n
  {
    if 0 <= i && i + |p| <= n { assert s[..n][i..i + |p|] == s[i..i + |p|]; }
  }

  lemma OccursShifted(s: seq<Uint8>, p: seq<Uint8>, m: nat, i: int)
    requires m <= |s| && 0 <= i
    ensures Occurs(s[m..], p, i) <==> Occurs(s, p, m + i)
  {
    if i + |p| <= |s| - m { assert s[m..][i..i + |p|] == s[m + i..m + i + |p|]; }
  }

  lemma {:induction false} BlanksPrefix(s: seq<Uint8>, n: nat)
    requires n <= |s| && Blanks(s[..n]) < n
    ensures Blanks(s) == Blanks(s[..n])
    decreases n
  {
    if IsSpace(s[0]) {
      assert s[..n][1..] == s[1..][..n - 1];
      BlanksPrefix(s[1..], n - 1);
    }
  }

  lemma {:induction false} HexLengthPrefix(s: seq<Uint8>, n: nat)
    requires n < |s| && !IsHexDigit(s[n])
    ensures HexLength(s) == HexLength(s[..n])
    decreases n
  {
    if n > 0 && IsHexDigit(s[0]) {
      assert s[..n][1..] == s[1..][..n - 1];
      HexLengthPrefix(s[1..], n - 1);
    }
  }

  /** A run of hex digits ends at the latest before a character that is none. */
  lemma HexStops(u: seq<Uint8>, v: seq<Uint8>, m: nat)
    requires m < |v| <= |u| && v == u[..|v|] && !IsHexDigit(v[m])
    ensures HexLength(u) == HexLength(v) <= m && u[..HexLength(u)] == v[..HexLength(v)]
  {
    hide IsHexDigit;
    HexLengthPrefix(u, m);
    HexLengthPrefix(v, m);
    assert u[..m] == v[..m];
  }

  /** A scan that meets a visible character and ends behind one that is no hex digit does not look
      further. */
  lemma ScanStops(s: seq<Uint8>, n: nat)
    requires 0 < n <= |s| && !IsHexDigit(s[n - 1]) && exists i :: 0 <= i < n && !IsSpace(s[i])
    ensures ScanHex(s) == ScanHex(s[..n])
  {
    hide IsSpace, IsHexDigit, HexNumber, Blanks, HexLength;
    var t := s[..n];
    var b := Blanks(t);
    var i :| 0 <= i < n && !IsSpace(s[i]);
    BlanksEnd(t, i);
    BlanksPrefix(s, n);
    assert t[b..] == s[b..][..n - b];
    HexStops(s[b..], t[b..], n - 1 - b);
  }

  lemma {:induction false} BlanksEnd(s: seq<Uint8>, i: nat)
    requires i < |s| && !IsSpace(s[i])
    ensures Blanks(s) <= i
    decreases i
  {
    hide IsSpace;
    if i > 0 && IsSpace(s[0]) { BlanksEnd(s[1..], i - 1); }
  }

  /** The window w after a read of `size` bytes at `pos`: its front shows the text from `pos` on
      (the text being everything that has passed through the window, first half included); what a
      short last read leaves behind it holds no match. */
  ghost predicate Shows(w: seq<Uint8>, text: seq<Uint8>, pos: nat, size: nat, p: seq<Uint8>)
  {
    && Fronts(w, text, pos, size)
    && Absent(w[HALF + size..], p)
    && (size < HALF ==> text[pos + HALF + size - 1] == NEWLINE)
  }

  ghost predicate Fronts(w: seq<Uint8>, text: seq<Uint8>, pos: nat, size: nat)
  {
    && |w| == 2 * HALF && 0 < size <= HALF && pos + HALF + size <= |text|
    && w[..HALF + size] == text[pos..pos + HALF + size]
  }

  /** Matches in the front of the window are matches in the text. */
  lemma FrontMatch(w: seq<Uint8>, text: seq<Uint8>, pos: nat, size: nat, p: seq<Uint8>, i: int)
    requires Fronts(w, text, pos, size) && 0 <= i && i + |p| <= HALF + size
    ensures Occurs(w, p, i) <==> Occurs(text[..pos + HALF + size], p, pos + i)
  {
    var m := pos + HALF + size;
    OccursWithin(w, p, HALF + size, i);
    assert text[pos..m] == text[..m][pos..];
    OccursShifted(text[..m], p, pos, i);
  }

  /** No match reaches past the front: one that starts there is absent, and one that straddles the
      end of a short read would contain the final newline before its own end. */
  lemma NoMatchBehind(w: seq<Uint8>, text: seq<Uint8>, pos: nat, size: nat, p: seq<Uint8>, i: int)
    requires Shows(w, text, pos, size, p) && GoodPattern(p) && Occurs(w, p, i)
    ensures i + |p| <= HALF + size
  {
    var n := HALF + size;
    assert w[n - 1] == w[..n][n - 1] == text[pos + n - 1];
    assert i <= n - 1 ==> n - 1 - i < |p| ==> w[i..i + |p|][n - 1 - i] == w[n - 1];
    if i >= n { OccursShifted(w, p, n, i - n); }
  }

  lemma MatchStart(p: seq<Uint8>)
    requires GoodPattern(p)
    ensures 0 < |p| <= HALF - BACK
  {}

  lemma OccursStart(s: seq<Uint8>, p: seq<Uint8>, i: int)
    ensures Occurs(s, p, i) ==> 0 <= i
  {}

  lemma OccursEnd(s: seq<Uint8>, p: seq<Uint8>, i: int)
    ensures Occurs(s, p, i) ==> i + |p| <= |s|
  {}

  lemma SlicesAgree(v: seq<Uint8>, text: seq<Uint8>, pos: nat, n: nat, a: nat, b: nat)
    requires pos + n <= |text| && v == text[pos..pos + n] && a <= b <= n
    ensures v[a..b] == text[pos + a..pos + b]
  {
    forall i | 0 <= i < b - a ensures v[a..b][i] == text[pos + a..pos + b][i] {
      assert v[a + i] == text[pos..pos + n][a + i] == text[pos + (a + i)];
    }
  }

  lemma SliceOfDrop(w: seq<Uint8>, a: nat, b: nat, n: nat)
    requires a <= b <= n <= |w|
    ensures w[a..][..b - a] == w[a..b] == w[..n][a..b]
  {}

  /** What is scanned for a match in the window is what is scanned for it in the text. */
  lemma ScanInWindow(w: seq<Uint8>, text: seq<Uint8>, pos: nat, size: nat, p: seq<Uint8>, q: int)
    requires Fronts(w, text, pos, size) && GoodPattern(p)
    requires Occurs(w, p, q) && BACK <= q && q + |p| <= HALF + size
    ensures ScanHex(w[q - BACK..]) == ScanAt(text, p, pos + q)
  {
    hide ScanHex, IsHexDigit, IsSpace;
    var t, n := w[q - BACK..], BACK + |p|;
    SlicesAgree(w[..HALF + size], text, pos, HALF + size, q - BACK, q + |p|);
    SliceOfDrop(w, q - BACK, q + |p|, HALF + size);
    forall j | 0 <= j < |p| ensures t[BACK + j] == p[j] {
      assert t[BACK + j] == w[q + j] == w[q..q + |p|][j];
    }
    var i :| 0 <= i < |p| && !IsSpace(p[i]);
    assert !IsSpace(t[BACK + i]);
    ScanStops(t, n);
  }

  /** The window between two reads: the lower half holds the last 64 bytes that have passed, and so
      does the upper half, or it is still as the call found it. */
  ghost predicate BetweenReads(w: seq<Uint8>, stale: seq<Uint8>, text: seq<Uint8>, pos: nat)
  {
    && |w| == |stale| == 2 * HALF && pos + HALF <= |text|
    && w[..HALF] == text[pos..pos + HALF]
    && (w[HALF..] == stale[HALF..] || w[HALF..] == text[pos..pos + HALF])
  }

  /** The window after a read. */
  function AfterRead(w: seq<Uint8>, bytes: seq<Uint8>): seq<Uint8>
    requires |w| == 2 * HALF && |bytes| <= HALF
  {
    w[..HALF] + bytes + w[HALF + |bytes|..]
  }

  lemma AbsentInPart(s: seq<Uint8>, p: seq<Uint8>, m: nat, n: nat)
    requires m <= n <= |s| && Absent(s, p)
    ensures Absent(s[m..n], p)
  {
    hide Occurs;
    forall i ensures !Occurs(s[m..n], p, i) {
      OccursStart(s[m..n], p, i);
      if 0 <= i {
        OccursShifted(s[..n], p, m, i);
        assert s[..n][m..] == s[m..n];
        OccursWithin(s, p, n, m + i);
      }
    }
  }

  /** What a read leaves in the window shows the text, for every symbol that has not passed. */
  lemma ReadShows(w: seq<Uint8>, stale: seq<Uint8>, text: seq<Uint8>, pos: nat, size: nat, p: seq<Uint8>)
    requires BetweenReads(w, stale, text, pos)
    requires 0 < size <= HALF && pos + HALF + size <= |text|
    requires size < HALF ==> text[pos + HALF + size - 1] == NEWLINE
    requires Absent(stale, p) && Absent(text[pos..pos + HALF], p)
    ensures Shows(AfterRead(w, text[pos + HALF..pos + HALF + size]), text, pos, size, p)
  {
    hide Absent;
    var after := AfterRead(w, text[pos + HALF..pos + HALF + size]);
    assert after[HALF + size..] == w[HALF..][size..];
    if w[HALF..] == stale[HALF..] {
      AbsentInPart(stale, p, HALF + size, 2 * HALF);
      assert after[HALF + size..] == stale[HALF + size..2 * HALF];
    } else {
      AbsentInPart(text[pos..pos + HALF], p, size, HALF);
      assert after[HALF + size..] == text[pos..pos + HALF][size..HALF];
    }
    assert after[..HALF + size] == text[pos..pos + HALF + size];
  }

  /** One pass of the loop for one symbol whose pointer is a: nothing when the step back from the
      match would leave the window, else the pointer afterwards. */
  function Look(w: seq<Uint8>, p: seq<Uint8>, a: nat): Option<nat>
  {
    var ptr := Find(w, p);
    if ptr == None || a != 0 then Some(a)
    else if ptr.value < BACK then None
    else
      // sscanf(ptr-19, "%llx", ...)
      match ScanHex(w[ptr.value - BACK..])
      case None => Some(a)
      case Some(scanned) => Some(scanned)
  }

  /** An occurrence, byte by byte. */
  lemma OccursMeans(s: seq<Uint8>, p: seq<Uint8>, i: int)
    ensures Occurs(s, p, i) <==> 0 <= i && i + |p| <= |s| && forall k :: 0 <= k < |p| ==> s[i + k] == p[k]
  {
    if Occurs(s, p, i) {
      forall k | 0 <= k < |p| ensures s[i + k] == p[k] { assert s[i..i + |p|][k] == s[i + k]; }
    } else if 0 <= i && i + |p| <= |s| {
      var k :| 0 <= k < |p| && s[i..i + |p|][k] != p[k];
      assert s[i + k] != p[k];
    }
  }

  /** In a window of twice 64 bytes the step back from the first match is by 19 bytes: below 19 it
      leaves the window, else the number found there is taken; a pointer that is not 0 stays. */
  lemma StepBackAsWritten(w: seq<Uint8>, p: seq<Uint8>, a: nat, i: int)
    ensures HALF == 64 && BACK == 19
    ensures a != 0 || Absent(w, p) ==> Look(w, p, a) == Some(a)
    ensures IsFirst(w, p, i) && a == 0 && i < 19 ==> Look(w, p, a) == None
    ensures IsFirst(w, p, i) && a == 0 && 19 <= i <= |w| ==>
              Look(w, p, a) == if ScanHex(w[i - 19..]).Some? then ScanHex(w[i - 19..]) else Some(0)
  {
    hide ScanHex, Occurs;
    if IsFirst(w, p, i) { FindIs(w, p, i); }
  }

  /** The white space that a scan skips. */
  lemma SpaceAsWritten(c: Uint8)
    ensures IsSpace(c) <==> c == 32 || 9 <= c <= 13
  {}

  /** The number of a run of digits grows by one digit at a time. */
  lemma NumberAsWritten(digits: seq<Uint8>, c: Uint8)
    requires IsHexDigit(c) && forall i :: 0 <= i < |digits| ==> IsHexDigit(digits[i])
    ensures HexNumber([]) == 0
    ensures HexNumber(digits + [c]) == 16 * HexNumber(digits) + HexValue(c)
  {
    hide IsHexDigit, HexValue;
    assert (digits + [c])[..|digits|] == digits;
  }

  /** How many bytes the next read delivers. */
  function ReadSize(file: seq<Uint8>, pos: nat): nat
    requires pos <= |file|
  {
    if |file| - pos < HALF then |file| - pos else HALF
  }

  /** What the reads from `pos` on make of a pointer that is a before them, with the window w. */
  function Sweep(w: seq<Uint8>, file: seq<Uint8>, pos: nat, p: seq<Uint8>, a: nat): Option<nat>
    requires |w| == 2 * HALF && pos <= |file|
    decreases |file| - pos
  {
    if pos == |file| then Some(a)
    else
      var size := ReadSize(file, pos);
      var after := AfterRead(w, file[pos..pos + size]);
      match Look(after, p, a)
      case None => None
      case Some(b) => Sweep(after[HALF..] + after[HALF..], file, pos + size, p, b)
  }

  /** One pass of the loop: every symbol is searched in the window, until a step back would leave
      it. */
  method SearchWindow(buf: array<Uint8>, patterns: seq<seq<Uint8>>, known: seq<nat>)
    returns (inside: bool, symbols: seq<nat>)
    requires |known| == |patterns|
    ensures inside <==> forall k :: 0 <= k < |patterns| ==> Look(buf[..], patterns[k], known[k]).Some?
    ensures |symbols| == |patterns|
    ensures inside ==>
              forall k :: 0 <= k < |patterns| ==> Look(buf[..], patterns[k], known[k]) == Some(symbols[k])
  {
    hide ScanHex, Find;
    symbols := known;
    for k := 0 to |patterns|
      invariant |symbols| == |patterns|
      invariant forall j :: 0 <= j < k ==> Look(buf[..], patterns[j], known[j]) == Some(symbols[j])
      invariant forall j :: k <= j < |patterns| ==> symbols[j] == known[j]
    {
      var ptr := Strnstr(buf, patterns[k]);
      if ptr.Some? && symbols[k] == 0 {
        if ptr.value < BACK {
          assert Look(buf[..], patterns[k], known[k]) == None;
          return false, symbols;
        }
        // sscanf(ptr-19, "%llx", ...)
        assert buf[..][ptr.value - BACK..] == buf[ptr.value - BACK..];
        var scanned := ScanHex(buf[ptr.value - BACK..]);
        if scanned.Some? { symbols := symbols[k := scanned.value]; }
      }
    }
    inside := true;
  }

  lemma SweepNext(w: seq<Uint8>, file: seq<Uint8>, pos: nat, p: seq<Uint8>, a: nat)
    requires |w| == 2 * HALF && pos < |file|
    ensures var size := ReadSize(file, pos);
            var after := AfterRead(w, file[pos..pos + size]);
            Sweep(w, file, pos, p, a)
            == match Look(after, p, a)
               case None => None
               case Some(b) => Sweep(after[HALF..] + after[HALF..], file, pos + size, p, b)
  {
    hide Look, AfterRead;
  }

  /** `get_table_entry` for a list of symbol patterns, on any file and any stale window: whether all
      steps back stay inside the window, and if they do, what every pointer ends as. */
  method GetTableEntry(buf: array<Uint8>, file: seq<Uint8>, patterns: seq<seq<Uint8>>)
    returns (inside: bool, symbols: seq<nat>)
    requires buf.Length == 2 * HALF
    modifies buf
    ensures inside <==> forall k :: 0 <= k < |patterns| ==> Sweep(old(buf[..]), file, 0, patterns[k], 0).Some?
    ensures |symbols| == |patterns|
    ensures inside ==>
              forall k :: 0 <= k < |patterns| ==> Sweep(old(buf[..]), file, 0, patterns[k], 0) == Some(symbols[k])
  {
    hide Look, Sweep;
    ghost var stale := buf[..];
    symbols := seq(|patterns|, _ => 0);
    var pos := 0;
    while true
      invariant pos <= |file| && |symbols| == |patterns|
      invariant forall k :: 0 <= k < |patterns| ==>
                  Sweep(stale, file, 0, patterns[k], 0) == Sweep(buf[..], file, pos, patterns[k], symbols[k])
      decreases |file| - pos
    {
      // file_read
      var size := ReadSize(file, pos);
      if size == 0 { break; }
      ghost var w := buf[..];
      forall i | 0 <= i < size { buf[HALF + i] := file[pos + i]; }
      ghost var after := buf[..];
      assert after == AfterRead(w, file[pos..pos + size]);
      var known := symbols;
      forall k | 0 <= k < |patterns|
        ensures Sweep(stale, file, 0, patterns[k], 0)
             == match Look(after, patterns[k], known[k])
                case None => None
                case Some(b) => Sweep(after[HALF..] + after[HALF..], file, pos + size, patterns[k], b)
      {
        SweepNext(w, file, pos, patterns[k], known[k]);
      }
      inside, symbols := SearchWindow(buf, patterns, known);
      if !inside { return; }
      forall i | 0 <= i < HALF { buf[i] := buf[HALF + i]; }
      assert buf[..] == after[HALF..] + after[HALF..];
      pos := pos + size;
    }
    inside := true;
    forall k | 0 <= k < |patterns| ensures Sweep(buf[..], file, |file|, patterns[k], symbols[k]) == Some(symbols[k]) {
      SweepEnd(buf[..], file, patterns[k], symbols[k]);
    }
  }

  lemma SweepEnd(w: seq<Uint8>, file: seq<Uint8>, p: seq<Uint8>, a: nat)
    requires |w| == 2 * HALF
    ensures Sweep(w, file, |file|, p, a) == Some(a)
  {}

  /** The state between two reads, with the window w; all reads but the last are full. */
  ghost predicate Searching(w: seq<Uint8>, stale: seq<Uint8>, file: seq<Uint8>, pos: nat)
  {
    && |w| == |stale| == 2 * HALF && pos <= |file|
    && (file != [] ==> file[|file| - 1] == NEWLINE)
    && (pos == |file| || (pos % HALF == 0 && BetweenReads(w, stale, stale[..HALF] + file, pos)))
  }

  /** One read and the move of the upper half to the lower one. */
  lemma NextRead(w: seq<Uint8>, stale: seq<Uint8>, file: seq<Uint8>, pos: nat)
    requires Searching(w, stale, file, pos) && pos < |file|
    ensures var text, size := stale[..HALF] + file, ReadSize(file, pos);
            var after := AfterRead(w, file[pos..pos + size]);
            && BetweenReads(w, stale, text, pos)
            && 0 < size <= HALF && pos + HALF + size <= |text|
            && file[pos..pos + size] == text[pos + HALF..pos + HALF + size]
            && (size < HALF ==> text[pos + HALF + size - 1] == NEWLINE)
            && Fronts(after, text, pos, size)
            && Searching(after[HALF..] + after[HALF..], stale, file, pos + size)
  {
    var text, size := stale[..HALF] + file, ReadSize(file, pos);
    var after := AfterRead(w, file[pos..pos + size]);
    assert text[pos..pos + HALF + size] == text[pos..pos + HALF] + text[pos + HALF..pos + HALF + size];
  }

  lemma StartsSearching(stale: seq<Uint8>, file: seq<Uint8>)
    requires |stale| == 2 * HALF && (file != [] ==> file[|file| - 1] == NEWLINE)
    ensures Searching(stale, stale, file, 0)
  {
    assert (stale[..HALF] + file)[..HALF] == stale[..HALF];
  }

  lemma AbsentBetween(text: seq<Uint8>, p: seq<Uint8>, m: nat, n: nat)
    requires m <= n <= |text| && forall j :: m <= j && j + |p| <= n ==> !Occurs(text, p, j)
    ensures Absent(text[m..n], p)
  {
    hide Occurs;
    assert text[..n][m..] == text[m..n];
    forall j ensures !Occurs(text[m..n], p, j) {
      OccursStart(text[m..n], p, j);
      OccursEnd(text[m..n], p, j);
      if 0 <= j {
        OccursShifted(text[..n], p, m, j);
        OccursWithin(text, p, n, m + j);
      }
    }
  }

  lemma FrontOccurs(w: seq<Uint8>, text: seq<Uint8>, pos: nat, size: nat, p: seq<Uint8>, j: int)
    requires Fronts(w, text, pos, size) && j + |p| <= HALF + size
    ensures Occurs(w, p, j) <==> 0 <= j && Occurs(text, p, pos + j)
  {
    OccursStart(w, p, j);
    if 0 <= j {
      FrontMatch(w, text, pos, size, p, j);
      OccursWithin(text, p, pos + HALF + size, pos + j);
    }
  }

  /** The window argument: the first match in the window is the first match of the text that does not
      start before the window, if all of it has been read. Behind the front of the window, which a
      short last read leaves stale, there can only be a copy of a match that the front shows. */
  lemma FirstInWindow(w: seq<Uint8>, stale: seq<Uint8>, file: seq<Uint8>, pos: nat, p: seq<Uint8>)
    requires Searching(w, stale, file, pos) && pos < |file| && GoodPattern(p) && Absent(stale, p)
    ensures var text, size := stale[..HALF] + file, ReadSize(file, pos);
            var f := FindFrom(text, p, pos);
            Find(AfterRead(w, file[pos..pos + size]), p)
            == if f.Some? && f.value + |p| <= pos + HALF + size then Some(f.value - pos) else None
  {
    hide AfterRead, BetweenReads, Occurs, Shows, Find, FindFrom, GoodPattern, Fronts, Absent;
    var text := stale[..HALF] + file;
    NextRead(w, stale, file, pos);
    var size := ReadSize(file, pos);
    var after, f := AfterRead(w, file[pos..pos + size]), FindFrom(text, p, pos);
    if f.Some? && f.value + |p| <= pos + HALF + size {
      forall j | j <= f.value - pos ensures Occurs(after, p, j) <==> j == f.value - pos {
        FrontOccurs(after, text, pos, size, p, j);
      }
      FindIs(after, p, f.value - pos);
    } else {
      AbsentBetween(text, p, pos, pos + HALF);
      ReadShows(w, stale, text, pos, size, p);
      var g := Find(after, p);
      if g.Some? {
        NoMatchBehind(after, text, pos, size, p, g.value);
        FrontOccurs(after, text, pos, size, p, g.value);
      }
    }
  }

  /** The search told on the whole text, one 64-byte piece after the other: of the matches that do not
      start before the piece at `pos` only the first is looked at, and only when all of it has been
      read. It gives the pointer if a number other than 0 is scanned for it; the step back leaves the
      window if it starts less than 19 bytes into the piece. */
  function Examine(text: seq<Uint8>, p: seq<Uint8>, pos: nat): Option<nat>
    decreases |text| - pos
  {
    if pos + HALF >= |text| then Some(0)
    else
      var f := FindFrom(text, p, pos);
      if f == None || f.value + |p| > pos + 2 * HALF then Examine(text, p, pos + HALF)
      else if f.value - pos < BACK then None
      else if Addressed(text, p, f.value) then ScanAt(text, p, f.value)
      else Examine(text, p, pos + HALF)
  }

  lemma {:induction false} SweepKeeps(w: seq<Uint8>, file: seq<Uint8>, pos: nat, p: seq<Uint8>, a: nat)
    requires |w| == 2 * HALF && pos <= |file| && a != 0
    ensures Sweep(w, file, pos, p, a) == Some(a)
    decreases |file| - pos
  {
    if pos < |file| {
      var size := ReadSize(file, pos);
      var after := AfterRead(w, file[pos..pos + size]);
      SweepKeeps(after[HALF..] + after[HALF..], file, pos + size, p, a);
    }
  }

  /** Sliding-window search agrees with whole-text search, on every file that ends in a newline and
      for every window that does not hold the symbol from before. */
  lemma {:induction false} SweepIsExamine(w: seq<Uint8>, stale: seq<Uint8>, file: seq<Uint8>, pos: nat, p: seq<Uint8>)
    requires Searching(w, stale, file, pos) && GoodPattern(p) && Absent(stale, p)
    ensures Sweep(w, file, pos, p, 0) == Examine(stale[..HALF] + file, p, pos)
    decreases |file| - pos
  {
    hide AfterRead, BetweenReads, Absent, GoodPattern, FindFrom, Find, ScanHex, Occurs;
    if pos < |file| {
      var text := stale[..HALF] + file;
      NextRead(w, stale, file, pos);
      FirstInWindow(w, stale, file, pos, p);
      var size := ReadSize(file, pos);
      var after := AfterRead(w, file[pos..pos + size]);
      var f, ptr := FindFrom(text, p, pos), Find(after, p);
      if f.Some? { OccursEnd(text, p, f.value); }
      if ptr.Some? && ptr.value >= BACK { ScanInWindow(after, text, pos, size, p, ptr.value); }
      var next := after[HALF..] + after[HALF..];
      SweepIsExamine(next, stale, file, pos + size, p);
      if Look(after, p, 0).Some? && Look(after, p, 0).value != 0 {
        SweepKeeps(next, file, pos + size, p, Look(after, p, 0).value);
      }
      assert size < HALF ==> Examine(text, p, pos + HALF) == Some(0);
    }
  }

  /** What passes through the window: the first half as the call finds it, then the file. */
  lemma SearchExamines(stale: seq<Uint8>, file: seq<Uint8>, p: seq<Uint8>)
    requires |stale| == 2 * HALF && (file != [] ==> file[|file| - 1] == NEWLINE)
    requires GoodPattern(p) && Absent(stale, p)
    ensures Sweep(stale, file, 0, p, 0) == Examine(stale[..HALF] + file, p, 0)
    ensures forall j :: Occurs(stale[..HALF] + file, p, j) ==> HALF < j + |p|
  {
    hide Searching, GoodPattern, Absent, Occurs;
    StartsSearching(stale, file);
    SweepIsExamine(stale, stale, file, 0, p);
    var text := stale[..HALF] + file;
    assert text[..HALF] == stale[0..HALF];
    AbsentInPart(stale, p, 0, HALF);
    forall j | Occurs(text, p, j) ensures HALF < j + |p| {
      OccursWithin(text, p, HALF, j);
      NotIn(text[..HALF], p, j);
    }
  }

  lemma NotIn(s: seq<Uint8>, p: seq<Uint8>, j: int)
    requires Absent(s, p)
    ensures !Occurs(s, p, j)
  {}

  lemma FirstFrom(text: seq<Uint8>, p: seq<Uint8>, pos: nat, i: int)
    requires IsFirst(text, p, i) && pos <= i
    ensures pos <= |text| && FindFrom(text, p, pos) == Some(i)
  {
    OccursEnd(text, p, i);
    var f := FindFrom(text, p, pos);
    assert f.Some?;
    if f.value < i {} else if i < f.value {}
  }

  /** A first match with an address gives the pointer. */
  lemma {:induction false} ExamineAddressed(text: seq<Uint8>, p: seq<Uint8>, pos: nat, i: int)
    requires IsFirst(text, p, i) && Addressed(text, p, i) && |p| <= HALF - BACK
    requires pos <= i && pos + HALF < i + |p|
    ensures Examine(text, p, pos) == ScanAt(text, p, i)
    decreases |text| - pos
  {
    hide Occurs, FindFrom, ScanHex;
    OccursEnd(text, p, i);
    FirstFrom(text, p, pos, i);
    if pos + 2 * HALF < i + |p| { ExamineAddressed(text, p, pos + HALF, i); }
  }

  lemma {:induction false} ExamineNothing(text: seq<Uint8>, p: seq<Uint8>, pos: nat)
    requires Absent(text, p)
    ensures Examine(text, p, pos) == Some(0)
    decreases |text| - pos
  {
    hide Occurs;
    if pos + HALF < |text| { ExamineNothing(text, p, pos + HALF); }
  }

  /** If a number other than 0 is scanned for the first match, the pointer ends as that number; without
      a match it ends as 0. No step back leaves the window. */
  lemma SearchFinds(stale: seq<Uint8>, file: seq<Uint8>, p: seq<Uint8>)
    requires |stale| == 2 * HALF && (file != [] ==> file[|file| - 1] == NEWLINE)
    requires GoodPattern(p) && Absent(stale, p)
    requires forall i :: IsFirst(stale[..HALF] + file, p, i) ==> Addressed(stale[..HALF] + file, p, i)
    ensures var r := Sweep(stale, file, 0, p, 0); r.Some? && SymbolIs(stale[..HALF] + file, p, r.value)
  {
    hide Absent, Occurs, ScanHex, Sweep;
    var text := stale[..HALF] + file;
    SearchExamines(stale, file, p);
    var f := Find(text, p);
    if f == None {
      ExamineNothing(text, p, 0);
    } else {
      ExamineAddressed(text, p, 0, f.value);
    }
  }

  /** Position j is less than 19 bytes into a 64-byte piece, and another piece is read behind that. */
  predicate NearStart(file: seq<Uint8>, j: int)
  {
    0 <= j && j % HALF < BACK && j - j % HALF < |file|
  }

  /** A first match for which 0 or nothing is scanned. Less than 19 bytes into a piece the step back
      from it leaves the window as soon as another piece is read; else the matches in the rest of the
      piece are passed over and the search goes on with the next piece. */
  lemma {:induction false} ExamineUnaddressed(text: seq<Uint8>, p: seq<Uint8>, pos: nat, i: nat, piece: nat)
    requires IsFirst(text, p, i) && !Addressed(text, p, i) && |p| <= HALF - BACK
    requires pos <= piece <= i < piece + HALF && HALF < i + |p|
    requires pos % HALF == 0 && piece % HALF == 0
    ensures Examine(text, p, pos)
         == if piece + HALF >= |text| then Some(0)
            else if i - piece < BACK then None
            else Examine(text, p, piece + HALF)
    decreases |text| - pos
  {
    hide Occurs, FindFrom, ScanHex, Addressed;
    OccursEnd(text, p, i);
    FirstFrom(text, p, pos, i);
    if pos < piece && pos + HALF < |text| { ExamineUnaddressed(text, p, pos + HALF, i, piece); }
  }

  lemma UnaddressedMatch(stale: seq<Uint8>, file: seq<Uint8>, p: seq<Uint8>, i: nat)
    requires |stale| == 2 * HALF && (file != [] ==> file[|file| - 1] == NEWLINE)
    requires GoodPattern(p) && Absent(stale, p)
    requires IsFirst(stale[..HALF] + file, p, i) && !Addressed(stale[..HALF] + file, p, i)
    ensures Sweep(stale, file, 0, p, 0)
         == if i - i % HALF >= |file| then Some(0)
            else if i % HALF < BACK then None
            else Examine(stale[..HALF] + file, p, i - i % HALF + HALF)
  {
    hide Absent, Occurs, ScanHex, Sweep, Addressed, Examine;
    SearchExamines(stale, file, p);
    ExamineUnaddressed(stale[..HALF] + file, p, 0, i, i - i % HALF);
  }

  lemma PieceOf(pos: nat, j: int)
    requires pos % HALF == 0 && pos <= j
    ensures pos <= j - j % HALF
    ensures j < pos + HALF ==> j % HALF == j - pos
  {}

  /** Where 0 or nothing is scanned for every match. */
  lemma {:induction false} ExamineBarren(text: seq<Uint8>, file: seq<Uint8>, p: seq<Uint8>, pos: nat)
    requires |text| == HALF + |file| && |p| <= HALF - BACK && pos % HALF == 0
    requires forall j :: Occurs(text, p, j) ==> !Addressed(text, p, j)
    ensures Examine(text, p, pos)
         == if exists j :: Occurs(text, p, j) && pos <= j && NearStart(file, j) then None else Some(0)
    decreases |text| - pos
  {
    hide Occurs, FindFrom, ScanHex, Addressed;
    if pos + HALF < |text| {
      ExamineBarren(text, file, p, pos + HALF);
      var f := FindFrom(text, p, pos);
      if f.Some? && f.value + |p| <= pos + 2 * HALF && f.value - pos < BACK {
        assert NearStart(file, f.value);
      } else {
        forall j | Occurs(text, p, j) && pos <= j && NearStart(file, j) ensures pos + HALF <= j {
          PieceOf(pos, j);
        }
      }
    } else {
      forall j | pos <= j ensures !NearStart(file, j) { PieceOf(pos, j); }
    }
  }

  /** When no address can be used, as in a file of zero addresses: the step back leaves the window if
      and only if some match starts less than 19 bytes into a 64-byte piece and another piece is read
      behind that; otherwise the pointer stays 0. */
  lemma BarrenMatches(stale: seq<Uint8>, file: seq<Uint8>, p: seq<Uint8>)
    requires |stale| == 2 * HALF && (file != [] ==> file[|file| - 1] == NEWLINE)
    requires GoodPattern(p) && Absent(stale, p)
    requires forall j :: Occurs(stale[..HALF] + file, p, j) ==> !Addressed(stale[..HALF] + file, p, j)
    ensures Sweep(stale, file, 0, p, 0)
         == if exists j :: Occurs(stale[..HALF] + file, p, j) && NearStart(file, j) then None else Some(0)
  {
    hide Absent, Occurs, Sweep, Addressed, Examine;
    SearchExamines(stale, file, p);
    ExamineBarren(stale[..HALF] + file, file, p, 0);
  }

  /** In the read of piece n the first match that does not start before the piece is in the window, and
      near enough to its start that the step back leaves it. */
  predicate LeavesAt(text: seq<Uint8>, p: seq<Uint8>, n: nat)
  {
    && (n + 1) * HALF < |text|
    && var f := FindFrom(text, p, n * HALF);
       f.Some? && f.value + |p| <= (n + 2) * HALF && f.value - n * HALF < BACK
  }

  /** Or it is further in, and a number other than 0 is scanned for it. */
  predicate SettlesAt(text: seq<Uint8>, p: seq<Uint8>, n: nat)
  {
    && (n + 1) * HALF < |text|
    && var f := FindFrom(text, p, n * HALF);
       && f.Some? && f.value + |p| <= (n + 2) * HALF && f.value - n * HALF >= BACK
       && Addressed(text, p, f.value)
  }

  ghost predicate LeavesFirst(text: seq<Uint8>, p: seq<Uint8>, n: nat, m: nat)
  {
    n <= m && LeavesAt(text, p, m) && forall l: nat :: n <= l < m ==> !SettlesAt(text, p, l)
  }

  lemma ExaminePiece(text: seq<Uint8>, p: seq<Uint8>, n: nat)
    requires (n + 1) * HALF < |text|
    ensures LeavesAt(text, p, n) ==> Examine(text, p, n * HALF) == None && !SettlesAt(text, p, n)
    ensures SettlesAt(text, p, n) ==> Examine(text, p, n * HALF).Some?
    ensures !LeavesAt(text, p, n) && !SettlesAt(text, p, n) ==>
              Examine(text, p, n * HALF) == Examine(text, p, (n + 1) * HALF)
  {
    hide FindFrom, ScanHex;
  }

  lemma LeavesNext(text: seq<Uint8>, p: seq<Uint8>, n: nat, m: nat)
    ensures LeavesAt(text, p, n) ==> LeavesFirst(text, p, n, n)
    ensures !LeavesAt(text, p, n) && SettlesAt(text, p, n) ==> !LeavesFirst(text, p, n, m)
    ensures !LeavesAt(text, p, n) && !SettlesAt(text, p, n) ==>
              (LeavesFirst(text, p, n, m) <==> LeavesFirst(text, p, n + 1, m))
  {
    hide LeavesAt, SettlesAt;
  }

  lemma {:induction false} ExamineLeaves(text: seq<Uint8>, p: seq<Uint8>, n: nat)
    ensures Examine(text, p, n * HALF) == None <==> exists m: nat :: LeavesFirst(text, p, n, m)
    decreases |text| - n * HALF
  {
    hide FindFrom, LeavesAt, SettlesAt, LeavesFirst;
    if (n + 1) * HALF >= |text| {
      forall m: nat ensures !LeavesFirst(text, p, n, m) { NothingRead(text, p, n, m); }
    } else {
      hide Examine;
      ExamineLeaves(text, p, n + 1);
      ExaminePiece(text, p, n);
      LeavesNext(text, p, n, n);
      var next := n + 1;
      if m: nat :| LeavesFirst(text, p, next, m) {
        LeavesNext(text, p, n, m);
      } else {
        forall m: nat ensures LeavesFirst(text, p, n, m) ==> LeavesAt(text, p, n) { LeavesNext(text, p, n, m); }
      }
      if SettlesAt(text, p, n) {
        forall m: nat ensures LeavesFirst(text, p, n, m) ==> LeavesAt(text, p, n) { LeavesNext(text, p, n, m); }
      }
    }
  }

  lemma NothingRead(text: seq<Uint8>, p: seq<Uint8>, n: nat, m: nat)
    requires (n + 1) * HALF >= |text|
    ensures !LeavesFirst(text, p, n, m)
  {
    hide FindFrom;
  }

  /** Exactly when a step back leaves the window, for every file: some read leaves it before any
      settles the pointer. */
  lemma StepsOutExactly(stale: seq<Uint8>, file: seq<Uint8>, p: seq<Uint8>)
    requires |stale| == 2 * HALF && (file != [] ==> file[|file| - 1] == NEWLINE)
    requires GoodPattern(p) && Absent(stale, p)
    ensures Sweep(stale, file, 0, p, 0) == None
       <==> exists m: nat :: LeavesFirst(stale[..HALF] + file, p, 0, m)
  {
    hide Absent, Occurs, Sweep, Examine, LeavesFirst;
    SearchExamines(stale, file, p);
    ExamineLeaves(stale[..HALF] + file, p, 0);
  }
}
