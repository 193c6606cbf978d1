/** What the packet pipe of bypass_ipstack/genpipe.c makes of the text written to it: every line
    is a frame in hexadecimal. */
module GenpipeText {
  import opened BitWords
  import opened Characters
  import opened Unsigned

  const MTU: nat := 9014

  /** The bytes in front of every frame. */
  const HEADROOM: nat := 14

  type Bytes = seq<Word8>

  function Upper(c: Uint8): Uint8
  {
    if 'a' as int <= c <= 'z' as int then c - 0x20 else c
  }

  /** Characters that carry a digit: after conversion to upper case, 0 to 9 and all of A to Z. */
  predicate CarriesDigit(c: Uint8)
  {
    '0' as int <= Upper(c) <= '9' as int || 'A' as int <= Upper(c) <= 'Z' as int
  }

  /** The value of such a character, up to 35 for Z. */
  function DigitValue(c: Uint8): (v: Uint8)
    requires CarriesDigit(c)
    ensures v < 36
  {
    if Upper(c) <= '9' as int then Upper(c) - '0' as int else Upper(c) - 'A' as int + 10
  }

  /** The digits of a line in order; spaces and all other characters are passed over. */
  function Digits(line: seq<Uint8>): seq<Uint8>
    decreases |line|
  {
    if line == [] then []
    else
      var n := |line| - 1;
      Digits(line[..n]) + if CarriesDigit(line[n]) then [DigitValue(line[n])] else []
  }

  /** A small number as an `unsigned char`. */
  function ByteOf(v: Uint8): Word8
  {
    HexPair(v / 16, v % 16)
  }

  /** `hi << 4` cut to a byte, with `lo` or-ed in. */
  function Combine(hi: Uint8, lo: Uint8): Word8
  {
    Or(Shl(ByteOf(hi), 4), ByteOf(lo))
  }

  /** Two digits make a byte; an odd last digit is dropped. */
  function PairBytes(digits: seq<Uint8>): (bytes: Bytes)
    ensures |bytes| == |digits| / 2
  {
    seq(|digits| / 2, i requires 0 <= i < |digits| / 2 => Combine(digits[2 * i], digits[2 * i + 1]))
  }

  function Truncate(bytes: Bytes): Bytes
  {
    if |bytes| <= MTU then bytes else bytes[..MTU]
  }

  /** The bytes a line stands for, at most MTU of them. */
  function Decode(line: seq<Uint8>): Bytes
  {
    Truncate(PairBytes(Digits(line)))
  }

  const ZERO8: Word8 := Fill(8, false)

  /** What is sent for a line. */
  function Frame(line: seq<Uint8>): Bytes
  {
    seq(HEADROOM, _ => ZERO8) + Decode(line)
  }

  /** What the pipe takes for a digit, character by character: 0 to 9, and all letters in either
      case, with values up to 35. */
  lemma DigitsAsWritten(c: Uint8)
    ensures CarriesDigit(c) <==> 48 <= c <= 57 || 65 <= c <= 90 || 97 <= c <= 122
    ensures 48 <= c <= 57 ==> DigitValue(c) == c - 48
    ensures 65 <= c <= 90 ==> CarriesDigit(c + 32) && DigitValue(c) == DigitValue(c + 32) == c - 55
  {}

  /** A frame is fourteen zero bytes and the decoded line, at most 9014 bytes of it, each made of two
      digits. */
  lemma FrameAsSent(line: seq<Uint8>)
    ensures var f, d := Frame(line), Digits(line);
            && |f| == 14 + |Decode(line)| && f[14..] == Decode(line)
            && (forall i, k :: 0 <= i < 14 && 0 <= k < 8 ==> !f[i][k])
            && |Decode(line)| == (if |d| / 2 <= 9014 then |d| / 2 else 9014)
            && forall i :: 0 <= i < |Decode(line)| ==> Decode(line)[i] == Combine(d[2 * i], d[2 * i + 1])
  {
    hide Digits, Combine;
  }

  /** The position of the first newline, the length when there is none. */
  function LineEnd(text: seq<Uint8>): (k: nat)
    ensures k <= |text| && NEWLINE !in text[..k]
    ensures k < |text| ==> text[k] == NEWLINE
    ensures k == |text| <==> NEWLINE !in text
  {
    if text == [] || text[0] == NEWLINE then 0
    else
      var k := 1 + LineEnd(text[1..]);
      assert text[..k] == [text[0]] + text[1..][..k - 1];
      assert text == [text[0]] + text[1..];
      k
  }

  /** The frames for the complete lines of a text. */
  function Frames(text: seq<Uint8>): seq<Bytes>
    decreases |text|
  {
    var k := LineEnd(text);
    if k == |text| then [] else [Frame(text[..k])] + Frames(text[k + 1..])
  }

  /** What follows the last newline. */
  function Rest(text: seq<Uint8>): (r: seq<Uint8>)
    ensures NEWLINE !in r && |r| <= |text|
    decreases |text|
  {
    var k := LineEnd(text);
    if k == |text| then text else Rest(text[k + 1..])
  }

  lemma FirstLine(text: seq<Uint8>)
    requires NEWLINE in text
    ensures var k := LineEnd(text);
            && k < |text|
            && Frames(text) == [Frame(text[..k])] + Frames(text[k + 1..])
            && Rest(text) == Rest(text[k + 1..])
  {
    hide Frame, LineEnd;
  }

  lemma NoLine(text: seq<Uint8>)
    requires NEWLINE !in text
    ensures Frames(text) == [] && Rest(text) == text
  {
    hide Frame, LineEnd;
  }

  /** More text behind a line does not change where it ends. */
  lemma FirstLineStays(x: seq<Uint8>, y: seq<Uint8>)
    requires NEWLINE in x
    ensures var k := LineEnd(x);
            && NEWLINE in x + y && LineEnd(x + y) == k
            && (x + y)[..k] == x[..k] && (x + y)[k + 1..] == x[k + 1..] + y
  {
    hide LineEnd;
    var k, j := LineEnd(x), LineEnd(x + y);
    assert (x + y)[k] == NEWLINE && (x + y)[..k] == x[..k];
  }

  /** Cutting a text anywhere: the complete lines of x come first, and what is left of x joins y. */
  lemma {:induction false} CutAnywhere(x: seq<Uint8>, y: seq<Uint8>)
    ensures Frames(x + y) == Frames(x) + Frames(Rest(x) + y)
    ensures Rest(x + y) == Rest(Rest(x) + y)
    decreases |x|
  {
    hide Frame, LineEnd, Frames, Rest;
    if NEWLINE in x {
      var k := LineEnd(x);
      FirstLine(x);
      FirstLineStays(x, y);
      FirstLine(x + y);
      CutAnywhere(x[k + 1..], y);
    } else {
      NoLine(x);
    }
  }

  /** A line feed, code 10, ends a line and sends it. */
  lemma LineFeedEndsLine(line: seq<Uint8>)
    requires 10 !in line
    ensures Frames(line + [10]) == [Frame(line)] && Rest(line + [10]) == []
    ensures Frames(line) == [] && Rest(line) == line
  {
    hide Frame, LineEnd;
    var text := line + [10];
    assert text[|line|] == 10;
    FirstLine(text);
    assert text[..|line|] == line && text[LineEnd(text)] == 10;
    NoLine(text[LineEnd(text) + 1..]);
    NoLine(line);
  }

  /** The pipe as its writer sees it: the bytes of an unfinished line and the frames sent. */
  datatype Pipe = Pipe(pending: seq<Uint8>, sent: seq<Bytes>)

  /** What is left of the pending bytes when a chunk arrives: all, or nothing on overflow. */
  function Kept(capacity: nat, pending: seq<Uint8>, chunk: seq<Uint8>): seq<Uint8>
  {
    if |pending| + |chunk| > capacity then [] else pending
  }

  /** The part of a chunk that is taken in. */
  function Accepted(capacity: nat, chunk: seq<Uint8>): seq<Uint8>
  {
    if |chunk| > capacity then chunk[..capacity] else chunk
  }

  /** The front of the chunk, as much as the capacity. */
  lemma AcceptedIsFront(capacity: nat, chunk: seq<Uint8>)
    ensures Accepted(capacity, chunk) <= chunk
    ensures |Accepted(capacity, chunk)| == if |chunk| <= capacity then |chunk| else capacity
  {}

  /** One write. */
  function Write(capacity: nat, p: Pipe, chunk: seq<Uint8>): Pipe
  {
    var text := Kept(capacity, p.pending, chunk) + Accepted(capacity, chunk);
    Pipe(Rest(text), p.sent + Frames(text))
  }

  function WriteAll(capacity: nat, p: Pipe, chunks: seq<seq<Uint8>>): Pipe
    decreases |chunks|
  {
    if chunks == [] then p else WriteAll(capacity, Write(capacity, p, chunks[0]), chunks[1..])
  }

  /** Everything the run takes in, as one text. */
  function AllAccepted(capacity: nat, chunks: seq<seq<Uint8>>): seq<Uint8>
    decreases |chunks|
  {
    if chunks == [] then [] else Accepted(capacity, chunks[0]) + AllAccepted(capacity, chunks[1..])
  }

  /** The text before write n of a run: the pending bytes and what the writes before it took in. */
  function TextBefore(capacity: nat, p: Pipe, chunks: seq<seq<Uint8>>, n: nat): seq<Uint8>
    requires n <= |chunks|
  {
    p.pending + AllAccepted(capacity, chunks[..n])
  }

  /** No write of the run meets an overflow with an unfinished line before it: told from the text
      alone. */
  ghost predicate NothingDropped(capacity: nat, p: Pipe, chunks: seq<seq<Uint8>>)
  {
    forall n: nat :: n < |chunks| ==>
      var unfinished := Rest(TextBefore(capacity, p, chunks, n));
      unfinished == [] || |unfinished| + |chunks[n]| <= capacity
  }

  /** The unfinished line before a later write is that of the run one write on. */
  lemma UnfinishedNext(capacity: nat, p: Pipe, chunks: seq<seq<Uint8>>, n: nat)
    requires NEWLINE !in p.pending && n < |chunks|
    requires Kept(capacity, p.pending, chunks[0]) == p.pending
    ensures n > 0 ==>
              Rest(TextBefore(capacity, p, chunks, n))
              == Rest(TextBefore(capacity, Write(capacity, p, chunks[0]), chunks[1..], n - 1))
  {
    hide Rest, Frames, Accepted, Kept;
    var c := Accepted(capacity, chunks[0]);
    if n > 0 {
      var later := AllAccepted(capacity, chunks[1..][..n - 1]);
      assert chunks[..n][0] == chunks[0] && chunks[..n][1..] == chunks[1..][..n - 1];
      assert TextBefore(capacity, p, chunks, n) == (p.pending + c) + later;
      CutAnywhere(p.pending + c, later);
    }
  }

  /** No write of the run finds pending bytes that it drops. */
  ghost predicate NoOverflow(capacity: nat, p: Pipe, chunks: seq<seq<Uint8>>)
    decreases |chunks|
  {
    chunks != [] ==>
      && Kept(capacity, p.pending, chunks[0]) == p.pending
      && NoOverflow(capacity, Write(capacity, p, chunks[0]), chunks[1..])
  }

  /** The text tells exactly whether a write of the run drops bytes. */
  lemma {:induction false} DropsToldByText(capacity: nat, p: Pipe, chunks: seq<seq<Uint8>>)
    requires NEWLINE !in p.pending
    ensures NothingDropped(capacity, p, chunks) <==> NoOverflow(capacity, p, chunks)
    decreases |chunks|
  {
    hide Rest, Frames, TextBefore;
    if chunks != [] {
      var p', later := Write(capacity, p, chunks[0]), chunks[1..];
      assert Rest(TextBefore(capacity, p, chunks, 0)) == p.pending by { FirstUnfinished(capacity, p, chunks); }
      if Kept(capacity, p.pending, chunks[0]) == p.pending {
        forall n: nat | 0 < n < |chunks|
          ensures Rest(TextBefore(capacity, p, chunks, n)) == Rest(TextBefore(capacity, p', later, n - 1))
        {
          UnfinishedNext(capacity, p, chunks, n);
        }
        DropsToldByText(capacity, p', later);
        assert forall n: nat :: n < |later| ==> later[n] == chunks[n + 1];
        assert forall n: nat :: 0 < n < |chunks| ==> chunks[n] == later[n - 1];
        if NothingDropped(capacity, p, chunks) {
          forall n: nat | n < |later|
            ensures var unfinished := Rest(TextBefore(capacity, p', later, n));
                    unfinished == [] || |unfinished| + |later[n]| <= capacity
          {
            assert Rest(TextBefore(capacity, p, chunks, n + 1)) == Rest(TextBefore(capacity, p', later, n));
          }
        }
      }
    }
  }

  lemma FirstUnfinished(capacity: nat, p: Pipe, chunks: seq<seq<Uint8>>)
    requires NEWLINE !in p.pending
    ensures Rest(TextBefore(capacity, p, chunks, 0)) == p.pending
  {
    hide Rest;
    assert TextBefore(capacity, p, chunks, 0) == p.pending;
    NoLine(p.pending);
  }

  /** Chunking invariance: if nothing is dropped, then however the text is cut into writes the
      frames sent are the decoded complete lines of all that was taken in, and the buffer holds
      exactly what follows the last newline. */
  lemma ChunkingInvariance(capacity: nat, p: Pipe, chunks: seq<seq<Uint8>>)
    requires NEWLINE !in p.pending && NothingDropped(capacity, p, chunks)
    ensures var text := p.pending + AllAccepted(capacity, chunks);
            WriteAll(capacity, p, chunks) == Pipe(Rest(text), p.sent + Frames(text))
  {
    hide Frames, Rest, NothingDropped, NoOverflow, AllAccepted;
    DropsToldByText(capacity, p, chunks);
    RunWithoutOverflow(capacity, p, chunks);
  }

  lemma {:induction false} RunWithoutOverflow(capacity: nat, p: Pipe, chunks: seq<seq<Uint8>>)
    requires NEWLINE !in p.pending && NoOverflow(capacity, p, chunks)
    ensures var text := p.pending + AllAccepted(capacity, chunks);
            WriteAll(capacity, p, chunks) == Pipe(Rest(text), p.sent + Frames(text))
    decreases |chunks|
  {
    hide Frames, Rest;
    if chunks == [] {
      assert p.pending + [] == p.pending;
      NoLine(p.pending);
    } else {
      var c, later := Accepted(capacity, chunks[0]), AllAccepted(capacity, chunks[1..]);
      RunWithoutOverflow(capacity, Write(capacity, p, chunks[0]), chunks[1..]);
      CutAnywhere(p.pending + c, later);
      assert p.pending + (c + later) == (p.pending + c) + later;
    }
  }

  /** When all the chunks fit, everything is taken in: the run depends on their concatenation only. */
  lemma {:induction false} ChunksThatFit(capacity: nat, chunks: seq<seq<Uint8>>)
    requires forall c :: c in chunks ==> |c| <= capacity
    ensures AllAccepted(capacity, chunks) == Concat(chunks)
    decreases |chunks|
  {
    if chunks != [] { ChunksThatFit(capacity, chunks[1..]); }
  }

  function Concat(chunks: seq<seq<Uint8>>): seq<Uint8>
  {
    if chunks == [] then [] else chunks[0] + Concat(chunks[1..])
  }

  lemma {:induction false} WriteAllAppend(capacity: nat, p: Pipe, first: seq<seq<Uint8>>, later: seq<seq<Uint8>>)
    ensures WriteAll(capacity, p, first + later) == WriteAll(capacity, WriteAll(capacity, p, first), later)
    decreases |first|
  {
    hide Write;
    if first == [] {
      assert first + later == later;
    } else {
      assert (first + later)[1..] == first[1..] + later;
      WriteAllAppend(capacity, Write(capacity, p, first[0]), first[1..], later);
    }
  }

  /** After an overflow a run goes on as from an empty buffer: with q the pipe before the write that
      overflows and nothing dropped behind it, the frames and the buffer at the end are those of the
      text from that write on. */
  lemma OverflowStartsAfresh(capacity: nat, p: Pipe, first: seq<seq<Uint8>>, later: seq<seq<Uint8>>)
    requires later != []
    requires var q := WriteAll(capacity, p, first);
             && |q.pending| + |later[0]| > capacity
             && NothingDropped(capacity, q.(pending := []), later)
    ensures var q, text := WriteAll(capacity, p, first), AllAccepted(capacity, later);
            WriteAll(capacity, p, first + later) == Pipe(Rest(text), q.sent + Frames(text))
  {
    hide Rest, Frames, NothingDropped, AllAccepted;
    WriteAllAppend(capacity, p, first, later);
    var q := WriteAll(capacity, p, first);
    assert Write(capacity, q, later[0]) == Write(capacity, q.(pending := []), later[0]);
    ChunkingInvariance(capacity, q.(pending := []), later);
    assert [] + AllAccepted(capacity, later) == AllAccepted(capacity, later);
  }

  /** Whatever is written, no more than the capacity is ever pending. */
  lemma {:induction false} PendingFits(capacity: nat, p: Pipe, chunks: seq<seq<Uint8>>)
    requires |p.pending| <= capacity
    ensures |WriteAll(capacity, p, chunks).pending| <= capacity
    decreases |chunks|
  {
    hide Rest, Frames;
    if chunks != [] { PendingFits(capacity, Write(capacity, p, chunks[0]), chunks[1..]); }
  }

  /** Exactly when an unfinished line is lost: written in any number of pieces to a buffer with any
      unfinished line in it, it is kept if and only if all of it fits at once. */
  lemma OverflowLosesBytes(capacity: nat, p: Pipe, chunks: seq<seq<Uint8>>)
    requires |p.pending| <= capacity && NEWLINE !in p.pending && NEWLINE !in Concat(chunks)
    ensures WriteAll(capacity, p, chunks).pending == p.pending + Concat(chunks)
       <==> |p.pending| + |Concat(chunks)| <= capacity
  {
    hide Rest, Frames, Concat;
    PendingFits(capacity, p, chunks);
    if |p.pending| + |Concat(chunks)| <= capacity { UnfinishedLineKept(capacity, p, chunks); }
  }

  lemma {:induction false} UnfinishedLineKept(capacity: nat, p: Pipe, chunks: seq<seq<Uint8>>)
    requires NEWLINE !in p.pending && NEWLINE !in Concat(chunks)
    requires |p.pending| + |Concat(chunks)| <= capacity
    ensures WriteAll(capacity, p, chunks).pending == p.pending + Concat(chunks)
    decreases |chunks|
  {
    hide Rest, Frames;
    if chunks == [] {
      assert p.pending + [] == p.pending;
    } else {
      var text := p.pending + chunks[0];
      assert Concat(chunks)[..|chunks[0]|] == chunks[0] && Concat(chunks)[|chunks[0]|..] == Concat(chunks[1..]);
      NoLine(text);
      UnfinishedLineKept(capacity, Write(capacity, p, chunks[0]), chunks[1..]);
      assert p.pending + (chunks[0] + Concat(chunks[1..])) == text + Concat(chunks[1..]);
    }
  }

  lemma {:induction false} WholeLinesLeaveNothing(text: seq<Uint8>)
    requires text != [] && text[|text| - 1] == NEWLINE
    ensures Rest(text) == []
    decreases |text|
  {
    hide LineEnd, Frames, Rest;
    var k := LineEnd(text);
    assert NEWLINE in text;
    FirstLine(text);
    if k + 1 < |text| {
      WholeLinesLeaveNothing(text[k + 1..]);
    } else {
      NoLine([]);
      assert text[k + 1..] == [];
    }
  }

  /** A writer whose every chunk fits and ends a line never loses anything. */
  lemma WholeLinesAreKept(capacity: nat, p: Pipe, chunks: seq<seq<Uint8>>)
    requires p.pending == []
    requires forall c :: c in chunks ==> |c| <= capacity && c != [] && c[|c| - 1] == NEWLINE
    ensures NothingDropped(capacity, p, chunks)
  {
    hide Rest, AllAccepted;
    forall n: nat | n < |chunks| ensures Rest(TextBefore(capacity, p, chunks, n)) == [] {
      assert TextBefore(capacity, p, chunks, n) == AllAccepted(capacity, chunks[..n]);
      WholeLinesTogether(capacity, chunks[..n]);
      NoLine([]);
    }
  }

  lemma {:induction false} WholeLinesTogether(capacity: nat, chunks: seq<seq<Uint8>>)
    requires forall c :: c in chunks ==> |c| <= capacity && c != [] && c[|c| - 1] == NEWLINE
    ensures var text := AllAccepted(capacity, chunks);
            text == [] || (text[|text| - 1] == NEWLINE && Rest(text) == [])
    decreases |chunks|
  {
    hide Rest;
    if chunks != [] {
      WholeLinesTogether(capacity, chunks[1..]);
      assert chunks[0] in chunks;
      WholeLinesLeaveNothing(AllAccepted(capacity, chunks));
    }
  }

  /** "00" and a line feed written to an empty pipe: fifteen zero bytes are sent. */
  lemma ZeroByteIsSent(capacity: nat)
    requires capacity >= 3
    ensures var p := Write(capacity, Pipe([], []), [48, 48, 10]);
            p.pending == [] && |p.sent| == 1 && |p.sent[0]| == 15
            && forall i, k :: 0 <= i < 15 && 0 <= k < 8 ==> !p.sent[0][i][k]
  {
    hide Frames, Rest, Frame, Digits, Decode, Combine;
    var line: seq<Uint8> := [48, 48];
    assert [] + [48, 48, 10] == line + [10];
    LineFeedEndsLine(line);
    TwoZeros();
    FrameAsSent(line);
    forall k | 0 <= k < 8 ensures !Frame(line)[14][k] {
      assert Frame(line)[14] == Frame(line)[14..][0] == Combine(0, 0);
      ZeroPair(k);
    }
  }

  lemma TwoZeros()
    ensures Digits([48, 48]) == [0, 0]
  {
    var line: seq<Uint8> := [48, 48];
    assert line[..1] == [48] && line[..1][..0] == [];
    assert Digits(line) == Digits(line[..1]) + [0];
    assert Digits(line[..1]) == Digits([]) + [0];
  }

  lemma ZeroPair(k: nat)
    requires k < 8
    ensures !Combine(0, 0)[k]
  {}
}
