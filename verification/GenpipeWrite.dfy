/** `genpipe_write` of bypass_ipstack/genpipe.c on its buffers: chunks are appended, complete
    lines are decoded in place into a packet buffer and sent, and the unfinished line is moved to
    the front for the next call. */
module GenpipeWrite {
  import opened BitWords
  import opened Characters
  import opened Unsigned
  import opened GenpipeText

  const PACKET_BUF_MAX: nat := 1024 * 1024

  /** The bytes the buffer can hold: its end pointer points at its last byte. */
  const CAPACITY: nat := PACKET_BUF_MAX - 1

  class Genpipe {
    /** The transmit buffer; tx_start_ptr is index 0 and tx_end_ptr is index CAPACITY. */
    const txBuf: array<Uint8>
    var txWrite: nat
    var txRead: nat
    const tmpPkt: array<Word8>
    /** The frames handed to `dev_queue_xmit`. */
    var sent: seq<Bytes>

    ghost predicate Valid()
      reads this, txBuf, tmpPkt
    {
      && Allocated()
      && txRead == 0 && txWrite <= CAPACITY
      && NEWLINE !in txBuf[..txWrite]
    }

    /** What holds at every point of a call. */
    ghost predicate Allocated()
      reads this, txBuf, tmpPkt
    {
      && txBuf.Length == PACKET_BUF_MAX && tmpPkt.Length == MTU + HEADROOM
      && txBuf as object != tmpPkt
      && forall i :: 0 <= i < HEADROOM ==> tmpPkt[i] == ZERO8
    }

    /** The pipe as its writer sees it. */
    ghost function State(): Pipe
      reads this, txBuf, tmpPkt
      requires Valid()
    {
      Pipe(txBuf[..txWrite], sent)
    }

    constructor ()
      ensures Valid() && fresh(txBuf) && fresh(tmpPkt)
      ensures State() == Pipe([], [])
    {
      txBuf := new Uint8[PACKET_BUF_MAX](_ => 0);
      tmpPkt := new Word8[MTU + HEADROOM](_ => ZERO8);
      txWrite, txRead := 0, 0;
      sent := [];
    }

    /** The two branches on `pos` that a digit takes: a high half is stored, a low half is or-ed
        in and completes the byte. */
    method StoreDigit(v: Uint8, frameLen: nat, pos: int, ghost digits: seq<Uint8>) returns (newLen: nat, newPos: int)
      requires Allocated() && frameLen < MTU
      requires Packed(digits, frameLen, pos, tmpPkt[..])
      modifies tmpPkt
      ensures Allocated()
      ensures newLen <= MTU && 0 <= newPos <= 1
      ensures Packed(digits + [v], newLen, newPos, tmpPkt[..])
    {
      var at := frameLen + HEADROOM;
      if pos == 0 {
        HighHalf(digits, v, frameLen, tmpPkt[..]);
        tmpPkt[at] := Shl(ByteOf(v), 4);
        newLen, newPos := frameLen, 1;
      } else {
        LowHalf(digits, v, frameLen, tmpPkt[..]);
        tmpPkt[at] := Or(tmpPkt[at], ByteOf(v));
        newLen, newPos := frameLen + 1, 0;
      }
      hide Packed, ByteOf;
      assert tmpPkt[..] == old(tmpPkt[..])[at := tmpPkt[at]];
    }

    /** The decoder loop on the line [txRead, cr): it converts letters to upper case in place and
        fills `tmpPkt` behind the headroom, two digits a byte, until the line or the packet is
        full. */
    method DecodeLine(cr: nat) returns (frameLen: nat)
      requires Allocated() && txRead == 0 <= cr <= txWrite <= CAPACITY
      modifies this`txRead, txBuf, tmpPkt
      ensures Allocated() && txRead <= cr
      ensures frameLen <= MTU
      ensures tmpPkt[HEADROOM..HEADROOM + frameLen] == Decode(old(txBuf[..cr]))
      ensures txBuf[cr..] == old(txBuf[cr..])
    {
      hide Packed, Digits, PairBytes, CarriesDigit, DigitValue;
      ghost var before := txBuf[..];
      ghost var line := before[..cr];
      frameLen := 0;
      var pos := 0;
      NothingPacked(tmpPkt[..]);
      assert line[..0] == [];
      while txRead < cr && frameLen < MTU
        invariant Allocated() && txRead <= cr
        invariant txBuf[txRead..] == before[txRead..]
        invariant frameLen <= MTU && 0 <= pos <= 1
        invariant Packed(Digits(line[..txRead]), frameLen, pos, tmpPkt[..])
        decreases cr - txRead
      {
        var c := txBuf[txRead];
        assert c == line[txRead] by { assert txBuf[txRead..][0] == before[txRead..][0]; }
        assert txBuf[txRead + 1..] == before[txRead + 1..] by {
          assert txBuf[txRead + 1..] == txBuf[txRead..][1..] && before[txRead + 1..] == before[txRead..][1..];
        }
        NextDigit(line, txRead);
        // skip space
        if c == ' ' as int {
          txRead := txRead + 1;
          continue;
        }
        // convert to upper case
        if 'a' as int <= c <= 'z' as int { txBuf[txRead] := c - 0x20; }
        c := txBuf[txRead];
        if '0' as int <= c <= '9' as int {
          frameLen, pos := StoreDigit(c - '0' as int, frameLen, pos, Digits(line[..txRead]));
        } else if 'A' as int <= c <= 'Z' as int {
          frameLen, pos := StoreDigit(c - 'A' as int + 10, frameLen, pos, Digits(line[..txRead]));
        }
        txRead := txRead + 1;
      }
      FullyPacked(line, txRead, frameLen, pos, tmpPkt[..]);
    }

    /** The move of the unread bytes to the front of the buffer. */
    method Compact()
      requires Allocated() && txRead <= txWrite <= CAPACITY
      modifies this`txRead, this`txWrite, txBuf
      ensures Allocated() && txRead == 0 && txWrite == old(txWrite - txRead)
      ensures txBuf[..txWrite] == old(txBuf[txRead..txWrite])
    {
      var i := txRead;
      if i > 0 {
        forall k | 0 <= k < txWrite - txRead { txBuf[k] := txBuf[txRead + k]; }
        txRead := txRead - i;
        txWrite := txWrite - i;
      }
    }

    /** The search for the end of the line that starts at txRead. */
    method FindNewline() returns (cr: nat)
      requires Allocated() && txRead == 0 <= txWrite <= CAPACITY
      ensures cr == LineEnd(txBuf[..txWrite])
      ensures cr <= txWrite && 10 !in txBuf[..cr] && (cr < txWrite ==> txBuf[cr] == 10)
    {
      ghost var text := txBuf[..txWrite];
      cr := txRead;
      while cr < txWrite && txBuf[cr] != NEWLINE
        invariant cr <= txWrite && NEWLINE !in text[..cr]
      {
        cr := cr + 1;
      }
      LineEndUnique(text, cr);
    }

    /** One pass of the goto loop: the first line is decoded and sent and removed from the buffer. */
    method SendLine(cr: nat)
      requires Allocated() && txRead == 0 && txWrite <= CAPACITY
      requires cr < txWrite && cr == LineEnd(txBuf[..txWrite])
      modifies this, txBuf, tmpPkt
      ensures Allocated() && txRead == 0 && txWrite == old(txWrite) - (cr + 1)
      ensures sent == old(sent) + [Frame(old(txBuf[..txWrite])[..cr])]
      ensures |sent[|old(sent)|]| == 14 + |Decode(old(txBuf[..cr]))|
      ensures sent[|old(sent)|][14..] == Decode(old(txBuf[..cr]))
      ensures forall i, k :: 0 <= i < 14 && 0 <= k < 8 ==> !sent[|old(sent)|][i][k]
      ensures txBuf[..txWrite] == old(txBuf[..txWrite])[cr + 1..]
    {
      hide Decode;
      ghost var text := txBuf[..txWrite];
      FrameAsSent(txBuf[..cr]);
      var frameLen := DecodeLine(cr);
      assert text[..cr] == old(txBuf[..cr]);
      assert tmpPkt[..frameLen + HEADROOM] == Frame(text[..cr]);
      sent := sent + [tmpPkt[..frameLen + HEADROOM]];
      txRead := cr + 1;
      assert txBuf[txRead..txWrite] == text[cr + 1..] by {
        assert txBuf[cr..] == old(txBuf[cr..]);
        assert txBuf[cr..][1..txWrite - cr] == old(txBuf[cr..])[1..txWrite - cr];
      }
      Compact();
    }

    /** The overflow branch: the pending bytes are copied onto themselves and then dropped. */
    method MakeRoom(count: nat)
      requires Valid()
      modifies this`txRead, this`txWrite, txBuf
      ensures Valid()
      ensures txWrite == if old(txWrite) + count > CAPACITY then 0 else old(txWrite)
      ensures txBuf[..txWrite] == old(txBuf[..txWrite])[..txWrite]
    {
      if txWrite + count > CAPACITY {
        forall k | 0 <= k < txWrite { txBuf[k] := txBuf[txRead + k]; }
        txWrite := txWrite - txWrite;
        txRead := 0;
      }
    }

    /** `copy_from_user` behind the pending bytes. */
    method CopyIn(bytes: seq<Uint8>)
      requires Valid() && txWrite + |bytes| <= CAPACITY
      modifies this`txWrite, txBuf
      ensures Allocated() && txRead == 0 && txWrite == old(txWrite) + |bytes|
      ensures txBuf[..txWrite] == old(txBuf[..txWrite]) + bytes
    {
      var at := txWrite;
      forall k | 0 <= k < |bytes| { txBuf[at + k] := bytes[k]; }
      txWrite := txWrite + |bytes|;
    }

    /** The overflow check, the clamp and the copy of the chunk. */
    method TakeIn(chunk: seq<Uint8>) returns (copyLen: nat)
      requires Valid()
      modifies this`txRead, this`txWrite, txBuf
      ensures Allocated() && txRead == 0 && txWrite <= CAPACITY
      ensures txBuf[..txWrite] == Kept(CAPACITY, old(txBuf[..txWrite]), chunk) + Accepted(CAPACITY, chunk)
      ensures copyLen == |Accepted(CAPACITY, chunk)|
    {
      var count := |chunk|;
      MakeRoom(count);
      if count > CAPACITY - txWrite { count := CAPACITY - txWrite; }
      assert chunk[..count] == Accepted(CAPACITY, chunk);
      CopyIn(chunk[..count]);
      copyLen := count;
    }

    /** `genpipe_write`: the pipe goes through one step of its specification, and the number of
        bytes taken in is returned. */
    method Write(chunk: seq<Uint8>) returns (copyLen: nat)
      requires Valid()
      modifies this, txBuf, tmpPkt
      ensures Valid()
      ensures State() == GenpipeText.Write(CAPACITY, old(State()), chunk)
      ensures copyLen == |Accepted(CAPACITY, chunk)|
    {
      hide Frames, Rest, Frame, LineEnd, Kept, Accepted;
      copyLen := TakeIn(chunk);
      ghost var text := txBuf[..txWrite];
      while true
        invariant Allocated() && txRead == 0 && txWrite <= CAPACITY
        invariant sent + Frames(txBuf[..txWrite]) == old(sent) + Frames(text)
        invariant Rest(txBuf[..txWrite]) == Rest(text)
        decreases txWrite
      {
        var cr := FindNewline();
        if cr == txWrite { break; }
        FirstLine(txBuf[..txWrite]);
        SendLine(cr);
      }
      NoLine(txBuf[..txWrite]);
    }
  }

  /** The sizes of the buffers: a megabyte, of which all but the last byte can be used, and room for
      the headroom and 9014 bytes. */
  lemma BufferSizes()
    ensures PACKET_BUF_MAX == 1048576 && CAPACITY == 1048575 && HEADROOM == 14 && MTU == 9014
  {}

  /** The packet buffer after some digits: whole bytes behind the headroom, and the high half of
      the next one when the count is odd. */
  ghost predicate Packed(digits: seq<Uint8>, frameLen: nat, pos: int, pkt: seq<Word8>)
  {
    && |digits| == 2 * frameLen + pos && 0 <= pos <= 1
    && HEADROOM + frameLen + pos <= |pkt|
    && pkt[HEADROOM..HEADROOM + frameLen] == PairBytes(digits)
    && (pos == 1 ==> pkt[HEADROOM + frameLen] == Shl(ByteOf(digits[2 * frameLen]), 4))
  }

  lemma NothingPacked(pkt: seq<Word8>)
    requires |pkt| == MTU + HEADROOM
    ensures Packed(Digits([]), 0, 0, pkt)
  {}

  lemma NextDigit(line: seq<Uint8>, n: nat)
    requires n < |line|
    ensures CarriesDigit(line[n]) ==> Digits(line[..n + 1]) == Digits(line[..n]) + [DigitValue(line[n])]
    ensures !CarriesDigit(line[n]) ==> Digits(line[..n + 1]) == Digits(line[..n])
    ensures line[n] == ' ' as int ==> !CarriesDigit(line[n])
    ensures var c := Upper(line[n]);
            && CarriesDigit(line[n]) == ('0' as int <= c <= '9' as int || 'A' as int <= c <= 'Z' as int)
            && ('0' as int <= c <= '9' as int ==> DigitValue(line[n]) == c - '0' as int)
            && ('A' as int <= c <= 'Z' as int ==> DigitValue(line[n]) == c - 'A' as int + 10)
  {
    assert line[..n + 1][..n] == line[..n];
  }

  /** Storing the high half of a byte. */
  lemma HighHalf(digits: seq<Uint8>, v: Uint8, frameLen: nat, pkt: seq<Word8>)
    requires Packed(digits, frameLen, 0, pkt) && HEADROOM + frameLen < |pkt|
    ensures Packed(digits + [v], frameLen, 1, pkt[HEADROOM + frameLen := Shl(ByteOf(v), 4)])
  {
    hide ByteOf, Combine;
    assert PairBytes(digits + [v]) == PairBytes(digits);
  }

  /** Adding the low half of a byte. */
  lemma LowHalf(digits: seq<Uint8>, v: Uint8, frameLen: nat, pkt: seq<Word8>)
    requires Packed(digits, frameLen, 1, pkt)
    ensures HEADROOM + frameLen < |pkt|
    ensures Packed(digits + [v], frameLen + 1, 0, pkt[HEADROOM + frameLen := Or(pkt[HEADROOM + frameLen], ByteOf(v))])
  {
    hide ByteOf;
    var pkt' := pkt[HEADROOM + frameLen := Or(pkt[HEADROOM + frameLen], ByteOf(v))];
    assert PairBytes(digits + [v]) == PairBytes(digits) + [Combine(digits[2 * frameLen], v)];
    assert pkt'[HEADROOM..HEADROOM + (frameLen + 1)]
        == pkt[HEADROOM..HEADROOM + frameLen] + [pkt'[HEADROOM + frameLen]];
  }

  lemma {:induction false} DigitsPrefix(line: seq<Uint8>, n: nat)
    requires n <= |line|
    ensures Digits(line[..n]) <= Digits(line)
    decreases |line|
  {
    hide CarriesDigit, DigitValue;
    if n == |line| {
      assert line[..n] == line;
    } else {
      var init := line[..|line| - 1];
      assert init[..n] == line[..n];
      DigitsPrefix(init, n);
    }
  }

  /** When the line or the packet is used up, the packet holds the decoded line. */
  lemma FullyPacked(line: seq<Uint8>, n: nat, frameLen: nat, pos: int, pkt: seq<Word8>)
    requires n <= |line| && Packed(Digits(line[..n]), frameLen, pos, pkt) && frameLen <= MTU
    requires n == |line| || frameLen == MTU
    ensures HEADROOM + frameLen <= |pkt| && pkt[HEADROOM..HEADROOM + frameLen] == Decode(line)
  {
    hide Digits, Combine;
    DigitsPrefix(line, n);
    var all, some := Digits(line), Digits(line[..n]);
    if n == |line| { assert line[..n] == line; }
    assert PairBytes(some) == PairBytes(all)[..frameLen];
  }

  lemma LineEndUnique(text: seq<Uint8>, k: nat)
    requires k <= |text| && NEWLINE !in text[..k] && (k < |text| ==> text[k] == NEWLINE)
    ensures LineEnd(text) == k
  {
    hide LineEnd;
    var j := LineEnd(text);
  }
}
