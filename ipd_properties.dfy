/** What recv, recvNonBlock and getPendingMsg deliver for the notifications the firmware sends, and where they go wrong. */
module IpdProperties {
  import opened Results
  import opened CString
  import opened Types
  import opened Ipd
  import opened IpdHeaders

  /** `atoi` reads back a rendered count. */
  lemma AtoiOfDecimal(n: nat)
    ensures Atoi(Decimal(n)) == n
  {
    AtoiDecimal(n, []);
    assert Decimal(n) + [] == Decimal(n);
  }

  // recv

  /** recv once it has found the marker at `p` and the first ':' after it at `colon`. */
  lemma RecvTextFound(text: seq<char>, data: seq<char>, p: nat, colon: nat)
    requires Find(text, "+IPD") == Some(p)
    requires p + 5 <= colon
    requires FindChar(text, ':', p) == Some(colon)
    ensures RecvText(text, data) == Deliver(CopyOut(data, colon + 1, Atoi(text[p + 5..colon])))
  {
    var field := text[p + 5..colon];
    var copy := CopyOut(data, colon + 1, Atoi(field));
    assert RecvText(text, data) == Deliver(copy);
  }

  /** recv on a plain header `+IPD,<d>:` copies atoi(d) bytes from just after it. */
  lemma RecvOnHeader(d: seq<char>, n: int, rest: seq<char>, data: seq<char>)
    requires AllDigits(d) && Atoi(d) == n
    ensures RecvText("+IPD," + d + ":" + rest, data) == Deliver(CopyOut(data, 6 + |d|, n))
  {
    var text := "+IPD," + d + ":" + rest;
    PlainOpening(d, rest);
    PlainColon(d, rest, 0);
    RecvTextFound(text, data, 0, 5 + |d|);
    PlainField(d, rest);
  }

  /** recv on a notification without a channel copies the announced count from after its header. */
  lemma RecvFrameCopies(n: nat, p: seq<char>)
    ensures RecvFrame(IpdFrame(None, n, p)) ==
      Deliver(CopyOut(IpdFrame(None, n, p), |Header(None, n)|, n))
  {
    var frame := IpdFrame(None, n, p);
    IpdFrameText(None, n, p);
    AtoiOfDecimal(n);
    RecvOnHeader(Decimal(n), n, CText(p), frame);
  }

  /**
   * recv on `+IPD,<n>:<payload>` returns the first n payload bytes, whatever
   * the payload holds. One byte more takes the frame's terminator along;
   * beyond that the copy reads bytes never written, then past the buffer.
   */
  lemma RecvRoundTrip(n: nat, p: seq<char>)
    ensures RecvFrame(IpdFrame(None, n, p)) == Deliver(PayloadCopy(p, n, |IpdFrame(None, n, p)|))
  {
    RecvFrameCopies(n, p);
    FrameSplits(None, n, p);
    CopyAfter(Header(None, n), p, n);
  }

  /**
   * recv as written faults on every notification with a non-empty payload
   * that it would otherwise deliver: the terminator write indexes the
   * caller's pointer variable by the payload length.
   */
  lemma RecvTerminatorOutOfBounds(n: nat, p: seq<char>)
    requires 0 < n <= |p|
    ensures RecvFrame(IpdFrame(None, n, p)) == Ok(Some(p[..n]))
    ensures RecvFrameAsWritten(IpdFrame(None, n, p)) == Err(TerminatorOutOfBounds)
  {
    RecvRoundTrip(n, p);
  }

  /** recv as written agrees with the corrected extraction wherever no non-empty payload is delivered. */
  lemma RecvAsWrittenAgrees(data: seq<char>)
    requires !(RecvFrame(data).Ok? && RecvFrame(data).value.Some? && |RecvFrame(data).value.value| > 0)
    ensures RecvFrameAsWritten(data) == RecvFrame(data)
  {
  }

  // recvNonBlock

  /**
   * The length-prefixed rule once its searches have landed: `a` runs up to
   * and including the last ',', the field follows it up to the next ':',
   * and that ':' is the first of the text. `|a| - 1 + 1` is SizedPayload's
   * `comma + 1` with the comma at `|a| - 1`, spelled as its body spells it.
   */
  lemma SizedPayloadAt(text: seq<char>, data: seq<char>, a: seq<char>, field: seq<char>)
    requires |a| > 0 && FindLastChar(text, ',') == Some(|a| - 1)
    requires FindChar(text, ':', |a| - 1 + 1) == Some(|a + field|)
    requires FindChar(text, ':') == Some(|a + field|)
    requires text[|a| - 1 + 1..|a + field|] == field
    ensures SizedPayload(text, data) == CopyOut(data, |a + field + ":"|, Atoi(field))
  {
  }

  /** In `a + field + ":" + rest`, the ',' ending `a` is the last one when neither field nor rest holds one. */
  lemma LastCommaEnds(a: seq<char>, field: seq<char>, rest: seq<char>)
    requires |a| > 0 && a[|a| - 1] == ',' && ',' !in field && ',' !in rest
    ensures FindLastChar(a + field + ":" + rest, ',') == Some(|a| - 1)
  {
    var text := a + field + ":" + rest;
    assert text[|a|..] == field + ":" + rest;
    FindLastCharLast(text, ',', |a| - 1);
  }

  /** In `a + field + ":" + rest`, with no ':' in `a` or the field, the first ':' from any point of `a` follows the field. */
  lemma ColonEnds(a: seq<char>, field: seq<char>, rest: seq<char>, from: nat)
    requires from <= |a| && ':' !in a && ':' !in field
    ensures FindChar(a + field + ":" + rest, ':', from) == Some(|a + field|)
  {
    var text := a + field + ":" + rest;
    assert text[from..|a + field|] == a[from..] + field;
    FindCharFirst(text, ':', from, |a + field|);
  }

  /** The ':' after the field is the first one after the ',' ending `a`. */
  lemma ColonAfterComma(a: seq<char>, field: seq<char>, rest: seq<char>)
    requires |a| > 0 && ':' !in a && ':' !in field
    ensures FindChar(a + field + ":" + rest, ':', |a| - 1 + 1) == Some(|a + field|)
  {
    ColonEnds(a, field, rest, |a| - 1 + 1);
  }

  /** The ':' after the field is the first one of the text. */
  lemma FirstColon(a: seq<char>, field: seq<char>, rest: seq<char>)
    requires ':' !in a && ':' !in field
    ensures FindChar(a + field + ":" + rest, ':') == Some(|a + field|)
  {
    ColonEnds(a, field, rest, 0);
  }

  /** The field sits between the ',' ending `a` and the ':' after it. */
  lemma FieldAfterComma(a: seq<char>, field: seq<char>, rest: seq<char>)
    requires |a| > 0
    ensures (a + field + ":" + rest)[|a| - 1 + 1..|a + field|] == field
  {
  }

  /**
   * The length-prefixed rule on `a + field + ":" + rest` when `a` ends in
   * the frame's last ',' and no ':' comes before the one after the field:
   * the length is atoi(field) and the copy starts after that ':'.
   */
  lemma SizedPayloadAfter(a: seq<char>, field: seq<char>, rest: seq<char>, data: seq<char>)
    requires |a| > 0 && a[|a| - 1] == ','
    requires ':' !in a && ':' !in field && ',' !in field && ',' !in rest
    ensures SizedPayload(a + field + ":" + rest, data) == CopyOut(data, |a + field + ":"|, Atoi(field))
  {
    LastCommaEnds(a, field, rest);
    ColonAfterComma(a, field, rest);
    FirstColon(a, field, rest);
    FieldAfterComma(a, field, rest);
    SizedPayloadAt(a + field + ":" + rest, data, a, field);
  }

  /** What recvNonBlock reports for a channel and the outcome of its copy. */
  function Arrival(channel: Option<int>, copy: Result<seq<char>>): Result<Option<Inbound>> {
    match copy
    case Ok(v) => Ok(Some(Inbound(channel, v)))
    case Err(f) => Err(f)
  }

  /** recvNonBlock on a plain header: the only ',' is the first and the last, so no channel is read. */
  lemma NonBlockOnPlainHeader(dn: seq<char>, n: int, rest: seq<char>, data: seq<char>)
    requires AllDigits(dn) && ',' !in rest && Atoi(dn) == n
    ensures RecvNonBlockText("+IPD," + dn + ":" + rest, data) ==
      Arrival(None, CopyOut(data, |"+IPD," + dn + ":"|, n))
  {
    var text := "+IPD," + dn + ":" + rest;
    PlainOpening(dn, rest);
    PlainLastComma(dn, rest);
    DigitsHoldNoDelimiter(dn);
    SizedPayloadAfter("+IPD,", dn, rest, data);
    assert FrameChannel(text) == Ok(None);
  }

  /** recvNonBlock reads a channel from between "+IPD," and a last ',' that differs from the first. */
  lemma FrameChannelAt(text: seq<char>, i: nat, first: nat, k: nat)
    requires Find(text, "+IPD,") == Some(i)
    requires FindChar(text, ',') == Some(first)
    requires FindLastChar(text, ',') == Some(k)
    requires first != k && i + 5 <= k
    ensures FrameChannel(text) == Ok(Some(Atoi(text[i + 5..k])))
  {
  }

  /** recvNonBlock reads channel atoi(dc) from `+IPD,<dc>,<dn>:<rest>` when the rest holds no ','. */
  lemma ChannelOfChannelHeader(dc: seq<char>, dn: seq<char>, rest: seq<char>)
    requires AllDigits(dc) && AllDigits(dn) && ',' !in rest
    ensures IpdChannel("+IPD," + dc + "," + dn + ":" + rest) == Ok(Atoi(dc))
    ensures FrameChannel("+IPD," + dc + "," + dn + ":" + rest) == Ok(Some(Atoi(dc)))
  {
    var text := "+IPD," + dc + "," + dn + ":" + rest;
    ChannelOpening(dc, dn, rest);
    ChannelLastComma(dc, dn, rest);
    FrameChannelAt(text, 0, 4, 5 + |dc|);
    ChannelFields(dc, dn, rest);
  }

  /** recvNonBlock on a header with a channel reports that channel and the payload after the header. */
  lemma NonBlockOnChannelHeader(dc: seq<char>, dn: seq<char>, c: int, n: int, rest: seq<char>, data: seq<char>)
    requires AllDigits(dc) && AllDigits(dn) && ',' !in rest
    requires Atoi(dc) == c && Atoi(dn) == n
    ensures RecvNonBlockText("+IPD," + dc + "," + dn + ":" + rest, data) ==
      Arrival(Some(c), CopyOut(data, |"+IPD," + dc + "," + dn + ":"|, n))
  {
    ChannelOpening(dc, dn, rest);
    ChannelOfChannelHeader(dc, dn, rest);
    DigitsHoldNoDelimiter(dc);
    DigitsHoldNoDelimiter(dn);
    SizedPayloadAfter("+IPD," + dc + ",", dn, rest, data);
  }

  /** The C text of a notification whose payload holds no ',' holds no ',' after its header. */
  lemma NoCommaInText(p: seq<char>)
    requires ',' !in p
    ensures ',' !in CText(p)
  {
  }

  /** recvNonBlock on a whole frame `+IPD,<dn>:<payload>`, the payload holding no ','. */
  lemma NonBlockOnPlainFrame(dn: seq<char>, n: nat, p: seq<char>)
    requires AllDigits(dn) && ',' !in p && Atoi(dn) == n
    ensures RecvNonBlockFrame("+IPD," + dn + ":" + p) == Arrival(None, PayloadCopy(p, n, |"+IPD," + dn + ":" + p|))
  {
    var head := "+IPD," + dn + ":";
    DigitsHoldNoDelimiter(dn);
    assert '\0' !in head;
    CTextAppend(head, p);
    NoCommaInText(p);
    NonBlockOnPlainHeader(dn, n, CText(p), head + p);
    ArrivalOfFrame(head, p, head + CText(p), None, n);
  }

  /** The string functions see the whole header `+IPD,<dc>,<dn>:` of a frame. */
  lemma ChannelFrameText(dc: seq<char>, dn: seq<char>, p: seq<char>)
    requires AllDigits(dc) && AllDigits(dn)
    ensures CText("+IPD," + dc + "," + dn + ":" + p) == "+IPD," + dc + "," + dn + ":" + CText(p)
  {
    var head := "+IPD," + dc + "," + dn + ":";
    DigitsHoldNoDelimiter(dc);
    DigitsHoldNoDelimiter(dn);
    assert '\0' !in head;
    CTextAppend(head, p);
  }

  /** recvNonBlock on a frame `head + p` whose C text reports the copy of `n` bytes from just after `head`. */
  lemma ArrivalOfFrame(head: seq<char>, p: seq<char>, text: seq<char>, channel: Option<int>, n: nat)
    requires CText(head + p) == text
    requires RecvNonBlockText(text, head + p) == Arrival(channel, CopyOut(head + p, |head|, n))
    ensures RecvNonBlockFrame(head + p) == Arrival(channel, PayloadCopy(p, n, |head + p|))
  {
    CopyAfter(head, p, n);
  }

  /** recvNonBlock on a whole frame `+IPD,<dc>,<dn>:<payload>`, the payload holding no ','. */
  lemma NonBlockOnChannelFrame(dc: seq<char>, dn: seq<char>, c: int, n: nat, p: seq<char>)
    requires AllDigits(dc) && AllDigits(dn) && ',' !in p
    requires Atoi(dc) == c && Atoi(dn) == n
    ensures RecvNonBlockFrame("+IPD," + dc + "," + dn + ":" + p) ==
      Arrival(Some(c), PayloadCopy(p, n, |"+IPD," + dc + "," + dn + ":" + p|))
  {
    var head := "+IPD," + dc + "," + dn + ":";
    ChannelFrameText(dc, dn, p);
    NoCommaInText(p);
    NonBlockOnChannelHeader(dc, dn, c, n, CText(p), head + p);
    ArrivalOfFrame(head, p, head + CText(p), Some(c), n);
  }

  /**
   * recvNonBlock on `+IPD,<dc>,<dn>:<payload>` writes channel atoi(dc) to
   * the caller whatever the copy of the payload then does.
   */
  lemma ChannelWrittenBeforeCopy(dc: seq<char>, dn: seq<char>, p: seq<char>, channel: int)
    requires AllDigits(dc) && AllDigits(dn) && ',' !in p
    ensures ChannelAfter("+IPD," + dc + "," + dn + ":" + p, channel) == Atoi(dc)
  {
    ChannelFrameText(dc, dn, p);
    NoCommaInText(p);
    ChannelOpening(dc, dn, CText(p));
    ChannelOfChannelHeader(dc, dn, CText(p));
  }

  /** The frame `+IPD,1,9:ab` spelled out field by field. */
  lemma ChannelFrameSpelled()
    ensures "+IPD," + "1" + "," + "9" + ":" + "ab" == "+IPD,1,9:ab"
  {
    assert "+IPD," + "1" == "+IPD,1";
    assert "+IPD,1" + "," == "+IPD,1,";
    assert "+IPD,1," + "9" == "+IPD,1,9";
    assert "+IPD,1,9" + ":" == "+IPD,1,9:";
  }

  /** `+IPD,1,9:ab` announces more bytes than the buffer received: the copy reads bytes never written. */
  lemma ChannelFrameReadsUnwritten()
    ensures RecvNonBlockFrame("+IPD,1,9:ab") == Err(IndeterminateBytes)
  {
    assert Atoi("1") == 1 && Atoi("9") == 9;
    NonBlockOnChannelFrame("1", "9", 1, 9, "ab");
    ChannelFrameSpelled();
    assert Allocated(11) == 65;
  }

  /** recvNonBlock on `+IPD,1,9:ab` has already written channel 1 to the caller when that copy faults. */
  lemma ChannelKeptOnFault()
    ensures ChannelAfter("+IPD,1,9:ab", 0) == 1
  {
    assert Atoi("1") == 1;
    ChannelWrittenBeforeCopy("1", "9", "ab", 0);
    ChannelFrameSpelled();
  }

  /** recvNonBlock on `+IPD,<n>:<payload>`, given the rendering `dn` of n. */
  lemma NonBlockPlainRendered(n: nat, p: seq<char>, dn: seq<char>)
    requires ',' !in p && dn == Decimal(n)
    ensures RecvNonBlockFrame(IpdFrame(None, n, p)) == Arrival(None, PayloadCopy(p, n, |IpdFrame(None, n, p)|))
  {
    AtoiOfDecimal(n);
    var frame := IpdFrame(None, n, p);
    assert frame == "+IPD," + dn + ":" + p;
    NonBlockOnPlainFrame(dn, n, p);
  }

  /** recvNonBlock on `+IPD,<c>,<n>:<payload>`, given the renderings `dc` of c and `dn` of n. */
  lemma NonBlockChannelRendered(c: nat, n: nat, p: seq<char>, dc: seq<char>, dn: seq<char>)
    requires ',' !in p && dc == Decimal(c) && dn == Decimal(n)
    ensures RecvNonBlockFrame(IpdFrame(Some(c), n, p)) ==
      Arrival(Some(c), PayloadCopy(p, n, |IpdFrame(Some(c), n, p)|))
  {
    AtoiOfDecimal(n);
    AtoiOfDecimal(c);
    var frame := IpdFrame(Some(c), n, p);
    assert frame == "+IPD," + dc + "," + dn + ":" + p;
    NonBlockOnChannelFrame(dc, dn, c, n, p);
  }

  /**
   * recvNonBlock on `+IPD,[<ch>,]<n>:<payload>` reports the channel (when
   * the notification carries one) and the first n payload bytes, provided
   * the payload holds no ','. One byte more takes the frame's terminator
   * along; beyond that the copy reads bytes never written, then past the
   * buffer.
   */
  lemma RecvNonBlockRoundTrip(channel: Option<nat>, n: nat, p: seq<char>)
    requires ',' !in p
    ensures RecvNonBlockFrame(IpdFrame(channel, n, p)) ==
      Arrival(channel, PayloadCopy(p, n, |IpdFrame(channel, n, p)|))
  {
    match channel
    case None => NonBlockPlainRendered(n, p, Decimal(n));
    case Some(c) => NonBlockChannelRendered(c, n, p, Decimal(c), Decimal(n));
  }

  /** The frames `+IPD,3:ab` and `+IPD,9:ab` spelled out field by field. */
  lemma PlainFramesSpelled()
    ensures "+IPD," + "3" + ":" + "ab" == "+IPD,3:ab"
    ensures "+IPD," + "9" + ":" + "ab" == "+IPD,9:ab"
  {
    assert "+IPD," + "3" == "+IPD,3";
    assert "+IPD,3" + ":" == "+IPD,3:";
    assert "+IPD," + "9" == "+IPD,9";
    assert "+IPD,9" + ":" == "+IPD,9:";
  }

  /**
   * A notification that announces one byte more than it carries:
   * recvNonBlock on `+IPD,3:ab` delivers "ab" and the frame's terminator.
   */
  lemma ShortPayloadTakesTerminator()
    ensures RecvNonBlockFrame("+IPD,3:ab") == Ok(Some(Inbound(None, "ab" + ['\0'])))
  {
    assert Atoi("3") == 3;
    NonBlockOnPlainFrame("3", 3, "ab");
    PlainFramesSpelled();
  }

  /**
   * A notification that announces more bytes than the allocation it was
   * drained into received: recvNonBlock on `+IPD,9:ab` copies bytes of the
   * 65-byte buffer that were never written.
   */
  lemma LongPayloadReadsUnwritten()
    ensures RecvNonBlockFrame("+IPD,9:ab") == Err(IndeterminateBytes)
  {
    assert Atoi("9") == 9;
    NonBlockOnPlainFrame("9", 9, "ab");
    PlainFramesSpelled();
    assert Allocated(9) == 65;
  }

  /**
   * A ',' in the payload moves the "last comma" recvNonBlock reads the
   * length after into the payload: with no ':' after it, the frame is
   * refused although its header is well formed.
   */
  lemma CommaInPayloadMisparsed(channel: Option<nat>, n: nat, p: seq<char>)
    requires '\0' !in p && ',' in p && ':' !in p
    ensures RecvNonBlockFrame(IpdFrame(channel, n, p)) == Err(MissingDelimiter)
  {
    var head := Header(channel, n);
    var text := head + p;
    IpdFrameText(channel, n, p);
    CTextWhole(p);
    FrameSplits(channel, n, p);
    FindLastCharAppend(head, p, ',');
    var k := |head| + FindLastChar(p, ',').value;
    assert forall j :: k + 1 <= j < |text| ==> text[j] == p[j - |head|];
    assert FindChar(text, ':', k + 1) == None;
    assert SizedPayload(text, text) == Err(MissingDelimiter);
    match channel
    case None =>
      PlainOpening(Decimal(n), p);
    case Some(c) =>
      ChannelOpening(Decimal(c), Decimal(n), p);
  }

  // getPendingMsg

  /** The payload recvNonBlock delivers, or the fault it hits. */
  function PayloadOf(r: Result<Option<Inbound>>): Result<Option<seq<char>>> {
    match r
    case Ok(None) => Ok(None)
    case Ok(Some(x)) => Ok(Some(x.payload))
    case Err(f) => Err(f)
  }

  /**
   * getPendingMsg applies recvNonBlock's payload rule to the frame the entry
   * holds: it delivers what recvNonBlock would deliver from that frame, once
   * the frame's channel part parses.
   */
  lemma PendingSameRule(c: Client)
    requires c.hasMessage && c.msgBuffer.Some?
    requires Contains(CText(c.msgBuffer.value), "+IPD")
    requires FrameChannel(CText(c.msgBuffer.value)).Ok?
    ensures PendingMsg(c) == PayloadOf(RecvNonBlockFrame(c.msgBuffer.value))
  {
  }

  /**
   * getPendingMsg as written receives the entry by value and frees its
   * frame: the caller's entry keeps its flag but points at released memory,
   * so the next call on it reads a freed buffer.
   */
  lemma PendingUseAfterFree(c: Client)
    requires PendingMsg(c).Ok? && PendingMsg(c).value.Some?
    ensures PendingAsWritten(c).0 == PendingMsg(c)
    ensures PendingAsWritten(c).1.hasMessage
    ensures PendingAsWritten(PendingAsWritten(c).1).0 == Err(Indeterminate)
  {
  }

  /** With the entry handed back, a delivered message is taken once: the next call finds nothing. */
  lemma TakePendingOnce(c: Client)
    requires PendingMsg(c).Ok? && PendingMsg(c).value.Some?
    ensures TakePending(c).0 == PendingMsg(c)
    ensures TakePending(TakePending(c).1).0 == Ok(None)
  {
  }
}
