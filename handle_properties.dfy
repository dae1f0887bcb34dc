/** What handleConnections does to the caller's channel table, and how it hands frames to getPendingMsg. */
module HandleProperties {
  import opened Results
  import opened CString
  import opened Types
  import opened Ipd
  import opened IpdHeaders
  import opened IpdProperties

  /** A connection notice naming an entry inside the table changes that entry's flag and channel, and nothing else. */
  lemma SetConnectedEffect(table: seq<Client>, text: seq<char>, up: bool, ch: int)
    requires NoticeChannel(text) == Ok(ch) && 0 <= ch < |table|
    ensures SetConnected(table, text, up).Ok?
    ensures SetConnected(table, text, up).value[ch].connected == up
    ensures SetConnected(table, text, up).value[ch].channel == ch
    ensures SetConnected(table, text, up).value[ch].hasMessage == table[ch].hasMessage
    ensures SetConnected(table, text, up).value[ch].msgBuffer == table[ch].msgBuffer
    ensures forall i :: 0 <= i < |table| && i != ch ==> SetConnected(table, text, up).value[i] == table[i]
  {
  }

  /** A notice whose channel lies outside the table, or which has no ',', is a fault. */
  lemma SetConnectedFaults(table: seq<Client>, text: seq<char>, up: bool)
    ensures SetConnected(table, text, up).Err? <==>
      NoticeChannel(text).Err? || !(0 <= NoticeChannel(text).value < |table|)
  {
  }

  /** A "+IPD" frame naming an entry inside the table stashes the whole frame there, and changes nothing else. */
  lemma StashEffect(table: seq<Client>, text: seq<char>, data: seq<char>, ch: int)
    requires Contains(text, "+IPD")
    requires IpdChannel(text) == Ok(ch) && 0 <= ch < |table|
    ensures Stash(table, text, data).Ok?
    ensures Stash(table, text, data).value[ch].hasMessage
    ensures Stash(table, text, data).value[ch].msgBuffer == Some(data)
    ensures Stash(table, text, data).value[ch].connected == table[ch].connected
    ensures Stash(table, text, data).value[ch].channel == table[ch].channel
    ensures forall i :: 0 <= i < |table| && i != ch ==> Stash(table, text, data).value[i] == table[i]
  {
  }

  /** The notice step keeps every entry the notice does not name. */
  lemma LifecycleKeeps(table: seq<Client>, text: seq<char>, i: int)
    requires 0 <= i < |table| && NoticeChannel(text) != Ok(i)
    ensures Lifecycle(table, text).Ok? ==> Lifecycle(table, text).value[i] == table[i]
  {
  }

  /** The "+IPD" step keeps every entry the header does not name. */
  lemma StashKeeps(table: seq<Client>, text: seq<char>, data: seq<char>, i: int)
    requires 0 <= i < |table| && IpdChannel(text) != Ok(i)
    ensures Stash(table, text, data).Ok? ==> Stash(table, text, data).value[i] == table[i]
  {
  }

  /** An entry that neither the notice nor the "+IPD" header names keeps its contents. */
  lemma HandleUnnamedUnchanged(table: seq<Client>, data: seq<char>, i: int)
    requires 0 <= i < |table|
    requires NoticeChannel(CText(data)) != Ok(i)
    requires IpdChannel(CText(data)) != Ok(i)
    ensures HandleFrame(table, data).table[i] == table[i]
  {
    var text := CText(data);
    LifecycleKeeps(table, text, i);
    match Lifecycle(table, text)
    case Err(_) =>
    case Ok(t) =>
      StashKeeps(t, text, data, i);
  }

  /**
   * A frame holding "FAIL" marks the entry its leading number names as not
   * connected; otherwise one holding "CONNECT" marks it connected. The mark
   * stays whatever the "+IPD" step does afterwards.
   */
  lemma HandleNotice(table: seq<Client>, data: seq<char>, ch: int)
    requires Contains(CText(data), "FAIL") || Contains(CText(data), "CONNECT")
    requires NoticeChannel(CText(data)) == Ok(ch) && 0 <= ch < |table|
    ensures HandleFrame(table, data).table[ch].connected == !Contains(CText(data), "FAIL")
    ensures HandleFrame(table, data).table[ch].channel == ch
  {
    var text := CText(data);
    var up := !Contains(text, "FAIL");
    SetConnectedEffect(table, text, up, ch);
    var t := Lifecycle(table, text).value;
    assert t == SetConnected(table, text, up).value;
    match Stash(t, text, data)
    case Err(_) =>
    case Ok(u) =>
      assert u[ch].connected == t[ch].connected && u[ch].channel == t[ch].channel;
  }

  /** A notice naming a channel outside the table stops handleConnections before the "+IPD" step. */
  lemma HandleNoticeOutOfRange(table: seq<Client>, data: seq<char>, ch: int)
    requires Contains(CText(data), "FAIL") || Contains(CText(data), "CONNECT")
    requires NoticeChannel(CText(data)) == Ok(ch) && !(0 <= ch < |table|)
    ensures HandleFrame(table, data) == Handled(table, Some(ChannelOutOfRange))
  {
  }

  /**
   * A "+IPD" frame whose channel lies inside the table leaves that entry
   * holding a message, namely the whole frame, overwriting any earlier one.
   */
  lemma HandleStash(table: seq<Client>, data: seq<char>, ch: int)
    requires Lifecycle(table, CText(data)).Ok?
    requires Contains(CText(data), "+IPD")
    requires IpdChannel(CText(data)) == Ok(ch) && 0 <= ch < |table|
    ensures HandleFrame(table, data).fault == None
    ensures HandleFrame(table, data).table[ch].hasMessage
    ensures HandleFrame(table, data).table[ch].msgBuffer == Some(data)
  {
    var text := CText(data);
    StashEffect(Lifecycle(table, text).value, text, data, ch);
  }

  /** A frame `+IPD,<dc>,<dn>:<payload>` names entry 0 as a notice: atoi stops at the '+' of "+IPD". */
  lemma FrameNoticeChannel(dc: seq<char>, dn: seq<char>, rest: seq<char>)
    ensures NoticeChannel("+IPD," + dc + "," + dn + ":" + rest) == Ok(0)
  {
    var text := "+IPD," + dc + "," + dn + ":" + rest;
    ChannelOpening(dc, dn, rest);
    assert text[..4] == "+IPD";
    assert Atoi("+IPD") == 0;
  }

  /** A frame whose notice part names entry 0 passes the notice step of a non-empty table. */
  lemma LifecycleOnChannelZero(table: seq<Client>, text: seq<char>)
    requires NoticeChannel(text) == Ok(0) && 0 < |table|
    ensures Lifecycle(table, text).Ok?
  {
  }

  /** A header `+IPD,<dc>,<dn>:` followed by no ',' passes the notice step and names entry atoi(dc) for the "+IPD" step. */
  lemma HeaderPassesNotice(table: seq<Client>, dc: seq<char>, dn: seq<char>, rest: seq<char>)
    requires AllDigits(dc) && AllDigits(dn) && ',' !in rest && 0 < |table|
    ensures Lifecycle(table, "+IPD," + dc + "," + dn + ":" + rest).Ok?
    ensures Contains("+IPD," + dc + "," + dn + ":" + rest, "+IPD")
    ensures IpdChannel("+IPD," + dc + "," + dn + ":" + rest) == Ok(Atoi(dc))
  {
    FrameNoticeChannel(dc, dn, rest);
    ChannelOpening(dc, dn, rest);
    ChannelOfChannelHeader(dc, dn, rest);
    LifecycleOnChannelZero(table, "+IPD," + dc + "," + dn + ":" + rest);
  }

  /**
   * handleConnections on `+IPD,<dc>,<dn>:<payload>`, the payload holding no
   * ',', stashes the frame on channel atoi(dc) without a fault. Should the
   * payload hold "FAIL" or "CONNECT", the notice step reads channel 0.
   */
  lemma HandleStashesFrame(table: seq<Client>, dc: seq<char>, dn: seq<char>, c: int, p: seq<char>)
    requires AllDigits(dc) && AllDigits(dn) && ',' !in p
    requires Atoi(dc) == c && 0 <= c < |table|
    ensures HandleFrame(table, "+IPD," + dc + "," + dn + ":" + p).fault == None
    ensures HandleFrame(table, "+IPD," + dc + "," + dn + ":" + p).table[c].hasMessage
    ensures HandleFrame(table, "+IPD," + dc + "," + dn + ":" + p).table[c].msgBuffer == Some("+IPD," + dc + "," + dn + ":" + p)
  {
    ChannelFrameText(dc, dn, p);
    NoCommaInText(p);
    HeaderPassesNotice(table, dc, dn, CText(p));
    HandleStash(table, "+IPD," + dc + "," + dn + ":" + p, c);
  }

  /** An entry holding `+IPD,<dc>,<dn>:<payload>`, the payload holding no ',', hands getPendingMsg the payload's first atoi(dn) bytes. */
  lemma PendingOfChannelFrame(e: Client, dc: seq<char>, dn: seq<char>, c: int, n: nat, p: seq<char>)
    requires AllDigits(dc) && AllDigits(dn) && ',' !in p
    requires Atoi(dc) == c && Atoi(dn) == n
    requires e.hasMessage && e.msgBuffer == Some("+IPD," + dc + "," + dn + ":" + p)
    ensures PendingMsg(e) == Deliver(PayloadCopy(p, n, |"+IPD," + dc + "," + dn + ":" + p|))
  {
    var head := "+IPD," + dc + "," + dn + ":";
    DigitsHoldNoDelimiter(dc);
    DigitsHoldNoDelimiter(dn);
    assert '\0' !in head;
    CTextAppend(head, p);
    NoCommaInText(p);
    ChannelOpening(dc, dn, CText(p));
    ChannelOfChannelHeader(dc, dn, CText(p));
    PendingSameRule(e);
    NonBlockOnChannelFrame(dc, dn, c, n, p);
  }

  /** handleConnections then getPendingMsg, given the renderings `dc` of c and `dn` of n. */
  lemma HandleThenPendingRendered(table: seq<Client>, c: nat, n: nat, p: seq<char>, dc: seq<char>, dn: seq<char>)
    requires ',' !in p && c < |table|
    requires dc == Decimal(c) && dn == Decimal(n)
    ensures HandleFrame(table, IpdFrame(Some(c), n, p)).fault == None
    ensures HandleFrame(table, IpdFrame(Some(c), n, p)).table[c].hasMessage
    ensures PendingMsg(HandleFrame(table, IpdFrame(Some(c), n, p)).table[c]) ==
      Deliver(PayloadCopy(p, n, |IpdFrame(Some(c), n, p)|))
  {
    AtoiOfDecimal(c);
    AtoiOfDecimal(n);
    assert IpdFrame(Some(c), n, p) == "+IPD," + dc + "," + dn + ":" + p;
    HandleStashesFrame(table, dc, dn, c, p);
    PendingOfChannelFrame(HandleFrame(table, IpdFrame(Some(c), n, p)).table[c], dc, dn, c, n, p);
  }

  /**
   * A notification `+IPD,<c>,<n>:<payload>` for an entry of the table, the
   * payload holding no ',', passes through handleConnections without a
   * fault, and getPendingMsg on that entry then delivers the first n payload
   * bytes, or what copying past them yields, as PayloadCopy states.
   */
  lemma HandleThenPending(table: seq<Client>, c: nat, n: nat, p: seq<char>)
    requires ',' !in p && c < |table|
    ensures HandleFrame(table, IpdFrame(Some(c), n, p)).fault == None
    ensures HandleFrame(table, IpdFrame(Some(c), n, p)).table[c].hasMessage
    ensures PendingMsg(HandleFrame(table, IpdFrame(Some(c), n, p)).table[c]) ==
      Deliver(PayloadCopy(p, n, |IpdFrame(Some(c), n, p)|))
  {
    HandleThenPendingRendered(table, c, n, p, Decimal(c), Decimal(n));
  }
}
