/**
 * Parsing of the firmware's inbound-data notification
 * `+IPD,[<channel>,]<length>:<payload>` and of the connection notices
 * `<channel>,CONNECT` / `<channel>,CONNECT FAIL`, as recv, recvNonBlock,
 * getPendingMsg and handleConnections do it. Each function takes the bytes
 * one drain of the link produced; the C string routines see CText of them,
 * memcpy sees the bytes themselves.
 */
module Ipd {
  import opened Results
  import opened CString
  import opened Types
  import opened Growth
  import opened Board

  /** What recvNonBlock reports: the channel (None: the caller's variable is left as it was) and the payload. */
  datatype Inbound = Inbound(channel: Option<int>, payload: seq<char>)

  /**
   * The bytes readFromBoard allocates for a frame of `size` bytes: the
   * doubled capacity that holds them, and one more for the terminator.
   */
  function Allocated(size: nat): nat {
    CapacityFor(InitialSize, size) + 1
  }

  /** The allocation holds the frame and its terminator. */
  lemma AllocatedHoldsFrame(size: nat)
    ensures size < Allocated(size)
  {
    CapacityForTight(InitialSize, size);
  }

  /**
   * memcpy of `count` bytes from `start` of a frame readFromBoard returned.
   * The buffer holds the drained bytes, then the terminator, then bytes
   * never written up to the end of its allocation.
   */
  function CopyOut(data: seq<char>, start: nat, count: int): (r: Result<seq<char>>)
    ensures r.Ok? <==> 0 <= count && start + count <= |data| + 1
  {
    if count < 0 then Err(NegativeLength)
    else if start + count <= |data| then Ok(data[start..start + count])
    else if start + count == |data| + 1 then
      if count == 0 then Ok([]) else Ok(data[start..] + ['\0'])
    else if start + count <= Allocated(|data|) then Err(IndeterminateBytes)
    else Err(PayloadOverrun)
  }

  /**
   * The outcomes of memcpy on a frame buffer: the drained bytes, the
   * terminator after them, bytes never written up to the end of the
   * allocation, and a fault past it.
   */
  lemma CopyOutOutcome(data: seq<char>, start: nat, count: int)
    ensures count < 0 <==> CopyOut(data, start, count) == Err(NegativeLength)
    ensures 0 <= count && start + count <= |data| ==> CopyOut(data, start, count) == Ok(data[start..start + count])
    ensures 0 < count && start + count == |data| + 1 ==> CopyOut(data, start, count) == Ok(data[start..] + ['\0'])
    ensures CopyOut(data, start, count) == Err(IndeterminateBytes) <==>
      0 <= count && |data| + 1 < start + count <= Allocated(|data|)
    ensures CopyOut(data, start, count) == Err(PayloadOverrun) <==> 0 <= count && Allocated(|data|) < start + count
  {
    AllocatedHoldsFrame(|data|);
  }

  /** A copied payload delivered to the caller, or the fault the copy hit. */
  function Deliver(c: Result<seq<char>>): (r: Result<Option<seq<char>>>)
    ensures r.Ok? <==> c.Ok?
    ensures c.Ok? ==> r.value == Some(c.value)
    ensures c.Err? ==> r.fault == c.fault
  {
    match c
    case Ok(payload) => Ok(Some(payload))
    case Err(f) => Err(f)
  }

  /**
   * recv's extraction from the C text of a frame, with the terminator
   * written where it was evidently meant to go: find "+IPD", read the length
   * from five bytes after it up to the first ':' after it, and copy that
   * many bytes of the frame from after that ':'.
   */
  function RecvText(text: seq<char>, data: seq<char>): (r: Result<Option<seq<char>>>)
    ensures r == Ok(None) <==> !Contains(text, "+IPD")
  {
    match Find(text, "+IPD")
    case None => Ok(None)
    case Some(p) =>
      match FindChar(text, ':', p)
      case None => Err(MissingDelimiter)
      case Some(colon) =>
        if colon < p + 5 then Err(NegativeLength)
        else Deliver(CopyOut(data, colon + 1, Atoi(text[p + 5..colon])))
  }

  /** recv on one drained frame; Ok(None) is the `false` returned when the marker is absent. */
  function RecvFrame(data: seq<char>): (r: Result<Option<seq<char>>>)
    ensures r == Ok(None) <==> !Contains(CText(data), "+IPD")
  {
    RecvText(CText(data), data)
  }

  /**
   * recv as written: `*output[sizeNum] = '\0'` indexes the caller's single
   * `char *` by sizeNum before dereferencing, so it is defined only for an
   * empty payload.
   */
  function RecvFrameAsWritten(data: seq<char>): (r: Result<Option<seq<char>>>)
    ensures r.Ok? ==> r == RecvFrame(data) && (r.value.Some? ==> r.value.value == [])
  {
    var r :- RecvFrame(data);
    if r.Some? && |r.value| != 0 then Err(TerminatorOutOfBounds) else Ok(r)
  }

  /**
   * The channel between the first "+IPD," and the last ',' after it
   * (`strrchr` from just after "+IPD," finds the frame's last ',' when that
   * lies there, and nothing otherwise).
   */
  function IpdChannel(text: seq<char>): (r: Result<int>)
    ensures r.Err? ==> r.fault == MissingDelimiter
    ensures !Contains(text, "+IPD,") || ',' !in text ==> r.Err?
  {
    match Find(text, "+IPD,")
    case None => Err(MissingDelimiter)
    case Some(i) =>
      match FindLastChar(text, ',')
      case None => Err(MissingDelimiter)
      case Some(k) =>
        if k < i + 5 then Err(MissingDelimiter) else Ok(Atoi(text[i + 5..k]))
  }

  /**
   * The length-prefixed payload rule of recvNonBlock and getPendingMsg: the
   * length runs from after the LAST ',' of the frame to the first ':' after
   * it, and the payload starts after the FIRST ':' of the frame.
   */
  function SizedPayload(text: seq<char>, data: seq<char>): (r: Result<seq<char>>)
    ensures ',' !in text || ':' !in text ==> r == Err(MissingDelimiter)
  {
    match FindLastChar(text, ',')
    case None => Err(MissingDelimiter)
    case Some(k) => PayloadAfterComma(text, data, k)
  }

  /** The length after the comma at `k`, up to the next ':'; the copy starts after the frame's first ':'. */
  function PayloadAfterComma(text: seq<char>, data: seq<char>, k: nat): (r: Result<seq<char>>)
    ensures (forall j :: k < j < |text| ==> text[j] != ':') ==> r == Err(MissingDelimiter)
  {
    match FindChar(text, ':', k + 1)
    case None => Err(MissingDelimiter)
    case Some(m) =>
      var size := Atoi(text[k + 1..m]);
      match FindChar(text, ':')
      case None => Err(MissingDelimiter)
      case Some(colon) => CopyOut(data, colon + 1, size)
  }

  /** recvNonBlock reads a channel only when the frame holds two different commas. */
  function FrameChannel(text: seq<char>): (r: Result<Option<int>>)
    ensures r == Ok(None) <==> FindChar(text, ',') == FindLastChar(text, ',')
    ensures r.Ok? && r.value.Some? ==> IpdChannel(text) == Ok(r.value.value)
  {
    if FindChar(text, ',') == FindLastChar(text, ',') then Ok(None)
    else
      var ch :- IpdChannel(text);
      Ok(Some(ch))
  }

  /** recvNonBlock's parse of the C text of a frame; Ok(None) is the `false` for a frame without "+IPD". */
  function RecvNonBlockText(text: seq<char>, data: seq<char>): (r: Result<Option<Inbound>>)
    ensures r == Ok(None) <==> !Contains(text, "+IPD")
  {
    if !Contains(text, "+IPD") then Ok(None)
    else
      var channel :- FrameChannel(text);
      var payload :- SizedPayload(text, data);
      Ok(Some(Inbound(channel, payload)))
  }

  /** recvNonBlock on one drained frame. */
  function RecvNonBlockFrame(data: seq<char>): (r: Result<Option<Inbound>>)
    ensures r == Ok(None) <==> !Contains(CText(data), "+IPD")
  {
    RecvNonBlockText(CText(data), data)
  }

  /**
   * The caller's `channel` after recvNonBlock on one frame. The channel is
   * written as soon as it is read, before the length is parsed and the
   * payload copied, so it stays written when the copy then faults.
   */
  function ChannelAfter(data: seq<char>, channel: int): (r: int)
    ensures RecvNonBlockFrame(data) == Ok(None) ==> r == channel
    ensures RecvNonBlockFrame(data).Ok? && RecvNonBlockFrame(data).value.Some? ==>
      r == (if RecvNonBlockFrame(data).value.value.channel.Some?
            then RecvNonBlockFrame(data).value.value.channel.value else channel)
  {
    var text := CText(data);
    if !Contains(text, "+IPD") then channel
    else
      match FrameChannel(text)
      case Ok(Some(c)) => c
      case _ => channel
  }

  /**
   * What getPendingMsg returns for a table entry: Ok(None) for an entry
   * without a message, otherwise the stashed frame's payload. An entry
   * flagged without a live frame is a fault.
   */
  function PendingMsg(c: Client): (r: Result<Option<seq<char>>>)
    ensures r == Ok(None) <==> !c.hasMessage
    ensures c.hasMessage && c.msgBuffer.None? ==> r == Err(Indeterminate)
  {
    if !c.hasMessage then Ok(None)
    else
      match c.msgBuffer
      case None => Err(Indeterminate)
      case Some(buf) =>
        var payload :- SizedPayload(CText(buf), buf);
        Ok(Some(payload))
  }

  /**
   * getPendingMsg as written, with the caller's entry it leaves behind. The
   * entry is passed BY VALUE, so clearing the flag never reaches the
   * caller's copy, while `delete[] c.msgBuffer` frees the frame that copy
   * still points at.
   */
  function PendingAsWritten(c: Client): (r: (Result<Option<seq<char>>>, Client))
    ensures r.0 == PendingMsg(c)
    ensures r.1.channel == c.channel && r.1.connected == c.connected && r.1.hasMessage == c.hasMessage
    ensures r.0.Ok? && r.0.value.Some? ==> r.1.msgBuffer == None
    ensures !(r.0.Ok? && r.0.value.Some?) ==> r.1 == c
  {
    match PendingMsg(c)
    case Ok(Some(p)) => (Ok(Some(p)), c.(msgBuffer := None))
    case other => (other, c)
  }

  /**
   * getPendingMsg as evidently intended: the entry handed back has its flag
   * cleared and its buffer released once the payload has been taken.
   */
  function TakePending(c: Client): (r: (Result<Option<seq<char>>>, Client))
    ensures r.0 == PendingMsg(c)
    ensures r.1.channel == c.channel && r.1.connected == c.connected
    ensures r.1.hasMessage <==> r.0.Err?
    ensures r.0.Ok? && r.0.value.Some? ==> r.1.msgBuffer == None
  {
    match PendingMsg(c)
    case Ok(Some(p)) => (Ok(Some(p)), c.(hasMessage := false, msgBuffer := None))
    case other => (other, c)
  }

  /** The entry a connection notice names: atoi of the text before the frame's first ','. */
  function NoticeChannel(text: seq<char>): (r: Result<int>)
    ensures r.Ok? <==> ',' in text
    ensures r.Err? ==> r.fault == MissingDelimiter
  {
    match FindChar(text, ',')
    case None => Err(MissingDelimiter)
    case Some(k) => Ok(Atoi(text[..k]))
  }

  /** Set the connected flag of the entry a notice names. */
  function SetConnected(table: seq<Client>, text: seq<char>, up: bool): (r: Result<seq<Client>>)
    ensures r.Ok? ==> |r.value| == |table|
  {
    var ch :- NoticeChannel(text);
    if 0 <= ch < |table| then Ok(table[ch := table[ch].(channel := ch, connected := up)])
    else Err(ChannelOutOfRange)
  }

  /** handleConnections' first step: a FAIL notice, otherwise a CONNECT notice. */
  function Lifecycle(table: seq<Client>, text: seq<char>): (r: Result<seq<Client>>)
    ensures r.Ok? ==> |r.value| == |table|
  {
    if Contains(text, "FAIL") then SetConnected(table, text, false)
    else if Contains(text, "CONNECT") then SetConnected(table, text, true)
    else Ok(table)
  }

  /** handleConnections' second step: stash the whole frame on the channel a "+IPD" names. */
  function Stash(table: seq<Client>, text: seq<char>, data: seq<char>): (r: Result<seq<Client>>)
    ensures r.Ok? ==> |r.value| == |table|
    ensures r.Ok? ==> forall i :: 0 <= i < |table| ==>
      r.value[i].connected == table[i].connected && r.value[i].channel == table[i].channel
  {
    if !Contains(text, "+IPD") then Ok(table)
    else
      var ch :- IpdChannel(text);
      if 0 <= ch < |table| then Ok(table[ch := table[ch].(hasMessage := true, msgBuffer := Some(data))])
      else Err(ChannelOutOfRange)
  }

  /** The caller's table after handleConnections, and the fault that stopped it, if any. */
  datatype Handled = Handled(table: seq<Client>, fault: Option<Fault>)

  /** handleConnections on one drained frame. */
  function HandleFrame(table: seq<Client>, data: seq<char>): (h: Handled)
    ensures |h.table| == |table|
  {
    var text := CText(data);
    match Lifecycle(table, text)
    case Err(f) => Handled(table, Some(f))
    case Ok(t) =>
      match Stash(t, text, data)
      case Err(f) => Handled(t, Some(f))
      case Ok(u) => Handled(u, None)
  }

  /** A notification the firmware sends: `+IPD,<channel>,<n>:<payload>`, or `+IPD,<n>:<payload>` without a channel. */
  function IpdFrame(channel: Option<nat>, n: nat, payload: seq<char>): seq<char> {
    match channel
    case None => "+IPD," + Decimal(n) + ":" + payload
    case Some(c) => "+IPD," + Decimal(c) + "," + Decimal(n) + ":" + payload
  }
}
