/**
 * The driver object `ESPWifi`. The serial link is the sequence of bytes it
 * currently has available; what `writeToBoard` prints is kept as a log of
 * lines. A wait that the source bounds with `millis()` becomes a flag
 * `arrived`: whether a byte became available before the timeout.
 */
module Esp {
  import opened Results
  import opened CString
  import opened Types
  import opened Lines
  import opened Board
  import opened Commands
  import opened Ipd
  import opened Peers

  class ESPWifi {
    /** The bytes the serial link has available, in arrival order. */
    var link: seq<char>
    /** Every line `writeToBoard` has printed, terminator included. */
    var sent: seq<seq<char>>
    /** The transport name `setIPProto` stored; None is the null pointer. */
    var protocol: Option<seq<char>>
    var mode: WifiMode
    var connectedToServer: bool

    /** A fresh driver: no protocol yet, station and access point mode, not connected. */
    constructor(link: seq<char>)
      ensures this.link == link && sent == []
      ensures protocol == None && mode == Both && !connectedToServer
    {
      this.link := link;
      sent := [];
      protocol := None;
      mode := Both;
      connectedToServer := false;
    }

    /** `writeToBoard(data, true)`: println of the C text of `data`. */
    method WriteLine(data: seq<char>)
      modifies this
      ensures sent == old(sent) + [CText(data) + CRLF]
      ensures link == old(link) && protocol == old(protocol)
      ensures mode == old(mode) && connectedToServer == old(connectedToServer)
    {
      sent := sent + [CText(data) + CRLF];
    }

    /**
     * `readFromBoard`: drains every byte the link has available into a
     * buffer of 64 bytes that doubles when full. The frame returned is the
     * drained bytes in order; the terminator after them is implicit.
     */
    method ReadFromBoard() returns (frame: seq<char>)
      modifies this
      ensures frame == old(link) && link == []
      ensures sent == old(sent) && protocol == old(protocol)
      ensures mode == old(mode) && connectedToServer == old(connectedToServer)
    {
      var msg, size, _ := Accumulate(link);
      frame := msg[..size];
      link := [];
    }

    /**
     * `sendCommand`: prints the command, then waits for a byte. Without one
     * it returns false and never assigns the caller's output; otherwise the
     * output is one drained frame and the result says whether its text
     * holds "OK".
     */
    method SendCommand(cmd: seq<char>, arrived: bool) returns (ok: bool, output: Output)
      modifies this
      ensures sent == old(sent) + [CText(cmd) + CRLF]
      ensures !arrived ==> !ok && output == Unassigned && link == old(link)
      ensures arrived ==> output == Assigned(old(link)) && link == []
      ensures arrived ==> (ok <==> Contains(CText(old(link)), "OK"))
      ensures protocol == old(protocol) && mode == old(mode)
      ensures connectedToServer == old(connectedToServer)
    {
      WriteLine(cmd);
      if !arrived {
        return false, Unassigned;
      }
      var frame := ReadFromBoard();
      output := Assigned(frame);
      ok := Contains(CText(frame), "OK");
    }

    /**
     * `setWifiMode`: the mode changes only when the module accepted the
     * command. Freeing the output that a silent module left unassigned
     * has no defined behaviour.
     */
    method SetWifiMode(m: WifiMode, arrived: bool) returns (st: Status)
      modifies this
      ensures sent == old(sent) + [ModeCommand(m) + CRLF]
      ensures !arrived ==> st == Undefined(Indeterminate) && mode == old(mode)
      ensures arrived ==> st == Returned(Contains(CText(old(link)), "OK"))
      ensures st == Returned(true) ==> mode == m
      ensures !arrived ==> link == old(link)
      ensures arrived ==> link == []
      ensures st != Returned(true) ==> mode == old(mode)
      ensures protocol == old(protocol) && connectedToServer == old(connectedToServer)
    {
      assert CText(ModeCommand(m)) == ModeCommand(m) by {
        ModeCommandHasNoNul(m);
      }
      var ok, output := SendCommand(ModeCommand(m), arrived);
      if ok {
        mode := m;
      }
      if output.Unassigned? {
        return Undefined(Indeterminate);
      }
      st := Returned(ok);
    }

    /** `setIPProto`: keeps the transport name for connectToServer. */
    method SetIPProto(proto: seq<char>)
      modifies this
      ensures protocol == Some(proto)
      ensures link == old(link) && sent == old(sent)
      ensures mode == old(mode) && connectedToServer == old(connectedToServer)
    {
      protocol := Some(proto);
    }

    /**
     * `connectToServer`: without a protocol it fails and sends nothing.
     * Otherwise it succeeds when the response holds "OK" or, failing that,
     * "ALREADY", and `connectedToServer` records the outcome. Without a
     * response the "ALREADY" search reads the unassigned output.
     */
    method ConnectToServer(ip: seq<char>, port: nat, arrived: bool) returns (st: Status)
      requires port < 0x1_0000
      modifies this
      ensures protocol == None ==> st == Returned(false) && sent == old(sent) && link == old(link)
      ensures protocol == None ==> connectedToServer == old(connectedToServer)
      ensures protocol != None ==>
        sent == old(sent) + [CText(StartCommand(CText(protocol.value), CText(ip), port)) + CRLF]
      ensures protocol != None && !arrived ==>
        st == Undefined(Indeterminate) && connectedToServer == old(connectedToServer)
      ensures protocol != None && arrived ==>
        var text := CText(old(link));
        && st == Returned(Contains(text, "OK") || Contains(text, "ALREADY"))
        && connectedToServer == st.ok
      ensures protocol != None ==> link == (if arrived then [] else old(link))
      ensures protocol == old(protocol) && mode == old(mode)
    {
      if protocol == None {
        return Returned(false);
      }
      var cmd := StartCommand(CText(protocol.value), CText(ip), port);
      var ok, output := SendCommand(cmd, arrived);
      if !ok {
        match output {
          case Unassigned =>
            return Undefined(Indeterminate);
          case Assigned(frame) =>
            if Contains(CText(frame), "ALREADY") {
              ok := true;
            }
        }
      }
      connectedToServer := ok;
      st := Returned(ok);
    }

    /**
     * `disconnect`: sends AT+CIPCLOSE and clears `connectedToServer`
     * whatever the module answers; freeing an output a silent module left
     * unassigned stops it first.
     */
    method Disconnect(arrived: bool) returns (st: Status)
      modifies this
      ensures sent == old(sent) + ["AT+CIPCLOSE" + CRLF]
      ensures !arrived ==> st == Undefined(Indeterminate) && connectedToServer == old(connectedToServer)
      ensures arrived ==> st == Returned(Contains(CText(old(link)), "OK")) && !connectedToServer
      ensures link == (if arrived then [] else old(link))
      ensures protocol == old(protocol) && mode == old(mode)
    {
      assert CText("AT+CIPCLOSE") == "AT+CIPCLOSE" by {
        CTextWhole("AT+CIPCLOSE");
      }
      var ok, output := SendCommand("AT+CIPCLOSE", arrived);
      if output.Unassigned? {
        return Undefined(Indeterminate);
      }
      connectedToServer := false;
      st := Returned(ok);
    }

    /**
     * `send(msg)`: announces the length of the message and prints the
     * message only once the module has accepted the announcement.
     */
    method Send(msg: seq<char>, arrived: bool) returns (st: Status)
      modifies this
      ensures var intent := CText(SendIntent(|CText(msg)|)) + CRLF;
        sent == old(sent) + [intent] + (if st == Returned(true) then [CText(msg) + CRLF] else [])
      ensures !arrived ==> st == Undefined(Indeterminate)
      ensures arrived ==> st == Returned(Contains(CText(old(link)), "OK"))
      ensures link == (if arrived then [] else old(link))
      ensures protocol == old(protocol) && mode == old(mode)
      ensures connectedToServer == old(connectedToServer)
    {
      var ok, output := SendCommand(SendIntent(|CText(msg)|), arrived);
      if ok {
        WriteLine(msg);
      }
      if output.Unassigned? {
        return Undefined(Indeterminate);
      }
      st := Returned(ok);
    }

    /** `send(msg, channel)`: as `send(msg)`, with the channel named in the announcement. */
    method SendOn(msg: seq<char>, channel: int, arrived: bool) returns (st: Status)
      modifies this
      ensures var intent := CText(SendIntentOn(channel, |CText(msg)|)) + CRLF;
        sent == old(sent) + [intent] + (if st == Returned(true) then [CText(msg) + CRLF] else [])
      ensures !arrived ==> st == Undefined(Indeterminate)
      ensures arrived ==> st == Returned(Contains(CText(old(link)), "OK"))
      ensures link == (if arrived then [] else old(link))
      ensures protocol == old(protocol) && mode == old(mode)
      ensures connectedToServer == old(connectedToServer)
    {
      var ok, output := SendCommand(SendIntentOn(channel, |CText(msg)|), arrived);
      if ok {
        WriteLine(msg);
      }
      if output.Unassigned? {
        return Undefined(Indeterminate);
      }
      st := Returned(ok);
    }

    /**
     * `startAP`, encryption open and channel 5 unless given: a module in
     * station mode cannot serve an access point, so it fails without
     * sending anything.
     */
    method StartAP(ssid: seq<char>, psswd: seq<char>, arrived: bool, enc: WifiEnc := Open, channelId: int := 5)
      returns (st: Status)
      modifies this
      ensures old(mode) == Station ==> st == Returned(false) && sent == old(sent) && link == old(link)
      ensures old(mode) != Station ==>
        sent == old(sent) + [CText(AccessPointCommand(CText(ssid), CText(psswd), enc, channelId)) + CRLF]
      ensures old(mode) != Station && !arrived ==> st == Undefined(Indeterminate)
      ensures old(mode) != Station && arrived ==> st == Returned(Contains(CText(old(link)), "OK"))
      ensures old(mode) != Station ==> link == (if arrived then [] else old(link))
      ensures protocol == old(protocol) && mode == old(mode)
      ensures connectedToServer == old(connectedToServer)
    {
      if mode == Station {
        return Returned(false);
      }
      var ok, output := SendCommand(AccessPointCommand(CText(ssid), CText(psswd), enc, channelId), arrived);
      if output.Unassigned? {
        return Undefined(Indeterminate);
      }
      st := Returned(ok);
    }

    /** `checkSendCode`: the send was confirmed exactly when the drained text holds "SEND OK". */
    method CheckSendCode() returns (ok: bool)
      modifies this
      ensures ok <==> Contains(CText(old(link)), "SEND OK")
      ensures link == [] && sent == old(sent) && protocol == old(protocol)
      ensures mode == old(mode) && connectedToServer == old(connectedToServer)
    {
      var out := ReadFromBoard();
      ok := Contains(CText(out), "SEND OK");
    }

    /**
     * `recv`: with a timeout (`timed`) and no byte before it, false
     * (Ok(None)); without one, the call waits for a byte, so it is made
     * only when one arrives. One frame is then drained and parsed as
     * RecvFrameAsWritten states, the terminator write included.
     */
    method Recv(timed: bool, arrived: bool) returns (r: Result<Option<seq<char>>>)
      requires timed || arrived
      modifies this
      ensures !arrived ==> r == Ok(None) && link == old(link)
      ensures arrived ==> r == RecvFrameAsWritten(old(link)) && link == []
      ensures sent == old(sent) && protocol == old(protocol)
      ensures mode == old(mode) && connectedToServer == old(connectedToServer)
    {
      if !arrived {
        return Ok(None);
      }
      var msg := ReadFromBoard();
      r := RecvFrameAsWritten(msg);
    }

    /**
     * `recvNonBlock`: drains one frame and parses it as RecvNonBlockFrame
     * states. The caller's channel variable is written when the frame names
     * a channel, before the payload is copied, as ChannelAfter states.
     */
    method RecvNonBlock(channel: int) returns (r: Result<Option<Inbound>>, newChannel: int)
      modifies this
      ensures r == RecvNonBlockFrame(old(link)) && link == []
      ensures newChannel == ChannelAfter(old(link), channel)
      ensures sent == old(sent) && protocol == old(protocol)
      ensures mode == old(mode) && connectedToServer == old(connectedToServer)
    {
      var msg := ReadFromBoard();
      var text := CText(msg);
      newChannel := channel;
      if Contains(text, "+IPD") {
        var ch := FrameChannel(text);
        if ch.Ok? && ch.value.Some? {
          newChannel := ch.value.value;
        }
      }
      r := RecvNonBlockFrame(msg);
    }

    /**
     * `handleConnections`: drains one frame and updates the caller's table
     * in place, exactly as HandleFrame states: first the connection
     * notices, then the "+IPD" stash, stopping at the first fault.
     */
    method HandleConnections(clients: array<Client>) returns (fault: Option<Fault>)
      modifies this, clients
      ensures var h := HandleFrame(old(clients[..]), old(link));
        clients[..] == h.table && fault == h.fault
      ensures link == [] && sent == old(sent) && protocol == old(protocol)
      ensures mode == old(mode) && connectedToServer == old(connectedToServer)
    {
      var msg := ReadFromBoard();
      var text := CText(msg);
      fault := ApplyNotices(clients, text);
      if fault.None? {
        fault := StashMessage(clients, text, msg);
      }
    }

    /**
     * `getConnectedClients`: only a module serving an access point lists
     * its peers. A rejected AT+CWLIF returns false and leaves the caller's
     * count as it was; otherwise the listing is parsed into a ten-entry
     * peer array as CollectPeersAsWritten states, so an eleventh peer is
     * written past the array's end.
     */
    method GetConnectedClients(numConns: nat, arrived: bool)
      returns (st: Status, connections: array?<Connection>, count: nat)
      modifies this
      ensures old(mode) == Station ==> st == Returned(false) && sent == old(sent) && link == old(link)
      ensures old(mode) != Station ==> sent == old(sent) + ["AT+CWLIF" + CRLF]
      ensures old(mode) != Station ==> link == (if arrived then [] else old(link))
      ensures old(mode) != Station && !arrived ==> st == Undefined(Indeterminate)
      ensures old(mode) != Station && arrived && !Contains(CText(old(link)), "OK") ==> st == Returned(false)
      ensures old(mode) != Station && arrived && Contains(CText(old(link)), "OK") ==>
        st == (if |PeerList(CText(old(link)))| <= InitialPeers then Returned(true) else Undefined(PeerTableOverflow))
      ensures st == Returned(false) ==> count == numConns
      ensures st == Returned(true) ==>
        && connections != null && connections.Length == InitialPeers
        && count == |PeerList(CText(old(link)))| && connections[..count] == PeerList(CText(old(link)))
      ensures protocol == old(protocol) && mode == old(mode)
      ensures connectedToServer == old(connectedToServer)
    {
      connections, count := null, numConns;
      if mode == Station {
        return Returned(false), connections, count;
      }
      assert CText("AT+CWLIF") == "AT+CWLIF" by {
        CTextWhole("AT+CWLIF");
      }
      var ok, output := SendCommand("AT+CWLIF", arrived);
      match output {
        case Unassigned =>
          return Undefined(Indeterminate), connections, count;
        case Assigned(out) =>
          if !ok {
            return Returned(false), connections, count;
          }
          var peers, r := CollectPeersAsWritten(CText(out));
          connections := peers;
          match r {
            case Err(f) =>
              st := Undefined(f);
            case Ok(n) =>
              count := n;
              st := Returned(true);
          }
      }
    }
  }

  /** Set the connected flag of the entry a connection notice names, as SetConnected states. */
  method MarkConnected(clients: array<Client>, text: seq<char>, up: bool) returns (fault: Option<Fault>)
    modifies clients
    ensures var r := SetConnected(old(clients[..]), text, up);
      && (r.Ok? ==> fault == None && clients[..] == r.value)
      && (r.Err? ==> fault == Some(r.fault) && clients[..] == old(clients[..]))
  {
    match NoticeChannel(text) {
      case Err(f) =>
        return Some(f);
      case Ok(ch) =>
        if !(0 <= ch < clients.Length) {
          return Some(ChannelOutOfRange);
        }
        clients[ch] := clients[ch].(channel := ch, connected := up);
        fault := None;
    }
  }

  /** handleConnections' first step on the caller's table, as Lifecycle states: a FAIL notice, otherwise a CONNECT notice. */
  method ApplyNotices(clients: array<Client>, text: seq<char>) returns (fault: Option<Fault>)
    modifies clients
    ensures var r := Lifecycle(old(clients[..]), text);
      && (r.Ok? ==> fault == None && clients[..] == r.value)
      && (r.Err? ==> fault == Some(r.fault) && clients[..] == old(clients[..]))
  {
    if Contains(text, "FAIL") {
      fault := MarkConnected(clients, text, false);
    } else if Contains(text, "CONNECT") {
      fault := MarkConnected(clients, text, true);
    } else {
      fault := None;
    }
  }

  /** handleConnections' second step on the caller's table, as Stash states: the whole frame goes to the channel "+IPD" names. */
  method StashMessage(clients: array<Client>, text: seq<char>, msg: seq<char>) returns (fault: Option<Fault>)
    modifies clients
    ensures var r := Stash(old(clients[..]), text, msg);
      && (r.Ok? ==> fault == None && clients[..] == r.value)
      && (r.Err? ==> fault == Some(r.fault) && clients[..] == old(clients[..]))
  {
    fault := None;
    if Contains(text, "+IPD") {
      match IpdChannel(text) {
        case Err(f) =>
          return Some(f);
        case Ok(ch) =>
          if !(0 <= ch < clients.Length) {
            return Some(ChannelOutOfRange);
          }
          clients[ch] := clients[ch].(hasMessage := true, msgBuffer := Some(msg));
      }
    }
  }

  /**
   * A fresh driver whose module answers AT+CWLIF with eleven peers and
   * "OK": getConnectedClients writes past its ten-entry peer array.
   */
  method ElevenPeersOverrun() returns (st: Status)
    ensures st == Undefined(PeerTableOverflow)
  {
    ElevenPeersAccepted();
    var esp := new ESPWifi(Join(ElevenPeers() + ["OK"]));
    var connections, count;
    st, connections, count := esp.GetConnectedClients(0, true);
  }

  /** The mode command is plain text: the C string functions see all of it. */
  lemma ModeCommandHasNoNul(m: WifiMode)
    ensures CText(ModeCommand(m)) == ModeCommand(m)
  {
    var cmd := ModeCommand(m);
    var digits := Signed(ModeCode(m));
    assert '\0' !in digits by {
      assert forall i :: 0 <= i < |digits| ==> IsDigit(digits[i]);
    }
    assert '\0' !in cmd;
    CTextWhole(cmd);
  }
}
