/** The command lines the driver formats with `sprintf` before handing them to sendCommand. */
module Commands {
  import opened Results
  import opened CString
  import opened Types

  /** DQ, the double quote the header defines. */
  const DQ: char := '"'

  /** `AT+CWMODE=%d` with the mode's code. */
  function ModeCommand(m: WifiMode): seq<char> {
    "AT+CWMODE=" + Signed(ModeCode(m))
  }

  /** The number after `AT+CWMODE=` names the mode the command was formatted for. */
  lemma ModeCommandNamesMode(m: WifiMode)
    ensures ModeCommand(m)[..10] == "AT+CWMODE="
    ensures ModeOfCode(Atoi(ModeCommand(m)[10..])) == Some(m)
  {
    var digits := Signed(ModeCode(m));
    assert ModeCommand(m)[10..] == digits + [];
    AtoiSigned(ModeCode(m), []);
  }

  /** A command split after its first part: slicing gives each part back. */
  lemma SplitAfter(head: seq<char>, tail: seq<char>)
    ensures (head + tail)[..|head|] == head
    ensures (head + tail)[|head|..] == tail
  {
    assert (head + tail)[|head|..] == tail;
  }

  /** `AT+CIPSTART="<protocol>","<ip>",<port>`: the last field reads back as the port. */
  function StartCommand(protocol: seq<char>, ip: seq<char>, port: nat): (r: seq<char>)
    ensures |r| >= 12 + |Decimal(port)| && r[..12] == "AT+CIPSTART="
    ensures Atoi(r[|r| - |Decimal(port)|..]) == port
  {
    var verb := "AT+CIPSTART=";
    var fields := [DQ] + protocol + [DQ] + "," + [DQ] + ip + [DQ] + ",";
    SplitAfter(verb, fields + Decimal(port));
    SplitAfter(verb + fields, Decimal(port));
    AtoiDecimal(port, []);
    assert Decimal(port) + [] == Decimal(port);
    assert verb + (fields + Decimal(port)) == (verb + fields) + Decimal(port);
    verb + fields + Decimal(port)
  }

  /** `AT+CWSAP_CUR="<ssid>","<psswd>",<channelId>,<enc>`: the last field reads back as the encryption code. */
  function AccessPointCommand(ssid: seq<char>, psswd: seq<char>, enc: WifiEnc, channelId: int): (r: seq<char>)
    ensures |r| >= 13 + |Signed(EncCode(enc))| && r[..13] == "AT+CWSAP_CUR="
    ensures Atoi(r[|r| - |Signed(EncCode(enc))|..]) == EncCode(enc)
  {
    var verb := "AT+CWSAP_CUR=";
    var fields := [DQ] + ssid + [DQ] + "," + [DQ] + psswd + [DQ] + "," + Signed(channelId) + ",";
    SplitAfter(verb, fields + Signed(EncCode(enc)));
    SplitAfter(verb + fields, Signed(EncCode(enc)));
    AtoiSigned(EncCode(enc), []);
    assert Signed(EncCode(enc)) + [] == Signed(EncCode(enc));
    assert verb + (fields + Signed(EncCode(enc))) == (verb + fields) + Signed(EncCode(enc));
    verb + fields + Signed(EncCode(enc))
  }

  /** `AT+CIPSEND=<length>`: the number after the verb reads back as the length. */
  function SendIntent(length: nat): (r: seq<char>)
    ensures |r| > 11 && r[..11] == "AT+CIPSEND="
    ensures Atoi(r[11..]) == length
  {
    SplitAfter("AT+CIPSEND=", Decimal(length));
    AtoiDecimal(length, []);
    assert Decimal(length) + [] == Decimal(length);
    "AT+CIPSEND=" + Decimal(length)
  }

  /** The number after `AT+CIPSEND=` in a per-channel send announcement reads back as the channel. */
  lemma ChannelAfterVerb(channel: int, length: nat)
    ensures Atoi(("AT+CIPSEND=" + Signed(channel) + "," + Decimal(length))[11..]) == channel
  {
    var tail := "," + Decimal(length);
    SplitAfter("AT+CIPSEND=", Signed(channel) + tail);
    assert "AT+CIPSEND=" + Signed(channel) + "," + Decimal(length) == "AT+CIPSEND=" + (Signed(channel) + tail);
    AtoiSigned(channel, tail);
  }

  /** The last field of a per-channel send announcement reads back as the length. */
  lemma LengthAtEnd(channel: int, length: nat)
    ensures |"AT+CIPSEND=" + Signed(channel) + "," + Decimal(length)| > 12 + |Decimal(length)|
    ensures Atoi(("AT+CIPSEND=" + Signed(channel) + "," + Decimal(length))[|"AT+CIPSEND=" + Signed(channel) + "," + Decimal(length)| - |Decimal(length)|..]) == length
  {
    SplitAfter("AT+CIPSEND=" + Signed(channel) + ",", Decimal(length));
    AtoiDecimal(length, []);
    assert Decimal(length) + [] == Decimal(length);
  }

  /**
   * `AT+CIPSEND=<channel>,<length>`: the number after the verb reads back
   * as the channel, and the one after the ',' as the length.
   */
  function SendIntentOn(channel: int, length: nat): (r: seq<char>)
    ensures |r| > 12 + |Decimal(length)| && r[..11] == "AT+CIPSEND="
    ensures Atoi(r[11..]) == channel
    ensures Atoi(r[|r| - |Decimal(length)|..]) == length
  {
    SplitAfter("AT+CIPSEND=", Signed(channel) + "," + Decimal(length));
    ChannelAfterVerb(channel, length);
    LengthAtEnd(channel, length);
    "AT+CIPSEND=" + Signed(channel) + "," + Decimal(length)
  }
}
