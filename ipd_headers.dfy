/**
 * Where the string searches land in the header of a notification the
 * firmware sends, `+IPD,<dn>:` (a plain header) or `+IPD,<dc>,<dn>:` (a
 * header with a channel), with `dc` and `dn` runs of decimal digits.
 */
module IpdHeaders {
  import opened Results
  import opened CString
  import opened Ipd

  /** A decimal rendering holds none of the delimiters the parsers look for. */
  lemma DigitsHoldNoDelimiter(d: seq<char>)
    requires AllDigits(d)
    ensures ',' !in d && ':' !in d && '\0' !in d
  {
    assert forall i :: 0 <= i < |d| ==> d[i] != ',' && d[i] != ':' && d[i] != '\0';
  }

  /** The header a notification opens with. */
  function Header(channel: Option<nat>, n: nat): (h: seq<char>)
    ensures IpdFrame(channel, n, []) == h
  {
    match channel
    case None => "+IPD," + Decimal(n) + ":"
    case Some(c) => "+IPD," + Decimal(c) + "," + Decimal(n) + ":"
  }

  /** A notification is its header followed by its payload. */
  lemma FrameSplits(channel: Option<nat>, n: nat, p: seq<char>)
    ensures IpdFrame(channel, n, p) == Header(channel, n) + p
  {
  }

  /** The string functions see the whole header of a notification. */
  lemma IpdFrameText(channel: Option<nat>, n: nat, p: seq<char>)
    ensures CText(IpdFrame(channel, n, p)) == IpdFrame(channel, n, CText(p))
  {
    var head := Header(channel, n);
    if channel.Some? { DigitsHoldNoDelimiter(Decimal(channel.value)); }
    DigitsHoldNoDelimiter(Decimal(n));
    assert '\0' !in head;
    FrameSplits(channel, n, p);
    FrameSplits(channel, n, CText(p));
    CTextAppend(head, p);
  }

  /**
   * What copying `n` bytes from the start of a payload `p` that ends a frame
   * of `size` bytes yields: payload bytes, then the frame's terminator; past
   * that, bytes of the allocation never written; past those, nothing.
   */
  function PayloadCopy(p: seq<char>, n: nat, size: nat): Result<seq<char>> {
    if n <= |p| then Ok(p[..n])
    else if n == |p| + 1 then Ok(p + ['\0'])
    else if size + (n - |p|) <= Allocated(size) then Err(IndeterminateBytes)
    else Err(PayloadOverrun)
  }

  /** Copying from just after a header is copying from the start of the payload. */
  lemma CopyAfter(head: seq<char>, p: seq<char>, n: nat)
    ensures CopyOut(head + p, |head|, n) == PayloadCopy(p, n, |head + p|)
  {
    var data := head + p;
    CopyOutOutcome(data, |head|, n);
    if n <= |p| {
      assert data[|head|..|head| + n] == p[..n];
    } else if n == |p| + 1 {
      assert data[|head|..] == p;
    }
  }

  // Plain header `+IPD,<dn>:`.

  /** The marker and the first ',' open a plain header. */
  lemma PlainOpening(dn: seq<char>, rest: seq<char>)
    ensures Find("+IPD," + dn + ":" + rest, "+IPD") == Some(0)
    ensures Find("+IPD," + dn + ":" + rest, "+IPD,") == Some(0)
    ensures FindChar("+IPD," + dn + ":" + rest, ',') == Some(4)
  {
    var text := "+IPD," + dn + ":" + rest;
    assert text[..4] == "+IPD";
    assert text[..5] == "+IPD,";
    FindAt(text, "+IPD", 0, 0);
    FindAt(text, "+IPD,", 0, 0);
    FindCharAt(text, ',', 0, 4);
  }

  /** The first ':' at or after any point of a plain header ends it. */
  lemma PlainColon(dn: seq<char>, rest: seq<char>, from: nat)
    requires AllDigits(dn) && from <= 5 + |dn|
    ensures FindChar("+IPD," + dn + ":" + rest, ':', from) == Some(5 + |dn|)
  {
    var head := "+IPD," + dn;
    var text := "+IPD," + dn + ":" + rest;
    DigitsHoldNoDelimiter(dn);
    assert ':' !in head;
    assert text[from..|head|] == head[from..];
    FindCharFirst(text, ':', from, |head|);
  }

  /** The only ',' of a plain header is its last one when the rest holds none. */
  lemma PlainLastComma(dn: seq<char>, rest: seq<char>)
    requires AllDigits(dn) && ',' !in rest
    ensures FindLastChar("+IPD," + dn + ":" + rest, ',') == Some(4)
  {
    var text := "+IPD," + dn + ":" + rest;
    DigitsHoldNoDelimiter(dn);
    assert text[5..] == dn + ":" + rest;
    FindLastCharLast(text, ',', 4);
  }

  /** The length field of a plain header. */
  lemma PlainField(dn: seq<char>, rest: seq<char>)
    ensures ("+IPD," + dn + ":" + rest)[5..5 + |dn|] == dn
  {
  }

  // Header with a channel `+IPD,<dc>,<dn>:`.

  /** The marker and the first ',' open a header with a channel. */
  lemma ChannelOpening(dc: seq<char>, dn: seq<char>, rest: seq<char>)
    ensures Find("+IPD," + dc + "," + dn + ":" + rest, "+IPD") == Some(0)
    ensures Find("+IPD," + dc + "," + dn + ":" + rest, "+IPD,") == Some(0)
    ensures FindChar("+IPD," + dc + "," + dn + ":" + rest, ',') == Some(4)
  {
    var text := "+IPD," + dc + "," + dn + ":" + rest;
    assert text[..4] == "+IPD";
    assert text[..5] == "+IPD,";
    FindAt(text, "+IPD", 0, 0);
    FindAt(text, "+IPD,", 0, 0);
    FindCharAt(text, ',', 0, 4);
  }

  /** The ',' ending the channel field is the last one when the rest holds none. */
  lemma ChannelLastComma(dc: seq<char>, dn: seq<char>, rest: seq<char>)
    requires AllDigits(dn) && ',' !in rest
    ensures FindLastChar("+IPD," + dc + "," + dn + ":" + rest, ',') == Some(5 + |dc|)
  {
    var text := "+IPD," + dc + "," + dn + ":" + rest;
    DigitsHoldNoDelimiter(dn);
    assert text[6 + |dc|..] == dn + ":" + rest;
    FindLastCharLast(text, ',', 5 + |dc|);
  }

  /** The channel and length fields of a header with a channel. */
  lemma ChannelFields(dc: seq<char>, dn: seq<char>, rest: seq<char>)
    ensures ("+IPD," + dc + "," + dn + ":" + rest)[5..5 + |dc|] == dc
    ensures ("+IPD," + dc + "," + dn + ":" + rest)[6 + |dc|..6 + |dc| + |dn|] == dn
  {
  }
}
