/**
 * getConnectedClients' parse of the AT+CWLIF listing: one peer per line
 * that holds a ',', its ip before the first ',' and its mac after it,
 * appended in line order to an array that starts with ten entries.
 */
module Peers {
  import opened Results
  import opened CString
  import opened Types
  import opened Growth
  import opened Lines

  /** The peer array getConnectedClients allocates first holds ten entries. */
  const InitialPeers: nat := 10

  /** The entry a listing line yields: None for a line without ','. */
  function SplitPeer(line: seq<char>): (r: Option<Connection>)
    ensures r.Some? <==> ',' in line
    ensures r.Some? ==> r.value.ip.Some? && r.value.mac.Some?
    ensures r.Some? ==> ',' !in r.value.ip.value
    ensures r.Some? ==> r.value.ip.value + "," + r.value.mac.value == line
  {
    match FindChar(line, ',')
    case None => None
    case Some(k) =>
      assert line == line[..k] + "," + line[k + 1..];
      Some(Connection(Some(line[..k]), Some(line[k + 1..])))
  }

  /** What one listing line adds to the listing: its entry, or nothing for a line without ','. */
  function Entry(line: seq<char>): seq<Connection> {
    match SplitPeer(line)
    case None => []
    case Some(peer) => [peer]
  }

  /** The entries a sequence of listing lines yields, in line order. */
  function Listing(lines: seq<seq<char>>): seq<Connection>
    decreases |lines|
  {
    if lines == [] then [] else Listing(lines[..|lines| - 1]) + Entry(lines[|lines| - 1])
  }

  /** One more line extends the listing by its entry. */
  lemma ListingStep(done: seq<seq<char>>, line: seq<char>)
    ensures Listing(done + [line]) == Listing(done) + Entry(line)
  {
    assert (done + [line])[..|done|] == done;
  }

  /** One readline call takes the first of the remaining lines and moves the cursor forward. */
  lemma LinesStep(text: seq<char>, i: nat)
    requires i <= |text| && ReadLine(text, i).0.Some?
    ensures i < ReadLine(text, i).1 <= |text|
    ensures AllLines(text, i) == [ReadLine(text, i).0.value] + AllLines(text, ReadLine(text, i).1)
  {
  }

  /** The entries a whole listing response yields: the lines readline walks from the start. */
  function PeerList(text: seq<char>): seq<Connection> {
    Listing(AllLines(text, 0))
  }

  /** The lines of a listing that hold a ','. */
  function WithComma(lines: seq<seq<char>>): seq<seq<char>>
    decreases |lines|
  {
    if lines == [] then []
    else WithComma(lines[..|lines| - 1]) + (if ',' in lines[|lines| - 1] then [lines[|lines| - 1]] else [])
  }

  /** An entry written back as the line it came from. */
  function Rejoin(peer: Connection): seq<char>
    requires peer.ip.Some? && peer.mac.Some?
  {
    peer.ip.value + "," + peer.mac.value
  }

  /**
   * The listing keeps exactly the lines holding a ',', in order: each entry
   * has both strings, an ip without ',', and joined back with a ',' it is
   * the line it came from.
   */
  lemma {:induction false} ListingRejoins(lines: seq<seq<char>>)
    ensures |Listing(lines)| == |WithComma(lines)|
    ensures forall j :: 0 <= j < |Listing(lines)| ==>
      && Listing(lines)[j].ip.Some? && Listing(lines)[j].mac.Some?
      && ',' !in Listing(lines)[j].ip.value
      && Rejoin(Listing(lines)[j]) == WithComma(lines)[j]
    decreases |lines|
  {
    if lines != [] {
      ListingRejoins(lines[..|lines| - 1]);
    }
  }

  /** Dropping the last line of two runs drops the last line of the second. */
  lemma DropLastOfAppend(a: seq<seq<char>>, b: seq<seq<char>>)
    requires |b| > 0
    ensures (a + b)[..|a + b| - 1] == a + b[..|b| - 1]
    ensures (a + b)[|a + b| - 1] == b[|b| - 1]
  {
    assert (a + b)[..|a + b| - 1] == a + b[..|b| - 1];
  }

  /** Listing two runs of lines one after the other lists each in turn. */
  lemma {:induction false} ListingAppend(a: seq<seq<char>>, b: seq<seq<char>>)
    ensures Listing(a + b) == Listing(a) + Listing(b)
    decreases |b|
  {
    if b == [] {
      assert a + b == a;
    } else {
      DropLastOfAppend(a, b);
      ListingAppend(a, b[..|b| - 1]);
    }
  }

  /** Every line of a listing whose lines all hold a ',' yields an entry. */
  lemma {:induction false} ListingAllComma(lines: seq<seq<char>>)
    requires forall i :: 0 <= i < |lines| ==> ',' in lines[i]
    ensures |Listing(lines)| == |lines|
    decreases |lines|
  {
    if lines != [] {
      ListingAllComma(lines[..|lines| - 1]);
    }
  }

  /** Eleven listing lines, each naming one peer. */
  function ElevenPeers(): (lines: seq<seq<char>>)
    ensures |lines| == 11
    ensures forall i :: 0 <= i < |lines| ==> lines[i] == "10.0.0.2,aa:bb"
  {
    seq(11, _ => "10.0.0.2,aa:bb")
  }

  /** An AT+CWLIF response listing eleven peers yields more entries than the first peer array holds. */
  lemma ElevenPeersOverflow()
    ensures |PeerList(Join(ElevenPeers()))| == 11 > InitialPeers
  {
    var lines := ElevenPeers();
    var text := Join(lines);
    assert text[0..] == text;
    LinesOfJoin(text, 0, lines);
    ListingAllComma(lines);
  }

  /** The AT+CWLIF response of eleven peers: their lines, then the closing "OK" line. */
  lemma ElevenPeersText()
    ensures Join(ElevenPeers() + ["OK"]) == Join(ElevenPeers()) + "OK" + CRLF
  {
    JoinAppend(ElevenPeers(), ["OK"]);
    assert ["OK"] == ["OK"] + [];
    JoinCons("OK", []);
  }

  /** The response holds no NUL and no '\r' inside a line. */
  lemma ElevenPeersPlain()
    ensures CText(Join(ElevenPeers() + ["OK"])) == Join(ElevenPeers() + ["OK"])
    ensures forall i :: 0 <= i < |ElevenPeers() + ["OK"]| ==> '\r' !in (ElevenPeers() + ["OK"])[i]
  {
    var lines := ElevenPeers() + ["OK"];
    assert forall i :: 0 <= i < |lines| ==> lines[i] == "10.0.0.2,aa:bb" || lines[i] == "OK";
    JoinAvoids(lines, '\0');
    CTextWhole(Join(lines));
  }

  /** The response holds the "OK" sendCommand looks for: its last line. */
  lemma ElevenPeersHoldOk()
    ensures Contains(CText(Join(ElevenPeers() + ["OK"])), "OK")
  {
    var text := Join(ElevenPeers() + ["OK"]);
    var at := |Join(ElevenPeers())|;
    ElevenPeersText();
    ElevenPeersPlain();
    assert text[at..at + 2] == "OK";
    assert MatchAt(text, "OK", at);
  }

  /** The response's listing: one entry per peer line, none for the "OK" line. */
  lemma ElevenPeersListed()
    ensures |PeerList(CText(Join(ElevenPeers() + ["OK"])))| == 11
  {
    var peers := ElevenPeers();
    var lines := peers + ["OK"];
    var text := Join(lines);
    ElevenPeersPlain();
    assert text[0..] == text;
    LinesOfJoin(text, 0, lines);
    ListingAppend(peers, ["OK"]);
    ListingAllComma(peers);
    assert Listing(["OK"]) == Listing([]) + Entry("OK");
  }

  /**
   * A whole AT+CWLIF response: eleven peer lines and the module's closing
   * "OK". sendCommand accepts it, and its listing holds more entries than
   * the first peer array.
   */
  lemma ElevenPeersAccepted()
    ensures Contains(CText(Join(ElevenPeers() + ["OK"])), "OK")
    ensures |PeerList(CText(Join(ElevenPeers() + ["OK"])))| == 11 > InitialPeers
  {
    ElevenPeersHoldOk();
    ElevenPeersListed();
  }

  /** A peer array twice the size of `peers`, holding its entries first and fresh `connection()` records after them. */
  method Grow(peers: array<Connection>) returns (grown: array<Connection>)
    ensures fresh(grown) && grown.Length == 2 * peers.Length
    ensures grown[..peers.Length] == peers[..]
  {
    grown := new Connection[2 * peers.Length](_ => NewConnection());
    forall j | 0 <= j < peers.Length {
      grown[j] := peers[j];
    }
  }

  /** The listing of a prefix of the lines is a prefix of the listing. */
  lemma ListingPrefix(lines: seq<seq<char>>, k: nat)
    requires k <= |lines|
    ensures |Listing(lines[..k])| <= |Listing(lines)|
    ensures Listing(lines)[..|Listing(lines[..k])|] == Listing(lines[..k])
  {
    var front, back := lines[..k], lines[k..];
    assert front + back == lines;
    ListingAppend(front, back);
  }

  /**
   * When the lines before line k already yield a full table of entries and
   * line k yields one more, the listing overflows the table and the table
   * holds its first entries.
   */
  lemma ListingOverflow(all: seq<seq<char>>, k: nat, table: seq<Connection>)
    requires k < |all| && ',' in all[k]
    requires table == Listing(all[..k]) && |table| == InitialPeers
    ensures |Listing(all)| > InitialPeers
    ensures table == Listing(all)[..InitialPeers]
  {
    ListingPrefix(all, k);
    ListingStep(all[..k], all[k]);
    assert all[..k] + [all[k]] == all[..k + 1];
    ListingPrefix(all, k + 1);
  }

  /** The cursor over a walk's lines moves past the line it takes. */
  lemma TakeNext(all: seq<seq<char>>, k: nat, line: seq<char>, rest: seq<seq<char>>)
    requires k <= |all| && all[k..] == [line] + rest
    ensures k < |all| && all[k] == line && all[k + 1..] == rest
    ensures all[..k] + [line] == all[..k + 1]
  {
    assert all[k..][0] == line;
    assert all[k + 1..] == all[k..][1..];
  }

  /**
   * One entry appended the corrected way: a full array is first doubled,
   * then the entry goes to index `numConns`.
   */
  method Append(peers: array<Connection>, numConns: nat, maxconns: nat, entry: Connection)
    returns (out: array<Connection>, outMax: nat)
    requires peers.Length == maxconns && Tight(InitialPeers, numConns, maxconns)
    modifies peers
    ensures out == peers || fresh(out)
    ensures out.Length == outMax && Tight(InitialPeers, numConns + 1, outMax)
    ensures out[..numConns + 1] == old(peers[..numConns]) + [entry]
  {
    out, outMax := peers, maxconns;
    if numConns == maxconns {
      TightGrow(InitialPeers, numConns, maxconns);
      out := Grow(peers);
      outMax := maxconns * 2;
    } else {
      TightStore(InitialPeers, numConns, maxconns);
    }
    out[numConns] := entry;
  }

  /**
   * getConnectedClients' loop with the array grown BEFORE an entry is
   * written to a full one: every line readline yields is split, and each
   * line with a ',' appends its entry. On return the first `numConns`
   * entries are the listing, and the array has the smallest doubled size
   * that holds them.
   */
  method CollectPeers(text: seq<char>) returns (peers: array<Connection>, numConns: nat)
    ensures numConns <= peers.Length
    ensures peers[..numConns] == PeerList(text)
    ensures peers.Length == CapacityFor(InitialPeers, numConns)
  {
    var i: nat := 0;
    var line := ReadLine(text, i);
    numConns := 0;
    var maxconns := InitialPeers;
    peers := new Connection[InitialPeers](_ => NewConnection());
    ghost var all := AllLines(text, 0);
    ghost var k := 0;
    while line.0.Some?
      invariant i <= |text| && line == ReadLine(text, i)
      invariant k <= |all| && AllLines(text, i) == all[k..]
      invariant fresh(peers) && peers.Length == maxconns
      invariant Tight(InitialPeers, numConns, maxconns)
      invariant peers[..numConns] == Listing(all[..k])
      decreases |text| - i
    {
      var l := line.0.value;
      var next := line.1;
      LinesStep(text, i);
      TakeNext(all, k, l, AllLines(text, next));
      ListingStep(all[..k], l);
      var split := SplitPeer(l);
      if split.Some? {
        peers, maxconns := Append(peers, numConns, maxconns, split.value);
        numConns := numConns + 1;
      }
      k := k + 1;
      i := next;
      line := ReadLine(text, i);
    }
    assert all[..k] == all;
    TightUnique(InitialPeers, numConns, peers.Length);
  }

  /** `connections[numConns] = entry` into an array with room at that index. */
  method Store(peers: array<Connection>, numConns: nat, entry: Connection)
    requires numConns < peers.Length
    modifies peers
    ensures peers[..numConns + 1] == old(peers[..numConns]) + [entry]
  {
    peers[numConns] := entry;
  }

  /**
   * getConnectedClients' loop as written: the entry goes to index
   * `numConns` of the array first, and only afterwards `numConns++ >=
   * maxconns` decides on growth. A run gets past the write only while
   * `numConns < maxconns`, so that test never holds and the array never
   * grows: the eleventh line with a ',' is written past the end of the
   * ten-entry array.
   */
  method CollectPeersAsWritten(text: seq<char>) returns (peers: array<Connection>, r: Result<nat>)
    ensures peers.Length == InitialPeers
    ensures r.Ok? <==> |PeerList(text)| <= InitialPeers
    ensures r.Ok? ==> r.value <= InitialPeers && peers[..r.value] == PeerList(text)
    ensures r.Err? ==> r.fault == PeerTableOverflow && peers[..] == PeerList(text)[..InitialPeers]
  {
    var i: nat := 0;
    var line := ReadLine(text, i);
    var numConns: nat := 0;
    peers := new Connection[InitialPeers](_ => NewConnection());
    ghost var all := AllLines(text, 0);
    ghost var k := 0;
    while line.0.Some?
      invariant i <= |text| && line == ReadLine(text, i)
      invariant k <= |all| && AllLines(text, i) == all[k..]
      invariant fresh(peers) && peers.Length == InitialPeers
      invariant numConns <= InitialPeers
      invariant peers[..numConns] == Listing(all[..k])
      decreases |text| - i
    {
      var l := line.0.value;
      var next := line.1;
      LinesStep(text, i);
      TakeNext(all, k, l, AllLines(text, next));
      ListingStep(all[..k], l);
      var split := SplitPeer(l);
      if split.Some? {
        if numConns >= peers.Length {
          ListingOverflow(all, k, peers[..numConns]);
          assert peers[..] == peers[..numConns];
          r := Err(PeerTableOverflow);
          return;
        }
        Store(peers, numConns, split.value);
        numConns := numConns + 1;
      }
      k := k + 1;
      i := next;
      line := ReadLine(text, i);
    }
    assert all[..k] == all;
    r := Ok(numConns);
  }
}
