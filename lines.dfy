/**
 * The line extractor `readline`: the next "\r\n"-terminated line of a
 * response, read from a cursor that the call moves past the terminator.
 */
module Lines {
  import opened Results
  import opened CString

  const CRLF: seq<char> := "\r\n"

  /**
   * `readline(input, pos)`. The first component is the line (None for the
   * null pointer the source returns), the second the new value of `pos`.
   * `input + pos` must stay inside the string, hence `pos <= |text|`.
   */
  function ReadLine(text: seq<char>, pos: nat): (r: (Option<seq<char>>, nat))
    requires pos <= |text|
    ensures r.0.None? ==> r.1 == pos && forall k :: pos <= k ==> !MatchAt(text, CRLF, k)
    ensures r.0.Some? ==>
      && pos + |r.0.value| + 2 == r.1 <= |text|
      && r.0.value == text[pos..r.1 - 2]
      && MatchAt(text, CRLF, r.1 - 2)
      && forall k :: pos <= k < r.1 - 2 ==> !MatchAt(text, CRLF, k)
  {
    match Find(text, CRLF, pos)
    case None => (None, pos)
    case Some(e) => (Some(text[pos..e]), e + 2)
  }

  /** The lines that repeated calls of `readline` return, from `pos` until it returns null. */
  function AllLines(text: seq<char>, pos: nat): seq<seq<char>>
    requires pos <= |text|
    decreases |text| - pos
  {
    match ReadLine(text, pos)
    case (None, _) => []
    case (Some(line), next) => [line] + AllLines(text, next)
  }

  /** Where the cursor stands once `readline` has returned null. */
  function Walk(text: seq<char>, pos: nat): nat
    requires pos <= |text|
    decreases |text| - pos
  {
    match ReadLine(text, pos)
    case (None, _) => pos
    case (Some(_), next) => Walk(text, next)
  }

  /** Number of "\r\n" terminators at or after `pos`. */
  function CountCRLF(text: seq<char>, pos: nat): nat
    decreases |text| - pos
  {
    if pos + 2 > |text| then 0
    else (if MatchAt(text, CRLF, pos) then 1 else 0) + CountCRLF(text, pos + 1)
  }

  /** Each line followed by its terminator: what the lines cover of the text. */
  function Join(lines: seq<seq<char>>): seq<char> {
    if lines == [] then [] else lines[0] + CRLF + Join(lines[1..])
  }

  lemma {:induction false} CountSkips(text: seq<char>, a: nat, b: nat)
    requires a <= b
    requires forall k :: a <= k < b ==> !MatchAt(text, CRLF, k)
    ensures CountCRLF(text, a) == CountCRLF(text, b)
    decreases b - a
  {
    if a < b && a + 2 <= |text| {
      CountSkips(text, a + 1, b);
    } else if a < b {
      assert CountCRLF(text, a) == 0;
      assert CountCRLF(text, b) == 0;
    }
  }

  lemma {:induction false} CountNone(text: seq<char>, a: nat)
    requires forall k :: a <= k ==> !MatchAt(text, CRLF, k)
    ensures CountCRLF(text, a) == 0
    decreases |text| - a
  {
    if a + 2 <= |text| {
      CountNone(text, a + 1);
    }
  }

  /** Walking a buffer yields exactly one line per terminator after `pos`, then null. */
  lemma {:induction false} LinesCount(text: seq<char>, pos: nat)
    requires pos <= |text|
    ensures |AllLines(text, pos)| == CountCRLF(text, pos)
    decreases |text| - pos
  {
    match ReadLine(text, pos)
    case (None, _) =>
      CountNone(text, pos);
    case (Some(line), next) =>
      var e := next - 2;
      CountSkips(text, pos, e);
      assert text[e + 1] == '\n' by {
        assert text[e..e + 2] == CRLF;
        assert text[e..e + 2][1] == text[e + 1];
      }
      assert !MatchAt(text, CRLF, e + 1) by {
        if e + 3 <= |text| {
          assert text[e + 1..e + 3][0] == text[e + 1];
        }
      }
      assert CountCRLF(text, e) == 1 + CountCRLF(text, e + 2);
      LinesCount(text, next);
  }

  /**
   * The walk consumes exactly its lines and their terminators, the cursor
   * never moves backwards, and no terminator is left after where it stops.
   */
  lemma {:induction false} WalkCovers(text: seq<char>, pos: nat)
    requires pos <= |text|
    ensures pos <= Walk(text, pos) <= |text|
    ensures text[pos..Walk(text, pos)] == Join(AllLines(text, pos))
    ensures ReadLine(text, Walk(text, pos)).0.None?
    decreases |text| - pos
  {
    var r := ReadLine(text, pos);
    if r.0.Some? {
      var line, next := r.0.value, r.1;
      StepFacts(text, pos, line, next);
      WalkCovers(text, next);
      var w := Walk(text, next);
      var rest := AllLines(text, next);
      assert Walk(text, pos) == w;
      assert AllLines(text, pos) == [line] + rest;
      CoverStep(text, pos, line, next, w, rest);
    }
  }

  /**
   * Lines joined with their terminators are walked back one by one: when no
   * line holds a '\r', readline returns exactly the lines that were joined.
   */
  lemma {:induction false} LinesOfJoin(text: seq<char>, pos: nat, ls: seq<seq<char>>)
    requires pos <= |text| && text[pos..] == Join(ls)
    requires forall i :: 0 <= i < |ls| ==> '\r' !in ls[i]
    ensures AllLines(text, pos) == ls
    decreases |ls|
  {
    if ls != [] {
      var line, rest := ls[0], ls[1..];
      assert ls == [line] + rest;
      JoinCons(line, rest);
      var next := JoinedStep(text, pos, line, rest);
      LinesOfJoin(text, next, rest);
      assert AllLines(text, pos) == [line] + AllLines(text, next);
    }
  }

  /** readline on a line without '\r' followed by its terminator returns that line. */
  lemma JoinedStep(text: seq<char>, pos: nat, line: seq<char>, rest: seq<seq<char>>) returns (next: nat)
    requires pos <= |text| && text[pos..] == line + CRLF + Join(rest) && '\r' !in line
    ensures next == pos + |line| + 2 <= |text|
    ensures ReadLine(text, pos) == (Some(line), next)
    ensures text[next..] == Join(rest)
  {
    var e := pos + |line|;
    next := e + 2;
    assert text[pos..e] == line && text[e..next] == CRLF && text[next..] == Join(rest) by {
      assert text[pos..] == line + CRLF + Join(rest);
    }
    forall j | pos <= j < e
      ensures !MatchAt(text, CRLF, j)
    {
      assert text[j] == line[j - pos];
    }
    FindAt(text, CRLF, pos, e);
  }

  /** A line and its terminator, followed by what the remaining lines cover. */
  lemma CoverStep(text: seq<char>, pos: nat, line: seq<char>, next: nat, w: nat, rest: seq<seq<char>>)
    requires pos + 2 <= next <= w <= |text|
    requires text[pos..next - 2] == line && text[next - 2..next] == CRLF && text[next..w] == Join(rest)
    ensures text[pos..w] == Join([line] + rest)
  {
    JoinCons(line, rest);
    SliceSplit(text, pos, next - 2, next, w);
  }

  /** What one successful readline call consumed: its line and the terminator after it. */
  lemma StepFacts(text: seq<char>, pos: nat, line: seq<char>, next: nat)
    requires pos <= |text| && ReadLine(text, pos) == (Some(line), next)
    ensures pos + 2 <= next <= |text| && text[pos..next - 2] == line && text[next - 2..next] == CRLF
  {
  }

  /** The text of one line and its terminator comes first in what a run of lines covers. */
  lemma JoinCons(line: seq<char>, rest: seq<seq<char>>)
    ensures Join([line] + rest) == line + CRLF + Join(rest)
  {
    assert ([line] + rest)[1..] == rest;
  }

  /** Joining two runs of lines joins each in turn. */
  lemma {:induction false} JoinAppend(a: seq<seq<char>>, b: seq<seq<char>>)
    ensures Join(a + b) == Join(a) + Join(b)
    decreases |a|
  {
    if a != [] {
      assert (a + b)[1..] == a[1..] + b;
      JoinAppend(a[1..], b);
      assert Join(a + b) == a[0] + CRLF + (Join(a[1..]) + Join(b));
    } else {
      assert a + b == b;
    }
  }

  /** A character in no line, and not part of the terminator, is not in the joined text. */
  lemma {:induction false} JoinAvoids(lines: seq<seq<char>>, c: char)
    requires c != '\r' && c != '\n'
    requires forall i :: 0 <= i < |lines| ==> c !in lines[i]
    ensures c !in Join(lines)
    decreases |lines|
  {
    if lines != [] {
      JoinAvoids(lines[1..], c);
    }
  }

  /** A slice cut in three at two inner points. */
  lemma SliceSplit(s: seq<char>, a: nat, b: nat, c: nat, d: nat)
    requires a <= b <= c <= d <= |s|
    ensures s[a..d] == s[a..b] + s[b..c] + s[c..d]
  {
  }
}
