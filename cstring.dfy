/**
 * The C library routines the driver relies on (strchr, strrchr, strstr,
 * strlen, atoi), stated over `seq<char>`, together with the decimal
 * rendering that `sprintf("%d")` produces.
 */
module CString {
  import opened Results

  /** `strchr(s + from, c)`: index of the first `c` at or after `from`. */
  function FindChar(s: seq<char>, c: char, from: nat := 0): (r: Option<nat>)
    ensures r.Some? ==> from <= r.value < |s| && s[r.value] == c
    ensures r.Some? ==> forall k :: from <= k < r.value ==> s[k] != c
    ensures r.None? <==> forall k :: from <= k < |s| ==> s[k] != c
    decreases |s| - from
  {
    if from >= |s| then None
    else if s[from] == c then Some(from)
    else FindChar(s, c, from + 1)
  }

  /** Index of the last `c` before index `end`. */
  function FindLastBefore(s: seq<char>, c: char, end: nat): (r: Option<nat>)
    requires end <= |s|
    ensures r.Some? ==> r.value < end && s[r.value] == c
    ensures r.Some? ==> forall k :: r.value < k < end ==> s[k] != c
    ensures r.None? <==> forall k :: 0 <= k < end ==> s[k] != c
  {
    if end == 0 then None
    else if s[end - 1] == c then Some(end - 1)
    else FindLastBefore(s, c, end - 1)
  }

  /** `strrchr(s, c)`: index of the last `c` in `s`. */
  function FindLastChar(s: seq<char>, c: char): (r: Option<nat>)
    ensures r.Some? ==> r.value < |s| && s[r.value] == c
    ensures r.Some? ==> forall k :: r.value < k < |s| ==> s[k] != c
    ensures r.None? <==> forall k :: 0 <= k < |s| ==> s[k] != c
  {
    FindLastBefore(s, c, |s|)
  }

  /** `pat` occurs in `s` starting at index `i`. */
  predicate MatchAt(s: seq<char>, pat: seq<char>, i: nat) {
    i + |pat| <= |s| && s[i..i + |pat|] == pat
  }

  /** `strstr(s + from, pat)`: index of the first occurrence of `pat` at or after `from`. */
  function Find(s: seq<char>, pat: seq<char>, from: nat := 0): (r: Option<nat>)
    ensures r.Some? ==> from <= r.value && MatchAt(s, pat, r.value)
    ensures r.Some? ==> forall j :: from <= j < r.value ==> !MatchAt(s, pat, j)
    ensures r.None? <==> forall j: nat :: from <= j ==> !MatchAt(s, pat, j)
    decreases |s| - from
  {
    if from + |pat| > |s| then None
    else if MatchAt(s, pat, from) then Some(from)
    else Find(s, pat, from + 1)
  }

  /** `strstr(s, pat) != nullptr`. */
  predicate Contains(s: seq<char>, pat: seq<char>) {
    Find(s, pat).Some?
  }

  /** What the string functions see of a buffer: the bytes before its first NUL. */
  function CText(buf: seq<char>): (t: seq<char>)
    ensures |t| <= |buf| && forall i :: 0 <= i < |t| ==> t[i] == buf[i]
    ensures forall i :: 0 <= i < |t| ==> t[i] != '\0'
    ensures |t| < |buf| ==> buf[|t|] == '\0'
  {
    match FindChar(buf, '\0')
    case None => buf
    case Some(k) => buf[..k]
  }

  predicate IsDigit(c: char) {
    '0' <= c <= '9'
  }

  /** The characters `isspace` accepts in the C locale. */
  predicate IsSpace(c: char) {
    c == ' ' || c == '\t' || c == '\n' || c == '\r' || c as int == 11 || c as int == 12
  }

  predicate AllDigits(s: seq<char>) {
    forall i :: 0 <= i < |s| ==> IsDigit(s[i])
  }

  /** The number a run of decimal digits denotes, most significant digit first. */
  function DigitsValue(ds: seq<char>): int {
    if |ds| == 0 then 0
    else DigitsValue(ds[..|ds| - 1]) * 10 + (ds[|ds| - 1] as int - '0' as int)
  }

  /** Length of the run of decimal digits at the start of `s`. */
  function DigitRun(s: seq<char>): (n: nat)
    ensures n <= |s| && AllDigits(s[..n])
    ensures n < |s| ==> !IsDigit(s[n])
  {
    if |s| > 0 && IsDigit(s[0]) then 1 + DigitRun(s[1..]) else 0
  }

  /** The value of the digits that start `s`; 0 when there are none. */
  function LeadingValue(s: seq<char>): int {
    DigitsValue(s[..DigitRun(s)])
  }

  /**
   * `atoi`: skip white space, accept one optional sign, then read decimal
   * digits; 0 when no digit follows. The result is an unbounded integer.
   */
  function Atoi(s: seq<char>): int
    decreases |s|
  {
    if |s| > 0 && IsSpace(s[0]) then Atoi(s[1..])
    else if |s| > 0 && s[0] == '-' then -LeadingValue(s[1..])
    else if |s| > 0 && s[0] == '+' then LeadingValue(s[1..])
    else LeadingValue(s)
  }

  function DigitChar(d: nat): (c: char)
    requires d < 10
    ensures IsDigit(c)
  {
    ('0' as int + d) as char
  }

  /** `sprintf("%u")`: the decimal rendering of `n`, without leading zeros. */
  function Decimal(n: nat): (d: seq<char>)
    ensures |d| > 0 && AllDigits(d)
    ensures n > 0 ==> d[0] != '0'
  {
    if n < 10 then [DigitChar(n)] else Decimal(n / 10) + [DigitChar(n % 10)]
  }

  /** `sprintf("%d")`: the decimal rendering of `i`, with a minus sign when negative. */
  function Signed(i: int): (d: seq<char>)
    ensures |d| > 0 && (d[0] == '-' || IsDigit(d[0]))
  {
    if i < 0 then ['-'] + Decimal(-i) else Decimal(i)
  }

  /** Reading back a rendered number gives the number. */
  lemma {:induction false} DecimalValue(n: nat)
    ensures DigitsValue(Decimal(n)) == n
  {
    if n >= 10 {
      var d := Decimal(n);
      assert d[..|d| - 1] == Decimal(n / 10);
      DecimalValue(n / 10);
    }
  }

  /** A run of digits followed by a non-digit is exactly that run. */
  lemma {:induction false} DigitRunOfDigits(ds: seq<char>, rest: seq<char>)
    requires AllDigits(ds)
    requires rest == [] || !IsDigit(rest[0])
    ensures DigitRun(ds + rest) == |ds|
  {
    if |ds| > 0 {
      assert (ds + rest)[1..] == ds[1..] + rest;
      DigitRunOfDigits(ds[1..], rest);
    } else {
      assert ds + rest == rest;
    }
  }

  /** The leading digits of a run of digits followed by a non-digit are the run. */
  lemma LeadingDigits(ds: seq<char>, rest: seq<char>)
    requires AllDigits(ds)
    requires rest == [] || !IsDigit(rest[0])
    ensures LeadingValue(ds + rest) == DigitsValue(ds)
  {
    DigitRunOfDigits(ds, rest);
    assert (ds + rest)[..|ds|] == ds;
  }

  /** `atoi` reads a run of digits followed by a non-digit as the run's value. */
  lemma AtoiDigits(ds: seq<char>, rest: seq<char>)
    requires |ds| > 0 && AllDigits(ds)
    requires rest == [] || !IsDigit(rest[0])
    ensures Atoi(ds + rest) == DigitsValue(ds)
  {
    var s := ds + rest;
    assert IsDigit(s[0]);
    LeadingDigits(ds, rest);
  }

  /** `atoi` reads a '-' and a run of digits followed by a non-digit as the run's value negated. */
  lemma AtoiNegativeDigits(ds: seq<char>, rest: seq<char>)
    requires AllDigits(ds)
    requires rest == [] || !IsDigit(rest[0])
    ensures Atoi(['-'] + (ds + rest)) == -DigitsValue(ds)
  {
    var t := ds + rest;
    var s := ['-'] + t;
    assert s[0] == '-' && !IsSpace(s[0]);
    assert s[1..] == t;
    LeadingDigits(ds, rest);
  }

  /** `atoi` reads back what `%u` wrote, whatever non-digit follows it. */
  lemma AtoiDecimal(n: nat, rest: seq<char>)
    requires rest == [] || !IsDigit(rest[0])
    ensures Atoi(Decimal(n) + rest) == n
  {
    AtoiDigits(Decimal(n), rest);
    DecimalValue(n);
  }

  /** `atoi` reads back what `%d` wrote, whatever non-digit follows it. */
  lemma AtoiSigned(i: int, rest: seq<char>)
    requires rest == [] || !IsDigit(rest[0])
    ensures Atoi(Signed(i) + rest) == i
  {
    if i < 0 {
      var ds := Decimal(-i);
      assert Signed(i) + rest == ['-'] + (ds + rest);
      AtoiNegativeDigits(ds, rest);
      DecimalValue(-i);
    } else {
      assert Signed(i) == Decimal(i);
      AtoiDecimal(i, rest);
    }
  }

  /** A field that starts with neither white space, a sign nor a digit reads as 0. */
  lemma AtoiNoDigits(s: seq<char>)
    requires |s| == 0 || (!IsSpace(s[0]) && !IsDigit(s[0]) && s[0] != '-' && s[0] != '+')
    ensures Atoi(s) == 0
  {
  }

  /** The string functions see past a NUL-free prefix into what follows it. */
  lemma CTextAppend(a: seq<char>, b: seq<char>)
    requires '\0' !in a
    ensures CText(a + b) == a + CText(b)
  {
    assert forall k :: 0 <= k < |a| ==> (a + b)[k] != '\0';
    match FindChar(b, '\0')
    case None =>
      assert '\0' !in a + b;
    case Some(k) =>
      assert (a + b)[|a| + k] == '\0';
      assert (a + b)[..|a| + k] == a + b[..k];
      FindCharAt(a + b, '\0', 0, |a| + k);
  }

  /** `strchr` finds the first occurrence at or after where the search starts. */
  lemma FindCharAt(s: seq<char>, c: char, from: nat, i: nat)
    requires from <= i < |s| && s[i] == c
    requires forall k :: from <= k < i ==> s[k] != c
    ensures FindChar(s, c, from) == Some(i)
  {
  }

  /** `strrchr` finds the last occurrence. */
  lemma FindLastCharAt(s: seq<char>, c: char, i: nat)
    requires i < |s| && s[i] == c
    requires forall k :: i < k < |s| ==> s[k] != c
    ensures FindLastChar(s, c) == Some(i)
  {
  }

  /** `strstr` finds the first occurrence of a pattern at or after where the search starts. */
  lemma FindAt(s: seq<char>, pat: seq<char>, from: nat, i: nat)
    requires from <= i && MatchAt(s, pat, i)
    requires forall j :: from <= j < i ==> !MatchAt(s, pat, j)
    ensures Find(s, pat, from) == Some(i)
  {
  }

  /** `strchr` stops at `i` when the stretch it scans before `i` holds no `c`. */
  lemma FindCharFirst(s: seq<char>, c: char, from: nat, i: nat)
    requires from <= i < |s| && s[i] == c && c !in s[from..i]
    ensures FindChar(s, c, from) == Some(i)
  {
    assert forall k :: from <= k < i ==> s[k] == s[from..i][k - from];
    FindCharAt(s, c, from, i);
  }

  /** `strrchr` returns `i` when nothing after `i` is a `c`. */
  lemma FindLastCharLast(s: seq<char>, c: char, i: nat)
    requires i < |s| && s[i] == c && c !in s[i + 1..]
    ensures FindLastChar(s, c) == Some(i)
  {
    assert forall k :: i < k < |s| ==> s[k] == s[i + 1..][k - i - 1];
    FindLastCharAt(s, c, i);
  }

  /** The last `c` of `a + b` is the last one of `b` when `b` holds one. */
  lemma FindLastCharAppend(a: seq<char>, b: seq<char>, c: char)
    requires c in b
    ensures FindLastChar(b, c).Some?
    ensures FindLastChar(a + b, c) == Some(|a| + FindLastChar(b, c).value)
  {
    var j := FindLastChar(b, c).value;
    assert (a + b)[|a| + j] == c;
    assert forall k :: |a| + j < k < |a + b| ==> (a + b)[k] == b[k - |a|];
    FindLastCharAt(a + b, c, |a| + j);
  }

  /** Text without a NUL is its own C string. */
  lemma CTextWhole(buf: seq<char>)
    requires '\0' !in buf
    ensures CText(buf) == buf
  {
  }
}
