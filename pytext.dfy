/** The few Python string operations the handlers rely on. */
module PyText {

  /** Python's `str.isspace` for one character: the characters whose
      bidirectional class is WS, B or S, or whose category is Zs. */
  predicate IsSpace(c: char) {
    ('\t' <= c <= '\r') || ('\U{1C}' <= c <= ' ') || c == '\U{85}' || c == '\U{A0}' ||
    c == '\U{1680}' || ('\U{2000}' <= c <= '\U{200A}') || c == '\U{2028}' || c == '\U{2029}' ||
    c == '\U{202F}' || c == '\U{205F}' || c == '\U{3000}'
  }

  /** Number of leading whitespace characters. */
  function LeadingSpaces(s: string): (n: nat)
    ensures n <= |s|
    ensures forall j :: 0 <= j < n ==> IsSpace(s[j])
    ensures n < |s| ==> !IsSpace(s[n])
  {
    if s != [] && IsSpace(s[0]) then 1 + LeadingSpaces(s[1..]) else 0
  }

  /** Index where the trailing run of whitespace starts. */
  function TrailingStart(s: string): (m: nat)
    ensures m <= |s|
    ensures forall j :: m <= j < |s| ==> IsSpace(s[j])
    ensures 0 < m ==> !IsSpace(s[m - 1])
  {
    if s != [] && IsSpace(s[|s| - 1]) then TrailingStart(s[..|s| - 1]) else |s|
  }

  /** Python's `str.strip()` with no argument. */
  function Strip(s: string): (r: string)
    ensures r == "" <==> forall j :: 0 <= j < |s| ==> IsSpace(s[j])
    ensures r != "" ==> !IsSpace(r[0]) && !IsSpace(r[|r| - 1])
    ensures var i := LeadingSpaces(s);
              i + |r| <= |s| && r == s[i..i + |r|] &&
              forall j :: i + |r| <= j < |s| ==> IsSpace(s[j])
  {
    var i := LeadingSpaces(s);
    var t := s[i..];
    var m := TrailingStart(t);
    forall j | i + m <= j < |s| ensures IsSpace(s[j]) {
      assert s[j] == t[j - i];
    }
    assert t[..m] == s[i..i + m];
    t[..m]
  }

  /** WTForms' `DataRequired`: the field holds something besides whitespace. */
  predicate Required(s: string) {
    Strip(s) != ""
  }

  /** Python's `str.lower()` on the ASCII letters. */
  function LowerChar(c: char): (d: char)
    ensures 'A' <= c <= 'Z' ==> 'a' <= d <= 'z'
    ensures !('A' <= c <= 'Z') ==> d == c
  {
    if 'A' <= c <= 'Z' then (c as int - 'A' as int + 'a' as int) as char else c
  }

  function Lower(s: string): (r: string)
    ensures |r| == |s|
    ensures forall i :: 0 <= i < |s| ==> r[i] == LowerChar(s[i])
  {
    if s == [] then [] else [LowerChar(s[0])] + Lower(s[1..])
  }

  /** Lower-casing twice is lower-casing once. */
  lemma {:induction false} LowerIdempotent(s: string)
    ensures Lower(Lower(s)) == Lower(s)
  {
    var l := Lower(s);
    assert forall i :: 0 <= i < |l| ==> Lower(l)[i] == l[i];
  }

  /** A string without upper-case ASCII letters is its own lower-case form. */
  lemma LowerWithoutCapitals(s: string)
    requires forall i :: 0 <= i < |s| ==> !('A' <= s[i] <= 'Z')
    ensures Lower(s) == s
  {
  }

  /** Python's `str.rfind` for one character: the last index of `c`, or -1. */
  function RFind(s: string, c: char): (i: int)
    ensures -1 <= i < |s|
    ensures 0 <= i ==> s[i] == c
    ensures forall j :: i < j < |s| ==> s[j] != c
  {
    if s == [] then -1 else if s[|s| - 1] == c then |s| - 1 else RFind(s[..|s| - 1], c)
  }
}
