/** The host editor's view of a buffer, reduced to a string, and the character classes the
    plugin tests with Python's string predicates. */
module Text {

  /** A span of the buffer as the host stores it: `a` is where it was started, `b` is the
      caret end. `a > b` is a backwards selection. */
  datatype Region = Region(a: int, b: int) {

    function Begin(): int { if a < b then a else b }

    function End(): int { if a < b then b else a }

    predicate Empty() { a == b }

    /** The host's `cover`: the smallest span holding both regions, oriented as this one. */
    function Cover(other: Region): (r: Region)
      ensures r.Begin() <= Begin() && r.Begin() <= other.Begin()
      ensures r.End() >= End() && r.End() >= other.End()
      ensures r.Begin() == Begin() || r.Begin() == other.Begin()
      ensures r.End() == End() || r.End() == other.End()
    {
      var lo := if Begin() < other.Begin() then Begin() else other.Begin();
      var hi := if End() > other.End() then End() else other.End();
      if a < b then Region(lo, hi) else Region(hi, lo)
    }
  }

  /** An empty region at one position, `Region(p)` in the host API. */
  function Point(p: int): Region { Region(p, p) }

  /** The host's `substr(p)`: the character at `p`, or NUL when `p` is outside the buffer.
      The editor commands rely on the NUL to detect the end of the buffer. */
  function CharAt(buf: string, p: int): char {
    if 0 <= p < |buf| then buf[p] else '\0'
  }

  function Clamp(x: int, n: nat): (r: nat)
    ensures r <= n
  {
    if x < 0 then 0 else if x > n then n else x
  }

  /** The host's `substr(region)`: the text between the region's ends, cut to the buffer. */
  function Substr(buf: string, r: Region): (s: string)
    ensures |s| <= |buf|
  {
    var lo := Clamp(r.Begin(), |buf|);
    var hi := Clamp(r.End(), |buf|);
    buf[lo..hi]
  }

  /** Python's `str.isspace()` for one character. */
  predicate IsSpace(c: char) {
    c == ' ' || ('\t' <= c <= '\r') || ('\U{1C}' <= c <= '\U{1F}') || c == '\U{85}' || c == '\U{A0}'
    || c == '\U{1680}' || ('\U{2000}' <= c <= '\U{200A}') || c == '\U{2028}' || c == '\U{2029}'
    || c == '\U{202F}' || c == '\U{205F}' || c == '\U{3000}'
  }

  predicate IsTabOrSpace(c: char) { c == ' ' || c == '\t' }

  predicate IsAsciiUpper(c: char) { 'A' <= c <= 'Z' }

  predicate IsAsciiLetterOrDigit(c: char) { 'a' <= c <= 'z' || 'A' <= c <= 'Z' || '0' <= c <= '9' }

  function Lower(c: char): (r: char)
    ensures !IsAsciiUpper(r)
    ensures IsAsciiUpper(c) || r == c
  {
    if IsAsciiUpper(c) then (c as int + 32) as char else c
  }

  predicate HasAsciiUpper(s: string) {
    exists i :: 0 <= i < |s| && IsAsciiUpper(s[i])
  }

  /** Start of the line holding `p` (the host's `line(p).begin()`). */
  function LineBegin(buf: string, p: int): (r: int)
    requires 0 <= p <= |buf|
    ensures 0 <= r <= p
    ensures r == 0 || buf[r - 1] == '\n'
    ensures forall k :: r <= k < p ==> buf[k] != '\n'
    decreases p
  {
    if p == 0 || buf[p - 1] == '\n' then p else LineBegin(buf, p - 1)
  }

  /** End of the line holding `p`, before its newline (the host's `line(p).end()`). */
  function LineEnd(buf: string, p: int): (r: int)
    requires 0 <= p <= |buf|
    ensures p <= r <= |buf|
    ensures r == |buf| || buf[r] == '\n'
    ensures forall k :: p <= k < r ==> buf[k] != '\n'
    decreases |buf| - p
  {
    if p == |buf| || buf[p] == '\n' then p else LineEnd(buf, p + 1)
  }

  /** The host's `line(p)`. */
  function Line(buf: string, p: int): Region
    requires 0 <= p <= |buf|
  {
    Region(LineBegin(buf, p), LineEnd(buf, p))
  }

  /** The decimal digit for `d`. */
  function DigitChar(d: nat): (c: char)
    requires d < 10
    ensures '0' <= c <= '9'
  {
    ('0' as int + d) as char
  }

  predicate IsDigit(c: char) { '0' <= c <= '9' }

  /** Python's `%d` of a natural number. */
  function NatToString(n: nat): (s: string)
    ensures |s| >= 1 && forall i :: 0 <= i < |s| ==> IsDigit(s[i])
    decreases n
  {
    if n < 10 then [DigitChar(n)] else NatToString(n / 10) + [DigitChar(n % 10)]
  }

  /** Python's `%d` of an integer. */
  function IntToString(i: int): (s: string)
    ensures |s| >= 1 && forall k :: 0 <= k < |s| ==> IsDigit(s[k]) || (k == 0 && s[k] == '-')
  {
    if i < 0 then "-" + NatToString(-i) else NatToString(i)
  }

  /** The number a run of decimal digits spells (Python's `int` on such a run). */
  function DigitsToNat(s: string): nat
    requires forall i :: 0 <= i < |s| ==> IsDigit(s[i])
    decreases |s|
  {
    if |s| == 0 then 0
    else
      assert IsDigit(s[|s| - 1]);
      DigitsToNat(s[..|s| - 1]) * 10 + (s[|s| - 1] as int - '0' as int)
  }

  /** Python's `int` on an optional minus sign and a run of digits. */
  function ParseInt(s: string): int
    requires |s| >= 1 && forall i :: 0 <= i < |s| ==> IsDigit(s[i]) || (i == 0 && s[i] == '-')
  {
    if s[0] == '-' then -(DigitsToNat(s[1..]) as int) else DigitsToNat(s)
  }

  lemma {:induction false} NatToStringRoundTrip(n: nat)
    ensures DigitsToNat(NatToString(n)) == n
    decreases n
  {
    var s := NatToString(n);
    if n >= 10 {
      NatToStringRoundTrip(n / 10);
      assert s[..|s| - 1] == NatToString(n / 10);
    }
  }

  /** Reading back what `%d` printed gives the number. */
  lemma IntToStringRoundTrip(i: int)
    ensures ParseInt(IntToString(i)) == i
  {
    if i < 0 {
      assert IntToString(i)[1..] == NatToString(-i);
      NatToStringRoundTrip(-i);
    } else {
      NatToStringRoundTrip(i);
    }
  }
}
