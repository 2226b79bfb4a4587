/**
 * The few Python string operations the record transforms rely on:
 * `str.strip(chars)` (whose default set is Python's whitespace, Unicode
 * separators included), `str.isnumeric()` and `str.upper()` (both restricted
 * to ASCII), and slicing `s[start:stop]` with Python's clamping of
 * out-of-range bounds.
 */
module Text {

  /**
   * The characters `str.strip()` removes when called without an argument:
   * those `str.isspace()` accepts, the ASCII controls 0x09-0x0D and
   * 0x1C-0x1F, the space, and the Unicode separators.
   */
  const Whitespace: set<char> := {
    '\t', '\n', '\U{000B}', '\U{000C}', '\r', '\U{001C}', '\U{001D}', '\U{001E}', '\U{001F}', ' ',
    '\U{0085}', '\U{00A0}', '\U{1680}', '\U{2000}', '\U{2001}', '\U{2002}', '\U{2003}', '\U{2004}', '\U{2005}',
    '\U{2006}', '\U{2007}', '\U{2008}', '\U{2009}', '\U{200A}', '\U{2028}', '\U{2029}', '\U{202F}', '\U{205F}',
    '\U{3000}'}

  /** Number of leading characters of `s` that belong to `chars`. */
  function LeadingCount(s: string, chars: set<char>): (n: nat)
    ensures n <= |s|
    ensures forall k :: 0 <= k < n ==> s[k] in chars
    ensures n < |s| ==> s[n] !in chars
  {
    if |s| > 0 && s[0] in chars then 1 + LeadingCount(s[1..], chars) else 0
  }

  /** Number of trailing characters of `s` that belong to `chars`. */
  function TrailingCount(s: string, chars: set<char>): (n: nat)
    ensures n <= |s|
    ensures forall k :: |s| - n <= k < |s| ==> s[k] in chars
    ensures n < |s| ==> s[|s| - 1 - n] !in chars
  {
    if |s| > 0 && s[|s| - 1] in chars then 1 + TrailingCount(s[..|s| - 1], chars) else 0
  }

  /**
   * Python's `s.strip(chars)`: the longest middle slice of `s` obtained by
   * dropping characters of `chars` from both ends.
   */
  function Strip(s: string, chars: set<char>): (r: string)
    ensures |r| <= |s|
    ensures r == [] || (r[0] !in chars && r[|r| - 1] !in chars)
    ensures var i := LeadingCount(s, chars);
              i + |r| <= |s| && r == s[i..i + |r|]
              && forall k :: i + |r| <= k < |s| ==> s[k] in chars
  {
    var i := LeadingCount(s, chars);
    var rest := s[i..];
    var r := rest[..|rest| - TrailingCount(rest, chars)];
    assert r == s[i..i + |r|];
    r
  }

  /** Leading characters of `chars` stop at the first character outside it. */
  lemma {:induction false} LeadingCountFramed(left: string, rest: string, chars: set<char>)
    requires forall k :: 0 <= k < |left| ==> left[k] in chars
    requires rest != [] && rest[0] !in chars
    ensures LeadingCount(left + rest, chars) == |left|
    decreases |left|
  {
    if |left| > 0 {
      assert (left + rest)[1..] == left[1..] + rest;
      LeadingCountFramed(left[1..], rest, chars);
    }
  }

  /**
   * Stripping `chars` from text framed by characters of `chars` on both
   * sides gives back the framed middle, when neither end of it is in `chars`.
   */
  lemma StripFramed(left: string, d: string, right: string, chars: set<char>)
    requires forall k :: 0 <= k < |left| ==> left[k] in chars
    requires forall k :: 0 <= k < |right| ==> right[k] in chars
    requires d != [] && d[0] !in chars && d[|d| - 1] !in chars
    ensures Strip(left + d + right, chars) == d
  {
    var s := left + d + right;
    assert s == left + (d + right);
    LeadingCountFramed(left, d + right, chars);
    var r := Strip(s, chars);
    var i := |left|;
    assert s[i] == d[0];
    assert s[i + |d| - 1] == d[|d| - 1];
    assert r == s[i..i + |d|];
  }

  /** Python's `str.isnumeric()` on ASCII text: non-empty and all decimal digits. */
  predicate IsNumeric(s: string): (b: bool)
    ensures b ==> |s| > 0
    ensures b ==> forall k :: 0 <= k < |s| ==>
      && s[k] !in Whitespace && s[k] != '-' && s[k] != '+' && s[k] != '.'
      && !IsLower(s[k]) && !('A' <= s[k] <= 'Z')
  {
    |s| > 0 && forall k :: 0 <= k < |s| ==> '0' <= s[k] <= '9'
  }

  predicate IsLower(ch: char) {
    'a' <= ch <= 'z'
  }

  function UpperChar(ch: char): char {
    if IsLower(ch) then (ch as int - 32) as char else ch
  }

  /** Python's `str.upper()` on ASCII text. */
  function Upper(s: string): (u: string)
    ensures |u| == |s|
    ensures forall k :: 0 <= k < |u| ==> !IsLower(u[k])
    ensures forall k :: 0 <= k < |u| && !IsLower(s[k]) ==> u[k] == s[k]
    ensures forall k :: 0 <= k < |u| && IsLower(s[k]) ==> u[k] as int == s[k] as int - 32 && 'A' <= u[k] <= 'Z'
  {
    seq(|s|, k requires 0 <= k < |s| => UpperChar(s[k]))
  }

  function Min(a: int, b: int): int {
    if a <= b then a else b
  }

  /** Python's `s[start:stop]` for non-negative bounds: bounds beyond the end are clamped. */
  function Slice(s: string, start: nat, stop: nat): (r: string)
    ensures start <= stop <= |s| ==> r == s[start..stop]
    ensures start <= |s| <= stop ==> r == s[start..]
    ensures |s| <= start || stop <= start ==> r == []
  {
    var lo := Min(start, |s|);
    var hi := Min(stop, |s|);
    if hi <= lo then [] else s[lo..hi]
  }
}
