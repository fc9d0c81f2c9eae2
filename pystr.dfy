/**
 * The Python `str` built-ins the initializer relies on: `isspace`, `strip`,
 * `lower` (on the characters it is applied to here), `replace` of a single
 * character, `"\n".join` and `str` of an integer.
 */
module PyStr {

  /** Python's `str.isspace` for one character, which is also what `\s` matches in a `re` pattern. */
  predicate IsSpace(c: char) {
    ('\t' <= c <= '\r') || ('\U{1C}' <= c <= '\U{1F}') || c == ' ' || c == '\U{85}' || c == '\U{A0}' ||
    c == '\U{1680}' || ('\U{2000}' <= c <= '\U{200A}') || c == '\U{2028}' || c == '\U{2029}' ||
    c == '\U{202F}' || c == '\U{205F}' || c == '\U{3000}'
  }

  predicate AllSpace(s: string) {
    forall i :: 0 <= i < |s| ==> IsSpace(s[i])
  }

  /** Number of whitespace characters at the front of `s`. */
  function LeadingSpaceCount(s: string): (n: nat)
    ensures n <= |s|
    ensures forall i :: 0 <= i < n ==> IsSpace(s[i])
    ensures n == |s| || !IsSpace(s[n])
  {
    if s == [] || !IsSpace(s[0]) then 0 else 1 + LeadingSpaceCount(s[1..])
  }

  /** Number of whitespace characters at the back of `s`. */
  function TrailingSpaceCount(s: string): (n: nat)
    ensures n <= |s|
    ensures forall i :: |s| - n <= i < |s| ==> IsSpace(s[i])
    ensures n == |s| || !IsSpace(s[|s| - 1 - n])
  {
    if s == [] || !IsSpace(s[|s| - 1]) then 0 else 1 + TrailingSpaceCount(s[..|s| - 1])
  }

  /** `s.strip()`: `s` without its leading and trailing whitespace. */
  function Strip(s: string): (r: string)
    ensures LeadingSpaceCount(s) + |r| <= |s|
    ensures r == s[LeadingSpaceCount(s)..LeadingSpaceCount(s) + |r|]
    ensures forall i :: LeadingSpaceCount(s) + |r| <= i < |s| ==> IsSpace(s[i])
    ensures r == [] || (!IsSpace(r[0]) && !IsSpace(r[|r| - 1]))
    ensures r == [] <==> AllSpace(s)
  {
    var t := s[LeadingSpaceCount(s)..];
    t[..|t| - TrailingSpaceCount(t)]
  }

  /** A text that begins and ends with a non-whitespace character is its own `strip()`. */
  lemma {:induction false} StripKeepsEnds(s: string)
    requires s != [] && !IsSpace(s[0]) && !IsSpace(s[|s| - 1])
    ensures Strip(s) == s
  {
    assert LeadingSpaceCount(s) == 0;
    assert !AllSpace(s);
  }

  /** `strip()` removes whitespace padding on both sides of a text with non-whitespace ends. */
  lemma {:induction false} StripPadded(a: string, x: string, b: string)
    requires AllSpace(a) && AllSpace(b)
    requires x != [] && !IsSpace(x[0]) && !IsSpace(x[|x| - 1])
    ensures Strip(a + x + b) == x
  {
    var s := a + x + b;
    assert s[|a|] == x[0] && s[|a| + |x| - 1] == x[|x| - 1];
    assert forall i :: 0 <= i < |a| ==> s[i] == a[i];
    assert forall i :: |a| + |x| <= i < |s| ==> s[i] == b[i - |a| - |x|];
    assert LeadingSpaceCount(s) == |a|;
    assert !AllSpace(s);
    var r := Strip(s);
    assert |a| + |r| == |a| + |x|;
    assert s[|a|..|a| + |x|] == x;
  }

  /** `c.lower()` for an ASCII letter; every other character is left as it is. */
  function AsciiLower(c: char): (r: char)
    ensures 'A' <= c <= 'Z' ==> r as int == c as int + 32
    ensures !('A' <= c <= 'Z') ==> r == c
  {
    if 'A' <= c <= 'Z' then (c as int + 32) as char else c
  }

  function AsciiUpper(c: char): (r: char)
    ensures 'a' <= c <= 'z' ==> r as int == c as int - 32
    ensures !('a' <= c <= 'z') ==> r == c
  {
    if 'a' <= c <= 'z' then (c as int - 32) as char else c
  }

  function LowerAscii(s: string): (r: string)
    ensures |r| == |s|
    ensures forall i :: 0 <= i < |s| ==> r[i] == AsciiLower(s[i])
  {
    if s == [] then [] else [AsciiLower(s[0])] + LowerAscii(s[1..])
  }

  /** `s.replace(c, rep)` for a one-character pattern: every `c` becomes `rep`. */
  function ReplaceChar(s: string, c: char, rep: string): (r: string)
  {
    if s == [] then []
    else (if s[0] == c then rep else [s[0]]) + ReplaceChar(s[1..], c, rep)
  }

  /** `"\n".join(lines)`: the lines in order, one newline between each two, none after the last. */
  function JoinLines(lines: seq<string>): (r: string)
    ensures lines == [] ==> r == ""
    ensures lines != [] ==> |lines[0]| <= |r| && r[..|lines[0]|] == lines[0]
    ensures |lines| >= 2 ==> |lines[0]| < |r| && r[|lines[0]|] == '\n'
    ensures lines != [] ==> |Last(lines)| <= |r| && r[|r| - |Last(lines)|..] == Last(lines)
  {
    if |lines| == 0 then ""
    else if |lines| == 1 then lines[0]
    else
      var rest := JoinLines(lines[1..]);
      assert Last(lines[1..]) == Last(lines);
      assert (lines[0] + "\n" + rest)[|lines[0] + "\n" + rest| - |rest|..] == rest;
      lines[0] + "\n" + rest
  }

  function Last(lines: seq<string>): (r: string)
    requires lines != []
  {
    lines[|lines| - 1]
  }

  /** Every line followed by a newline: the shape of a text file of `lines`. */
  function Terminated(lines: seq<string>): (r: string)
  {
    if lines == [] then "" else lines[0] + "\n" + Terminated(lines[1..])
  }

  /** A file of lines is its first line and a newline, then the file of the rest. */
  lemma {:induction false} TerminatedCons(lines: seq<string>)
    requires lines != []
    ensures Terminated(lines) == lines[0] + "\n" + Terminated(lines[1..])
  {
  }

  /** `"\n".join(lines) + "\n"` is the file made of `lines`, each with its newline. */
  lemma {:induction false} JoinThenNewline(lines: seq<string>)
    requires lines != []
    ensures JoinLines(lines) + "\n" == Terminated(lines)
  {
    if |lines| > 1 {
      JoinThenNewline(lines[1..]);
      assert lines[0] + "\n" + JoinLines(lines[1..]) + "\n" == lines[0] + "\n" + (JoinLines(lines[1..]) + "\n");
    }
  }

  function DigitChar(d: nat): (c: char)
    requires d < 10
    ensures '0' <= c <= '9'
  {
    ('0' as int + d) as char
  }

  /** The decimal digits of `n`, most significant first. */
  function DigitsOf(n: nat): (r: string)
    ensures r != []
    ensures forall i :: 0 <= i < |r| ==> '0' <= r[i] <= '9'
    ensures r[0] == '0' <==> n == 0
    ensures n == 0 ==> r == "0"
  {
    if n < 10 then [DigitChar(n)] else DigitsOf(n / 10) + [DigitChar(n % 10)]
  }

  /** `str(n)` for a Python `int`: a minus sign for a negative number, then the decimal digits of
      its magnitude, with no leading zero except in `0` itself. */
  function IntToStr(n: int): (r: string)
    ensures r != []
    ensures n >= 0 ==> (forall i :: 0 <= i < |r| ==> '0' <= r[i] <= '9') && DecimalValue(r) == n
    ensures n < 0 ==> |r| >= 2 && r[0] == '-' && (forall i :: 1 <= i < |r| ==> '0' <= r[i] <= '9')
    ensures n < 0 ==> DecimalValue(r[1..]) == -n
    ensures var d := if n < 0 then r[1..] else r; d != [] && (|d| == 1 || d[0] != '0')
  {
    if n < 0 then
      DigitsOfRoundTrip(-n);
      assert ("-" + DigitsOf(-n))[1..] == DigitsOf(-n);
      "-" + DigitsOf(-n)
    else
      DigitsOfRoundTrip(n);
      DigitsOf(n)
  }

  /** The value of a string of decimal digits: the inverse of `DigitsOf`. */
  function DecimalValue(s: string): (r: int)
  {
    if s == [] then 0 else 10 * DecimalValue(s[..|s| - 1]) + (s[|s| - 1] as int - '0' as int)
  }

  lemma {:induction false} DigitsOfRoundTrip(n: nat)
    ensures DecimalValue(DigitsOf(n)) == n
  {
    if n >= 10 {
      DigitsOfRoundTrip(n / 10);
      var s := DigitsOf(n / 10) + [DigitChar(n % 10)];
      assert s[..|s| - 1] == DigitsOf(n / 10);
    }
  }
}
