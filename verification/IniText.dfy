/** The lexical vocabulary of the INI format: C strings, spans, trimming,
    quoted values and case folding, as functions on strings. */
module IniText {

  const NUL: char := '\0'

  // A C string: the terminating NUL is not part of the value.
  type CString = s: string | NUL !in s witness ""

  // Blanks inside a line; the newline ends the line and is not one of them.
  predicate IsBlank(c: char) {
    c == ' ' || c == '\t' || c == '\r'
  }

  // The number of leading characters before the first NUL or member of `reject`.
  function Span(s: string, reject: string): (n: nat)
    ensures n <= |s|
    ensures forall i :: 0 <= i < n ==> s[i] != NUL && s[i] !in reject
    ensures n < |s| ==> s[n] == NUL || s[n] in reject
  {
    if s == "" || s[0] == NUL || s[0] in reject then 0 else 1 + Span(s[1..], reject)
  }

  // The number of characters before the first newline.  Unlike `Span`, NUL does not stop it.
  function LineLength(s: string): (n: nat)
    ensures n <= |s|
    ensures forall i :: 0 <= i < n ==> s[i] != '\n'
    ensures n < |s| ==> s[n] == '\n'
  {
    if s == "" || s[0] == '\n' then 0 else 1 + LineLength(s[1..])
  }

  // The number of leading blanks.
  function BlankPrefix(s: string): (n: nat)
    ensures n <= |s|
    ensures forall i :: 0 <= i < n ==> IsBlank(s[i])
    ensures n < |s| ==> !IsBlank(s[n])
  {
    if s == "" || !IsBlank(s[0]) then 0 else 1 + BlankPrefix(s[1..])
  }

  // The longest prefix that does not end in a blank.
  function TrimEnd(s: string): (t: string)
    ensures |t| <= |s|
  {
    if s != "" && IsBlank(s[|s| - 1]) then TrimEnd(s[..|s| - 1]) else s
  }

  lemma TrimEndIsPrefix(s: string)
    ensures var t := TrimEnd(s);
      t == s[..|t|]
      && (t != "" ==> !IsBlank(t[|t| - 1]))
      && forall i :: |t| <= i < |s| ==> IsBlank(s[i])
  {
  }

  function Zeros(n: nat): (z: string)
    ensures |z| == n
  {
    seq(n, _ => NUL)
  }

  // `s` followed by NULs up to `width` characters.
  function Pad(s: string, width: nat): (p: string)
    requires |s| <= width
    ensures |p| == width
  {
    s + Zeros(width - |s|)
  }

  // The character that a backslash followed by `c` stands for.
  function EscapedChar(c: char): char {
    if c == 'r' then '\r' else if c == 'n' then '\n' else if c == 't' then '\t' else c
  }

  // A backslash before one of these ends the value.
  predicate EndsEscape(c: char) {
    c == '\r' || c == '\n' || c == NUL
  }

  // The value written by the text after an opening quote.
  function Unescape(t: string): (u: string)
    ensures |u| <= LineLength(t)
  {
    if t == "" || t[0] == '"' || t[0] == '\r' || t[0] == '\n' then ""
    else if t[0] == '\\' then
      if |t| == 1 || EndsEscape(t[1]) then ""
      else
        LineLengthDrop(t, 2);
        [EscapedChar(t[1])] + Unescape(t[2..])
    else [t[0]] + Unescape(t[1..])
  }

  lemma LineLengthDrop(t: string, k: nat)
    requires k <= LineLength(t)
    ensures LineLength(t[k..]) == LineLength(t) - k
  {
    var n, u := LineLength(t), t[k..];
    assert forall i :: 0 <= i < |u| ==> u[i] == t[k + i];
    assert forall i :: k <= i < |t| ==> t[i] == u[i - k];
    assert n < |t| ==> u[n - k] == '\n';
    assert LineLength(u) == n - k;
  }

  // ASCII case folding.
  function LowerChar(c: char): char {
    if 'A' <= c <= 'Z' then ((c as int) + 32) as char else c
  }

  function Lower(s: string): (r: string)
    ensures |r| == |s|
    ensures forall i :: 0 <= i < |s| ==> r[i] == LowerChar(s[i])
  {
    seq(|s|, i requires 0 <= i < |s| => LowerChar(s[i]))
  }
}
