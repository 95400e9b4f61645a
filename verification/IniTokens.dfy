/** The NUL-separated strings of a split buffer, and the settings that a walk over them
    recovers: nothing in the buffer says which string is a key and which a value. */
module IniTokens {
  import opened Wrappers
  import opened IniText

  datatype Setting = Setting(section: string, key: string, value: string)

  predicate AllWords(ts: seq<string>) {
    forall i :: 0 <= i < |ts| ==> ts[i] != "" && NUL !in ts[i]
  }

  // The non-empty runs between NULs.
  function Tokens(b: string): (ts: seq<string>)
    ensures AllWords(ts)
    decreases |b|
  {
    if b == "" then []
    else if b[0] == NUL then Tokens(b[1..])
    else
      var n := Span(b, "");
      [b[..n]] + Tokens(b[n..])
  }

  // Strings that start with '[' name the current section; the others alternate between
  // keys and values, and a key at the very end has the empty value.
  function Walk(ts: seq<string>, section: string): (r: seq<Setting>)
    decreases |ts|
  {
    if ts == [] then []
    else if "[" <= ts[0] then Walk(ts[1..], ts[0][1..])
    else if |ts| == 1 then [Setting(section, ts[0], "")]
    else [Setting(section, ts[0], ts[1])] + Walk(ts[2..], section)
  }

  predicate SameName(a: string, b: string) {
    Lower(a) == Lower(b)
  }

  // `b` is `a` with the case of some ASCII letters changed.
  predicate Recased(a: string, b: string) {
    |a| == |b| && forall i :: 0 <= i < |a| ==> RecasedChar(a[i], b[i])
  }

  predicate RecasedChar(a: char, b: char) {
    a == b || ('A' <= a <= 'Z' && b as int == a as int + 32) || ('a' <= a <= 'z' && b as int == a as int - 32)
  }

  // Folding case identifies the strings that differ in case only.
  lemma SameNameExact(a: string, b: string)
    ensures SameName(a, b) <==> Recased(a, b)
  {
    if SameName(a, b) {
      assert |a| == |Lower(a)| == |b|;
      assert forall i :: 0 <= i < |a| ==> LowerChar(a[i]) == Lower(a)[i] == LowerChar(b[i]);
    }
  }

  predicate Matches(s: Setting, section: Option<string>, key: string) {
    (section.None? || SameName(section.value, s.section)) && SameName(s.key, key)
  }

  // The value of the first setting that matches; no section matches any.
  function Lookup(settings: seq<Setting>, section: Option<string>, key: string): (r: Option<string>)
    ensures r.Some? ==> exists s :: s in settings && Matches(s, section, key) && r.value == s.value
  {
    if settings == [] then None
    else if Matches(settings[0], section, key) then Some(settings[0].value)
    else Lookup(settings[1..], section, key)
  }

  // What the code finds in a split buffer.
  function Settings(b: string): seq<Setting> {
    Walk(Tokens(b), "")
  }

  lemma {:induction false} TokensSeparate(a: string, b: string)
    ensures Tokens(a + [NUL] + b) == Tokens(a) + Tokens(b)
    decreases |a|
  {
    var s := a + [NUL] + b;
    assert NUL == '\0';
    NextToken(a);
    NextToken(s);
    hide *;
    if a == "" {
      assert s[1..] == b;
    } else if a[0] == '\0' {
      CutBeforeNul(a, b, 1);
      TokensSeparate(a[1..], b);
    } else {
      var n := Span(a, "");
      SpanToNul(a, b);
      CutBeforeNul(a, b, n);
      TokensSeparate(a[n..], b);
      WordFirst(a[..n], Tokens(a[n..]), Tokens(b));
    }
  }

  lemma CutBeforeNul(a: string, b: string, n: nat)
    requires n <= |a|
    ensures var s := a + [NUL] + b;
      s[..n] == a[..n] && s[n..] == a[n..] + [NUL] + b
  {
  }

  lemma WordFirst(w: string, a: seq<string>, b: seq<string>)
    ensures [w] + (a + b) == [w] + a + b
  {
  }

  lemma NextToken(s: string)
    ensures s == "" ==> Tokens(s) == []
    ensures s != "" && s[0] == NUL ==> Tokens(s) == Tokens(s[1..])
    ensures s != "" && s[0] != NUL ==>
      var n := Span(s, "");
      n > 0 && Tokens(s) == [s[..n]] + Tokens(s[n..])
  {
  }

  lemma SpanToNul(a: string, b: string)
    ensures Span(a + [NUL] + b, "") == Span(a, "")
  {
    var s := a + [NUL] + b;
    assert s[|a|] == NUL;
    assert forall i :: 0 <= i < |a| ==> s[i] == a[i];
    assert forall i :: 0 <= i < |a| ==> a[i] == s[i];
  }

  lemma TokensOfWord(w: string)
    requires NUL !in w
    ensures Tokens(w) == if w == "" then [] else [w]
  {
    if w != "" {
      assert Span(w, "") == |w|;
      assert w[..|w|] == w && w[|w|..] == "";
    }
  }

  lemma {:induction false} TokensOfZeros(n: nat)
    ensures Tokens(Zeros(n)) == []
  {
    if n > 0 {
      assert Zeros(n)[1..] == Zeros(n - 1);
      TokensOfZeros(n - 1);
    }
  }

  // Padding separates a word from what follows it.
  lemma TokensOfPad(w: string, width: nat, rest: string)
    requires |w| <= width
    requires |w| < width || rest == "" || rest[0] == NUL
    ensures Tokens(Pad(w, width) + rest) == Tokens(w) + Tokens(rest)
  {
    var z := width - |w|;
    if z > 0 {
      assert Pad(w, width) + rest == w + [NUL] + (Zeros(z - 1) + rest);
      TokensSeparate(w, Zeros(z - 1) + rest);
      TokensAfterZeros(z - 1, rest);
    } else if rest == "" {
      assert Pad(w, width) + rest == w;
    } else {
      assert Pad(w, width) + rest == w + [NUL] + rest[1..];
      TokensSeparate(w, rest[1..]);
    }
  }

  lemma {:induction false} TokensAfterZeros(n: nat, rest: string)
    ensures Tokens(Zeros(n) + rest) == Tokens(rest)
  {
    if n == 0 {
      assert Zeros(n) + rest == rest;
    } else {
      assert (Zeros(n) + rest)[1..] == Zeros(n - 1) + rest;
      TokensAfterZeros(n - 1, rest);
    }
  }

  /** A lookup does not depend on the case of the section or the key. */
  lemma {:induction false} LookupIgnoresCase(settings: seq<Setting>,
      section: Option<string>, key: string, section': Option<string>, key': string)
    requires section.Some? == section'.Some?
    requires section.Some? ==> Recased(section.value, section'.value)
    requires Recased(key, key')
    ensures Lookup(settings, section, key) == Lookup(settings, section', key')
  {
    SameNameExact(key, key');
    if section.Some? {
      SameNameExact(section.value, section'.value);
    }
    hide Recased, Lower;
    if settings != [] {
      LookupIgnoresCase(settings[1..], section, key, section', key');
    }
  }
}
