/** What splitting a file in place leaves in the buffer, and its line locality. */
module IniSplit {
  import opened IniText

  // The bytes that replace the first item of `s`: one separator, a header, a comment,
  // a discarded line or a key with its value.
  function ItemBytes(s: string): (out: string)
    requires s != ""
    ensures 1 <= |out| <= |s|
  {
    if IsBlank(s[0]) || s[0] == '\n' || s[0] == NUL then [NUL]
    else if s[0] == '[' then HeaderItem(s)
    else if s[0] == ';' then Zeros(LineLength(s))
    else KeyItem(s)
  }

  function HeaderItem(s: string): (out: string)
    requires s != "" && s[0] == '['
    ensures 1 <= |out| <= |s|
  {
    var n := Span(s, "]\n");
    s[..n] + if n < |s| then [NUL] else ""
  }

  function KeyItem(s: string): (out: string)
    requires s != "" && s[0] != '\n'
    ensures 1 <= |out| <= |s|
  {
    var eq := Span(s, "=\n");
    if eq == |s| || s[eq] != '=' then Zeros(LineLength(s))
    else
      var k := ValueStart(s, eq);
      var value := ValueItem(s[k..]);
      if value == "" then Zeros(LineLength(s)) else Pad(TrimEnd(s[..eq]), k) + value
  }

  // Where the value of a key line starts: past the '=' and the blanks after it.
  function ValueStart(s: string, eq: nat): (k: nat)
    requires eq < |s|
    ensures eq < k <= |s|
  {
    eq + 1 + BlankPrefix(s[eq + 1..])
  }

  // The bytes that replace a value, none when the value is missing or quotes nothing.
  function ValueItem(v: string): (out: string)
    ensures |out| <= |v|
  {
    if v == "" || v[0] == '\n' || v[0] == NUL then ""
    else if v[0] == '"' then
      var u := Unescape(v[1..]);
      if u == "" then "" else Pad(u, LineLength(v))
    else
      var m := Span(v, "\n");
      Pad(TrimEnd(v[..m]), m)
  }

  function Split(s: string): (out: string)
    ensures |out| == |s|
  {
    if s == "" then ""
    else
      var item := ItemBytes(s);
      item + Split(s[|item|..])
  }

  // ----- nothing on a line depends on what follows its newline

  lemma LineIndex(a: string, b: string)
    ensures |a + "\n" + b| == |a| + 1 + |b| && (a + "\n" + b)[|a|] == '\n'
    ensures forall i :: 0 <= i < |a| ==> (a + "\n" + b)[i] == a[i]
  {
  }

  lemma LineDrop(a: string, b: string, k: nat)
    requires k <= |a|
    ensures (a + "\n" + b)[..k] == a[..k]
    ensures (a + "\n" + b)[k..] == a[k..] + "\n" + b
  {
  }

  lemma SpanLocal(a: string, b: string, reject: string)
    requires '\n' in reject
    ensures Span(a + "\n" + b, reject) == Span(a, reject)
  {
    LineIndex(a, b);
    assert forall i :: 0 <= i < |a| ==> a[i] == (a + "\n" + b)[i];
  }

  lemma LineLengthLocal(a: string, b: string)
    ensures LineLength(a + "\n" + b) == LineLength(a)
  {
    LineIndex(a, b);
    assert forall i :: 0 <= i < |a| ==> a[i] == (a + "\n" + b)[i];
  }

  lemma BlankPrefixLocal(a: string, b: string)
    ensures BlankPrefix(a + "\n" + b) == BlankPrefix(a)
  {
    LineIndex(a, b);
    assert forall i :: 0 <= i < |a| ==> a[i] == (a + "\n" + b)[i];
  }

  lemma {:induction false} UnescapeLocal(a: string, b: string)
    ensures Unescape(a + "\n" + b) == Unescape(a)
  {
    LineIndex(a, b);
    if a == "" {
    } else if a[0] == '\\' {
      if |a| >= 2 {
        LineDrop(a, b, 2);
        UnescapeLocal(a[2..], b);
      }
    } else {
      LineDrop(a, b, 1);
      UnescapeLocal(a[1..], b);
    }
  }

  lemma ValueItemLocal(a: string, b: string)
    ensures ValueItem(a + "\n" + b) == ValueItem(a)
  {
    LineIndex(a, b);
    if a != "" && a[0] == '"' {
      LineDrop(a, b, 1);
      UnescapeLocal(a[1..], b);
      LineLengthLocal(a, b);
    } else {
      SpanLocal(a, b, "\n");
      LineDrop(a, b, Span(a, "\n"));
    }
  }

  lemma ValueStartLocal(a: string, b: string, eq: nat)
    requires eq < |a|
    ensures ValueStart(a + "\n" + b, eq) == ValueStart(a, eq)
  {
    LineDrop(a, b, eq + 1);
    BlankPrefixLocal(a[eq + 1..], b);
  }

  lemma KeyItemLocal(a: string, b: string)
    requires a != "" && a[0] != '\n'
    ensures (a + "\n" + b)[0] == a[0]
    ensures KeyItem(a + "\n" + b) == KeyItem(a)
  {
    LineIndex(a, b);
    LineLengthLocal(a, b);
    SpanLocal(a, b, "=\n");
    var eq := Span(a, "=\n");
    if eq < |a| && a[eq] == '=' {
      ValueStartLocal(a, b, eq);
      var k := ValueStart(a, eq);
      LineDrop(a, b, k);
      LineDrop(a, b, eq);
      ValueItemLocal(a[k..], b);
    }
  }

  lemma ItemLocal(a: string, b: string)
    requires a != ""
    ensures var s := a + "\n" + b;
      ItemBytes(s) == ItemBytes(a) || (a[0] == '[' && ItemBytes(a) == a && ItemBytes(s) == a + [NUL])
  {
    LineIndex(a, b);
    if a[0] == '[' {
      SpanLocal(a, b, "]\n");
      LineDrop(a, b, Span(a, "]\n"));
    } else if a[0] == ';' {
      LineLengthLocal(a, b);
    } else if !IsBlank(a[0]) && a[0] != '\n' && a[0] != NUL {
      KeyItemLocal(a, b);
    }
  }

  lemma SplitStep(s: string, item: string, rest: string, tail: string)
    requires s != "" && item == ItemBytes(s) && rest == s[|item|..] && Split(rest) == tail
    ensures Split(s) == item + tail
  {
  }

  lemma SplitEmpty(b: string)
    ensures Split("") == ""
    ensures Split("\n" + b) == [NUL] + Split(b)
  {
    SplitStep("\n" + b, [NUL], b, Split(b));
  }

  /** No header, comment, key, quoted value, escape or backward trim crosses a newline:
      the two sides of any newline are split as if each were a file of its own. */
  lemma {:induction false} SplitLocal(a: string, b: string)
    ensures Split(a + "\n" + b) == Split(a) + [NUL] + Split(b)
    decreases |a|
  {
    hide *;
    if a == "" {
      assert a + "\n" + b == "\n" + b;
      SplitEmpty(b);
    } else {
      SplitLocalItem(a, b);
    }
  }

  lemma {:induction false} SplitLocalItem(a: string, b: string)
    requires a != ""
    ensures Split(a + "\n" + b) == Split(a) + [NUL] + Split(b)
    decreases |a|, 0
  {
    hide *;
    var s, item, tail := a + "\n" + b, ItemBytes(a), Split(b);
    var rest := a[|item|..];
    var before := Split(rest);
    SplitStep(a, item, rest, before);
    ItemLocal(a, b);
    if ItemBytes(s) == item {
      LineDrop(a, b, |item|);
      SplitLocal(rest, b);
      SplitStep(s, item, rest + "\n" + b, before + [NUL] + tail);
      assert item + (before + [NUL] + tail) == (item + before) + [NUL] + tail;
    } else {
      SplitEmpty(b);
      SplitStep(s, a + [NUL], b, tail);
    }
  }

  // ----- the items one by one

  lemma SeparatorItem(s: string)
    requires s != "" && (IsBlank(s[0]) || s[0] == '\n' || s[0] == NUL)
    ensures ItemBytes(s) == [NUL]
  {
  }

  lemma CommentItem(s: string)
    requires s != "" && s[0] == ';'
    ensures ItemBytes(s) == Zeros(LineLength(s)) && !IsBlank(ItemBytes(s)[|ItemBytes(s)| - 1])
  {
  }

  // A key line ends with a NUL or with the last character of a trimmed value.
  lemma KeyLineItem(s: string)
    requires s != "" && !IsBlank(s[0]) && s[0] !in "\n\0[;"
    ensures ItemBytes(s) == KeyItem(s) && !IsBlank(KeyItem(s)[|KeyItem(s)| - 1])
  {
    KeyLineIsKeyItem(s);
    hide ItemBytes, KeyItem, KeyBytes, ValueItem, Span, LineLength, ValueStart;
    var eq := Span(s, "=\n");
    if eq == |s| || s[eq] != '=' {
      KeyItemWithoutEquals(s);
    } else if ValueItem(s[ValueStart(s, eq)..]) == "" {
      KeyItemWithoutValue(s);
    } else {
      KeyItemWithValue(s);
      ValueItemEnd(s[ValueStart(s, eq)..]);
    }
  }

  lemma KeyLineIsKeyItem(s: string)
    requires s != "" && !IsBlank(s[0]) && s[0] !in "\n\0[;"
    ensures s[0] != '\n' && ItemBytes(s) == KeyItem(s)
  {
    hide KeyItem, HeaderItem, LineLength;
  }

  lemma ValueItemEnd(v: string)
    requires ValueItem(v) != ""
    ensures !IsBlank(ValueItem(v)[|ValueItem(v)| - 1])
  {
    if v[0] == '"' {
      QuotedItem(v);
    } else {
      PlainItem(v);
      TrimEndIsPrefix(v[..Span(v, "\n")]);
    }
  }

  lemma Concat3(a: string, b: string, c: string)
    ensures a + (b + c) == a + b + c
  {
  }

  lemma HeaderSplit(s: string)
    requires s != "" && s[0] == '['
    ensures var n := Span(s, "]\n");
      1 <= n && Split(s) == s[..n] + Split(if n < |s| then [NUL] + s[n + 1..] else "")
    ensures var n := Span(s, "]\n");
      n < |s| ==> Split([NUL] + s[n + 1..]) == [NUL] + Split(s[n + 1..])
  {
    assert Span(s, "]\n") >= 1 && ItemBytes(s) == HeaderItem(s);
    hide Split, ItemBytes, Span;
    var n := Span(s, "]\n");
    var item := HeaderItem(s);
    SplitStep(s, item, s[|item|..], Split(s[|item|..]));
    if n < |s| {
      var rest := s[n + 1..];
      SeparatorItem([NUL] + rest);
      SplitStep([NUL] + rest, [NUL], rest, Split(rest));
      Concat3(s[..n], [NUL], Split(rest));
    } else {
      SplitEmpty("");
    }
  }

  lemma KeyItemWithoutEquals(s: string)
    requires s != "" && s[0] != '\n'
    requires Span(s, "=\n") < |s| ==> s[Span(s, "=\n")] != '='
    ensures KeyItem(s) == Zeros(LineLength(s))
  {
  }

  lemma KeyItemWithoutValue(s: string)
    requires s != "" && s[0] != '\n'
    requires var eq := Span(s, "=\n");
      eq < |s| && s[eq] == '=' && ValueItem(s[ValueStart(s, eq)..]) == ""
    ensures KeyItem(s) == Zeros(LineLength(s))
  {
  }

  lemma KeyItemWithValue(s: string)
    requires s != "" && s[0] != '\n'
    requires var eq := Span(s, "=\n");
      eq < |s| && s[eq] == '=' && ValueItem(s[ValueStart(s, eq)..]) != ""
    ensures KeyItem(s) == KeyBytes(s) + ValueItem(s[ValueStart(s, Span(s, "=\n"))..])
  {
  }

  // What a line with a '=' holds up to its value: the trimmed key.
  ghost function KeyBytes(s: string): (bytes: string)
    requires Span(s, "=\n") < |s|
  {
    var eq := Span(s, "=\n");
    Pad(TrimEnd(s[..eq]), ValueStart(s, eq))
  }

  lemma QuotedItem(v: string)
    requires v != "" && v[0] == '"'
    ensures |Unescape(v[1..])| < LineLength(v)
    ensures LineLength(v[|Unescape(v[1..])|..]) == LineLength(v) - |Unescape(v[1..])|
    ensures ValueItem(v) == QuotedBytes(Unescape(v[1..]), LineLength(v))
  {
    QuotedLength(v);
    hide Unescape, LineLength, Zeros;
  }

  // A quoted value `u` on the `width` characters from its opening quote to the line's end.
  ghost function QuotedBytes(u: string, width: nat): string {
    if u == "" || width < |u| then "" else u + Zeros(width - |u|)
  }

  lemma QuotedLength(v: string)
    requires v != "" && v[0] == '"'
    ensures |Unescape(v[1..])| < LineLength(v)
    ensures LineLength(v[|Unescape(v[1..])|..]) == LineLength(v) - |Unescape(v[1..])|
  {
    assert LineLength(v) > 0;
    hide Unescape, LineLength;
    LineLengthDrop(v, 1);
    LineLengthDrop(v, |Unescape(v[1..])|);
  }

  lemma PlainItem(v: string)
    requires v != "" && v[0] != '"' && v[0] != '\n' && v[0] != NUL
    ensures ValueItem(v) == Pad(TrimEnd(v[..Span(v, "\n")]), Span(v, "\n"))
  {
  }

  lemma NoValueItem(v: string)
    requires v == "" || v[0] == '\n' || v[0] == NUL
    ensures ValueItem(v) == ""
  {
  }
}
