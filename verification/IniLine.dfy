/** The split buffer against the reading of a line: which strings the line leaves in it. */
module IniLine {
  import opened Wrappers
  import opened IniText
  import opened IniSplit
  import opened IniTokens
  import opened IniReference

  // The strings that an item leaves in the buffer: an empty key leaves none, and a value
  // falls apart at the NULs inside it.
  function ItemTokens(item: Item): seq<string> {
    match item
    case Section(name) => ["[" + name]
    case Entry(key, value) => Tokens(key) + Tokens(value)
  }

  function AllTokens(items: seq<Item>): seq<string> {
    if items == [] then [] else ItemTokens(items[0]) + AllTokens(items[1..])
  }

  lemma {:induction false} AllTokensConcat(a: seq<Item>, b: seq<Item>)
    ensures AllTokens(a + b) == AllTokens(a) + AllTokens(b)
  {
    if a == [] {
      assert a + b == b;
    } else {
      assert (a + b)[1..] == a[1..] + b;
      AllTokensConcat(a[1..], b);
    }
  }

  lemma AllTokensFirst(item: Item, items: seq<Item>)
    ensures AllTokens([item] + items) == ItemTokens(item) + AllTokens(items)
  {
    assert ([item] + items)[1..] == items;
  }

  // ----- one line

  lemma {:induction false} LineTokens(line: string)
    requires '\n' !in line
    ensures Tokens(Split(line)) == AllTokens(LineItems(line))
    decreases |line|
  {
    if line == "" {
    } else if line[0] == ';' {
      CommentItem(line);
      SpanInLine(line);
      WholeLineTokens(line);
    } else if IsBlank(line[0]) || line[0] == NUL {
      LineTokens(line[1..]);
      SeparatorItem(line);
      SplitStep(line, [NUL], line[1..], Split(line[1..]));
    } else if line[0] == '[' {
      HeaderTokens(line);
    } else {
      KeyLineTokens(line);
    }
  }

  // In a line, the newline does not stop a scan.
  lemma {:induction false} SpanInLine(line: string)
    requires '\n' !in line
    ensures Span(line, "]\n") == Span(line, "]")
    ensures Span(line, "=\n") == Span(line, "=")
    ensures Span(line, "\n") == Span(line, "")
    ensures LineLength(line) == |line|
  {
  }

  lemma SplitNothing(s: string)
    requires |s| == 0
    ensures Split(s) == ""
  {
  }

  // A line whose first item is its last.
  lemma WholeLineTokens(line: string)
    requires line != "" && ItemBytes(line) == Zeros(|line|)
    ensures Tokens(Split(line)) == []
  {
    hide *;
    var zeros, rest := Zeros(|line|), line[|line|..];
    SplitNothing(rest);
    SplitStep(line, zeros, rest, "");
    TokensOfZeros(|line|);
    assert zeros + "" == zeros;
  }

  lemma {:induction false} HeaderTokens(line: string)
    requires '\n' !in line && line != "" && line[0] == '['
    ensures Tokens(Split(line)) == AllTokens(LineItems(line))
    decreases |line|, 0
  {
    var n := Span(line, "]\n");
    var name := line[1..][..Span(line[1..], "]")];
    var rest := Drop(line, |name| + 2);
    HeaderItems(line, n, name, rest);
    EmptyTokens();
    hide *;
    LineTokens(rest);
    AllTokensFirst(Section(name), LineItems(rest));
    TokensOfWord("[" + name);
    HeaderSplit(line);
    if n < |line| {
      TokensSeparate("[" + name, Split(rest));
      Concat3("[" + name, [NUL], Split(rest));
    } else {
      SplitEmpty("");
      assert ("[" + name) + "" == "[" + name;
    }
  }

  lemma {:induction false} HeaderItems(line: string, n: nat, name: string, rest: string)
    requires '\n' !in line && line != "" && line[0] == '['
    requires n == Span(line, "]\n") && name == line[1..][..Span(line[1..], "]")]
    requires rest == Drop(line, |name| + 2)
    ensures 1 <= n && "[" + name == line[..n] && NUL !in "[" + name && ("[" + name) != ""
    ensures |rest| < |line| && '\n' !in rest && rest == if n < |line| then line[n + 1..] else ""
    ensures LineItems(line) == [Section(name)] + LineItems(rest)
    ensures ItemTokens(Section(name)) == ["[" + name]
  {
    HeaderUnfolds(line);
    hide *;
    HeaderText(line, n, name, rest);
    HeaderToken(name);
  }

  lemma {:induction false} HeaderText(line: string, n: nat, name: string, rest: string)
    requires '\n' !in line && line != "" && line[0] == '['
    requires n == Span(line, "]\n") && name == line[1..][..Span(line[1..], "]")]
    requires rest == Drop(line, |name| + 2)
    ensures 1 <= n && "[" + name == line[..n] && NUL !in "[" + name && ("[" + name) != ""
    ensures |rest| < |line| && '\n' !in rest && rest == if n < |line| then line[n + 1..] else ""
  {
    hide Span;
    HeaderSpan(line);
    assert |name| == n - 1;
    assert forall i :: 0 <= i < |name| ==> name[i] == line[i + 1];
    assert "[" + name == line[..n];
    assert NUL !in line[..n];
  }

  lemma HeaderToken(name: string)
    ensures ItemTokens(Section(name)) == ["[" + name]
  {
  }

  // Lines that hold nothing, and blanks in front of a line.
  lemma {:induction false} BlankUnfolds(line: string)
    ensures line == "" || line[0] == ';' ==> LineItems(line) == []
    ensures line != "" && (IsBlank(line[0]) || line[0] == NUL) ==> LineItems(line) == LineItems(line[1..])
  {
  }

  lemma {:induction false} HeaderUnfolds(line: string)
    requires line != "" && line[0] == '['
    ensures var name := line[1..][..Span(line[1..], "]")];
      LineItems(line) == [Section(name)] + LineItems(Drop(line, |name| + 2))
  {
    hide Span, Drop;
  }

  lemma EmptyTokens()
    ensures LineItems("") == [] && AllTokens([]) == [] && Tokens("") == []
  {
  }

  lemma HeaderSpan(line: string)
    requires '\n' !in line && line != "" && line[0] == '['
    ensures Span(line, "]\n") == 1 + Span(line[1..], "]")
  {
    SpanInLine(line);
  }

  lemma {:induction false} KeyLineTokens(line: string)
    requires '\n' !in line && line != "" && !IsBlank(line[0]) && line[0] !in "\0[;"
    ensures Tokens(Split(line)) == AllTokens(LineItems(line))
    decreases |line|, 1
  {
    hide Split, Tokens, ItemBytes, KeyItem, Span, LineLength, BlankPrefix, KeyBytes, ValueItem, ReadValue, LineItems;
    SpanInLine(line);
    KeyLineItem(line);
    KeyLineItems(line);
    var eq := Span(line, "=");
    if eq == |line| || line[eq] == NUL {
      KeyItemWithoutEquals(line);
      WholeLineTokens(line);
    } else {
      var text := ValueText(line, eq);
      assert text == line[ValueStart(line, eq)..];
      ValueMatches(text);
      if ReadValue(text) == None {
        KeyItemWithoutValue(line);
        WholeLineTokens(line);
      } else {
        KeyItemWithValue(line);
        ValuedLineTokens(line, eq, text);
      }
    }
  }

  lemma {:induction false} KeyLineItems(line: string)
    requires line != "" && !IsBlank(line[0]) && line[0] !in "\0[;"
    ensures var eq := Span(line, "=");
      LineItems(line) ==
      if eq == |line| || line[eq] == NUL || ReadValue(ValueText(line, eq)) == None then []
      else
        var (value, rest) := ReadValue(ValueText(line, eq)).value;
        [Entry(TrimEnd(line[..eq]), value)] + LineItems(rest)
  {
    hide Span, ReadValue, ValueText, TrimEnd;
  }

  // What splitting makes of a value text is its value, padded up to what is left of the line.
  lemma ValueMatches(text: string)
    requires '\n' !in text
    ensures ReadValue(text) == None <==> ValueItem(text) == ""
    ensures ReadValue(text).Some? ==>
      var (value, rest) := ReadValue(text).value;
      var width := |ValueItem(text)|;
      && rest == text[width..]
      && |value| <= width
      && ValueItem(text) == Pad(value, width)
      && (|value| < width || rest == "" || rest[0] == NUL)
  {
    SpanInLine(text);
  }

  lemma {:induction false} ValuedLineTokens(line: string, eq: nat, text: string)
    requires '\n' !in line && line != "" && line[0] !in "\n"
    requires eq == Span(line, "=\n") < |line| && text == ValueText(line, eq) == line[ValueStart(line, eq)..]
    requires ReadValue(text).Some?
    requires ItemBytes(line) == KeyBytes(line) + ValueItem(text)
    ensures var (value, rest) := ReadValue(text).value;
      Tokens(Split(line)) == AllTokens([Entry(TrimEnd(line[..eq]), value)] + LineItems(rest))
    decreases |line|, 0
  {
    hide Split, Tokens, ItemBytes, Span, BlankPrefix, ReadValue, ValueItem, LineItems, TrimEnd, AllTokens;
    var (value, rest) := ReadValue(text).value;
    var key, k, bytes, tail := TrimEnd(line[..eq]), ValueStart(line, eq), ValueItem(text), Split(rest);
    ValueMatches(text);
    SplitStep(line, KeyBytes(line) + bytes, rest, tail);
    LineTokens(rest);
    if rest == "" || rest[0] == NUL {
      SplitAtNul(rest);
    }
    hide *;
    TokensOfPad(key, k, bytes + tail);
    TokensOfPad(value, |bytes|, tail);
    Concat3(Pad(key, k), bytes, tail);
    AllTokensFirst(Entry(key, value), LineItems(rest));
  }

  lemma SplitAtNul(rest: string)
    requires rest == "" || rest[0] == NUL
    ensures Split(rest) == "" || Split(rest)[0] == NUL
  {
  }
}
