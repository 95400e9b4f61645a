/** The lines of an INI file as they are written, character by character: a grammar in which
    every file can be derived, and what each of its lines says. */
module IniGrammar {
  import opened Wrappers
  import opened IniText
  import opened IniSplit
  import opened IniTokens
  import opened IniReference
  import opened IniLine
  import opened IniPairing

  // ----- quoted text

  datatype Piece = Plain(c: char) | Escaped(c: char)

  predicate LegalPiece(p: Piece) {
    match p
    case Plain(c) => c != '"' && c != '\\' && c != '\r' && c != '\n'
    case Escaped(c) => c != '\r' && c != '\n' && c != '\0'
  }

  predicate LegalPieces(pieces: seq<Piece>) {
    forall i :: 0 <= i < |pieces| ==> LegalPiece(pieces[i])
  }

  function SpellPiece(p: Piece): string {
    match p
    case Plain(c) => [c]
    case Escaped(c) => ['\\', c]
  }

  function SpellPieces(pieces: seq<Piece>): string {
    if pieces == [] then "" else SpellPiece(pieces[0]) + SpellPieces(pieces[1..])
  }

  // After a backslash r, n and t stand for other characters, all others for themselves.
  function Denoted(p: Piece): char {
    match p
    case Plain(c) => c
    case Escaped(c) =>
      if c == 'r' then '\r' else if c == 'n' then '\n' else if c == 't' then '\t' else c
  }

  function Denotes(pieces: seq<Piece>): (value: string)
    ensures |value| == |pieces|
    ensures forall i :: 0 <= i < |pieces| ==> value[i] == Denoted(pieces[i])
  {
    seq(|pieces|, i requires 0 <= i < |pieces| => Denoted(pieces[i]))
  }

  // What ends a quoted value: a quote, the end of the line or of the text, or a backslash
  // with nothing to escape.
  predicate Closes(t: string) {
    t == "" || t[0] == '"' || t[0] == '\r' || t[0] == '\n'
    || (t[0] == '\\' && (|t| == 1 || t[1] == '\r' || t[1] == '\n' || t[1] == '\0'))
  }

  /** Quoted text reads as the characters that its pieces denote. */
  lemma {:induction false} UnescapePieces(pieces: seq<Piece>, close: string)
    requires LegalPieces(pieces) && Closes(close)
    ensures Unescape(SpellPieces(pieces) + close) == Denotes(pieces)
  {
    hide *;
    if pieces == [] {
      NoPieces(close);
    } else {
      var p, more := pieces[0], pieces[1..];
      FirstPiece(pieces);
      FirstDenoted(pieces);
      UnescapePieces(more, close);
      UnescapePiece(p, SpellPieces(more) + close);
      assert SpellPiece(p) + SpellPieces(more) + close == SpellPiece(p) + (SpellPieces(more) + close);
    }
  }

  lemma NoPieces(close: string)
    requires Closes(close)
    ensures Unescape(SpellPieces([]) + close) == Denotes([])
  {
    assert SpellPieces([]) + close == close;
  }

  lemma FirstPiece(pieces: seq<Piece>)
    requires pieces != [] && LegalPieces(pieces)
    ensures LegalPiece(pieces[0]) && LegalPieces(pieces[1..])
    ensures SpellPieces(pieces) == SpellPiece(pieces[0]) + SpellPieces(pieces[1..])
  {
    hide LegalPiece, SpellPiece;
  }

  lemma FirstDenoted(pieces: seq<Piece>)
    requires pieces != []
    ensures Denotes(pieces) == [Denoted(pieces[0])] + Denotes(pieces[1..])
  {
    hide Denoted;
  }

  lemma UnescapePiece(p: Piece, rest: string)
    requires LegalPiece(p)
    ensures Unescape(SpellPiece(p) + rest) == [Denoted(p)] + Unescape(rest)
  {
    var t := SpellPiece(p) + rest;
    match p
    case Plain(c) =>
      assert t[0] == c && t[1..] == rest;
    case Escaped(c) =>
      assert t[0] == '\\' && t[1] == c && t[2..] == rest;
  }

  // Any text can be read so.
  lemma {:induction false} EveryQuotedText(t: string) returns (pieces: seq<Piece>, close: string)
    ensures LegalPieces(pieces) && Closes(close) && t == SpellPieces(pieces) + close
  {
    if Closes(t) {
      pieces, close := [], t;
    } else {
      var p := if t[0] == '\\' then Escaped(t[1]) else Plain(t[0]);
      var rest := t[|SpellPiece(p)|..];
      assert LegalPiece(p) && t == SpellPiece(p) + rest;
      hide Closes, LegalPiece, SpellPiece;
      var more;
      more, close := EveryQuotedText(rest);
      pieces := [p] + more;
      MorePieces(p, more);
    }
  }

  lemma MorePieces(p: Piece, more: seq<Piece>)
    ensures SpellPieces([p] + more) == SpellPiece(p) + SpellPieces(more)
    ensures LegalPiece(p) && LegalPieces(more) ==> LegalPieces([p] + more)
  {
    assert ([p] + more)[1..] == more;
  }

  // ----- lines

  predicate Blank(s: string) {
    forall i :: 0 <= i < |s| ==> s[i] == ' ' || s[i] == '\t' || s[i] == '\r'
  }

  // Neither the first nor the last character is a blank.
  predicate Trimmed(s: string) {
    s != "" ==>
      s[0] != ' ' && s[0] != '\t' && s[0] != '\r'
      && s[|s| - 1] != ' ' && s[|s| - 1] != '\t' && s[|s| - 1] != '\r'
  }

  // A key that can be written in front of a '='.
  predicate WritableKey(key: string) {
    (forall i :: 0 <= i < |key| ==> key[i] != '=' && key[i] != '\n' && key[i] != '\0')
    && (key != "" ==> key[0] != '[' && key[0] != ';')
    && Trimmed(key)
  }

  // A value that needs no quotes.
  predicate WritableValue(v: string) {
    v != "" && (forall i :: 0 <= i < |v| ==> v[i] != '\0') && v[0] != '"' && Trimmed(v)
  }

  // What stands in front of a value: the key, the '=' and the blanks around it.
  datatype Name = Name(key: string, before: string, after: string)

  predicate LegalName(n: Name) {
    WritableKey(n.key) && Blank(n.before) && Blank(n.after) && (n.key == "" ==> n.before == "")
  }

  datatype Line =
    | Empty
    | Gap(c: char, rest: Line)
    | Comment(text: string)
    | Header(name: string, closed: bool, rest: Line)
    | Unpaired(text: string, junk: string)
    | Valueless(of: Name, junk: string)
    | Quoted(of: Name, pieces: seq<Piece>, close: string)
    | Bare(of: Name, value: string, end: string, rest: Line)

  function SpellName(n: Name): string {
    n.key + n.before + "=" + n.after
  }

  function Spell(line: Line): string {
    match line
    case Empty => ""
    case Gap(c, rest) => [c] + Spell(rest)
    case Comment(text) => ";" + text
    case Header(name, closed, rest) => "[" + name + ((if closed then "]" else "") + Spell(rest))
    case Unpaired(text, junk) => text + junk
    case Valueless(of, junk) => SpellName(of) + junk
    case Quoted(of, pieces, close) => SpellName(of) + ("\"" + (SpellPieces(pieces) + close))
    case Bare(of, value, end, rest) => SpellName(of) + (value + end + Spell(rest))
  }

  // A NUL stands between what was written and the rest of the line, if there is any.
  predicate AtNul(rest: string) {
    rest == "" || rest[0] == '\0'
  }

  predicate Legal(line: Line) {
    match line
    case Empty => true
    case Gap(c, rest) => (c == ' ' || c == '\t' || c == '\r' || c == '\0') && Legal(rest)
    case Comment(text) => true
    case Header(name, closed, rest) =>
      (forall i :: 0 <= i < |name| ==> name[i] != ']' && name[i] != '\0')
      && (closed || rest.Empty? || (rest.Gap? && rest.c == '\0')) && Legal(rest)
    case Unpaired(text, junk) =>
      text != "" && Trimmed(text[..1]) && text[0] != '[' && text[0] != ';' && text[0] != '\0'
      && (forall i :: 0 <= i < |text| ==> text[i] != '=' && text[i] != '\0')
      && AtNul(junk)
    case Valueless(of, junk) => LegalName(of) && AtNul(junk)
    case Quoted(of, pieces, close) => LegalName(of) && LegalPieces(pieces) && Closes(close)
    case Bare(of, value, end, rest) =>
      LegalName(of) && WritableValue(value) && Blank(end)
      && (rest.Empty? || (rest.Gap? && rest.c == '\0')) && Legal(rest)
  }

  // What a line says.
  function Says(line: Line): seq<Item> {
    match line
    case Empty => []
    case Gap(c, rest) => Says(rest)
    case Comment(text) => []
    case Header(name, closed, rest) => [Section(name)] + Says(rest)
    case Unpaired(text, junk) => []
    case Valueless(of, junk) => []
    case Quoted(of, pieces, close) => if pieces == [] then [] else [Entry(of.key, Denotes(pieces))]
    case Bare(of, value, end, rest) => [Entry(of.key, value)] + Says(rest)
  }

  /** A line reads as what it says. */
  lemma {:induction false} LineReads(line: Line)
    requires Legal(line)
    ensures LineItems(Spell(line)) == Says(line)
    decreases line
  {
    hide LineItems, ReadValue, Span, Unescape, LegalName, WritableValue, Blank, LegalPieces, Closes, SpellName;
    EmptyTokens();
    BlankUnfolds(Spell(line));
    match line
    case Empty =>
    case Gap(c, rest) =>
      LineReads(rest);
      assert Spell(line)[1..] == Spell(rest);
    case Comment(_) =>
    case Header(name, closed, rest) =>
      LineReads(rest);
      HeaderReads(name, closed, rest);
    case Unpaired(text, rest) =>
      UnpairedReads(text, rest);
    case Valueless(of, rest) =>
      PairReads(of, rest);
      NoValue(rest);
    case Quoted(of, pieces, close) =>
      var text := SpellPieces(pieces) + close;
      PairReads(of, "\"" + text);
      UnescapePieces(pieces, close);
      QuotedValue(text);
    case Bare(of, value, end, rest) =>
      PlainText(value, end, Spell(rest));
      PairReads(of, value + end + Spell(rest));
      LineReads(rest);
  }

  // What stands behind the name of a header.
  function HeaderTail(closed: bool, rest: Line): string {
    (if closed then "]" else "") + Spell(rest)
  }

  lemma {:induction false} HeaderReads(name: string, closed: bool, rest: Line)
    requires Legal(Header(name, closed, rest))
    ensures LineItems(Spell(Header(name, closed, rest))) == [Section(name)] + LineItems(Spell(rest))
  {
    HeaderSpelled(name, closed, rest);
    hide *;
    HeaderLine(name, HeaderTail(closed, rest));
    EmptyTokens();
  }

  lemma HeaderSpelled(name: string, closed: bool, rest: Line)
    requires Legal(Header(name, closed, rest))
    ensures forall i :: 0 <= i < |name| ==> name[i] != ']' && name[i] != '\0'
    ensures var tail := HeaderTail(closed, rest);
      && Spell(Header(name, closed, rest)) == "[" + name + tail
      && (tail == "" || tail[0] == ']' || tail[0] == '\0')
      && LineItems(if tail == "" then "" else tail[1..]) == LineItems(Spell(rest))
  {
    hide LineItems;
    if closed {
      assert HeaderTail(closed, rest)[1..] == Spell(rest);
    } else {
      assert HeaderTail(closed, rest) == Spell(rest);
      assert rest.Empty? ==> Spell(rest) == "";
      if rest.Gap? {
        NulSkipped(Spell(rest));
      }
    }
  }

  lemma {:induction false} HeaderLine(name: string, tail: string)
    requires forall i :: 0 <= i < |name| ==> name[i] != ']' && name[i] != '\0'
    requires tail == "" || tail[0] == ']' || tail[0] == '\0'
    ensures LineItems("[" + name + tail) ==
      [Section(name)] + LineItems(if tail == "" then "" else tail[1..])
  {
    var line := "[" + name + tail;
    assert line[1..] == name + tail;
    hide *;
    NameSpan(name, tail);
    HeaderUnfolds(line);
    DropHeader(name, tail);
  }

  lemma DropHeader(name: string, tail: string)
    ensures Drop("[" + name + tail, |name| + 2) == if tail == "" then "" else tail[1..]
  {
  }

  lemma NulSkipped(line: string)
    requires line != "" && line[0] == '\0'
    ensures LineItems(line) == LineItems(line[1..])
  {
  }

  lemma NameSpan(name: string, tail: string)
    requires forall i :: 0 <= i < |name| ==> name[i] != ']' && name[i] != '\0'
    requires tail == "" || tail[0] == ']' || tail[0] == '\0'
    ensures Span(name + tail, "]") == |name| && (name + tail)[..|name|] == name
  {
    var s := name + tail;
    assert forall i :: 0 <= i < |name| ==> s[i] == name[i];
    assert tail != "" ==> s[|name|] == tail[0];
  }

  lemma {:induction false} UnpairedReads(text: string, rest: string)
    requires Legal(Unpaired(text, rest))
    ensures LineItems(text + rest) == []
  {
    var line := text + rest;
    assert forall i :: 0 <= i < |text| ==> line[i] == text[i];
    assert rest != "" ==> line[|text|] == rest[0];
    assert Span(line, "=") == |text|;
    hide LineItems;
    KeyLineItems(line);
  }

  lemma NoValue(text: string)
    requires AtNul(text)
    ensures ReadValue(text) == None
  {
  }

  lemma QuotedValue(text: string)
    ensures ReadValue("\"" + text) == if Unescape(text) == "" then None else Some((Unescape(text), ""))
  {
    assert ("\"" + text)[1..] == text;
  }

  // A key with a '=' and any value.
  lemma {:induction false} PairReads(n: Name, text: string)
    requires LegalName(n) && (text == "" || !IsBlank(text[0]))
    ensures LineItems(SpellName(n) + text) ==
      if ReadValue(text) == None then []
      else [Entry(n.key, ReadValue(text).value.0)] + LineItems(ReadValue(text).value.1)
  {
    var line := SpellName(n) + text;
    PairParts(n, text, line);
    TrimEndBlanks(n.key, n.before);
    assert !IsBlank(line[0]) && line[0] !in "\0[;";
    hide *;
    KeyLineItems(line);
  }

  lemma {:induction false} PairParts(n: Name, text: string, line: string)
    requires LegalName(n) && (text == "" || !IsBlank(text[0])) && line == SpellName(n) + text
    ensures line != "" && line[0] == if n.key == "" then '=' else n.key[0]
    ensures var eq := |n.key + n.before|;
      && Span(line, "=") == eq < |line| && line[eq] == '='
      && line[..eq] == n.key + n.before && ValueText(line, eq) == text
  {
    var raw, rest := n.key + n.before, n.after + text;
    RawName(n);
    assert line == raw + "=" + rest;
    hide *;
    CutAtEquals(raw, rest);
    ValueAfter(n.after, text);
    ValueTextIs(line, |raw|, |n.after|);
  }

  lemma RawName(n: Name)
    requires LegalName(n)
    ensures var raw := n.key + n.before;
      && (forall i :: 0 <= i < |raw| ==> raw[i] != '\0' && raw[i] != '=')
      && (raw != "" ==> n.key != "" && raw[0] == n.key[0]) && (raw == "" ==> n.key == "")
      && Blank(n.after)
  {
  }

  lemma ValueTextIs(line: string, eq: nat, n: nat)
    requires eq < |line| && n == BlankPrefix(line[eq + 1..])
    ensures ValueText(line, eq) == line[eq + 1..][n..]
  {
  }

  lemma CutAtEquals(raw: string, rest: string)
    requires forall i :: 0 <= i < |raw| ==> raw[i] != '\0' && raw[i] != '='
    ensures var line := raw + "=" + rest;
      && line[0] == (if raw == "" then '=' else raw[0])
      && Span(line, "=") == |raw| && line[|raw|] == '=' && line[..|raw|] == raw && line[|raw| + 1..] == rest
  {
    var line := raw + "=" + rest;
    assert forall i :: 0 <= i < |raw| ==> line[i] == raw[i];
    assert line[|raw|] == '=' && '=' in "=";
  }

  lemma ValueAfter(after: string, text: string)
    requires Blank(after) && (text == "" || !IsBlank(text[0]))
    ensures BlankPrefix(after + text) == |after| && (after + text)[|after|..] == text
  {
    var rest := after + text;
    assert forall i :: 0 <= i < |after| ==> rest[i] == after[i];
    assert text != "" ==> rest[|after|] == text[0];
  }

  lemma {:induction false} TrimEndBlanks(s: string, blanks: string)
    requires Blank(blanks) && Trimmed(s)
    ensures TrimEnd(s + blanks) == s
  {
    var t := s + blanks;
    if blanks == "" {
      assert t == s;
    } else {
      assert t[..|t| - 1] == s + blanks[..|blanks| - 1];
      TrimEndBlanks(s, blanks[..|blanks| - 1]);
    }
  }

  lemma PlainText(value: string, end: string, rest: string)
    requires WritableValue(value) && Blank(end) && AtNul(rest)
    ensures var text := value + end + rest;
      text != "" && !IsBlank(text[0]) && ReadValue(text) == Some((value, rest))
  {
    var n, text := |value + end|, value + end + rest;
    assert forall i :: 0 <= i < n ==> text[i] == if i < |value| then value[i] else end[i - |value|];
    assert rest != "" ==> text[n] == rest[0];
    assert Span(text, "") == n;
    assert text[..n] == value + end && text[n..] == rest;
    TrimEndBlanks(value, end);
  }

  // ----- every line can be derived

  /** Whatever a line holds, the grammar has a spelling for it. */
  lemma {:induction false} EveryLine(s: string) returns (line: Line)
    requires '\n' !in s
    ensures Legal(line) && Spell(line) == s
    ensures (s == "" ==> line.Empty?) && (s != "" && s[0] == '\0' ==> line.Gap? && line.c == '\0')
    decreases |s|, 1
  {
    hide *;
    LineStarts(s);
    if s == "" {
      line := Empty;
    } else if s[0] == ' ' || s[0] == '\t' || s[0] == '\r' || s[0] == '\0' {
      var rest := EveryLine(s[1..]);
      line := Gap(s[0], rest);
      GapMade(s, rest);
    } else if s[0] == '[' {
      line := EveryHeader(s);
    } else if s[0] == ';' || Span(s, "=") == |s| || s[Span(s, "=")] == '\0' {
      line := EverySilent(s);
    } else {
      line := EveryPair(s);
    }
  }

  lemma LineStarts(s: string)
    ensures Legal(Empty) && Spell(Empty) == ""
    ensures s != "" && s[0] != ' ' && s[0] != '\t' && s[0] != '\r' ==> !IsBlank(s[0])
    ensures Span(s, "=") < |s| ==> s[Span(s, "=")] == '=' || s[Span(s, "=")] == '\0'
  {
  }

  lemma GapMade(s: string, rest: Line)
    requires s != "" && (s[0] == ' ' || s[0] == '\t' || s[0] == '\r' || s[0] == '\0')
    requires Legal(rest) && Spell(rest) == s[1..]
    ensures Legal(Gap(s[0], rest)) && Spell(Gap(s[0], rest)) == s
  {
  }

  // A comment, or a line whose first string has no '='.
  lemma EverySilent(s: string) returns (line: Line)
    requires s != "" && !IsBlank(s[0]) && s[0] != '[' && s[0] != '\0'
    requires s[0] == ';' || Span(s, "=") == |s| || s[Span(s, "=")] == '\0'
    ensures Legal(line) && Spell(line) == s && Says(line) == []
    ensures !line.Empty? && !line.Gap?
  {
    if s[0] == ';' {
      line := Comment(s[1..]);
    } else {
      var n := Span(s, "=");
      line := Unpaired(s[..n], s[n..]);
    }
  }

  lemma {:induction false} EveryHeader(s: string) returns (line: Line)
    requires '\n' !in s && s != "" && s[0] == '['
    ensures Legal(line) && Spell(line) == s && line.Header?
    decreases |s|, 0
  {
    HeaderCut(s);
    hide *;
    var n := Span(s[1..], "]");
    var name, tail := s[1..][..n], s[1..][n..];
    var closed := tail != "" && tail[0] == ']';
    var rest := EveryLine(if closed then tail[1..] else tail);
    line := Header(name, closed, rest);
    HeaderMade(s, name, tail, closed, rest);
  }

  lemma HeaderCut(s: string)
    requires '\n' !in s && s != "" && s[0] == '['
    ensures var n := Span(s[1..], "]");
      var name, tail := s[1..][..n], s[1..][n..];
      && s == "[" + name + tail && '\n' !in tail
      && (tail == "" || tail[0] == ']' || tail[0] == '\0')
      && (forall i :: 0 <= i < |name| ==> name[i] != ']' && name[i] != '\0')
  {
  }

  lemma HeaderMade(s: string, name: string, tail: string, closed: bool, rest: Line)
    requires s == "[" + name + tail
    requires forall i :: 0 <= i < |name| ==> name[i] != ']' && name[i] != '\0'
    requires closed <==> tail != "" && tail[0] == ']'
    requires Legal(rest) && Spell(rest) == if closed then tail[1..] else tail
    requires closed || rest.Empty? || (rest.Gap? && rest.c == '\0')
    ensures Legal(Header(name, closed, rest)) && Spell(Header(name, closed, rest)) == s
  {
    assert tail == HeaderTail(closed, rest);
  }

  lemma {:induction false} EveryPair(s: string) returns (line: Line)
    requires '\n' !in s && s != "" && !IsBlank(s[0]) && s[0] !in "\0[;"
    requires Span(s, "=") < |s| && s[Span(s, "=")] == '='
    ensures Legal(line) && Spell(line) == s && !line.Gap? && !line.Empty?
    decreases |s|, 0
  {
    hide *;
    var text := ValueText(s, Span(s, "="));
    var n := EveryName(s);
    if text == "" || text[0] == '\0' {
      line := Valueless(n, text);
      ValuelessMade(n, text);
    } else if text[0] == '"' {
      assert text == "\"" + text[1..];
      var pieces, close := EveryQuotedText(text[1..]);
      line := Quoted(n, pieces, close);
      QuotedMade(n, pieces, close);
    } else {
      var value, end, junk := EveryValue(text);
      var rest := EveryLine(junk);
      line := Bare(n, value, end, rest);
      BareMade(n, value, end, rest);
    }
  }

  lemma ValuelessMade(n: Name, text: string)
    ensures LegalName(n) && (text == "" || text[0] == '\0') ==> Legal(Valueless(n, text))
    ensures Spell(Valueless(n, text)) == SpellName(n) + text
  {
  }

  lemma QuotedMade(n: Name, pieces: seq<Piece>, close: string)
    ensures LegalName(n) && LegalPieces(pieces) && Closes(close) ==> Legal(Quoted(n, pieces, close))
    ensures Spell(Quoted(n, pieces, close)) == SpellName(n) + ("\"" + (SpellPieces(pieces) + close))
  {
  }

  lemma BareMade(n: Name, value: string, end: string, rest: Line)
    requires LegalName(n) && WritableValue(value) && Blank(end) && Legal(rest)
    requires rest.Empty? || (rest.Gap? && rest.c == '\0')
    ensures Legal(Bare(n, value, end, rest))
    ensures Spell(Bare(n, value, end, rest)) == SpellName(n) + (value + end + Spell(rest))
  {
    hide LegalName, WritableValue, Blank, SpellName;
  }

  lemma {:induction false} EveryName(s: string) returns (n: Name)
    requires '\n' !in s && s != "" && !IsBlank(s[0]) && s[0] !in "\0[;"
    requires Span(s, "=") < |s| && s[Span(s, "=")] == '='
    ensures LegalName(n)
    ensures var text := ValueText(s, Span(s, "="));
      s == SpellName(n) + text && (text == "" || !IsBlank(text[0]))
  {
    hide *;
    var eq := Span(s, "=");
    var raw, rest := s[..eq], s[eq + 1..];
    var key, k := TrimEnd(raw), BlankPrefix(rest);
    n := Name(key, raw[|key|..], rest[..k]);
    BeforeEquals(s);
    TrimEndIsPrefix(raw);
    AllBlank(n.before);
    AllBlank(n.after);
    LegalKey(n, raw);
    NameText(s, eq, n, k);
  }

  lemma BeforeEquals(s: string)
    requires '\n' !in s
    ensures forall i :: 0 <= i < Span(s, "=") ==> s[i] != '=' && s[i] != '\n' && s[i] != '\0'
  {
    assert '=' in "=";
  }

  lemma AllBlank(s: string)
    requires forall i :: 0 <= i < |s| ==> IsBlank(s[i])
    ensures Blank(s)
  {
  }

  lemma NameText(s: string, eq: nat, n: Name, k: nat)
    requires eq < |s| && s[eq] == '=' && s[..eq] == n.key + n.before
    requires k == BlankPrefix(s[eq + 1..]) && n.after == s[eq + 1..][..k]
    ensures var text := ValueText(s, eq);
      s == SpellName(n) + text && (text == "" || !IsBlank(text[0]))
  {
    hide BlankPrefix, IsBlank;
    var rest := s[eq + 1..];
    assert ValueText(s, eq) == rest[k..];
    assert s == s[..eq] + "=" + rest && rest == n.after + rest[k..];
  }

  lemma LegalKey(n: Name, raw: string)
    requires raw == n.key + n.before && Blank(n.before) && Blank(n.after)
    requires forall i :: 0 <= i < |raw| ==> raw[i] != '=' && raw[i] != '\n' && raw[i] != '\0'
    requires raw != "" ==> !IsBlank(raw[0]) && raw[0] != '[' && raw[0] != ';'
    requires n.key != "" ==> !IsBlank(n.key[|n.key| - 1])
    ensures LegalName(n)
  {
    assert forall i :: 0 <= i < |n.key| ==> n.key[i] == raw[i];
    assert n.key == "" ==> raw == n.before;
  }

  lemma {:induction false} EveryValue(text: string) returns (value: string, end: string, junk: string)
    requires text != "" && text[0] != '\0' && text[0] != '"' && !IsBlank(text[0])
    ensures WritableValue(value) && Blank(end) && (junk == "" || junk[0] == '\0')
    ensures text == value + end + junk && |junk| < |text|
  {
    hide TrimEnd;
    var n := Span(text, "");
    var raw := text[..n];
    value := TrimEnd(raw);
    TrimEndIsPrefix(raw);
    end, junk := raw[|value|..], text[n..];
    assert n > 0 && raw[0] == text[0];
    assert value != "" && value[0] == text[0];
    assert forall i :: 0 <= i < |value| ==> value[i] == text[i] != '\0';
    assert raw == value + end && text == raw + junk;
  }

  // ----- a carriage return at the end of a line

  // The line ends in a header without its bracket.
  predicate EndsOpen(line: Line) {
    match line
    case Gap(c, rest) => EndsOpen(rest)
    case Header(name, closed, rest) => if rest.Empty? then !closed else EndsOpen(rest)
    case Bare(of, value, end, rest) => EndsOpen(rest)
    case _ => false
  }

  // The line with a carriage return behind it.
  function WithReturn(line: Line): Line {
    match line
    case Empty => Gap('\r', Empty)
    case Gap(c, rest) => Gap(c, WithReturn(rest))
    case Comment(text) => Comment(text + "\r")
    case Header(name, closed, rest) =>
      if EndsOpen(line) && rest.Empty? then Header(name + "\r", closed, rest)
      else Header(name, closed, WithReturn(rest))
    case Unpaired(text, junk) =>
      if junk == "" then Unpaired(text + "\r", "") else Unpaired(text, junk + "\r")
    case Valueless(of, junk) =>
      if junk == "" then Valueless(of.(after := of.after + "\r"), "") else Valueless(of, junk + "\r")
    case Quoted(of, pieces, close) => Quoted(of, pieces, close + "\r")
    case Bare(of, value, end, rest) =>
      if rest.Empty? then Bare(of, value, end + "\r", rest) else Bare(of, value, end, WithReturn(rest))
  }

  lemma {:induction false} ReturnSpelled(line: Line)
    requires Legal(line)
    ensures Legal(WithReturn(line)) && Spell(WithReturn(line)) == Spell(line) + "\r"
    decreases line
  {
    hide WritableKey, WritableValue, LegalPieces, LegalPiece, SpellPieces, Trimmed;
    if (line.Gap? || line.Header? || line.Bare?) && !line.rest.Empty? {
      ReturnSpelled(line.rest);
      ReturnInTail(line);
    } else {
      ReturnAtEnd(line);
    }
  }

  lemma ReturnInTail(line: Line)
    requires Legal(line) && (line.Gap? || line.Header? || line.Bare?) && !line.rest.Empty?
    requires Legal(WithReturn(line.rest)) && Spell(WithReturn(line.rest)) == Spell(line.rest) + "\r"
    ensures Legal(WithReturn(line)) && Spell(WithReturn(line)) == Spell(line) + "\r"
  {
    ReturnLegal(line);
    RestLast(line);
    RestLast(WithReturn(line));
    hide *;
    assert InFront(line) + (Spell(line.rest) + "\r") == InFront(line) + Spell(line.rest) + "\r";
  }

  lemma ReturnLegal(line: Line)
    requires Legal(line) && (line.Gap? || line.Header? || line.Bare?) && !line.rest.Empty?
    requires Legal(WithReturn(line.rest))
    ensures Legal(WithReturn(line)) && WithReturn(line) == line.(rest := WithReturn(line.rest))
    ensures InFront(WithReturn(line)) == InFront(line)
  {
    hide LegalName, WritableValue, Blank, SpellName, Spell;
  }

  // What a line with a rest holds in front of it.
  function InFront(line: Line): string
    requires line.Gap? || line.Header? || line.Bare?
  {
    match line
    case Gap(c, _) => [c]
    case Header(name, closed, _) => "[" + name + (if closed then "]" else "")
    case Bare(of, value, end, _) => SpellName(of) + (value + end)
  }

  lemma RestLast(line: Line)
    requires line.Gap? || line.Header? || line.Bare?
    ensures Spell(line) == InFront(line) + Spell(line.rest)
  {
    hide SpellName;
  }

  lemma ReturnAtEnd(line: Line)
    requires Legal(line) && ((line.Gap? || line.Header? || line.Bare?) ==> line.rest.Empty?)
    ensures Legal(WithReturn(line)) && Spell(WithReturn(line)) == Spell(line) + "\r"
  {
    hide LegalName, WritableValue, Blank, SpellName, SpellPieces, LegalPieces, Closes;
    if line.Valueless? || line.Quoted? || line.Bare? {
      ReturnAfterName(line);
    } else if line.Unpaired? {
      assert (line.text + "\r")[..1] == line.text[..1];
    }
  }

  lemma ReturnAfterName(line: Line)
    requires Legal(line) && (line.Valueless? || line.Quoted? || (line.Bare? && line.rest.Empty?))
    ensures Legal(WithReturn(line)) && Spell(WithReturn(line)) == Spell(line) + "\r"
  {
    hide WritableKey, WritableValue, LegalPieces, SpellPieces, Trimmed, Blank, Closes;
    if line.Valueless? {
      MoreBlank(line.of.after);
    } else if line.Quoted? {
      hide LegalName, SpellName;
      StillCloses(line.close);
    } else {
      hide LegalName, SpellName;
      assert Spell(line.rest) == "";
      MoreBlank(line.end);
    }
  }

  lemma MoreBlank(s: string)
    requires Blank(s)
    ensures Blank(s + "\r")
  {
  }

  lemma StillCloses(t: string)
    requires Closes(t)
    ensures Closes(t + "\r")
  {
  }

  lemma {:induction false} ReturnSays(line: Line)
    ensures |Says(WithReturn(line))| == |Says(line)|
    ensures Says(WithReturn(line)) == Says(line) <==> !EndsOpen(line)
    decreases line
  {
    match line
    case Gap(_, rest) => ReturnSays(rest);
    case Header(name, closed, rest) =>
      if EndsOpen(line) && rest.Empty? {
        assert Says(WithReturn(line))[0] == Section(name + "\r") && Says(line)[0] == Section(name);
        assert |name + "\r"| != |name|;
      } else {
        ReturnSays(rest);
        SameTail(Section(name), Says(WithReturn(rest)), Says(rest));
      }
    case Bare(of, value, _, rest) =>
      if !rest.Empty? {
        ReturnSays(rest);
        SameTail(Entry(of.key, value), Says(WithReturn(rest)), Says(rest));
      }
    case _ =>
  }

  lemma SameTail(item: Item, a: seq<Item>, b: seq<Item>)
    ensures [item] + a == [item] + b <==> a == b
  {
    if [item] + a == [item] + b {
      assert a == ([item] + a)[1..] == ([item] + b)[1..] == b;
    }
  }
}
