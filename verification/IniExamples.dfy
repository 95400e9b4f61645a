/** The two kinds of line on which the walk goes wrong, each in its smallest form. */
module IniExamples {
  import opened IniText
  import opened IniSplit
  import opened IniTokens
  import opened IniReference
  import opened IniLine
  import opened IniPairing
  import opened IniGrammar
  import opened IniWritten

  lemma PlainEntry(key: string, c: char)
    requires WritableKey(key) && !IsBlank(c) && c != NUL && c != '"'
    ensures LineItems(key + "=" + [c]) == [Entry(key, [c])]
  {
    var of := Name(key, "", "");
    assert SpellName(of) + [c] == key + "=" + [c];
    PairReads(of, [c]);
    EmptyTokens();
    hide LineItems;
    assert Span([c], "") == 1;
    assert [c][..1] == [c] && [c][1..] == "" && TrimEnd([c]) == [c];
  }

  /** A line that starts with '=' shifts the pairing: its value is taken for a key. */
  lemma EmptyKeyExample()
    ensures FileSettings("=v\nk=x") == [Setting("", "", "v"), Setting("", "k", "x")]
    ensures Settings(Split("=v\nk=x")) == [Setting("", "v", "k"), Setting("", "x", "")]
  {
    var file := "=v\nk=x";
    EmptyKeyItems(file);
    EmptyKeySettings();
    hide FileItems, AllTokens, Split, Tokens, Walk, InSections;
    FileTokens(file);
    EmptyKeyTokens();
  }

  lemma EmptyKeySettings()
    ensures InSections([Entry("", "v"), Entry("k", "x")], "") == [Setting("", "", "v"), Setting("", "k", "x")]
    ensures Walk(["v", "k", "x"], "") == [Setting("", "v", "k"), Setting("", "x", "")]
  {
    InSectionsEntry("", "v", [Entry("k", "x")]);
    InSectionsEntry("k", "x", []);
    assert [Entry("", "v")] + [Entry("k", "x")] == [Entry("", "v"), Entry("k", "x")];
    WalkTwo("v", "k", ["x"]);
    assert ["v", "k"] + ["x"] == ["v", "k", "x"];
    assert 'x' == "x"[0];
  }

  lemma InSectionsEntry(key: string, value: string, items: seq<Item>)
    ensures InSections([Entry(key, value)] + items, "") == [Setting("", key, value)] + InSections(items, "")
    ensures InSections([], "") == []
  {
    assert ([Entry(key, value)] + items)[1..] == items;
  }

  lemma WalkTwo(key: string, value: string, ts: seq<string>)
    requires key != "" && key[0] != '['
    ensures Walk([key, value] + ts, "") == [Setting("", key, value)] + Walk(ts, "")
  {
    assert ([key, value] + ts)[2..] == ts;
  }

  lemma EmptyKeyItems(file: string)
    requires file == "=v\nk=x"
    ensures FileItems(file) == [Entry("", "v"), Entry("k", "x")]
  {
    hide LineItems, FileItems, LineLength;
    var first, second := "" + "=" + ['v'], "k" + "=" + ['x'];
    assert file == first + "\n" + second;
    PlainEntry("", 'v');
    PlainEntry("k", 'x');
    FileItemsLine(first, second);
    LastLine(second);
  }

  lemma EmptyKeyTokens()
    ensures AllTokens([Entry("", "v"), Entry("k", "x")]) == ["v", "k", "x"]
  {
    hide Tokens;
    TokensOfWord("");
    TokensOfWord("v");
    TokensOfWord("k");
    TokensOfWord("x");
    AllTokensFirst(Entry("", "v"), [Entry("k", "x")]);
    AllTokensFirst(Entry("k", "x"), []);
  }

  /** A raw NUL between quotes cuts the value in two, with the same effect. */
  lemma EmbeddedNulExample()
    ensures FileSettings("k=\"a\0b") == [Setting("", "k", "a\0b")]
    ensures Settings(Split("k=\"a\0b")) == [Setting("", "k", "a"), Setting("", "b", "")]
  {
    var file := "k=\"a\0b";
    EmbeddedNulItems(file);
    EmbeddedNulSettings();
    hide FileItems, AllTokens, Split, Tokens, Walk, InSections;
    FileTokens(file);
    EmbeddedNulTokens();
  }

  lemma EmbeddedNulSettings()
    ensures InSections([Entry("k", "a\0b")], "") == [Setting("", "k", "a\0b")]
    ensures Walk(["k", "a", "b"], "") == [Setting("", "k", "a"), Setting("", "b", "")]
  {
    InSectionsEntry("k", "a\0b", []);
    WalkTwo("k", "a", ["b"]);
    assert ["k", "a"] + ["b"] == ["k", "a", "b"];
    assert 'b' == "b"[0];
  }

  lemma EmbeddedNulItems(file: string)
    requires file == "k=\"a\0b"
    ensures FileItems(file) == [Entry("k", "a\0b")]
  {
    var of, pieces := Name("k", "", ""), [Plain('a'), Plain('\0'), Plain('b')];
    NulPieces(pieces);
    NulLine(of, pieces, file);
    hide *;
    LineReads(Quoted(of, pieces, ""));
    LastLine(file);
  }

  lemma NulLine(of: Name, pieces: seq<Piece>, file: string)
    requires of == Name("k", "", "") && file == "k=\"a\0b"
    requires pieces != [] && LegalPieces(pieces) && SpellPieces(pieces) == "a\0b" && Denotes(pieces) == "a\0b"
    ensures var line := Quoted(of, pieces, "");
      Legal(line) && Spell(line) == file && Says(line) == [Entry("k", "a\0b")] && '\n' !in file
  {
    hide SpellPieces, LegalPieces, Denotes;
    assert "k"[0] == 'k';
    assert "a\0b" + "" == "a\0b";
  }

  lemma NulPieces(pieces: seq<Piece>)
    requires pieces == [Plain('a'), Plain('\0'), Plain('b')]
    ensures LegalPieces(pieces) && SpellPieces(pieces) == "a\0b" && Denotes(pieces) == "a\0b"
  {
    assert pieces[1..] == [Plain('\0'), Plain('b')] && pieces[1..][1..] == [Plain('b')];
    assert SpellPieces([Plain('b')]) == "b";
  }

  lemma EmbeddedNulTokens()
    ensures AllTokens([Entry("k", "a\0b")]) == ["k", "a", "b"]
  {
    hide Tokens;
    TokensOfWord("k");
    TokensOfWord("a");
    TokensOfWord("b");
    TokensSeparate("a", "b");
    assert "a\0b" == "a" + [NUL] + "b";
    AllTokensFirst(Entry("k", "a\0b"), []);
  }
}
