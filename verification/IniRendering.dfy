/** Writing settings down as a file that reads back as them. */
module IniRendering {
  import opened Wrappers
  import opened IniText
  import opened IniSplit
  import opened IniTokens
  import opened IniReference
  import opened IniLine
  import opened IniPairing
  import opened IniGrammar
  import opened IniWritten

  datatype Pair = Pair(key: string, value: string)
  datatype Group = Group(name: string, pairs: seq<Pair>)

  // A name that can be written between brackets.
  predicate WritableName(name: string) {
    forall i :: 0 <= i < |name| ==> name[i] != ']' && name[i] != '\n' && name[i] != NUL
  }

  predicate WritablePair(p: Pair) {
    p.key != "" && WritableKey(p.key) && p.value != "" && NUL !in p.value
  }

  predicate Writable(groups: seq<Group>) {
    forall g :: 0 <= g < |groups| ==>
      WritableName(groups[g].name)
      && forall i :: 0 <= i < |groups[g].pairs| ==> WritablePair(groups[g].pairs[i])
  }

  // How a character is written between quotes.
  function EscapeChar(c: char): string {
    if c == '\\' || c == '"' then ['\\', c]
    else if c == '\r' then "\\r"
    else if c == '\n' then "\\n"
    else if c == '\t' then "\\t"
    else [c]
  }

  function Escape(value: string): string {
    if value == "" then "" else EscapeChar(value[0]) + Escape(value[1..])
  }

  function PairLine(p: Pair): string {
    p.key + "=" + "\"" + Escape(p.value) + "\""
  }

  function RenderPairs(pairs: seq<Pair>): string {
    if pairs == [] then "" else PairLine(pairs[0]) + "\n" + RenderPairs(pairs[1..])
  }

  function Render(groups: seq<Group>): string {
    if groups == [] then ""
    else "[" + groups[0].name + "]" + "\n" + (RenderPairs(groups[0].pairs) + Render(groups[1..]))
  }

  // The value of the first pair with the key, in the first group of the name that has one;
  // no section means any group.
  function FirstPair(pairs: seq<Pair>, key: string): Option<string> {
    if pairs == [] then None
    else if Recased(pairs[0].key, key) then Some(pairs[0].value)
    else FirstPair(pairs[1..], key)
  }

  function FirstMatch(groups: seq<Group>, section: Option<string>, key: string): Option<string> {
    if groups == [] then None
    else
      var here := if section.None? || Recased(section.value, groups[0].name)
                  then FirstPair(groups[0].pairs, key) else None;
      if here.Some? then here else FirstMatch(groups[1..], section, key)
  }

  // Escaping is undone by reading up to the closing quote.
  lemma {:induction false} UnescapeEscape(value: string)
    requires NUL !in value
    ensures Unescape(Escape(value) + "\"") == value
  {
    if value != "" {
      UnescapeEscape(value[1..]);
      UnescapeFirst(value[0], Escape(value[1..]) + "\"");
      assert Escape(value) + "\"" == EscapeChar(value[0]) + (Escape(value[1..]) + "\"");
    }
  }

  lemma UnescapeFirst(c: char, rest: string)
    requires c != NUL
    ensures Unescape(EscapeChar(c) + rest) == [c] + Unescape(rest)
  {
    var e := EscapeChar(c);
    var t := e + rest;
    assert t[|e|..] == rest;
    assert t[0] == e[0] && (|e| == 2 ==> t[1] == e[1]);
    if |e| == 1 {
      assert Unescape(t) == [t[0]] + Unescape(t[1..]);
    } else {
      assert !EndsEscape(e[1]) && EscapedChar(e[1]) == c;
      assert Unescape(t) == [EscapedChar(t[1])] + Unescape(t[2..]);
    }
  }

  lemma {:induction false} EscapeInLine(value: string)
    requires NUL !in value
    ensures '\n' !in Escape(value) && NUL !in Escape(value)
  {
    if value != "" {
      EscapeInLine(value[1..]);
    }
  }

  lemma PairLineItems(p: Pair)
    requires WritablePair(p)
    ensures '\n' !in PairLine(p)
    ensures LineItems(PairLine(p)) == [Entry(p.key, p.value)]
  {
    hide Escape, LineItems, Unescape;
    var of, text := Name(p.key, "", ""), Escape(p.value) + "\"";
    assert PairLine(p) == SpellName(of) + ("\"" + text);
    EscapeInLine(p.value);
    UnescapeEscape(p.value);
    QuotedValue(text);
    PairReads(of, "\"" + text);
    EmptyTokens();
  }

  lemma HeaderLineItems(name: string)
    requires WritableName(name)
    ensures LineItems("[" + name + "]") == [Section(name)]
  {
    var line := Header(name, true, Empty);
    assert Spell(line) == "[" + name + "]";
    assert Says(line) == [Section(name)] + Says(Empty) == [Section(name)];
    LineReads(line);
  }

  function PairItems(pairs: seq<Pair>): (items: seq<Item>)
    ensures |items| == |pairs|
    ensures forall i :: 0 <= i < |pairs| ==> items[i] == Entry(pairs[i].key, pairs[i].value)
  {
    seq(|pairs|, i requires 0 <= i < |pairs| => Entry(pairs[i].key, pairs[i].value))
  }

  lemma {:induction false} RenderPairsItems(pairs: seq<Pair>, rest: string)
    requires forall i :: 0 <= i < |pairs| ==> WritablePair(pairs[i])
    ensures FileItems(RenderPairs(pairs) + rest) == PairItems(pairs) + FileItems(rest)
  {
    hide FileItems, LineItems, PairLine, WritablePair;
    if pairs == [] {
      assert RenderPairs(pairs) + rest == rest;
    } else {
      var line, more := PairLine(pairs[0]), RenderPairs(pairs[1..]);
      assert RenderPairs(pairs) + rest == line + "\n" + (more + rest);
      PairLineItems(pairs[0]);
      FileItemsLine(line, more + rest);
      RenderPairsItems(pairs[1..], rest);
      assert PairItems(pairs) == [Entry(pairs[0].key, pairs[0].value)] + PairItems(pairs[1..]);
    }
  }

  lemma {:induction false} RenderItems(groups: seq<Group>)
    requires Writable(groups)
    ensures FileItems(Render(groups)) == GroupItems(groups)
  {
    hide FileItems, LineItems, PairItems, WritablePair, RenderPairs;
    if groups == [] {
      EmptyFile();
    } else {
      var g, rest := groups[0], Render(groups[1..]);
      assert Writable(groups[1..]);
      HeaderLineItems(g.name);
      FileItemsLine("[" + g.name + "]", RenderPairs(g.pairs) + rest);
      RenderPairsItems(g.pairs, rest);
      RenderItems(groups[1..]);
      assert [Section(g.name)] + (PairItems(g.pairs) + GroupItems(groups[1..]))
          == [Section(g.name)] + PairItems(g.pairs) + GroupItems(groups[1..]);
    }
  }

  function GroupItems(groups: seq<Group>): seq<Item> {
    if groups == [] then []
    else [Section(groups[0].name)] + PairItems(groups[0].pairs) + GroupItems(groups[1..])
  }

  // The pairs of one group, followed by other items.
  lemma {:induction false} PairSettings(pairs: seq<Pair>, items: seq<Item>, name: string,
      section: Option<string>, key: string)
    ensures var settings := InSections(PairItems(pairs) + items, name);
      var here := if section.None? || Recased(section.value, name) then FirstPair(pairs, key) else None;
      Lookup(settings, section, key) ==
        if here.Some? then here else Lookup(InSections(items, name), section, key)
  {
    hide Lower;
    if pairs == [] {
      assert PairItems(pairs) + items == items;
    } else {
      var all, rest := PairItems(pairs) + items, PairItems(pairs[1..]) + items;
      assert all[0] == Entry(pairs[0].key, pairs[0].value) && all[1..] == rest;
      var first := Setting(name, pairs[0].key, pairs[0].value);
      assert InSections(all, name) == [first] + InSections(rest, name);
      assert ([first] + InSections(rest, name))[1..] == InSections(rest, name);
      SameNameExact(pairs[0].key, key);
      if section.Some? {
        SameNameExact(section.value, name);
      }
      hide Recased;
      PairSettings(pairs[1..], items, name, section, key);
    }
  }

  lemma {:induction false} GroupSettings(groups: seq<Group>, before: string,
      section: Option<string>, key: string)
    ensures Lookup(InSections(GroupItems(groups), before), section, key) == FirstMatch(groups, section, key)
  {
    if groups == [] {
      EmptyLookup(section, key);
    } else {
      hide Lower, Lookup, FirstPair, InSections, GroupItems, PairItems;
      var g, rest := groups[0], GroupItems(groups[1..]);
      GroupItemsFirst(groups, before);
      PairSettings(g.pairs, rest, g.name, section, key);
      GroupSettings(groups[1..], g.name, section, key);
    }
  }

  lemma GroupItemsFirst(groups: seq<Group>, before: string)
    requires groups != []
    ensures InSections(GroupItems(groups), before)
      == InSections(PairItems(groups[0].pairs) + GroupItems(groups[1..]), groups[0].name)
  {
    var items := GroupItems(groups);
    assert items[0] == Section(groups[0].name);
    assert items[1..] == PairItems(groups[0].pairs) + GroupItems(groups[1..]);
  }

  lemma EmptyLookup(section: Option<string>, key: string)
    ensures Lookup([], section, key) == None
  {
  }

  predicate PairingItem(item: Item) {
    item.Entry? ==> item.key != "" && NUL !in item.value
  }

  lemma {:induction false} SettingsPair(items: seq<Item>, section: string)
    requires forall i :: 0 <= i < |items| ==> PairingItem(items[i])
    ensures AllPair(InSections(items, section))
  {
    if items != [] {
      assert PairingItem(items[0]);
      SettingsPair(items[1..], if items[0].Section? then items[0].name else section);
    }
  }

  lemma {:induction false} GroupItemsPair(groups: seq<Group>)
    requires Writable(groups)
    ensures forall i :: 0 <= i < |GroupItems(groups)| ==> PairingItem(GroupItems(groups)[i])
  {
    if groups != [] {
      assert Writable(groups[1..]);
      GroupItemsPair(groups[1..]);
      var pairs := groups[0].pairs;
      forall i | 0 <= i < |pairs| ensures PairingItem(PairItems(pairs)[i]) {
        assert WritablePair(pairs[i]);
      }
    }
  }

  /** Settings that are written down with escaped, quoted values, split and looked up come
      back as they were: the first match of the query, with its original value. */
  lemma {:induction false} RoundTrip(groups: seq<Group>, section: Option<string>, key: string)
    requires Writable(groups)
    ensures Lookup(Settings(Split(Render(groups))), section, key) == FirstMatch(groups, section, key)
  {
    hide Split, Settings, Render, FileItems, GroupItems, InSections, PairingItem, AllPair;
    RenderItems(groups);
    GroupItemsPair(groups);
    SettingsPair(GroupItems(groups), "");
    PairingExact(Render(groups));
    GroupSettings(groups, "", section, key);
  }
}
