/** Loading a file and asking it one question, end to end. */
module IniQuery {
  import opened Wrappers
  import opened IniText
  import opened IniSplit
  import opened IniTokens
  import opened IniReference
  import opened IniLine
  import opened IniPairing
  import opened IniFile
  import opened IniRendering
  import opened IniGrammar
  import opened IniWritten

  // ----- which item answers a question

  // The section of item `i`: the last one named before it, `start` when there is none.
  function SectionAt(items: seq<Item>, i: nat, start: string): string
    requires i <= |items|
  {
    if i == 0 then start
    else if items[i - 1].Section? then items[i - 1].name
    else SectionAt(items, i - 1, start)
  }

  // Item `i` has the key and the section asked for, up to the case of ASCII letters.
  predicate Asked(items: seq<Item>, i: nat, start: string, section: Option<string>, key: string)
    requires i < |items|
  {
    items[i].Entry? && Recased(items[i].key, key)
    && (section.None? || Recased(section.value, SectionAt(items, i, start)))
  }

  // Item `i` is the first one asked for, and its value is `value`.
  predicate AnswersAt(items: seq<Item>, i: nat, start: string, section: Option<string>, key: string, value: string)
    requires i < |items|
  {
    Asked(items, i, start, section, key) && items[i].value == value
    && forall j :: 0 <= j < i ==> !Asked(items, j, start, section, key)
  }

  // The answer is the value of the first item asked for; there is none when no item is.
  predicate FirstAsked(items: seq<Item>, start: string, section: Option<string>, key: string, answer: Option<string>) {
    if answer.None? then forall i :: 0 <= i < |items| ==> !Asked(items, i, start, section, key)
    else exists i :: 0 <= i < |items| && AnswersAt(items, i, start, section, key, answer.value)
  }

  /** A lookup answers with the first entry of the items that is asked for. */
  lemma {:induction false} LookupAnswers(items: seq<Item>, start: string, section: Option<string>, key: string)
    ensures FirstAsked(items, start, section, key, Lookup(InSections(items, start), section, key))
  {
    if items != [] {
      var rest, next := items[1..], if items[0].Section? then items[0].name else start;
      var answer := Lookup(InSections(rest, next), section, key);
      LookupAnswers(rest, next, section, key);
      LookupFirst(items, start, section, key);
      hide *;
      AskedLater(items, start, section, key);
      if Asked(items, 0, start, section, key) {
        FirstHere(items, start, section, key);
      } else {
        FirstLater(items, start, next, section, key, answer);
      }
    } else {
      assert Lookup(InSections(items, start), section, key) == None;
    }
  }

  lemma AskedLater(items: seq<Item>, start: string, section: Option<string>, key: string)
    requires items != []
    ensures var rest, next := items[1..], if items[0].Section? then items[0].name else start;
      forall i :: 0 <= i < |rest| ==>
        (Asked(rest, i, next, section, key) <==> Asked(items, i + 1, start, section, key))
  {
    hide SectionAt, Recased;
    var rest, next := items[1..], if items[0].Section? then items[0].name else start;
    forall i | 0 <= i < |rest|
      ensures Asked(rest, i, next, section, key) <==> Asked(items, i + 1, start, section, key)
    {
      SectionShift(items, i + 1, start);
    }
  }

  lemma FirstHere(items: seq<Item>, start: string, section: Option<string>, key: string)
    requires items != [] && Asked(items, 0, start, section, key)
    ensures items[0].Entry? && FirstAsked(items, start, section, key, Some(items[0].value))
  {
    assert AnswersAt(items, 0, start, section, key, items[0].value);
  }

  lemma LookupFirst(items: seq<Item>, start: string, section: Option<string>, key: string)
    requires items != []
    ensures Lookup(InSections(items, start), section, key) ==
      if Asked(items, 0, start, section, key) then Some(items[0].value)
      else Lookup(InSections(items[1..], if items[0].Section? then items[0].name else start), section, key)
  {
    if items[0].Entry? {
      SameNameExact(items[0].key, key);
      if section.Some? {
        SameNameExact(section.value, start);
      }
      hide Recased, Lower;
      var rest := InSections(items[1..], start);
      assert InSections(items, start) == [Setting(start, items[0].key, items[0].value)] + rest;
      assert InSections(items, start)[1..] == rest;
    }
  }

  lemma {:induction false} SectionShift(items: seq<Item>, i: nat, start: string)
    requires 1 <= i <= |items|
    ensures SectionAt(items, i, start)
      == SectionAt(items[1..], i - 1, if items[0].Section? then items[0].name else start)
  {
    if i > 1 {
      SectionShift(items, i - 1, start);
    }
  }

  lemma FirstLater(items: seq<Item>, start: string, next: string, section: Option<string>, key: string,
      answer: Option<string>)
    requires items != [] && !Asked(items, 0, start, section, key)
    requires forall i :: 0 <= i < |items[1..]| ==>
      (Asked(items[1..], i, next, section, key) <==> Asked(items, i + 1, start, section, key))
    requires FirstAsked(items[1..], next, section, key, answer)
    ensures FirstAsked(items, start, section, key, answer)
  {
    hide SectionAt, Recased;
    var rest := items[1..];
    if answer.None? {
      forall i | 0 <= i < |items| ensures !Asked(items, i, start, section, key) {
        assert i > 0 ==> !Asked(rest, i - 1, next, section, key);
      }
    } else {
      var i :| 0 <= i < |rest| && AnswersAt(rest, i, next, section, key, answer.value);
      forall j | 0 <= j < i + 1 ensures !Asked(items, j, start, section, key) {
        assert j > 0 ==> !Asked(rest, j - 1, next, section, key);
      }
      assert AnswersAt(items, i + 1, start, section, key, answer.value);
    }
  }

  // ----- the question

  // The file as a list of lines of the grammar, with a key and a NUL-free value in each entry.
  predicate WrittenAs(file: string, lines: seq<Line>) {
    LegalFile(lines) && file == SpellFile(lines, "\n")
    && forall i :: 0 <= i < |FileSays(lines)| ==> PairingItem(FileSays(lines)[i])
  }

  /** The answer is that of a first-match lookup over the settings read line by line, unless
      an entry has an empty key or a quoted value has a NUL inside; in terms of the lines that
      make up the file, it is the value of the first entry asked for.  Whatever the file, it
      is an answer from the strings left in the buffer, and the same for every case of the
      ASCII letters in the section and the key. */
  method Ask(file: string, section: Option<CString>, key: CString) returns (answer: Option<string>)
    ensures AllPair(FileSettings(file)) ==> answer == Lookup(FileSettings(file), section, key)
    ensures answer == Lookup(Walk(AllTokens(FileItems(file)), ""), section, key)
    ensures forall lines :: WrittenAs(file, lines) ==>
      FirstAsked(FileSays(lines), "", section, key, answer)
    ensures forall section': Option<string>, key' :: RecasedQuery(section, key, section', key') ==>
      answer == Lookup(Walk(AllTokens(FileItems(file)), ""), section', key')
    ensures forall groups :: Writable(groups) && file == Render(groups) ==>
      answer == FirstMatch(groups, section, key)
  {
    hide *;
    var ini := new Ini(file);
    var found := ini.Get(section, key);
    answer := if found.Some? then Some(ini.StringAt(found.value)) else None;
    assert ini.Image()[..ini.end] == Split(file);
    PairingExact(file);
    FileTokens(file);
    SettingsAre(Split(file));
    forall section': Option<string>, key' | RecasedQuery(section, key, section', key')
      ensures answer == Lookup(Walk(AllTokens(FileItems(file)), ""), section', key')
    {
      RecasedAnswer(Walk(AllTokens(FileItems(file)), ""), section, key, section', key');
    }
    forall lines | WrittenAs(file, lines)
      ensures FirstAsked(FileSays(lines), "", section, key, answer)
    {
      WrittenAnswer(file, lines, section, key);
    }
    forall groups | Writable(groups) && file == Render(groups)
      ensures answer == FirstMatch(groups, section, key)
    {
      RoundTrip(groups, section, key);
    }
  }

  // The same question, with the case of some ASCII letters changed.
  predicate RecasedQuery(section: Option<string>, key: string, section': Option<string>, key': string) {
    section.Some? == section'.Some? && (section.Some? ==> Recased(section.value, section'.value))
    && Recased(key, key')
  }

  lemma RecasedAnswer(settings: seq<Setting>, section: Option<string>, key: string,
      section': Option<string>, key': string)
    requires RecasedQuery(section, key, section', key')
    ensures Lookup(settings, section, key) == Lookup(settings, section', key')
  {
    LookupIgnoresCase(settings, section, key, section', key');
  }

  lemma WrittenAnswer(file: string, lines: seq<Line>, section: Option<string>, key: string)
    requires WrittenAs(file, lines)
    ensures FirstAsked(FileSays(lines), "", section, key, Lookup(Settings(Split(file)), section, key))
  {
    assert FileSettings(file) == InSections(FileItems(file), "");
    hide Split, Settings, Lookup, FirstAsked, FileItems, InSections, FileSays, LegalFile, SpellFile, AllPair;
    FileReads(lines);
    SettingsPair(FileSays(lines), "");
    PairingExact(file);
    LookupAnswers(FileSays(lines), "", section, key);
  }

  lemma SettingsAre(b: string)
    ensures Settings(b) == Walk(Tokens(b), "")
  {
  }
}
