/** The split buffer against the line-by-line reading of the file: which strings it holds,
    and exactly when a walk over them finds the file's settings. */
module IniPairing {
  import opened Wrappers
  import opened IniText
  import opened IniSplit
  import opened IniTokens
  import opened IniReference
  import opened IniLine

  /** For every file, whatever its bytes: the strings left in the buffer are those of the
      items read line by line, in order. */
  lemma {:induction false} FileTokens(file: string)
    ensures Tokens(Split(file)) == AllTokens(FileItems(file))
    decreases |file|
  {
    var n := LineLength(file);
    if n == |file| {
      LineTokens(file);
    } else {
      var line, rest := file[..n], file[n + 1..];
      assert file == line + "\n" + rest;
      assert FileItems(file) == LineItems(line) + FileItems(rest);
      hide *;
      LineTokens(line);
      FileTokens(rest);
      SplitLocal(line, rest);
      TokensSeparate(Split(line), Split(rest));
      AllTokensConcat(LineItems(line), FileItems(rest));
    }
  }

  // What every item of a file looks like.
  predicate Readable(item: Item) {
    item.Entry? ==> !("[" <= item.key) && NUL !in item.key && item.value != ""
  }

  lemma {:induction false} LineItemsReadable(line: string)
    ensures forall i :: 0 <= i < |LineItems(line)| ==> Readable(LineItems(line)[i])
    decreases |line|
  {
    hide LineItems, Span, ReadValue, TrimEnd;
    BlankUnfolds(line);
    if line == "" || line[0] == ';' {
    } else if IsBlank(line[0]) || line[0] == NUL {
      LineItemsReadable(line[1..]);
    } else if line[0] == '[' {
      HeaderUnfolds(line);
      LineItemsReadable(Drop(line, |line[1..][..Span(line[1..], "]")]| + 2));
    } else {
      KeyLineItems(line);
      var eq := Span(line, "=");
      if eq < |line| && line[eq] != NUL && ReadValue(ValueText(line, eq)).Some? {
        hide ValueText, Readable;
        EntryReadable(line, eq);
        LineItemsReadable(ReadValue(ValueText(line, eq)).value.1);
      }
    }
  }

  lemma EntryReadable(line: string, eq: nat)
    requires line != "" && line[0] != '['
    requires eq == Span(line, "=") < |line| && ReadValue(ValueText(line, eq)).Some?
    ensures Readable(Entry(TrimEnd(line[..eq]), ReadValue(ValueText(line, eq)).value.0))
  {
    hide Span, Unescape, TrimEnd, ReadValue, BlankPrefix;
    TrimEndIsPrefix(line[..eq]);
    assert ValueText(line, eq) != "" by {
      ReadValueOfText(ValueText(line, eq));
    }
    ValueTextStarts(line, eq);
    ReadValueStarts(ValueText(line, eq));
  }

  lemma ReadValueOfText(text: string)
    requires ReadValue(text).Some?
    ensures text != ""
  {
  }

  lemma ValueTextStarts(line: string, eq: nat)
    requires eq < |line| && ValueText(line, eq) != ""
    ensures !IsBlank(ValueText(line, eq)[0])
  {
    var rest := line[eq + 1..];
    assert ValueText(line, eq)[0] == rest[BlankPrefix(rest)];
  }

  lemma ReadValueStarts(text: string)
    requires text != "" && ReadValue(text).Some? && !IsBlank(text[0])
    ensures ReadValue(text).value.0 != ""
  {
    if text[0] != '"' {
      PlainValueStarts(text);
    }
  }

  lemma PlainValueStarts(text: string)
    requires text != "" && text[0] != NUL && !IsBlank(text[0])
    ensures TrimEnd(text[..Span(text, "")]) != ""
  {
    hide TrimEnd;
    TrimEndIsPrefix(text[..Span(text, "")]);
  }

  lemma {:induction false} FileItemsReadable(file: string)
    ensures forall i :: 0 <= i < |FileItems(file)| ==> Readable(FileItems(file)[i])
    decreases |file|
  {
    hide LineItems, LineLength;
    var n := LineLength(file);
    if n == |file| {
      LineItemsReadable(file);
    } else {
      LineItemsReadable(file[..n]);
      FileItemsReadable(file[n + 1..]);
    }
  }

  // A setting that takes part in the pairing of strings as it should.
  predicate Pairs(s: Setting) {
    s.key != "" && NUL !in s.value
  }

  predicate AllPair(settings: seq<Setting>) {
    forall i :: 0 <= i < |settings| ==> Pairs(settings[i])
  }

  lemma {:induction false} WalkPairs(items: seq<Item>, section: string)
    requires forall i :: 0 <= i < |items| ==> Readable(items[i])
    requires AllPair(InSections(items, section))
    ensures Walk(AllTokens(items), section) == InSections(items, section)
  {
    if items != [] {
      var rest := items[1..];
      match items[0]
      case Section(name) =>
        var ts := AllTokens(items);
        assert ts[0] == "[" + name && ts[1..] == AllTokens(rest) && ts[0][1..] == name;
        WalkPairs(rest, name);
      case Entry(key, value) =>
        var settings := InSections(items, section);
        assert settings[0] == Setting(section, key, value) && settings[1..] == InSections(rest, section);
        assert Readable(items[0]);
        WalkPairs(rest, section);
        WalkEntry(key, value, AllTokens(rest), section);
    }
  }

  lemma WalkEntry(key: string, value: string, ts: seq<string>, section: string)
    requires Readable(Entry(key, value)) && Pairs(Setting(section, key, value))
    ensures Walk(Tokens(key) + Tokens(value) + ts, section) ==
      [Setting(section, key, value)] + Walk(ts, section)
  {
    hide Tokens;
    TokensOfWord(key);
    TokensOfWord(value);
    assert ([key] + [value] + ts)[2..] == ts;
  }

  // A walk never finds an empty key, nor a value with a NUL in it.
  lemma {:induction false} WalkFinds(ts: seq<string>, section: string)
    requires AllWords(ts)
    ensures AllPair(Walk(ts, section))
    decreases |ts|
  {
    if ts == [] {
    } else if "[" <= ts[0] {
      WalkFinds(ts[1..], ts[0][1..]);
    } else if |ts| > 1 {
      WalkFinds(ts[2..], section);
    }
  }

  /** The walk over the split buffer recovers exactly the settings of the file if and only
      if no entry has an empty key and no quoted value has a NUL inside.  This is for every
      file, whatever its bytes. */
  lemma {:induction false} PairingExact(file: string)
    ensures Settings(Split(file)) == FileSettings(file) <==> AllPair(FileSettings(file))
  {
    hide Tokens, Split, AllTokens, InSections, FileItems, Walk, Readable;
    FileTokens(file);
    if AllPair(FileSettings(file)) {
      FileItemsReadable(file);
      WalkPairs(FileItems(file), "");
    } else {
      WalkFinds(Tokens(Split(file)), "");
    }
  }

  lemma {:induction false} LookupMissing(settings: seq<Setting>, key: string)
    ensures Lookup(settings, None, key) == None
      <==> forall i :: 0 <= i < |settings| ==> !SameName(settings[i].key, key)
  {
    if settings != [] {
      LookupMissing(settings[1..], key);
      assert Matches(settings[0], None, key) <==> SameName(settings[0].key, key);
    }
  }

  /** When no quoted value has a NUL inside, every query on the split buffer is answered by
      the first matching setting of the file if and only if no entry has an empty key. */
  lemma {:induction false} LookupExact(file: string)
    requires forall i :: 0 <= i < |FileSettings(file)| ==> NUL !in FileSettings(file)[i].value
    ensures (forall section: Option<string>, key: string ::
        Lookup(Settings(Split(file)), section, key) == Lookup(FileSettings(file), section, key))
      <==> forall i :: 0 <= i < |FileSettings(file)| ==> FileSettings(file)[i].key != ""
  {
    hide Tokens, Split, FileSettings, Walk, Lookup, Lower;
    PairingExact(file);
    var read := FileSettings(file);
    if k :| 0 <= k < |read| && read[k].key == "" {
      var found := Settings(Split(file));
      WalkFinds(Tokens(Split(file)), "");
      LookupMissing(found, "");
      LookupMissing(read, "");
      forall i | 0 <= i < |found| ensures !SameName(found[i].key, "") {
        assert |Lower(found[i].key)| > 0 == |Lower("")|;
      }
      assert Lookup(found, None, "") != Lookup(read, None, "");
    }
  }

  // ----- queries on any file

  predicate SameAnswer(a: seq<Setting>, b: seq<Setting>, section: Option<string>, key: string) {
    Lookup(a, section, key) == Lookup(b, section, key)
  }

  // The two lists answer alike when asked for one of their settings, in its section or in any.
  predicate SameAnswersFor(a: seq<Setting>, b: seq<Setting>, s: Setting) {
    SameAnswer(a, b, Some(s.section), s.key) && SameAnswer(a, b, None, s.key)
  }

  // A query with an answer asks for one of the settings.
  lemma {:induction false} AnswerFrom(settings: seq<Setting>, section: Option<string>, key: string) returns (k: nat)
    requires Lookup(settings, section, key).Some?
    ensures k < |settings| && Matches(settings[k], section, key)
  {
    if Matches(settings[0], section, key) {
      k := 0;
    } else {
      k := AnswerFrom(settings[1..], section, key);
      k := k + 1;
    }
  }

  lemma AnswerAs(a: seq<Setting>, b: seq<Setting>, s: Setting, section: Option<string>, key: string)
    requires Matches(s, section, key) && SameAnswersFor(a, b, s)
    ensures SameAnswer(a, b, section, key)
  {
    hide Lookup, Lower;
    var own := if section.Some? then Some(s.section) else None;
    LookupIgnoresCase(a, section, key, own, s.key);
    LookupIgnoresCase(b, section, key, own, s.key);
  }

  ghost predicate AllAnswersSame(a: seq<Setting>, b: seq<Setting>) {
    forall section: Option<string>, key: string :: SameAnswer(a, b, section, key)
  }

  predicate OwnAnswersSame(a: seq<Setting>, b: seq<Setting>) {
    (forall i :: 0 <= i < |a| ==> SameAnswersFor(a, b, a[i]))
    && forall i :: 0 <= i < |b| ==> SameAnswersFor(a, b, b[i])
  }

  // What all queries say follows from finitely many of them.
  lemma {:induction false} QueriesDecided(a: seq<Setting>, b: seq<Setting>)
    ensures AllAnswersSame(a, b) <==> OwnAnswersSame(a, b)
  {
    hide SameAnswer;
    if OwnAnswersSame(a, b) {
      forall section: Option<string>, key: string ensures SameAnswer(a, b, section, key) {
        QueryDecided(a, b, section, key);
      }
    }
  }

  lemma QueryDecided(a: seq<Setting>, b: seq<Setting>, section: Option<string>, key: string)
    requires OwnAnswersSame(a, b)
    ensures SameAnswer(a, b, section, key)
  {
    hide Lookup, SameAnswersFor, Matches;
    if Lookup(a, section, key).Some? {
      var k := AnswerFrom(a, section, key);
      AnswerAs(a, b, a[k], section, key);
    } else if Lookup(b, section, key).Some? {
      var k := AnswerFrom(b, section, key);
      AnswerAs(a, b, b[k], section, key);
    }
  }

  // The settings that the walk recovers, told from the line-by-line reading of the file.
  function Recovered(file: string): seq<Setting> {
    Walk(AllTokens(FileItems(file)), "")
  }

  /** For every file, whatever its bytes: all queries are answered right if and only if those
      for the settings that are read line by line, and for the settings that the strings of
      those lines pair into, are.  Both lists come from the file alone; a setting that goes
      wrong does no harm exactly when it is hidden by others. */
  lemma {:induction false} QueriesExact(file: string)
    ensures AllAnswersSame(Settings(Split(file)), FileSettings(file))
      <==> OwnAnswersSame(Recovered(file), FileSettings(file))
  {
    FileTokens(file);
    assert Recovered(file) == Settings(Split(file));
    hide *;
    QueriesDecided(Recovered(file), FileSettings(file));
  }

  /** A query whose answer in the file holds a NUL is always answered wrong. */
  lemma {:induction false} NulAnswerWrong(file: string, section: Option<string>, key: string)
    requires var answer := Lookup(FileSettings(file), section, key); answer.Some? && NUL in answer.value
    ensures !SameAnswer(Settings(Split(file)), FileSettings(file), section, key)
  {
    hide Tokens, Split, FileSettings, Walk;
    var found := Settings(Split(file));
    WalkFinds(Tokens(Split(file)), "");
    if Lookup(found, section, key).Some? {
      AnswerIsValue(found, section, key);
    }
  }

  lemma {:induction false} AnswerIsValue(settings: seq<Setting>, section: Option<string>, key: string)
    requires AllPair(settings) && Lookup(settings, section, key).Some?
    ensures NUL !in Lookup(settings, section, key).value
  {
    if !Matches(settings[0], section, key) {
      AnswerIsValue(settings[1..], section, key);
    }
  }

  // ----- files without NULs

  lemma {:induction false} UnescapePlain(t: string)
    requires NUL !in t
    ensures NUL !in Unescape(t)
  {
    if t != "" && t[0] != '"' && !EndsEscape(t[0]) {
      if t[0] != '\\' {
        UnescapePlain(t[1..]);
      } else if |t| > 1 && !EndsEscape(t[1]) {
        UnescapePlain(t[2..]);
      }
    }
  }

  predicate PlainValue(item: Item) {
    item.Entry? ==> NUL !in item.value
  }

  lemma ReadValuePlain(text: string)
    requires NUL !in text && ReadValue(text).Some?
    ensures NUL !in ReadValue(text).value.0 && NUL !in ReadValue(text).value.1
  {
    hide Unescape, TrimEnd, Span;
    UnescapePlain(text[1..]);
    TrimEndIsPrefix(text[..Span(text, "")]);
  }

  lemma {:induction false} LineValuesPlain(line: string)
    requires NUL !in line
    ensures forall i :: 0 <= i < |LineItems(line)| ==> PlainValue(LineItems(line)[i])
    decreases |line|
  {
    hide LineItems, Span, ReadValue, BlankPrefix, TrimEnd;
    BlankUnfolds(line);
    if line == "" || line[0] == ';' {
    } else if IsBlank(line[0]) {
      LineValuesPlain(line[1..]);
    } else if line[0] == '[' {
      HeaderUnfolds(line);
      LineValuesPlain(Drop(line, |line[1..][..Span(line[1..], "]")]| + 2));
    } else {
      KeyLineItems(line);
      var eq := Span(line, "=");
      if eq < |line| && ReadValue(ValueText(line, eq)).Some? {
        ReadValuePlain(ValueText(line, eq));
        LineValuesPlain(ReadValue(ValueText(line, eq)).value.1);
      }
    }
  }

  lemma {:induction false} FileValuesPlain(file: string)
    requires NUL !in file
    ensures forall i :: 0 <= i < |FileItems(file)| ==> PlainValue(FileItems(file)[i])
    decreases |file|
  {
    hide LineItems, LineLength;
    var n := LineLength(file);
    if n == |file| {
      LineValuesPlain(file);
    } else {
      LineValuesPlain(file[..n]);
      FileValuesPlain(file[n + 1..]);
    }
  }

  lemma {:induction false} SettingsPlain(items: seq<Item>, section: string)
    requires forall i :: 0 <= i < |items| ==> PlainValue(items[i])
    ensures forall i :: 0 <= i < |InSections(items, section)| ==> NUL !in InSections(items, section)[i].value
  {
    if items != [] {
      assert PlainValue(items[0]);
      SettingsPlain(items[1..], if items[0].Section? then items[0].name else section);
    }
  }

  /** In a text file, where no byte is NUL, an empty key is the only thing that makes a
      query go wrong. */
  lemma {:induction false} TextLookupExact(file: string)
    requires NUL !in file
    ensures (forall section: Option<string>, key: string ::
        Lookup(Settings(Split(file)), section, key) == Lookup(FileSettings(file), section, key))
      <==> forall i :: 0 <= i < |FileSettings(file)| ==> FileSettings(file)[i].key != ""
  {
    FileValuesPlain(file);
    SettingsPlain(FileItems(file), "");
    LookupExact(file);
  }
}
