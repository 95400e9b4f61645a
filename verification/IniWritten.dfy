/** Whole files as they are written: the lines of the grammar between newlines. */
module IniWritten {
  import opened Wrappers
  import opened IniText
  import opened IniSplit
  import opened IniTokens
  import opened IniReference
  import opened IniLine
  import opened IniPairing
  import opened IniGrammar

  // ----- what one line leaves in the buffer

  // A line with gaps in front of it.
  function Indented(lead: string, line: Line): Line {
    if lead == "" then line else Gap(lead[0], Indented(lead[1..], line))
  }

  lemma {:induction false} IndentedSpelled(lead: string, line: Line)
    requires Blank(lead) && Legal(line)
    ensures Legal(Indented(lead, line)) && Spell(Indented(lead, line)) == lead + Spell(line)
    ensures Says(Indented(lead, line)) == Says(line)
  {
    if lead == "" {
      assert lead + Spell(line) == Spell(line);
    } else {
      IndentedSpelled(lead[1..], line);
      assert lead + Spell(line) == [lead[0]] + (lead[1..] + Spell(line));
    }
  }

  /** Blanks before and after the key, and before and after a plain value, do not matter: the
      line says, and leaves in the buffer, the bare key and value. */
  lemma {:induction false} PlainLine(lead: string, key: string, before: string, after: string,
      value: string, end: string)
    requires Blank(lead) && Blank(before) && Blank(after) && Blank(end)
    requires key != "" && WritableKey(key) && WritableValue(value)
    ensures var line := lead + (key + before + "=" + after + (value + end));
      && LineItems(line) == [Entry(key, value)]
      && ('\n' !in value ==> Tokens(Split(line)) == [key, value])
  {
    var plain := Bare(Name(key, before, after), value, end, Empty);
    PlainSpelled(Name(key, before, after), value, end);
    assert '\n' !in value ==> '\n' !in lead + Spell(plain);
    hide *;
    IndentedSpelled(lead, plain);
    LineReads(Indented(lead, plain));
    EntryTokens(key, value);
    if '\n' !in value {
      LineTokens(lead + Spell(plain));
    }
  }

  lemma PlainSpelled(of: Name, value: string, end: string)
    requires LegalName(of) && WritableValue(value) && Blank(end)
    ensures var line := Bare(of, value, end, Empty);
      && Legal(line) && Says(line) == [Entry(of.key, value)]
      && Spell(line) == of.key + of.before + "=" + of.after + (value + end)
  {
  }

  lemma EntryTokens(key: string, value: string)
    requires key != "" && NUL !in key && value != "" && NUL !in value
    ensures AllTokens([Entry(key, value)]) == [key, value]
  {
    hide Tokens;
    TokensOfWord(key);
    TokensOfWord(value);
    AllTokensFirst(Entry(key, value), []);
  }

  /** A quoted value is what its pieces denote, whatever stands behind the closing quote; empty
      quotes make the line say nothing. */
  lemma {:induction false} QuotedLine(lead: string, key: string, before: string, after: string,
      pieces: seq<Piece>, close: string)
    requires Blank(lead) && Blank(before) && Blank(after)
    requires key != "" && WritableKey(key) && LegalPieces(pieces) && Closes(close)
    ensures var line := lead + (key + before + "=" + after + ("\"" + (SpellPieces(pieces) + close)));
      && LineItems(line) == (if pieces == [] then [] else [Entry(key, Denotes(pieces))])
      && ('\n' !in close ==>
        Tokens(Split(line)) == if pieces == [] then [] else [key] + Tokens(Denotes(pieces)))
      && ('\n' !in close && pieces != [] && '\0' !in Denotes(pieces) ==>
        Tokens(Split(line)) == [key, Denotes(pieces)])
  {
    var of := Name(key, before, after);
    QuotedSpelled(of, pieces, close);
    QuotedItems(lead, of, pieces, close);
    hide *;
    if '\n' !in close {
      PiecesInLine(pieces);
      QuotedIsLine(lead, of, pieces, close);
      LineTokens(lead + Spell(Quoted(of, pieces, close)));
      QuotedTokens(key, pieces);
    }
  }

  lemma {:induction false} QuotedItems(lead: string, of: Name, pieces: seq<Piece>, close: string)
    requires Blank(lead) && LegalName(of) && LegalPieces(pieces) && Closes(close)
    ensures LineItems(lead + Spell(Quoted(of, pieces, close))) == Says(Quoted(of, pieces, close))
  {
    hide *;
    var quoted := Quoted(of, pieces, close);
    QuotedSpelled(of, pieces, close);
    IndentedSpelled(lead, quoted);
    LineReads(Indented(lead, quoted));
  }

  lemma QuotedSpelled(of: Name, pieces: seq<Piece>, close: string)
    requires LegalName(of) && LegalPieces(pieces) && Closes(close)
    ensures var line := Quoted(of, pieces, close);
      && Legal(line) && Says(line) == (if pieces == [] then [] else [Entry(of.key, Denotes(pieces))])
      && Spell(line) == of.key + of.before + "=" + of.after + ("\"" + (SpellPieces(pieces) + close))
  {
  }

  lemma QuotedIsLine(lead: string, of: Name, pieces: seq<Piece>, close: string)
    requires Blank(lead) && LegalName(of) && '\n' !in SpellPieces(pieces) && '\n' !in close
    ensures '\n' !in lead + Spell(Quoted(of, pieces, close))
  {
    assert '\n' !in lead && '\n' !in of.key && '\n' !in of.before && '\n' !in of.after;
    hide Blank, WritableKey, SpellPieces;
  }

  lemma {:induction false} PiecesInLine(pieces: seq<Piece>)
    requires LegalPieces(pieces)
    ensures '\n' !in SpellPieces(pieces)
  {
    if pieces != [] {
      PiecesInLine(pieces[1..]);
      assert LegalPiece(pieces[0]);
    }
  }

  lemma QuotedTokens(key: string, pieces: seq<Piece>)
    requires key != "" && NUL !in key
    ensures var items := if pieces == [] then [] else [Entry(key, Denotes(pieces))];
      AllTokens(items) == if pieces == [] then [] else [key] + Tokens(Denotes(pieces))
    ensures pieces != [] && NUL !in Denotes(pieces) ==> Tokens(Denotes(pieces)) == [Denotes(pieces)]
  {
    TokensOfWord(key);
    if NUL !in Denotes(pieces) {
      TokensOfWord(Denotes(pieces));
    }
    hide Tokens;
    AllTokensFirst(Entry(key, Denotes(pieces)), []);
  }

  /** A comment, and a line without a '=' that starts no header, say nothing and leave nothing
      but NULs in the buffer. */
  lemma {:induction false} SilentLine(lead: string, line: string)
    requires Blank(lead) && '\n' !in line && line != ""
    requires Trimmed(line[..1]) && line[0] != '[' && line[0] != '\0'
    requires line[0] == ';' || '=' !in line
    ensures LineItems(lead + line) == [] && Tokens(Split(lead + line)) == []
  {
    assert line[..1][0] == line[0] && (line[0] == ';' || Span(line, "=") == |line| || line[Span(line, "=")] == '\0');
    assert '\n' !in lead + line;
    var silent := EverySilent(line);
    hide *;
    IndentedSpelled(lead, silent);
    LineReads(Indented(lead, silent));
    LineTokens(lead + line);
    EmptyTokens();
  }

  // ----- files

  function SpellFile(lines: seq<Line>, eol: string): string {
    if lines == [] then ""
    else if |lines| == 1 then Spell(lines[0])
    else Spell(lines[0]) + eol + SpellFile(lines[1..], eol)
  }

  predicate LegalFile(lines: seq<Line>) {
    forall i :: 0 <= i < |lines| ==> Legal(lines[i]) && '\n' !in Spell(lines[i])
  }

  function FileSays(lines: seq<Line>): seq<Item> {
    if lines == [] then [] else Says(lines[0]) + FileSays(lines[1..])
  }

  /** A file reads as what its lines say. */
  lemma {:induction false} FileReads(lines: seq<Line>)
    requires LegalFile(lines)
    ensures FileItems(SpellFile(lines, "\n")) == FileSays(lines)
  {
    if lines == [] {
      EmptyFile();
    } else {
      LineReads(lines[0]);
      FileStarts(lines);
      hide *;
      FileReads(lines[1..]);
      if |lines| == 1 {
        LastLine(Spell(lines[0]));
      } else {
        FileItemsLine(Spell(lines[0]), SpellFile(lines[1..], "\n"));
      }
    }
  }

  /** Splitting it leaves the strings of what its lines say. */
  lemma FileSplits(lines: seq<Line>)
    requires LegalFile(lines)
    ensures Tokens(Split(SpellFile(lines, "\n"))) == AllTokens(FileSays(lines))
  {
    hide *;
    FileReads(lines);
    FileTokens(SpellFile(lines, "\n"));
  }

  lemma FileStarts(lines: seq<Line>)
    requires lines != []
    ensures FileSays(lines) == Says(lines[0]) + FileSays(lines[1..])
    ensures |lines| == 1 ==> SpellFile(lines, "\n") == Spell(lines[0]) && FileSays(lines[1..]) == []
    ensures |lines| > 1 ==> SpellFile(lines, "\n") == Spell(lines[0]) + "\n" + SpellFile(lines[1..], "\n")
    ensures LegalFile(lines) ==> LegalFile(lines[1..])
  {
  }

  lemma EmptyFile()
    ensures FileItems("") == []
  {
  }

  lemma LastLine(line: string)
    requires '\n' !in line
    ensures FileItems(line) == LineItems(line)
  {
    assert LineLength(line) == |line|;
  }

  // Reading a line and then the rest of the file.
  lemma FileItemsLine(line: string, rest: string)
    requires '\n' !in line
    ensures FileItems(line + "\n" + rest) == LineItems(line) + FileItems(rest)
  {
    var file := line + "\n" + rest;
    assert file[|line|] == '\n' && forall i :: 0 <= i < |line| ==> file[i] == line[i];
    assert LineLength(file) == |line|;
    assert file[..|line|] == line && file[|line| + 1..] == rest;
  }

  /** Every file is written so. */
  lemma {:induction false} EveryFile(file: string) returns (lines: seq<Line>)
    ensures LegalFile(lines) && SpellFile(lines, "\n") == file
    ensures lines != []
    decreases |file|
  {
    hide *;
    var n := LineLength(file);
    var line := EveryLine(file[..n]);
    if n == |file| {
      lines := [line];
      OneLine(line);
    } else {
      var rest := EveryFile(file[n + 1..]);
      lines := [line] + rest;
      assert file == file[..n] + "\n" + file[n + 1..];
      MoreLines(line, rest);
    }
  }

  lemma OneLine(line: Line)
    requires Legal(line) && '\n' !in Spell(line)
    ensures LegalFile([line]) && SpellFile([line], "\n") == Spell(line)
  {
  }

  lemma MoreLines(line: Line, rest: seq<Line>)
    requires rest != [] && Legal(line) && '\n' !in Spell(line) && LegalFile(rest)
    ensures LegalFile([line] + rest)
    ensures SpellFile([line] + rest, "\n") == Spell(line) + "\n" + SpellFile(rest, "\n")
  {
    assert ([line] + rest)[1..] == rest;
  }

  // ----- line ends

  // The lines of the file, each but the last with a carriage return behind it.
  function Returned(lines: seq<Line>): (r: seq<Line>)
    ensures |r| == |lines|
  {
    if |lines| <= 1 then lines else [WithReturn(lines[0])] + Returned(lines[1..])
  }

  lemma {:induction false} ReturnedSpelled(lines: seq<Line>)
    requires LegalFile(lines)
    ensures LegalFile(Returned(lines))
    ensures SpellFile(lines, "\r\n") == SpellFile(Returned(lines), "\n")
  {
    if |lines| > 1 {
      var first, rest := WithReturn(lines[0]), Returned(lines[1..]);
      ReturnedSpelled(lines[1..]);
      ReturnSpelled(lines[0]);
      assert SpellFile(lines, "\r\n") == Spell(lines[0]) + "\r\n" + SpellFile(lines[1..], "\r\n");
      hide *;
      assert Spell(lines[0]) + "\r\n" == Spell(first) + "\n";
      MoreLines(first, rest);
      ReturnedStarts(lines);
    }
  }

  lemma ReturnedStarts(lines: seq<Line>)
    ensures Returned(lines) == if |lines| <= 1 then lines else [WithReturn(lines[0])] + Returned(lines[1..])
  {
  }

  // No line but the last ends in a header without its bracket.
  predicate HeadersClosed(lines: seq<Line>) {
    forall i :: 0 <= i < |lines| - 1 ==> !EndsOpen(lines[i])
  }

  lemma {:induction false} ReturnedSays(lines: seq<Line>)
    ensures |FileSays(Returned(lines))| == |FileSays(lines)|
    ensures FileSays(Returned(lines)) == FileSays(lines) <==> HeadersClosed(lines)
  {
    if |lines| > 1 {
      var first, rest := WithReturn(lines[0]), Returned(lines[1..]);
      ReturnedSays(lines[1..]);
      ReturnSays(lines[0]);
      assert ([first] + rest)[1..] == rest;
      assert HeadersClosed(lines) <==> !EndsOpen(lines[0]) && HeadersClosed(lines[1..]) by {
        ClosedFirst(lines);
      }
      hide Says, WithReturn, EndsOpen, HeadersClosed;
      SameParts(Says(first), FileSays(rest), Says(lines[0]), FileSays(lines[1..]));
    }
  }

  lemma ClosedFirst(lines: seq<Line>)
    requires |lines| > 1
    ensures HeadersClosed(lines) <==> !EndsOpen(lines[0]) && HeadersClosed(lines[1..])
  {
    var rest := lines[1..];
    if !EndsOpen(lines[0]) && HeadersClosed(rest) {
      forall i | 0 <= i < |lines| - 1 ensures !EndsOpen(lines[i]) {
        assert i > 0 ==> lines[i] == rest[i - 1];
      }
    }
  }

  lemma SameParts(a: seq<Item>, b: seq<Item>, c: seq<Item>, d: seq<Item>)
    requires |a| == |c|
    ensures a + b == c + d <==> a == c && b == d
  {
    if a + b == c + d {
      assert a == (a + b)[..|a|] == (c + d)[..|c|] == c;
      assert b == (a + b)[|a|..] == (c + d)[|c|..] == d;
    }
  }

  /** Ending the lines with a carriage return and a newline instead of a newline changes
      nothing, neither the items and settings nor the strings in the split buffer, unless a
      line ends in a header without its bracket; then the return becomes part of the name. */
  lemma {:induction false} ReturnsExact(lines: seq<Line>)
    requires LegalFile(lines)
    ensures var crlf, lf := SpellFile(lines, "\r\n"), SpellFile(lines, "\n");
      && (FileItems(crlf) == FileItems(lf) <==> HeadersClosed(lines))
      && (HeadersClosed(lines) ==> FileSettings(crlf) == FileSettings(lf))
      && (HeadersClosed(lines) ==> Tokens(Split(crlf)) == Tokens(Split(lf)))
      && (HeadersClosed(lines) ==> Settings(Split(crlf)) == Settings(Split(lf)))
  {
    var crlf, lf := SpellFile(lines, "\r\n"), SpellFile(lines, "\n");
    assert FileSettings(crlf) == InSections(FileItems(crlf), "") && FileSettings(lf) == InSections(FileItems(lf), "");
    assert Settings(Split(crlf)) == Walk(Tokens(Split(crlf)), "");
    assert Settings(Split(lf)) == Walk(Tokens(Split(lf)), "");
    hide *;
    ReturnedSpelled(lines);
    ReturnedSays(lines);
    FileReads(lines);
    FileReads(Returned(lines));
    FileTokens(crlf);
    FileTokens(lf);
  }
}
