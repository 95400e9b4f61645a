/** The INI reader: a NUL-terminated file image that is split in place and then queried
    by walking the NUL-separated strings that splitting leaves. */
module IniFile {
  import opened Wrappers
  import opened Buffer
  import opened IniText
  import opened IniSplit
  import opened IniTokens

  class Ini {
    // The image, terminator included; `end` is the offset of the terminator.
    const data: array<char>
    const end: nat

    ghost predicate Valid()
      reads data
    {
      data.Length == end + 1 && data[end] == NUL
    }

    ghost function Image(): (image: string)
      reads data
      ensures |image| == data.Length
    {
      data[..]
    }

    // Loads a file: its bytes, a terminator, and the split in place.
    constructor (file: string)
      ensures Valid() && fresh(data) && end == |file|
      ensures Image() == Split(file) + [NUL]
    {
      end := |file|;
      data := new char[|file| + 1](i requires 0 <= i <= |file| => if i < |file| then file[i] else NUL);
      new;
      assert Image()[..end] == file;
      SplitData();
    }

    lemma ImageAt(p: nat)
      requires Valid() && p <= end
      ensures Image()[p] == data[p]
      ensures Image()[p..end] == data[p..end]
      ensures p < end ==> Image()[p..end][0] == data[p]
    {
    }

    method Clear(p: nat)
      requires Valid() && p <= end
      modifies data
      ensures Valid() && data[p] == NUL
      ensures Image() == Overwrite(old(Image()), p, [NUL])
    {
      ghost var image := Image();
      data[p] := NUL;
      OverwriteIs(image, p, [NUL], Image());
    }

    // Overwrites the blanks that end at `p` with NULs.  Nothing before `lo` is touched
    // when the character there is not a blank.
    method TrimBack(p: int, ghost lo: nat)
      requires Valid() && lo <= p + 1 <= end
      requires lo == 0 || !IsBlank(data[lo - 1])
      modifies data
      ensures Valid()
      ensures var text := old(Image())[lo..p + 1];
        Image() == Overwrite(old(Image()), lo, Pad(TrimEnd(text), |text|))
    {
      hide Overwrite, TrimEnd;
      ghost var image := Image();
      var q := p;
      while q >= 0 && IsBlank(data[q])
        invariant lo <= q + 1 <= p + 1
        invariant forall i :: 0 <= i <= q || p < i <= end ==> data[i] == image[i]
        invariant forall i :: q < i <= p ==> data[i] == NUL && IsBlank(image[i])
      {
        data[q] := NUL;
        q := q - 1;
      }
      TrimEndIs(image, lo, q + 1, p + 1);
      OverwriteIs(image, lo, Pad(image[lo..q + 1], p + 1 - lo), Image());
    }

    // Overwrites the rest of the line with NULs and returns the offset of its end.
    method DiscardLine(p: nat) returns (q: nat)
      requires Valid() && p <= end
      modifies data
      ensures Valid() && q <= end
      ensures q == p + LineLength(old(Image())[p..end])
      ensures Image() == Overwrite(old(Image()), p, Zeros(q - p))
    {
      hide Overwrite, LineLength;
      ghost var image := Image();
      q := p;
      while q < end && data[q] != '\n'
        invariant p <= q <= end
        invariant forall i :: 0 <= i < p || q <= i <= end ==> data[i] == image[i]
        invariant forall i :: p <= i < q ==> data[i] == NUL && image[i] != '\n'
      {
        data[q] := NUL;
        q := q + 1;
      }
      LineLengthIs(image[p..end], q - p);
      OverwriteIs(image, p, Zeros(q - p), Image());
    }

    // Overwrites the '=' at `p` and the blanks after it, and returns the offset after them.
    method SkipToValue(p: nat) returns (q: nat)
      requires Valid() && p < end
      modifies data
      ensures Valid() && q <= end
      ensures q == p + 1 + BlankPrefix(old(Image())[p + 1..end]) && data[q - 1] == NUL
      ensures Image() == Overwrite(old(Image()), p, Zeros(q - p))
    {
      hide Overwrite, BlankPrefix;
      ghost var image := Image();
      data[p] := NUL;
      q := p + 1;
      while IsBlank(data[q])
        invariant p < q <= end
        invariant forall i :: 0 <= i < p || q <= i <= end ==> data[i] == image[i]
        invariant forall i :: p <= i < q ==> data[i] == NUL
        invariant forall i :: p < i < q ==> IsBlank(image[i])
        decreases end - q
      {
        data[q] := NUL;
        q := q + 1;
      }
      BlankPrefixIs(image[p + 1..end], q - p - 1);
      OverwriteIs(image, p, Zeros(q - p), Image());
    }

    // Moves a quoted value, unescaped, onto its opening quote and returns the offset after
    // it.  The write head `q` stays behind the read head `r`, so nothing from `q` on has
    // been overwritten when the loop ends.
    method UnescapeQuotedValue(p: nat) returns (q: nat)
      requires Valid() && p < end
      modifies data
      ensures Valid() && q < end
      ensures var value := Unescape(old(Image())[p + 1..end]);
        q == p + |value| && Image() == Overwrite(old(Image()), p, value)
    {
      hide Overwrite, Unescape, LineLength;
      q := p;
      var r := p + 1;
      ghost var image, written := Image(), "";
      ghost var value := Unescape(image[p + 1..end]);
      AppendChar(written, [], value);
      while r < end && data[r] != '"' && data[r] != '\r' && data[r] != '\n'
        invariant p <= q < r <= end && |written| == q - p
        invariant forall i :: 0 <= i < p || q <= i <= end ==> data[i] == image[i]
        invariant forall i :: 0 <= i < |written| ==> data[p + i] == written[i]
        invariant value == written + Unescape(image[r..end])
      {
        var ended, c, next := ReadChar(r, image);
        if ended {
          AppendChar(written, [], "");
          OverwriteIs(image, p, written, data[..]);
          return;
        }
        AppendChar(written, [c], Unescape(image[next..end]));
        data[q] := c;
        q, r := q + 1, next;
        written := written + [c];
      }
      UnescapeStops(image, r, end, written);
      OverwriteIs(image, p, written, data[..]);
    }

    // The character of a quoted value that is written at `r`, and where the next one is
    // written; or the end of the value, at a backslash that escapes nothing.
    method ReadChar(r: nat, ghost image: string) returns (ended: bool, c: char, next: nat)
      requires Valid() && r < end && |image| == data.Length
      requires data[r] != '"' && data[r] != '\r' && data[r] != '\n'
      requires forall i :: r <= i <= end ==> data[i] == image[i]
      ensures if ended then Unescape(image[r..end]) == ""
        else r < next <= end && Unescape(image[r..end]) == [c] + Unescape(image[next..end])
    {
      hide Unescape, LineLength;
      UnescapeStep(image, r, end);
      c, next := data[r], r;
      if c == '\\' {
        next := next + 1;
        c := data[next];
        if EndsEscape(c) {
          return true, c, next;
        }
        c := EscapedChar(c);
      }
      return false, c, next + 1;
    }

    // Splits the quoted value at `p` and returns the offset after it, or `p` when the quotes
    // are empty.
    method SplitQuotedValue(p: nat) returns (q: nat)
      requires Valid() && p < end && data[p] == '"'
      modifies data
      ensures Valid() && q <= end
      ensures var item := ValueItem(old(Image())[p..end]);
        q == p + |item| && Image() == Overwrite(old(Image()), p, item)
    {
      hide Image, Overwrite, ValueItem, Unescape, LineLength, Zeros;
      ghost var image := Image();
      ghost var v := image[p..end];
      ImageAt(p);
      QuotedItem(v);
      ghost var value := Unescape(v[1..]);
      assert v[1..] == image[p + 1..end];
      q := UnescapeQuotedValue(p);
      if q != p {
        // Whatever stands behind the closing quote goes too
        OverwriteRest(image, p, value, |value|, end);
        q := DiscardLine(q);
        OverwriteJoin(image, p, value, Zeros(LineLength(v) - |value|));
      }
    }

    // Splits the value at `p` and returns the offset after it, or `p` when the value is
    // missing or its quotes are empty.
    method SplitValue(p: nat) returns (q: nat)
      requires Valid() && 0 < p <= end && data[p - 1] == NUL
      modifies data
      ensures Valid() && q <= end
      ensures var item := ValueItem(old(Image())[p..end]);
        q == p + |item| && Image() == Overwrite(old(Image()), p, item)
    {
      hide Image, Overwrite, ValueItem, Span, TrimEnd, Pad;
      ghost var image := Image();
      ghost var v := image[p..end];
      assert v == data[p..end] && data[p] == if v != "" then v[0] else NUL by {
        ImageAt(p);
      }
      if data[p] == '\n' || data[p] == NUL {
        NoValueItem(v);
        OverwriteNothing(image, p);
        q := p;
      } else if data[p] == '"' {
        q := SplitQuotedValue(p);
      } else {
        q := p + Span(data[p..end], "\n");
        SliceHead(image, p, end, q - p);
        TrimBack(q - 1, p);
        PlainItem(v);
      }
    }

    // Trims the key that ends at the '=' at `p`, overwrites the '=' and the blanks after it,
    // and returns the offset of the value.
    method ClearKey(lineStart: nat, p: nat) returns (q: nat)
      requires Valid() && lineStart <= p < end && data[p] == '='
      requires p == lineStart + Span(Image()[lineStart..end], "=\n")
      requires lineStart == 0 || !IsBlank(data[lineStart - 1])
      modifies data
      ensures Valid() && lineStart < q <= end && data[q - 1] == NUL
      ensures var s := old(Image())[lineStart..end];
        q == lineStart + |KeyBytes(s)| == lineStart + ValueStart(s, p - lineStart) &&
        Image() == Overwrite(old(Image()), lineStart, KeyBytes(s))
    {
      hide Image, Overwrite, KeyBytes, LineLength, Span, BlankPrefix, TrimEnd, Pad, Zeros;
      ghost var image := Image();
      ghost var s := image[lineStart..end];
      ghost var eq := p - lineStart;
      SliceHead(image, lineStart, end, eq);
      TrimBack(p - 1, lineStart);
      ghost var trimmed := Image();
      OverwriteRest(image, lineStart, Pad(TrimEnd(s[..eq]), eq), eq + 1, end);
      assert trimmed[p + 1..end] == s[eq + 1..] && ValueStart(s, eq) == eq + 1 + BlankPrefix(s[eq + 1..]);
      hide ValueStart;
      q := SkipToValue(p);
      KeyCleared(image, lineStart, s, trimmed);
    }

    // Splits the line at `lineStart`, whose first character is neither a separator nor
    // the start of a header or comment, and returns the offset where the next item starts.
    method SplitKey(lineStart: nat) returns (p: nat)
      requires Valid() && lineStart < end
      requires data[lineStart] != '\n' && data[lineStart] != NUL && !IsBlank(data[lineStart])
      requires lineStart == 0 || !IsBlank(data[lineStart - 1])
      modifies data
      ensures Valid() && lineStart < p <= end
      ensures var item := KeyItem(old(Image())[lineStart..end]);
        p == lineStart + |item| && Image() == Overwrite(old(Image()), lineStart, item)
    {
      hide Image, Overwrite, KeyItem, KeyBytes, ValueItem, ValueStart, LineLength, Span, TrimEnd, Pad, Zeros;
      ghost var image := Image();
      ghost var s := image[lineStart..end];
      ImageAt(lineStart);
      p := lineStart + Span(data[lineStart..end], "=\n");
      ghost var eq := p - lineStart;
      assert data[p] == if eq < |s| then s[eq] else NUL by {
        ImageAt(p);
      }

      // A line without a '=' holds nothing
      if data[p] != '=' {
        p := DiscardLine(lineStart);
        KeyItemWithoutEquals(s);
        return;
      }
      p := SplitPair(lineStart, p);
    }

    // Splits the line at `lineStart` with its '=' at `p`.
    method SplitPair(lineStart: nat, p: nat) returns (q: nat)
      requires Valid() && lineStart <= p < end && data[p] == '='
      requires data[lineStart] != '\n'
      requires p == lineStart + Span(Image()[lineStart..end], "=\n")
      requires lineStart == 0 || !IsBlank(data[lineStart - 1])
      modifies data
      ensures Valid() && lineStart < q <= end
      ensures var item := KeyItem(old(Image())[lineStart..end]);
        q == lineStart + |item| && Image() == Overwrite(old(Image()), lineStart, item)
    {
      hide Image, Overwrite, KeyItem, KeyBytes, ValueItem, ValueStart, LineLength, Span, TrimEnd, Pad, Zeros;
      ghost var image := Image();
      ghost var s := image[lineStart..end];
      assert s[0] != '\n' && s[p - lineStart] == '=' by {
        ImageAt(lineStart);
        ImageAt(p);
      }
      q := ClearKey(lineStart, p);
      ghost var cleared := Image();
      ghost var v := s[q - lineStart..];
      OverwriteRest(image, lineStart, KeyBytes(s), q - lineStart, end);
      var valueStart := q;
      q := SplitValue(q);
      if q == valueStart {
        // Nothing follows the '=', or only empty quotes
        OverwriteNothing(cleared, valueStart);
        KeyDiscarded(image, lineStart, end, cleared);
        q := DiscardLine(lineStart);
        KeyItemWithoutValue(s);
      } else {
        KeyItemWithValue(s);
        OverwriteJoin(image, lineStart, KeyBytes(s), ValueItem(v));
      }
    }

    // Splits the item at `p` and returns the offset where the next one starts.  What is
    // done so far, followed by the split of what is left, stays the same.
    method SplitItem(p: nat) returns (q: nat)
      requires Valid() && p < end
      requires p == 0 || !IsBlank(data[p - 1]) || data[p] == NUL
      modifies data
      ensures Valid() && p < q <= end
      ensures Progress(old(Image()), p) == Progress(Image(), q)
      ensures !IsBlank(data[q - 1]) || data[q] == NUL
    {
      hide Image, Progress, Overwrite, ItemBytes, KeyItem, LineLength, Span;
      ghost var image := Image();
      ghost var s := image[p..end];
      assert s == data[p..end] && s[0] == data[p] && image[end] == NUL by {
        ImageAt(p);
        ImageAt(end);
      }
      match data[p] {
        case '\r' | '\n' | '\t' | ' ' | '\0' =>
          Clear(p);
          q := p + 1;
          SeparatorItem(s);
        case '[' =>
          q := p + Span(data[p..end], "]\n");
          Clear(q);
          HeaderProgress(image, p);
          return;
        case ';' =>
          q := DiscardLine(p);
          CommentItem(s);
        case _ =>
          q := SplitKey(p);
          KeyLineItem(s);
      }
      ItemProgress(image, p);
      ImageAt(q - 1);
    }

    // What the image will be once it is split from `p` on.
    ghost function Progress(image: string, p: nat): string
      requires p <= end <= |image|
    {
      image[..p] + Split(image[p..end])
    }

    // Splits the whole image in place.
    method SplitData()
      requires Valid()
      modifies data
      ensures Valid()
      ensures Image() == Split(old(Image())[..end]) + [NUL]
    {
      hide Image, Progress, Split;
      ghost var image := Image();
      ProgressStarts(image);
      var p := 0;
      while p < end
        invariant Valid() && 0 <= p <= end
        invariant Progress(image, 0) == Progress(Image(), p)
        invariant p == 0 || !IsBlank(data[p - 1]) || data[p] == NUL
      {
        p := SplitItem(p);
      }
      ImageAt(end);
      ProgressEnds(Image());
    }

    // The C string at `p`.
    function StringAt(p: nat): (s: CString)
      requires Valid() && p <= end
      reads data
    {
      data[p..end][..Span(data[p..end], "")]
    }

    // The offset of the string after the one at `p`, or `end`.
    method Next(p: nat) returns (q: nat)
      requires Valid() && p <= end
      ensures p <= q <= end && (q == end || data[q] != NUL)
      ensures Tokens(Image()[p..end]) ==
        (if StringAt(p) == "" then [] else [StringAt(p)]) + Tokens(Image()[q..end])
    {
      hide Tokens, Span;
      q := p + |StringAt(p)|;
      FirstToken(data[p..end]);
      assert data[p..end][|StringAt(p)|..] == data[q..end];
      while q < end && data[q] == NUL
        invariant p <= q <= end
        invariant Tokens(data[p..end]) ==
          (if StringAt(p) == "" then [] else [StringAt(p)]) + Tokens(data[q..end])
      {
        SkipNul(data[q..end]);
        assert data[q..end][1..] == data[q + 1..end];
        q := q + 1;
      }
      ImageAt(p);
      ImageAt(q);
    }

    // Whether the key at `p` of section `current`, with the value at `val`, is asked for.
    method MatchesAt(p: nat, ghost val: nat, current: CString, section: Option<CString>, key: CString)
      returns (hit: bool)
      requires Valid() && p <= end && val <= end
      ensures hit <==> Matches(Setting(current, StringAt(p), StringAt(val)), section, key)
    {
      hide StringAt, SameName;
      if section.Some? {
        var d := StrCmpCI(section.value, current);
        if d != 0 {
          return false;
        }
      }
      var d := StrCmpCI(StringAt(p), key);
      hit := d == 0;
    }

    // The offset of the value that a query finds, if any.
    method Get(section: Option<CString>, key: CString) returns (r: Option<nat>)
      requires Valid()
      ensures r.Some? ==> r.value <= end
      ensures Lookup(Settings(Image()[..end]), section, key) ==
        if r.Some? then Some(StringAt(r.value)) else None
    {
      hide Tokens, Image, Lookup, Walk, StringAt, Matches, AllWords;
      ghost var b := Image();
      ghost var answer := Lookup(Settings(b[..end]), section, key);
      var current: CString := "";
      var p := 0;
      assert b[0..end] == b[..end];
      StringStart(p);
      if data[p] == NUL {
        p := Next(p);
        ghost var ts := Tokens(b[p..end]);
        assert [] + ts == ts;
      }
      assert Tokens(b[0..end]) == Tokens(b[p..end]);
      while p < end
        invariant p <= end && (p == end || data[p] != NUL)
        invariant answer == Lookup(Walk(Tokens(b[p..end]), current), section, key)
        decreases end - p
      {
        ghost var ts, start, old' := Tokens(b[p..end]), p, current;
        StringStart(p);
        if data[p] == '[' {
          current := StringAt(p + 1);
          p := Next(p);
          WalkSection(ts, StringAt(start), Tokens(b[p..end]), old');
        } else {
          var val := Next(p);
          StringStart(val);
          var hit := MatchesAt(p, val, current, section, key);
          if hit {
            WalkHit(ts, StringAt(p), StringAt(val), current, section, key);
            return Some(val);
          }
          p := Next(val);
          WalkMiss(ts, StringAt(start), StringAt(val), Tokens(b[p..end]), current, section, key);
        }
      }
      assert b[end..end] == "";
      NothingFound(current, section, key);
      return None;
    }

    // The string at `p` and the tokens from there on start alike.
    lemma StringStart(p: nat)
      requires Valid() && p <= end
      ensures StringAt(p) == "" <==> data[p] == NUL
      ensures StringAt(p) != "" ==>
        p < end && StringAt(p)[0] == data[p] && StringAt(p + 1) == StringAt(p)[1..]
      ensures var ts := Tokens(Image()[p..end]);
        if StringAt(p) == "" then p == end ==> ts == [] else ts != [] && ts[0] == StringAt(p)
    {
      var s := data[p..end];
      FirstToken(s);
      if s != "" {
        assert s[1..] == data[p + 1..end];
        assert s[0] == data[p];
      }
      hide Tokens;
    }

    lemma ProgressStarts(image: string)
      requires end <= |image|
      ensures Progress(image, 0) == Split(image[..end])
    {
      assert image[0..end] == image[..end];
    }

    lemma ProgressEnds(image: string)
      requires |image| == end + 1 && image[end] == NUL
      ensures image == Progress(image, end) + [NUL]
    {
    }

    // Replacing the first item of what is left keeps the whole.
    lemma ItemProgress(image: string, p: nat)
      requires p < end < |image|
      ensures var item := ItemBytes(image[p..end]);
        var q, out := p + |item|, Overwrite(image, p, item);
        Progress(image, p) == Progress(out, q) && out[q - 1] == item[|item| - 1]
    {
      hide ItemBytes, Overwrite, Split;
      var s := image[p..end];
      var item := ItemBytes(s);
      var tail := Split(s[|item|..]);
      OverwriteRest(image, p, item, |item|, end);
      OverwriteHead(image, p, item);
      OverwriteSlices(image, p, item);
      SplitStep(s, item, s[|item|..], tail);
      Concat3(image[..p], item, tail);
    }

    // A header keeps its text; only the character that ends it is overwritten.
    lemma HeaderProgress(image: string, p: nat)
      requires p < end < |image| && image[p] == '[' && image[end] == NUL
      ensures var q := p + Span(image[p..end], "]\n");
        p < q && Progress(image, p) == Progress(Overwrite(image, q, [NUL]), q)
    {
      hide *;
      var s := image[p..end];
      HeaderSplit(s);
      var n := Span(s, "]\n");
      var out := Overwrite(image, p + n, [NUL]);
      HeaderKept(image, p, n, end);
      ProgressIs(image, p);
      ProgressIs(out, p + n);
      var head, tail := image[..p], if n < |s| then [NUL] + s[n + 1..] else "";
      Concat3(head, s[..n], Split(tail));
      assert out[p + n..end] == tail;
      assert Progress(out, p + n) == head + s[..n] + Split(tail);
    }

    lemma ProgressIs(image: string, p: nat)
      requires p <= end <= |image|
      ensures Progress(image, p) == image[..p] + Split(image[p..end])
    {
    }
  }

  // Case-insensitive comparison: zero exactly when the names are the same.
  method StrCmpCI(a: CString, b: CString) returns (d: int)
    ensures d == 0 <==> SameName(a, b)
    ensures d == 0 <==> |a| == |b| && forall i :: 0 <= i < |a| ==>
      a[i] == b[i]
      || ('A' <= a[i] <= 'Z' && b[i] as int == a[i] as int + 32)
      || ('A' <= b[i] <= 'Z' && a[i] as int == b[i] as int + 32)
  {
    SameNameExact(a, b);
    hide Lower;
    var i := 0;
    while true
      invariant i <= |a| && i <= |b|
      invariant forall j :: 0 <= j < i ==> LowerChar(a[j]) == LowerChar(b[j])
      decreases |a| - i
    {
      var c := if i < |a| then a[i] else NUL;
      var e := if i < |b| then b[i] else NUL;
      d := (LowerChar(c) as int) - (LowerChar(e) as int);
      if d != 0 || c == NUL {
        if d != 0 && |a| == |b| {
          assert Lower(a)[i] != Lower(b)[i];
        }
        return;
      }
      i := i + 1;
    }
  }

  lemma WalkSection(ts: seq<string>, word: string, rest: seq<string>, current: string)
    requires ts == [word] + rest && "[" <= word
    ensures Walk(ts, current) == Walk(rest, word[1..])
  {
    assert ts[1..] == rest;
  }

  // The first setting of a walk is the one looked for.
  lemma WalkHit(ts: seq<string>, word: string, value: string, current: string,
      section: Option<string>, key: string)
    requires ts != [] && ts[0] == word && !("[" <= word)
    requires if |ts| > 1 then value == ts[1] else value == ""
    requires Matches(Setting(current, word, value), section, key)
    ensures Lookup(Walk(ts, current), section, key) == Some(value)
  {
  }

  lemma WalkMiss(ts: seq<string>, word: string, value: string, rest: seq<string>, current: string,
      section: Option<string>, key: string)
    requires ts == [word] + (if value == "" then [] else [value]) + rest && !("[" <= word)
    requires value == "" ==> rest == []
    requires !Matches(Setting(current, word, value), section, key)
    ensures Lookup(Walk(ts, current), section, key) == Lookup(Walk(rest, current), section, key)
  {
    if value != "" {
      assert ts[2..] == rest;
    }
  }

  lemma NothingFound(current: string, section: Option<string>, key: string)
    ensures Lookup(Walk(Tokens(""), current), section, key) == None
  {
  }

  lemma FirstToken(s: string)
    ensures var w := s[..Span(s, "")];
      Tokens(s) == (if w == "" then [] else [w]) + Tokens(s[|w|..])
  {
  }

  lemma SkipNul(s: string)
    requires s != "" && s[0] == NUL
    ensures Tokens(s) == Tokens(s[1..])
  {
  }

  lemma HeaderKept(image: string, p: nat, n: nat, end: nat)
    requires p + n <= end < |image| && image[end] == NUL
    ensures var out := Overwrite(image, p + n, [NUL]);
      out[..p + n] == image[..p] + image[p..end][..n] &&
      out[p + n..end] == if p + n < end then [NUL] + image[p..end][n + 1..] else ""
  {
    hide Overwrite;
    var q := p + n;
    var out := Overwrite(image, q, [NUL]);
    OverwriteSlices(image, q, [NUL]);
    SliceHead(image, p, end, n);
    assert image[..q] == image[..p] + image[p..q];
    if q < end {
      OverwriteRest(image, q, [NUL], 1, end);
      assert out[q..end] == out[q..q + 1] + out[q + 1..end];
      assert image[q..end][1..] == image[p..end][n + 1..];
    }
  }

  lemma PadMore(s: string, narrow: nat, wide: nat)
    requires |s| <= narrow <= wide
    ensures Pad(s, narrow) + Zeros(wide - narrow) == Pad(s, wide)
  {
  }

  lemma {:induction false} KeyCleared(image: string, p: nat, s: string, trimmed: string)
    requires p + |s| <= |image|
    requires var eq := Span(s, "=\n");
      eq < |s| && trimmed == Overwrite(image, p, Pad(TrimEnd(s[..eq]), eq))
    ensures var eq, k := Span(s, "=\n"), |KeyBytes(s)|;
      eq < k == ValueStart(s, eq) && p + k <= |image| &&
      Overwrite(trimmed, p + eq, Zeros(k - eq)) == Overwrite(image, p, KeyBytes(s))
  {
    var eq, k := Span(s, "=\n"), |KeyBytes(s)|;
    var key := Pad(TrimEnd(s[..eq]), eq);
    PadMore(TrimEnd(s[..eq]), eq, k);
    hide Overwrite, Pad, Zeros, TrimEnd, Span, BlankPrefix;
    OverwriteJoin(image, p, key, Zeros(k - eq));
  }

  // A key without a value leaves nothing of its line.
  lemma KeyDiscarded(image: string, p: nat, end: nat, cleared: string)
    requires p < end <= |image|
    requires var s := image[p..end];
      Span(s, "=\n") < |s| && s[Span(s, "=\n")] == '=' &&
      cleared == Overwrite(image, p, KeyBytes(s))
    ensures var n := LineLength(image[p..end]);
      LineLength(cleared[p..end]) == n &&
      Overwrite(cleared, p, Zeros(n)) == Overwrite(image, p, Zeros(n))
  {
    hide Span, LineLength, KeyBytes, Overwrite, Zeros;
    var s := image[p..end];
    var key, n := KeyBytes(s), LineLength(s);
    KeyWithinLine(s);
    OverwriteSlices(image, p, key);
    assert cleared[p..end] == key + s[|key|..] by {
      assert cleared[p + |key|..][..|s| - |key|] == image[p + |key|..][..|s| - |key|];
    }
    LineLengthPrefix(key, s);
    OverwriteAgain(image, p, key, Zeros(n));
  }

  lemma LineLengthPrefix(key: string, s: string)
    requires |key| <= LineLength(s) && '\n' !in key
    ensures LineLength(key + s[|key|..]) == LineLength(s)
  {
    LineLengthIs(key + s[|key|..], LineLength(s));
  }

  lemma KeyWithinLine(s: string)
    requires Span(s, "=\n") < |s| && s[Span(s, "=\n")] == '='
    ensures |KeyBytes(s)| <= LineLength(s) && '\n' !in KeyBytes(s)
  {
    hide Span, BlankPrefix, LineLength, TrimEnd;
    var eq := Span(s, "=\n");
    var rest := s[eq + 1..];
    assert forall i :: eq < i < |s| ==> s[i] == rest[i - eq - 1];
    TrimEndIsPrefix(s[..eq]);
  }

  // ----- when a scan has found its end

  lemma TrimEndIs(image: string, lo: nat, mid: nat, hi: nat)
    requires lo <= mid <= hi <= |image|
    requires lo < mid ==> !IsBlank(image[mid - 1])
    requires forall i :: mid <= i < hi ==> IsBlank(image[i])
    ensures TrimEnd(image[lo..hi]) == image[lo..mid]
  {
    var s := image[lo..hi];
    var t := TrimEnd(s);
    TrimEndIsPrefix(s);
    assert forall i :: mid <= i < hi ==> s[i - lo] == image[i];
    assert lo < mid ==> s[mid - lo - 1] == image[mid - 1];
    assert t != "" ==> t[|t| - 1] == s[|t| - 1];
    assert |t| == mid - lo;
  }

  lemma LineLengthIs(s: string, n: nat)
    requires n <= |s| && forall i :: 0 <= i < n ==> s[i] != '\n'
    requires n < |s| ==> s[n] == '\n'
    ensures LineLength(s) == n
  {
  }

  lemma BlankPrefixIs(s: string, n: nat)
    requires n <= |s| && forall i :: 0 <= i < n ==> IsBlank(s[i])
    requires n < |s| ==> !IsBlank(s[n])
    ensures BlankPrefix(s) == n
  {
  }

  lemma AppendChar(written: string, c: string, rest: string)
    ensures written + (c + rest) == written + c + rest && written + [] == written && "" + rest == rest
  {
  }

  // What one character of a quoted value, or one escape, stands for.
  lemma UnescapeStep(image: string, r: nat, end: nat)
    requires r < end < |image| && image[end] == NUL
    requires image[r] != '"' && image[r] != '\r' && image[r] != '\n'
    ensures image[r] != '\\' ==>
      Unescape(image[r..end]) == [image[r]] + Unescape(image[r + 1..end])
    ensures image[r] == '\\' && !EndsEscape(image[r + 1]) ==>
      r + 2 <= end &&
      Unescape(image[r..end]) == [EscapedChar(image[r + 1])] + Unescape(image[r + 2..end])
    ensures image[r] == '\\' && EndsEscape(image[r + 1]) ==> Unescape(image[r..end]) == ""
  {
    var t := image[r..end];
    assert t[1..] == image[r + 1..end];
    if r + 2 <= end {
      assert t[2..] == image[r + 2..end];
    }
  }

  lemma UnescapeStops(image: string, r: nat, end: nat, written: string)
    requires r <= end < |image|
    requires r < end ==> image[r] == '"' || image[r] == '\r' || image[r] == '\n'
    ensures written + Unescape(image[r..end]) == written
  {
  }
}
