/** Reading a dump back: how much of the message it determines. */
module DumpReading {
  import opened Frames
  import opened Dump

  function DigitValue(c: char): nat {
    if '0' <= c <= '9' then c as int - '0' as int else 0
  }

  function Value(s: string): nat {
    if s == "" then 0 else 10 * Value(s[..|s| - 1]) + DigitValue(s[|s| - 1])
  }

  lemma {:induction false} DecimalValue(n: nat)
    ensures Value(Decimal(n)) == n
  {
    var s := Decimal(n);
    assert s[..|s| - 1] == if n < 10 then "" else Decimal(n / 10);
    if n >= 10 {
      DecimalValue(n / 10);
    }
  }

  lemma {:induction false} LeadingZeros(k: nat, s: string)
    requires s != ""
    ensures Value(seq(k, _ => '0') + s) == Value(s)
  {
    var t := seq(k, _ => '0') + s;
    assert t[..|t| - 1] == seq(k, _ => '0') + s[..|s| - 1];
    if |s| == 1 {
      ZerosValue(k);
      assert t[..|t| - 1] == seq(k, _ => '0');
    } else {
      LeadingZeros(k, s[..|s| - 1]);
    }
  }

  lemma {:induction false} ZerosValue(k: nat)
    ensures Value(seq(k, _ => '0')) == 0
  {
    if k > 0 {
      assert seq(k, _ => '0')[..k - 1] == seq(k - 1, _ => '0');
      ZerosValue(k - 1);
    }
  }

  lemma Decimal3Injective(n: nat, m: nat)
    requires Decimal3(n) == Decimal3(m)
    ensures n == m
  {
    DecimalValue(n);
    DecimalValue(m);
    hide Decimal, Value;
    var s, t := Decimal(n), Decimal(m);
    LeadingZeros(if |s| < 3 then 3 - |s| else 0, s);
    LeadingZeros(if |t| < 3 then 3 - |t| else 0, t);
  }

  lemma {:induction false} DecimalChars(n: nat)
    ensures '\n' !in Decimal(n) && ']' !in Decimal(n)
  {
    if n >= 10 {
      DecimalChars(n / 10);
    }
  }

  lemma {:induction false} HexChars(f: Frame)
    ensures '\n' !in Hex(f)
  {
    if f != [] {
      HexChars(f[..|f| - 1]);
    }
  }

  lemma Hex2Injective(a: Byte, b: Byte)
    requires Hex2(a) == Hex2(b)
    ensures a == b
  {
    DigitInjective(a as int / 16, b as int / 16);
    DigitInjective(a as int % 16, b as int % 16);
    assert a as int == b as int;
  }

  lemma DigitInjective(d: nat, e: nat)
    requires d < 16 && e < 16 && Digit(d) == Digit(e)
    ensures d == e
  {
    assert forall i, j :: 0 <= i < j < 16 ==> "0123456789abcdef"[i] != "0123456789abcdef"[j];
  }

  lemma HexParts(f: Frame)
    requires f != []
    ensures var s := Hex(f);
      s[..|s| - 2] == Hex(f[..|f| - 1]) && s[|s| - 2..] == Hex2(f[|f| - 1])
  {
  }

  lemma {:induction false} HexInjective(f: Frame, g: Frame)
    requires |f| == |g| && Hex(f) == Hex(g)
    ensures f == g
    decreases |f|
  {
    if f != [] {
      var f', g', x, y := f[..|f| - 1], g[..|g| - 1], f[|f| - 1], g[|g| - 1];
      HexParts(f);
      HexParts(g);
      HexInjective(f', g');
      Hex2Injective(x, y);
      assert f == f' + [x] && g == g' + [y];
    }
  }

  // Two texts are cut at the same place by their first stop, and by their last.
  lemma CutAtFirst(x: string, r: string, y: string, t: string, stop: char)
    requires stop !in x && stop !in y && x + [stop] + r == y + [stop] + t
    ensures x == y && r == t
  {
    var s := x + [stop] + r;
    assert s[|x|] == stop && s[|y|] == stop;
    assert forall i :: 0 <= i < |x| ==> s[i] == x[i] != stop;
    assert forall i :: 0 <= i < |y| ==> s[i] == y[i] != stop;
    assert |x| == |y|;
    assert s[..|x|] == x && s[..|x|] == y;
    assert s[|x| + 1..] == r && s[|x| + 1..] == t;
  }

  lemma CutAtLast(x: string, r: string, y: string, t: string, stop: char)
    requires stop !in r && stop !in t && x + [stop] + r == y + [stop] + t
    ensures x == y && r == t
  {
    var s := x + [stop] + r;
    assert s[|x|] == stop && s[|y|] == stop;
    assert forall i :: |x| < i < |s| ==> s[i] == r[i - |x| - 1] != stop;
    assert forall i :: |y| < i < |s| ==> s[i] == t[i - |y| - 1] != stop;
    assert |x| == |y|;
    assert s[..|x|] == x && s[..|x|] == y;
    assert s[|x| + 1..] == r && s[|x| + 1..] == t;
  }

  lemma {:induction false} FrameDumpExact(f: Frame, g: Frame)
    ensures FrameDump(f) == FrameDump(g) <==> |f| == |g| && (|f| < 1000 ==> f == g)
  {
    if FrameDump(f) == FrameDump(g) {
      SizesAgree(f, g);
      BodiesAgree(f, g);
    }
  }

  lemma SizesAgree(f: Frame, g: Frame)
    requires FrameDump(f) == FrameDump(g)
    ensures |f| == |g| && Body(f) == Body(g)
  {
    hide Decimal3, Body;
    var x, y := Decimal3(|f|), Decimal3(|g|);
    var r, t := " " + Body(f), " " + Body(g);
    assert x + [']'] + r == FrameDump(f)[2..] && y + [']'] + t == FrameDump(g)[2..];
    Decimal3Chars(|f|);
    Decimal3Chars(|g|);
    CutAtFirst(x, r, y, t, ']');
    Decimal3Injective(|f|, |g|);
    assert r[1..] == Body(f) && t[1..] == Body(g);
  }

  lemma Decimal3Chars(n: nat)
    ensures '\n' !in Decimal3(n) && ']' !in Decimal3(n)
  {
    DecimalChars(n);
  }

  lemma BodiesAgree(f: Frame, g: Frame)
    requires |f| == |g| && Body(f) == Body(g)
    ensures |f| < 1000 ==> f == g
  {
    if |f| < 1000 {
      if !IsText(f) && !IsText(g) {
        HexInjective(f, g);
      }
    }
  }

  // What a frame adds after its newline.
  function Line(f: Frame): string {
    "[" + Decimal3(|f|) + "] " + Body(f)
  }

  lemma DumpLine(f: Frame)
    ensures FrameDump(f) == ['\n'] + Line(f) && '\n' !in Line(f)
  {
    hide Decimal3, Body;
    Decimal3Chars(|f|);
    BodyChars(f);
  }

  lemma BodyChars(f: Frame)
    ensures '\n' !in Body(f)
  {
    hide Hex;
    HexChars(f);
    assert forall i :: 0 <= i < |TOO_BIG| ==> TOO_BIG[i] != '\n';
  }

  predicate SameDump(a: Message, b: Message) {
    |a| == |b| && forall i :: 0 <= i < |a| ==> |a[i]| == |b[i]| && (|a[i]| < 1000 ==> a[i] == b[i])
  }

  /** The dump determines the number of frames, their sizes, and the bytes of every frame
      below 1000 bytes, and nothing else. */
  lemma {:induction false} DumpExact(a: Message, b: Message)
    ensures SameDump(a, b) ==> Text(a) == Text(b)
    ensures Text(a) == Text(b) ==> SameDump(a, b)
    decreases |a|
  {
    if a == [] || b == [] {
      DumpEmpty(a);
      DumpEmpty(b);
    } else {
      hide *;
      DumpExact(a[..|a| - 1], b[..|b| - 1]);
      TextSame(a, b);
      SameDumpLast(a, b);
    }
  }

  // Two dumps are the same when they are up to the last frame and the last lines are.
  lemma {:induction false} TextSame(a: Message, b: Message)
    requires a != [] && b != []
    ensures var f, g := a[|a| - 1], b[|b| - 1];
      Text(a) == Text(b) <==>
        Text(a[..|a| - 1]) == Text(b[..|b| - 1]) && |f| == |g| && (|f| < 1000 ==> f == g)
  {
    var f, g := a[|a| - 1], b[|b| - 1];
    TextLast(a);
    TextLast(b);
    FrameDumpExact(f, g);
    DumpLine(f);
    DumpLine(g);
    hide *;
    var x, y := Text(a[..|a| - 1]), Text(b[..|b| - 1]);
    if Text(a) == Text(b) {
      CutAtLast(x, Line(f), y, Line(g), '\n');
    }
    if FrameDump(f) == FrameDump(g) {
      assert Line(f) == FrameDump(f)[1..] == Line(g);
    }
  }

  lemma {:induction false} TextLast(m: Message)
    requires m != []
    ensures Text(m) == Text(m[..|m| - 1]) + ['\n'] + Line(m[|m| - 1])
  {
    DumpLine(m[|m| - 1]);
    hide FrameDump, Line;
  }

  lemma DumpEmpty(m: Message)
    ensures Text(m) == "" <==> m == []
  {
  }

  lemma SameDumpLast(a: Message, b: Message)
    requires a != [] && b != []
    ensures var f, g := a[|a| - 1], b[|b| - 1];
      SameDump(a, b) <==>
        SameDump(a[..|a| - 1], b[..|b| - 1]) && |f| == |g| && (|f| < 1000 ==> f == g)
  {
    var a', b' := a[..|a| - 1], b[..|b| - 1];
    if |a| == |b| {
      assert forall i :: 0 <= i < |a'| ==> a'[i] == a[i] && b'[i] == b[i];
      if SameDump(a', b') && |a[|a| - 1]| == |b[|b| - 1]| && (|a[|a| - 1]| < 1000 ==> a[|a| - 1] == b[|b| - 1]) {
        forall i | 0 <= i < |a| ensures |a[i]| == |b[i]| && (|a[i]| < 1000 ==> a[i] == b[i]) {
          if i < |a'| {
            assert a'[i] == a[i] && b'[i] == b[i];
          }
        }
      }
    }
  }
}
