/** What a dump shows, told without the functions that produce it. */
module DumpContents {
  import opened Wrappers
  import opened Frames
  import opened Dump
  import opened DumpReading

  // The number that a hex digit stands for.
  function HexDigit(c: char): Option<nat> {
    if '0' <= c <= '9' then Some(c as int - '0' as int)
    else if 'a' <= c <= 'f' then Some(c as int - 'a' as int + 10)
    else None
  }

  // Reads pairs of hex digits, the high one first.
  function ReadHex(s: string): Option<seq<int>> {
    if s == "" then Some([])
    else if |s| == 1 then None
    else
      var high, low, rest := HexDigit(s[0]), HexDigit(s[1]), ReadHex(s[2..]);
      if high.None? || low.None? || rest.None? then None
      else Some([16 * high.value + low.value] + rest.value)
  }

  function Codes(f: Frame): seq<int> {
    seq(|f|, i requires 0 <= i < |f| => f[i] as int)
  }

  // The size in decimal, with leading zeros up to three digits and no further ones.
  predicate SizeText(s: string, n: nat) {
    |s| >= 3 && (forall i :: 0 <= i < |s| ==> '0' <= s[i] <= '9')
    && (|s| > 3 ==> s[0] != '0') && Value(s) == n
  }

  predicate BodyText(s: string, f: Frame) {
    if |f| >= 1000 then s == "... (to big to print)"
    else if forall i :: 0 <= i < |f| ==> 32 <= f[i] as int <= 127 then s == f
    else ReadHex(s) == Some(Codes(f))
  }

  // A frame is shown on a line of its own, its size in brackets in front of it.
  ghost predicate Shows(s: string, f: Frame) {
    exists size: string, body: string ::
      SizeText(size, |f|) && BodyText(body, f) && s == "\n[" + size + "] " + body
  }

  // A message is shown frame by frame.
  ghost predicate ShowsAll(s: string, m: Message)
    decreases |m|
  {
    if m == [] then s == ""
    else exists k :: 0 <= k <= |s| && ShowsAll(s[..k], m[..|m| - 1]) && Shows(s[k..], m[|m| - 1])
  }

  // ----- hex

  lemma DigitIs(d: nat)
    requires d < 16
    ensures HexDigit(Digit(d)) == Some(d)
    ensures d < 10 ==> Digit(d) as int == '0' as int + d
  {
    var digits := "0123456789abcdef";
    assert digits[0] == '0' && digits[1] == '1' && digits[2] == '2' && digits[3] == '3';
    assert digits[4] == '4' && digits[5] == '5' && digits[6] == '6' && digits[7] == '7';
    assert digits[8] == '8' && digits[9] == '9' && digits[10] == 'a' && digits[11] == 'b';
    assert digits[12] == 'c' && digits[13] == 'd' && digits[14] == 'e' && digits[15] == 'f';
  }

  lemma {:induction false} HexFirst(f: Frame)
    requires f != []
    ensures Hex(f) == Hex2(f[0]) + Hex(f[1..])
  {
    var n := |f| - 1;
    if n > 0 {
      HexFirst(f[..n]);
      assert f[..n][1..] == f[1..][..n - 1];
      assert Hex(f[1..]) == Hex(f[1..][..n - 1]) + Hex2(f[n]);
    }
  }

  /** Reading the hex form of a frame gives the frame back. */
  lemma {:induction false} HexReads(f: Frame)
    ensures ReadHex(Hex(f)) == Some(Codes(f))
  {
    CodesFirst(f);
    NoHex();
    hide *;
    if f != [] {
      HexFirst(f);
      HexReads(f[1..]);
      HexPair(Hex2(f[0]), Hex(f[1..]), f[0]);
    }
  }

  lemma CodesFirst(f: Frame)
    ensures Codes(f) == if f == [] then [] else [f[0] as int] + Codes(f[1..])
  {
  }

  lemma NoHex()
    ensures Hex([]) == "" && ReadHex("") == Some([])
  {
  }

  lemma HexPair(pair: string, rest: string, b: Byte)
    requires pair == Hex2(b) && ReadHex(rest).Some?
    ensures ReadHex(pair + rest) == Some([b as int] + ReadHex(rest).value)
  {
    DigitIs(b as int / 16);
    DigitIs(b as int % 16);
    assert (pair + rest)[2..] == rest;
  }

  // Nothing else reads as the frame.
  lemma {:induction false} ReadHexInjective(s: string, t: string)
    requires ReadHex(s).Some? && ReadHex(s) == ReadHex(t)
    ensures s == t
  {
    ReadHexFirst(s);
    ReadHexFirst(t);
    hide *;
    if s != "" && t != "" {
      var x, y := ReadHex(s[2..]).value, ReadHex(t[2..]).value;
      assert ReadHex(s).value[1..] == x && ReadHex(t).value[1..] == y;
      assert ReadHex(s).value[0] == ReadHex(t).value[0];
      ReadHexInjective(s[2..], t[2..]);
      assert s == [s[0], s[1]] + s[2..] && t == [t[0], t[1]] + t[2..];
      PairInjective(s[0], s[1], t[0], t[1]);
    }
  }

  lemma ReadHexFirst(s: string)
    requires ReadHex(s).Some?
    ensures s == "" <==> ReadHex(s) == Some([])
    ensures s != "" ==>
      |s| >= 2 && HexDigit(s[0]).Some? && HexDigit(s[1]).Some? && ReadHex(s[2..]).Some?
      && ReadHex(s).value == [16 * HexDigit(s[0]).value + HexDigit(s[1]).value] + ReadHex(s[2..]).value
  {
  }

  lemma PairInjective(a: char, b: char, c: char, d: char)
    requires HexDigit(a).Some? && HexDigit(b).Some? && HexDigit(c).Some? && HexDigit(d).Some?
    requires 16 * HexDigit(a).value + HexDigit(b).value == 16 * HexDigit(c).value + HexDigit(d).value
    ensures a == c && b == d
  {
  }

  // ----- sizes

  lemma {:induction false} DecimalDigits(n: nat)
    ensures forall i :: 0 <= i < |Decimal(n)| ==> '0' <= Decimal(n)[i] <= '9'
    ensures n > 0 ==> Decimal(n)[0] != '0'
    ensures n < 10 ==> |Decimal(n)| == 1
  {
    DigitIs(n % 10);
    if n >= 10 {
      DecimalDigits(n / 10);
    }
  }

  lemma SizeShown(n: nat)
    ensures SizeText(Decimal3(n), n)
  {
    hide Decimal, Value;
    var s := Decimal(n);
    var k := if |s| < 3 then 3 - |s| else 0;
    var z := seq(k, _ => '0');
    assert Decimal3(n) == z + s;
    DecimalDigits(n);
    DecimalValue(n);
    LeadingZeros(k, s);
    assert forall i :: 0 <= i < |z + s| ==> (z + s)[i] == if i < k then '0' else s[i - k];
  }

  // Digits are a decimal number with zeros in front of it.
  lemma {:induction false} DigitsAre(s: string)
    requires s != "" && forall i :: 0 <= i < |s| ==> '0' <= s[i] <= '9'
    ensures var d := Decimal(Value(s));
      |d| <= |s| && s == seq(|s| - |d|, _ => '0') + d
  {
    hide *;
    var p, c := s[..|s| - 1], s[|s| - 1];
    assert s == p + [c];
    ValueStep(p, c);
    var v, d := Value(p), DigitValue(c);
    DecimalStep(v, d);
    if p != "" {
      DigitsAre(p);
      if v == 0 {
        DecimalStep(0, 0);
        ZeroDigit();
        assert s == seq(|p|, _ => '0') + [c];
      }
    }
  }

  lemma ValueStep(p: string, c: char)
    requires '0' <= c <= '9'
    ensures Value(p + [c]) == 10 * Value(p) + DigitValue(c)
    ensures DigitValue(c) < 10 && Digit(DigitValue(c)) == c
    ensures p == "" ==> Value(p) == 0
  {
    assert (p + [c])[..|p|] == p;
    DigitIs(DigitValue(c));
  }

  lemma ZeroDigit()
    ensures Digit(0) == '0' && Value("") == 0
  {
    DigitIs(0);
  }

  lemma DecimalStep(v: nat, d: nat)
    requires d < 10
    ensures Decimal(10 * v + d) == (if v == 0 then "" else Decimal(v)) + [Digit(d)]
  {
    hide Digit;
    assert (10 * v + d) / 10 == v && (10 * v + d) % 10 == d;
  }

  lemma SizeIs(s: string, n: nat)
    requires SizeText(s, n)
    ensures s == Decimal3(n)
  {
    DigitsAre(s);
    hide Decimal, Value;
    var d := Decimal(n);
    assert |s| > 3 ==> |d| == |s|;
  }

  // ----- the dump

  lemma BodyShown(f: Frame)
    ensures BodyText(Body(f), f)
  {
    HexReads(f);
    hide Hex, ReadHex;
  }

  lemma BodyIs(s: string, f: Frame)
    requires BodyText(s, f)
    ensures s == Body(f)
  {
    if |f| < 1000 && !IsText(f) {
      HexReads(f);
      ReadHexInjective(s, Hex(f));
    }
  }

  /** A frame is dumped as itself exactly when all its bytes are printable and there are not
      too many of them. */
  lemma BodyIsFrame(f: Frame)
    ensures Body(f) == f <==> |f| < 1000 && forall i :: 0 <= i < |f| ==> 32 <= f[i] as int <= 127
  {
    hide Hex;
  }

  /** The dump of a frame is the one text that shows it. */
  lemma {:induction false} FrameShown(s: string, f: Frame)
    ensures Shows(s, f) <==> s == FrameDump(f)
  {
    hide SizeText, BodyText, Decimal3, Body;
    SizeShown(|f|);
    BodyShown(f);
    if Shows(s, f) {
      var size: string, body: string :|
        SizeText(size, |f|) && BodyText(body, f) && s == "\n[" + size + "] " + body;
      SizeIs(size, |f|);
      BodyIs(body, f);
    }
  }

  /** The dump of a message is the one text that shows its frames one after the other. */
  lemma {:induction false} MessageShown(s: string, m: Message)
    ensures ShowsAll(s, m) <==> s == Text(m)
    decreases |m|
  {
    if m != [] {
      hide FrameDump, Shows;
      var before, last := m[..|m| - 1], m[|m| - 1];
      forall k | 0 <= k <= |s|
        ensures ShowsAll(s[..k], before) && Shows(s[k..], last)
          <==> s[..k] == Text(before) && s[k..] == FrameDump(last)
      {
        MessageShown(s[..k], before);
        FrameShown(s[k..], last);
      }
      hide ShowsAll;
      ShownStep(s, m);
      CutOnce(s, Text(before), FrameDump(last));
    }
  }

  lemma ShownStep(s: string, m: Message)
    requires m != []
    ensures ShowsAll(s, m) <==> exists k ::
      0 <= k <= |s| && ShowsAll(s[..k], m[..|m| - 1]) && Shows(s[k..], m[|m| - 1])
  {
  }

  lemma CutOnce(s: string, a: string, b: string)
    ensures s == a + b <==> exists k :: 0 <= k <= |s| && s[..k] == a && s[k..] == b
  {
    if s == a + b {
      assert s[..|a|] == a && s[|a|..] == b;
    }
    assert forall k :: 0 <= k <= |s| ==> s == s[..k] + s[k..];
  }
}
