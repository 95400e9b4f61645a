/** The text dump of a multipart message. */
module Dump {
  import opened Frames

  const TOO_BIG := "... (to big to print)"

  function Digit(d: nat): (c: char)
    requires d < 16
    ensures c != '\n' && c != ']'
  {
    "0123456789abcdef"[d]
  }

  // A number in decimal.
  function Decimal(n: nat): (s: string)
    ensures s != ""
  {
    (if n < 10 then "" else Decimal(n / 10)) + [Digit(n % 10)]
  }

  // Filled with zeros to three digits.
  function Decimal3(n: nat): string {
    var s := Decimal(n);
    seq(if |s| < 3 then 3 - |s| else 0, _ => '0') + s
  }

  function Hex2(b: Byte): string {
    [Digit(b as int / 16), Digit(b as int % 16)]
  }

  function Hex(f: Frame): (s: string)
    ensures |s| == 2 * |f|
  {
    if f == [] then "" else Hex(f[..|f| - 1]) + Hex2(f[|f| - 1])
  }

  predicate IsTextByte(b: Byte) {
    32 <= b as int <= 127
  }

  predicate IsText(f: Frame) {
    forall i :: 0 <= i < |f| ==> IsTextByte(f[i])
  }

  function Body(f: Frame): string {
    if |f| >= 1000 then TOO_BIG else if IsText(f) then f else Hex(f)
  }

  function FrameDump(f: Frame): string {
    "\n[" + Decimal3(|f|) + "] " + Body(f)
  }

  function Text(m: Message): string {
    if m == [] then "" else Text(m[..|m| - 1]) + FrameDump(m[|m| - 1])
  }
}
