// Text as bytes, and what printf's %d and %06d print.
module Ascii {
  import opened Bits

  function Text(s: string): (b: seq<Byte>)
    ensures |b| == |s|
  {
    seq(|s|, i requires 0 <= i < |s| => Code(s[i]))
  }

  function Code(c: char): Byte {
    if c as int < 256 then c as int as Byte else 0
  }

  const CR: Byte := 13
  const LF: Byte := 10
  const DASH: Byte := 45

  predicate IsDigit(b: Byte) { 48 <= b <= 57 }

  function Digits(n: nat): (d: seq<Byte>)
    ensures d != [] && forall i :: 0 <= i < |d| ==> IsDigit(d[i])
  {
    (if n < 10 then [] else Digits(n / 10)) + [(48 + n % 10) as Byte]
  }

  /** %d */
  function Decimal(n: int): seq<Byte> {
    if n < 0 then [DASH] + Digits(-n) else Digits(n)
  }

  /** %06d: zeros between the sign and the digits, six characters at least. */
  function Decimal06(n: int): seq<Byte> {
    var d := Digits(if n < 0 then -n else n);
    var width := if n < 0 then 5 else 6;
    (if n < 0 then [DASH] else []) + Fill(width - |d|) + d
  }

  function Fill(n: int): (z: seq<Byte>)
    ensures forall i :: 0 <= i < |z| ==> IsDigit(z[i])
  {
    if n <= 0 then [] else seq(n, _ => 48)
  }

  /** A number as printf prints it: maybe a minus sign, then digits only, at least one. */
  predicate IsNumeral(s: seq<Byte>) {
    s != [] && IsDigit(s[|s| - 1]) && (s[0] == DASH || IsDigit(s[0]))
    && forall i :: 1 <= i < |s| ==> IsDigit(s[i])
  }

  lemma DecimalIsNumeral(n: int)
    ensures IsNumeral(Decimal(n)) && IsNumeral(Decimal06(n))
  {
  }

  // ----- reading numbers

  /** The number that digits stand for. */
  function Number(d: seq<Byte>): int {
    if d == [] then 0 else 10 * Number(d[..|d| - 1]) + (d[|d| - 1] as int - 48)
  }

  function Parse(s: seq<Byte>): int {
    if s != [] && s[0] == DASH then -Number(s[1..]) else Number(s)
  }

  lemma {:induction false} NumberOfDigits(n: nat)
    ensures Number(Digits(n)) == n
    ensures Digits(n)[0] == 48 ==> n == 0 && |Digits(n)| == 1
  {
    if n >= 10 {
      NumberOfDigits(n / 10);
      assert Digits(n)[..|Digits(n)| - 1] == Digits(n / 10);
    }
  }

  lemma {:induction false} NumberOfFilled(n: int, d: seq<Byte>)
    ensures Number(Fill(n) + d) == Number(d)
    decreases |d|, if n > 0 then n else 0
  {
    if d != [] {
      assert (Fill(n) + d)[..|Fill(n) + d| - 1] == Fill(n) + d[..|d| - 1];
      NumberOfFilled(n, d[..|d| - 1]);
    } else if n > 0 {
      assert (Fill(n) + [])[..n - 1] == Fill(n - 1) + [];
      NumberOfFilled(n - 1, []);
    }
  }

  lemma ParseSigned(s: seq<Byte>)
    ensures Parse([DASH] + s) == -Number(s)
    ensures s != [] && IsDigit(s[0]) ==> Parse(s) == Number(s)
  {
    hide Number;
    assert ([DASH] + s)[1..] == s;
  }

  function Abs(n: int): nat { if n < 0 then -n else n }

  /** What %d prints reads back as the number, and has no leading zeros. */
  lemma DecimalReadBack(n: int)
    ensures Parse(Decimal(n)) == n
    ensures n >= 0 && |Decimal(n)| > 1 ==> Decimal(n)[0] != 48
    ensures n < 0 ==> Decimal(n)[0] == DASH && Decimal(n)[1] != 48
  {
    hide Number, Digits, Parse;
    NumberOfDigits(Abs(n));
    ParseSigned(Digits(Abs(n)));
  }

  /** What %06d prints reads back too. */
  lemma Decimal06ReadBack(n: int)
    ensures Parse(Decimal06(n)) == n
  {
    hide Number, Digits, Parse;
    var d, w := Digits(Abs(n)), if n < 0 then 5 else 6;
    var s := Fill(w - |d|) + d;
    NumberOfDigits(Abs(n));
    NumberOfFilled(w - |d|, d);
    ParseSigned(s);
    hide Fill;
    assert Decimal06(n) == if n < 0 then [DASH] + s else s;
    assert IsDigit(s[0]);
  }

  /** It is as long as what %d prints, but at least six characters. */
  lemma Decimal06Length(n: int)
    ensures |Decimal06(n)| == if |Decimal(n)| < 6 then 6 else |Decimal(n)|
  {
    hide Digits;
  }
}
