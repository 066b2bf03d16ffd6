// unescape of the HTTP output plugin: percent-decoding a C string within its own memory.
module PercentDecoding {
  import opened Bits
  import opened Ascii
  import opened CStrings

  const PERCENT: Byte := 37

  /** hex_char_to_int. */
  function HexValue(c: Byte): (v: int)
    ensures -1 <= v < 16
  {
    if 48 <= c <= 57 then c as int - 48
    else if 97 <= c <= 102 then c as int - 97 + 10
    else if 65 <= c <= 70 then c as int - 65 + 10
    else -1
  }

  const LOWER: seq<Byte> := Text("0123456789abcdef")
  const UPPER: seq<Byte> := Text("0123456789ABCDEF")

  /** c is the digit for v, in either case. */
  predicate Digit(c: Byte, v: nat)
    requires v < 16
  {
    c == LOWER[v] || c == UPPER[v]
  }

  predicate IsHex(c: Byte) {
    c in LOWER || c in UPPER
  }

  /** A byte has the value of the digit it is, and -1 if it is none. */
  lemma HexValueIff(c: Byte, v: nat)
    requires v < 16
    ensures HexValue(c) == v <==> Digit(c, v)
    ensures HexValue(c) == -1 <==> !IsHex(c)
  {
    DigitIff(c, v);
    if HexValue(c) >= 0 { DigitIff(c, HexValue(c)); }
    if IsHex(c) {
      var k: nat :| k < 16 && Digit(c, k);
      DigitIff(c, k);
    }
  }

  lemma PercentIsNoDigit()
    ensures !IsHex(PERCENT)
  {
  }

  lemma DigitIff(c: Byte, v: nat)
    requires v < 16
    ensures HexValue(c) == v <==> Digit(c, v)
  {
  }

  /** The byte two digits stand for. */
  function OneByte(high: Byte, low: Byte): (b: Byte)
    requires HexValue(high) >= 0 && HexValue(low) >= 0
    ensures b as int == 16 * HexValue(high) + HexValue(low)
  {
    (16 * HexValue(high) + HexValue(low)) as Byte
  }

  /** These are the two digits of b, section 2.1 of RFC 3986. */
  predicate HexPair(high: Byte, low: Byte, b: Byte) {
    Digit(high, b as nat / 16) && Digit(low, b as nat % 16)
  }

  lemma PairIff(high: Byte, low: Byte, b: Byte)
    ensures HexPair(high, low, b) <==> HexValue(high) >= 0 && HexValue(low) >= 0 && OneByte(high, low) == b
  {
    HexValueIff(high, b as nat / 16);
    HexValueIff(low, b as nat % 16);
    hide Digit, HexValue;
    if HexValue(high) >= 0 && HexValue(low) >= 0 { Nibbles(HexValue(high), HexValue(low)); }
    Nibbles(b as nat / 16, b as nat % 16);
  }

  lemma Nibbles(h: nat, l: nat)
    requires h < 16 && l < 16
    ensures (16 * h + l) / 16 == h && (16 * h + l) % 16 == l
  {
  }

  /** What has been written when the loop ends, and whether it ends well. */
  datatype Outcome = Good(bytes: seq<Byte>) | Bad(bytes: seq<Byte>)

  function After(front: seq<Byte>, o: Outcome): Outcome {
    o.(bytes := front + o.bytes)
  }

  /** The loop over the text s. An escape that stops at its second digit has stored the first. */
  function Run(s: seq<Byte>): (o: Outcome)
    ensures |o.bytes| <= |s|
  {
    if s == [] then Good([])
    else if s[0] != PERCENT then After([s[0]], Run(s[1..]))
    else if |s| < 2 || HexValue(s[1]) < 0 then Bad([])
    else
      var high := (16 * HexValue(s[1])) as Byte;
      if |s| < 3 || HexValue(s[2]) < 0 then Bad([high])
      else After([OneByte(s[1], s[2])], Run(s[3..]))
  }

  /** The state of the loop before position src. */
  ghost predicate Progress(mem: seq<Byte>, was: seq<Byte>, src: nat, dst: nat) {
    && |mem| == |was| && dst <= src <= |CString(was)| && mem[dst..] == was[dst..]
    && Run(CString(was)) == After(mem[..dst], Run(CString(was)[src..]))
  }

  lemma Starts(was: seq<Byte>)
    requires Terminated(was)
    ensures Progress(was, was, 0, 0) && |CString(was)| < |was| && HexValue(0) < 0
  {
    assert [] + CString(was) == CString(was);
  }

  /** The byte where the loop stands is still the original one, and so are the two behind it. */
  lemma Reads(mem: seq<Byte>, was: seq<Byte>, src: nat, dst: nat)
    requires Progress(mem, was, src, dst) && Terminated(was) && src < |CString(was)|
    ensures |CString(was)| < |was| == |mem| && was[|CString(was)|] == 0
    ensures mem[src] == was[src] == CString(was)[src] && mem[src + 1] == was[src + 1]
    ensures src + 2 <= |CString(was)| ==> mem[src + 2] == was[src + 2]
    ensures forall k :: src < k < |CString(was)| ==> was[k] == CString(was)[k]
  {
    assert mem[src] == mem[dst..][src - dst];
    assert mem[src + 1] == mem[dst..][src + 1 - dst];
    if src + 2 <= |CString(was)| { assert mem[src + 2] == mem[dst..][src + 2 - dst]; }
  }

  lemma KeepsPlain(mem: seq<Byte>, was: seq<Byte>, src: nat, dst: nat)
    requires Progress(mem, was, src, dst) && src < |CString(was)| && CString(was)[src] != PERCENT
    ensures Progress(mem[dst := CString(was)[src]], was, src + 1, dst + 1)
  {
    hide CString;
    var s := CString(was)[src..];
    assert s[1..] == CString(was)[src + 1..];
    Stored(mem, was, dst, s[0], Run(s[1..]));
  }

  /** An escape: both digits become one byte. The terminator is no digit. */
  lemma Replaces(mem: seq<Byte>, was: seq<Byte>, src: nat, dst: nat)
    requires Progress(mem, was, src, dst) && Terminated(was)
    requires src + 2 <= |CString(was)| && CString(was)[src] == PERCENT
    requires HexValue(was[src + 1]) >= 0 && HexValue(was[src + 2]) >= 0
    ensures src + 2 < |CString(was)|
    ensures Progress(mem[dst := OneByte(was[src + 1], was[src + 2])], was, src + 3, dst + 1)
  {
    Reads(mem, was, src, dst);
    hide CString, OneByte;
    var s := CString(was)[src..];
    assert s[3..] == CString(was)[src + 3..];
    Stored(mem, was, dst, OneByte(s[1], s[2]), Run(s[3..]));
  }

  lemma Stored(mem: seq<Byte>, was: seq<Byte>, dst: nat, b: Byte, o: Outcome)
    requires |mem| == |was| && dst < |mem| && mem[dst..] == was[dst..]
    ensures After(mem[..dst], After([b], o)) == After(mem[dst := b][..dst + 1], o)
    ensures mem[dst := b][dst + 1..] == was[dst + 1..]
  {
    assert mem[dst := b][..dst + 1] == mem[..dst] + [b];
    assert mem[dst := b][dst + 1..] == mem[dst..][1..];
    assert mem[..dst] + ([b] + o.bytes) == mem[..dst] + [b] + o.bytes;
  }

  /** The first digit is missing or wrong. */
  lemma StopsFirst(mem: seq<Byte>, was: seq<Byte>, src: nat, dst: nat)
    requires Progress(mem, was, src, dst) && Terminated(was)
    requires src < |CString(was)| && CString(was)[src] == PERCENT && HexValue(was[src + 1]) < 0
    ensures Run(CString(was)) == Bad(mem[..dst]) && mem == mem[..dst] + was[dst..]
  {
    Reads(mem, was, src, dst);
    hide CString;
    assert mem[..dst] + [] == mem[..dst];
  }

  /** The second digit is missing or wrong. */
  lemma StopsSecond(mem: seq<Byte>, was: seq<Byte>, src: nat, dst: nat)
    requires Progress(mem, was, src, dst) && Terminated(was)
    requires src + 1 < |CString(was)| && CString(was)[src] == PERCENT
    requires HexValue(was[src + 1]) >= 0 && HexValue(was[src + 2]) < 0
    ensures var m := mem[dst := (16 * HexValue(was[src + 1])) as Byte];
      Run(CString(was)) == Bad(m[..dst + 1]) && m == m[..dst + 1] + was[dst + 1..]
  {
    Reads(mem, was, src, dst);
    hide CString;
    var b := (16 * HexValue(was[src + 1])) as Byte;
    Stored(mem, was, dst, b, Bad([]));
    assert mem[..dst] + [b] + [] == mem[..dst] + [b];
  }

  lemma Ends(mem: seq<Byte>, was: seq<Byte>, dst: nat)
    requires Progress(mem, was, |CString(was)|, dst) && Terminated(was)
    ensures Run(CString(was)) == Good(mem[..dst])
    ensures dst < |mem| && mem[dst := 0] == mem[..dst] + [0] + was[dst + 1..]
  {
    hide CString;
    assert mem[..dst] + [] == mem[..dst];
    assert mem[dst..][1..] == was[dst..][1..];
  }

  method Unescape(data: array<Byte>) returns (rc: int)
    requires Terminated(data[..])
    modifies data
    ensures var was := old(data[..]);
      match Run(CString(was))
      case Good(bytes) => rc == 0 && data[..] == bytes + [0] + was[|bytes| + 1..]
      case Bad(bytes) => rc == -1 && data[..] == bytes + was[|bytes|..]
  {
    hide *;
    Starts(data[..]);
    var length := StringLength(data);
    ghost var was := data[..];
    var dst, src := 0, 0;
    while src < length
      invariant 0 <= dst <= src <= length == |CString(was)| < data.Length == |was| && Progress(data[..], was, src, dst)
      decreases length - src
    {
      Reads(data[..], was, src, dst);
      if data[src] != PERCENT {
        KeepsPlain(data[..], was, src, dst);
        ghost var mem := data[..];
        data[dst] := data[src];
        assert data[..] == mem[dst := CString(was)[src]];
        dst, src := dst + 1, src + 1;
        continue;
      }
      if src + 2 > length {
        StopsFirst(data[..], was, src, dst);
        return -1;
      }
      var digit := HexValue(data[src + 1]);
      if digit == -1 {
        StopsFirst(data[..], was, src, dst);
        return -1;
      }
      ghost var mem := data[..];
      data[dst] := (16 * digit) as Byte;
      digit := HexValue(data[src + 2]);
      if digit == -1 {
        assert data[..] == mem[dst := (16 * HexValue(was[src + 1])) as Byte];
        StopsSecond(mem, was, src, dst);
        return -1;
      }
      Replaces(mem, was, src, dst);
      data[dst] := data[dst] + digit as Byte;
      assert data[..] == mem[dst := OneByte(was[src + 1], was[src + 2])];
      dst, src := dst + 1, src + 3;
    }
    Ends(data[..], was, dst);
    data[dst] := 0;
    return 0;
  }

  /** strlen. */
  method StringLength(data: array<Byte>) returns (n: nat)
    requires Terminated(data[..])
    ensures n == |CString(data[..])|
  {
    n := 0;
    while data[n] != 0
      invariant n <= |CString(data[..])|
      decreases data.Length - n
    {
      n := n + 1;
    }
  }

  // ----- when it fails

  /** Every percent sign is followed by two hex digits. */
  ghost predicate WellFormed(s: seq<Byte>) {
    forall k :: 0 <= k < |s| && s[k] == PERCENT ==> Escape(s, k)
  }

  predicate Escape(s: seq<Byte>, k: nat) {
    k + 2 < |s| && IsHex(s[k + 1]) && IsHex(s[k + 2])
  }

  /** -1 is returned exactly if some percent sign lacks two hex digits: no percent sign can hide
      among another one's digits. */
  lemma {:induction false} FailsIff(s: seq<Byte>)
    ensures Run(s).Good? <==> WellFormed(s)
  {
    PercentIsNoDigit();
    hide Text, HexValue, IsHex;
    if s != [] {
      var n := if s[0] == PERCENT then 3 else 1;
      if |s| > 1 { HexValueIff(s[1], 0); }
      if |s| > 2 { HexValueIff(s[2], 0); }
      if n == 1 || Escape(s, 0) {
        FailsIff(s[n..]);
        SuffixWellFormed(s, n);
      }
    }
  }

  lemma SuffixWellFormed(s: seq<Byte>, n: nat)
    requires n <= |s| && forall k :: 0 <= k < n && s[k] == PERCENT ==> Escape(s, k)
    ensures WellFormed(s) <==> WellFormed(s[n..])
  {
    if WellFormed(s[n..]) {
      forall k | n <= k < |s| && s[k] == PERCENT ensures Escape(s, k) {
        assert s[n..][k - n] == s[k];
        assert Escape(s[n..], k - n);
      }
    }
    if WellFormed(s) {
      forall k | 0 <= k < |s[n..]| && s[n..][k] == PERCENT ensures Escape(s[n..], k) {
        assert Escape(s, k + n);
      }
    }
  }

  // ----- section 2.1 of RFC 3986

  /** e stands for b: each byte as itself, unless it is a percent sign, or as an escape with digits of
      either case. */
  ghost predicate Encodes(e: seq<Byte>, b: seq<Byte>)
    decreases |b|
  {
    if b == [] then e == []
    else
      || (e != [] && e[0] == b[0] != PERCENT && Encodes(e[1..], b[1..]))
      || (|e| >= 3 && e[0] == PERCENT && HexPair(e[1], e[2], b[0]) && Encodes(e[3..], b[1..]))
  }

  /** Every encoding of a string is decoded to it. */
  lemma {:induction false} DecodesEncoding(e: seq<Byte>, b: seq<Byte>)
    requires Encodes(e, b)
    ensures Run(e) == Good(b)
    decreases |b|
  {
    hide HexPair, HexValue, OneByte;
    if b != [] {
      var n := if e[0] == PERCENT then 3 else 1;
      if n == 3 { PairIff(e[1], e[2], b[0]); }
      DecodesEncoding(e[n..], b[1..]);
      assert [b[0]] + b[1..] == b;
    }
  }

  lemma EncodedByte(e: seq<Byte>, b: seq<Byte>, rest: seq<Byte>) returns (n: nat)
    requires Encodes(e, b) && b != []
    ensures n <= |e| && Encodes(e[n..], b[1..])
    ensures Run(e + rest) == After([b[0]], Run(e[n..] + rest))
  {
    hide HexPair, HexValue, OneByte;
    n := if e[0] == PERCENT then 3 else 1;
    if n == 3 { PairIff(e[1], e[2], b[0]); }
    assert (e + rest)[n..] == e[n..] + rest;
  }

  lemma AfterJoin(a: seq<Byte>, b: seq<Byte>, o: Outcome)
    ensures After(a, After(b, o)) == After(a + b, o) && After([], o) == o
  {
    assert a + (b + o.bytes) == a + b + o.bytes;
    assert [] + o.bytes == o.bytes;
  }

  lemma {:induction false} EncodedFirst(e: seq<Byte>, b: seq<Byte>, rest: seq<Byte>)
    requires Encodes(e, b)
    ensures Run(e + rest) == After(b, Run(rest))
    decreases |b|
  {
    hide Run, After;
    if b == [] {
      assert e + rest == rest;
      AfterJoin([], [], Run(rest));
    } else {
      hide Encodes;
      var n := EncodedByte(e, b, rest);
      EncodedFirst(e[n..], b[1..], rest);
      AfterJoin([b[0]], b[1..], Run(rest));
      assert [b[0]] + b[1..] == b;
    }
  }

  /** At the first percent sign without two hex digits the decoding stops: what was decoded before it is
      kept, and, if there is one digit, sixteen times that. */
  lemma StopsBehind(e: seq<Byte>, b: seq<Byte>, rest: seq<Byte>, v: nat)
    requires Encodes(e, b) && rest != [] && rest[0] == PERCENT && !Escape(rest, 0) && v < 16
    ensures |rest| < 2 || !IsHex(rest[1]) ==> Run(e + rest) == Bad(b)
    ensures |rest| >= 2 && Digit(rest[1], v) ==> Run(e + rest) == Bad(b + [(16 * v) as Byte])
  {
    EncodedFirst(e, b, rest);
    if |rest| >= 2 { HexValueIff(rest[1], v); }
    if |rest| >= 3 { HexValueIff(rest[2], v); }
    if |rest| >= 2 && Digit(rest[1], v) { DigitIsHex(rest[1], v); }
    hide HexValue, IsHex, Digit, OneByte, Encodes;
    assert b + [] == b;
  }

  lemma DigitIsHex(c: Byte, v: nat)
    requires v < 16 && Digit(c, v)
    ensures IsHex(c)
  {
  }

  /** What decodes to b is an encoding of it: the two are inverse to each other. */
  lemma {:induction false} DecodedIsEncoded(e: seq<Byte>, b: seq<Byte>)
    requires Run(e) == Good(b)
    ensures Encodes(e, b)
    decreases |e|
  {
    hide HexPair, HexValue, OneByte;
    if e != [] {
      var n := if e[0] == PERCENT then 3 else 1;
      if n == 3 { PairIff(e[1], e[2], b[0]); }
      var rest := Run(e[n..]).bytes;
      DecodedIsEncoded(e[n..], rest);
      assert b[1..] == rest;
    }
  }

  /** The digits of b in the chosen case. */
  function Escaped(b: Byte, upper: bool): (e: seq<Byte>)
    ensures |e| == 3 && e[0] == PERCENT && HexPair(e[1], e[2], b) && 0 !in e
  {
    var digits := if upper then UPPER else LOWER;
    [PERCENT, digits[b as nat / 16], digits[b as nat % 16]]
  }

  /** The encoding that keeps the bytes in `plain`. */
  function PercentEncode(b: seq<Byte>, plain: set<Byte>, upper: bool): seq<Byte>
    decreases |b|
  {
    if b == [] then []
    else
      (if b[0] in plain && b[0] != PERCENT then [b[0]] else Escaped(b[0], upper))
      + PercentEncode(b[1..], plain, upper)
  }

  lemma {:induction false} PercentEncodes(b: seq<Byte>, plain: set<Byte>, upper: bool)
    ensures Encodes(PercentEncode(b, plain, upper), b)
    ensures 0 !in b ==> 0 !in PercentEncode(b, plain, upper)
    decreases |b|
  {
    hide HexPair, Escaped;
    if b != [] {
      PercentEncodes(b[1..], plain, upper);
      var e, rest := PercentEncode(b, plain, upper), PercentEncode(b[1..], plain, upper);
      if b[0] in plain && b[0] != PERCENT {
        assert e[1..] == rest;
      } else {
        assert e[3..] == rest;
      }
    }
  }

  /** Memory that holds an encoded C string, with digits of either case, and anything behind it, meets
      what Unescape asks for, and the memory it leaves holds the string itself. */
  lemma RoundTrip(b: seq<Byte>, plain: set<Byte>, upper: bool, tail: seq<Byte>)
    requires 0 !in b
    ensures var was := PercentEncode(b, plain, upper) + [0] + tail;
      && Terminated(was) && Run(CString(was)) == Good(b) && |b| + 1 <= |was|
      && CString(b + [0] + was[|b| + 1..]) == b
  {
    hide *;
    var e := PercentEncode(b, plain, upper);
    var was := e + [0] + tail;
    PercentEncodes(b, plain, upper);
    DecodesEncoding(e, b);
    assert was == e + ([0] + tail);
    CStringOf(e, [0] + tail);
    EndsBefore(was, e);
    var rest := [0] + was[|b| + 1..];
    assert b + [0] + was[|b| + 1..] == b + rest;
    CStringOf(b, rest);
  }
}
