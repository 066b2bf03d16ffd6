// decodeBase64 of the HTTP output plugin: decoding a C string within its own memory.
module Base64 {
  import opened Bits
  import opened Ascii
  import opened Division
  import opened CStrings

  const EQUALS: Byte := 61

  /** The value of a character, -1 if it is skipped. Padding counts as zero bits. */
  function Value64(c: Byte): (t: int)
    ensures -1 <= t < 64
  {
    if 48 <= c <= 57 then c as int - 48 + 52
    else if 65 <= c <= 90 then c as int - 65
    else if 97 <= c <= 122 then c as int - 97 + 26
    else if c == 43 then 62
    else if c == 47 then 63
    else if c == EQUALS then 0
    else -1
  }

  const CAPITALS: seq<Byte> := Text("ABCDEFGHIJKLMNOPQRSTUVWXYZ")
  const SMALL: seq<Byte> := Text("abcdefghijklmnopqrstuvwxyz")
  const FIGURES: seq<Byte> := Text("0123456789")
  const SIGNS: seq<Byte> := Text("+/")

  /** The alphabet of section 4 of RFC 4648. */
  const ALPHABET: seq<Byte> := CAPITALS + SMALL + FIGURES + SIGNS

  lemma CapitalsAt(v: nat)
    requires v < 26
    ensures |CAPITALS| == 26 && CAPITALS[v] as nat == 65 + v
  {
  }

  lemma SmallAt(v: nat)
    requires v < 26
    ensures |SMALL| == 26 && SMALL[v] as nat == 97 + v
  {
  }

  lemma FiguresAt(v: nat)
    requires v < 10
    ensures |FIGURES| == 10 && FIGURES[v] as nat == 48 + v
    ensures |SIGNS| == 2 && SIGNS[0] == 43 && SIGNS[1] == 47
  {
  }

  lemma AlphabetAt(v: nat)
    requires v < 64
    ensures |ALPHABET| == 64
    ensures ALPHABET[v] as nat ==
      if v < 26 then 65 + v else if v < 52 then 71 + v else if v < 62 then v - 4 else if v == 62 then 43 else 47
  {
    CapitalsAt(if v < 26 then v else 0);
    SmallAt(if 26 <= v < 52 then v - 26 else 0);
    FiguresAt(if 52 <= v < 62 then v - 52 else 0);
    hide CAPITALS, SMALL, FIGURES, SIGNS, Text;
  }

  lemma CharValue(c: Byte, v: nat)
    requires v < 64
    ensures |ALPHABET| == 64
    ensures Value64(c) == v <==> c == ALPHABET[v] || (v == 0 && c == EQUALS)
  {
    AlphabetAt(v);
    hide ALPHABET;
  }

  /** Each character counts as its place in the alphabet, padding as 0, and every other one is skipped. */
  lemma Value64Iff(c: Byte, v: nat)
    requires v < 64
    ensures |ALPHABET| == 64
    ensures Value64(c) == v <==> c == ALPHABET[v] || (v == 0 && c == EQUALS)
    ensures Value64(c) == -1 <==> c !in ALPHABET && c != EQUALS
  {
    CharValue(c, v);
    hide ALPHABET, Value64;
    if Value64(c) >= 0 { CharValue(c, Value64(c)); }
    CharValue(c, 0);
    if c in ALPHABET {
      var k :| 0 <= k < |ALPHABET| && ALPHABET[k] == c;
      CharValue(c, k);
    }
  }

  /** The values of the characters that are not skipped. */
  function Sextets(s: seq<Byte>): (q: seq<nat>)
    ensures |q| <= |s| && forall i :: 0 <= i < |q| ==> q[i] < 64
  {
    if s == [] then []
    else
      var q, t := Sextets(s[..|s| - 1]), Value64(s[|s| - 1]);
      if t < 0 then q else q + [t]
  }

  /** Six bits for each value. */
  function SextetBits(q: seq<nat>): (b: seq<bool>)
    ensures |b| == 6 * |q|
  {
    if q == [] then [] else SextetBits(q[..|q| - 1]) + Low(q[|q| - 1], 6)
  }

  /** The number in eight bits. */
  function Octet(b: seq<bool>): Byte
    requires |b| == 8
  {
    ValueBound(b);
    assert Pow2(8) == 256;
    Value(b) as Byte
  }

  function Octets(b: seq<bool>): (t: seq<Byte>)
    requires |b| == 24
    ensures |t| == 3
  {
    [Octet(b[..8]), Octet(b[8..16]), Octet(b[16..])]
  }

  /** Four values make three bytes; an incomplete group at the end is dropped. */
  function Bytes(q: seq<nat>): (b: seq<Byte>)
    ensures |b| == |q| / 4 * 3
  {
    if |q| < 4 then []
    else if |q| % 4 != 0 then Bytes(q[..|q| - 1])
    else Bytes(q[..|q| - 4]) + Octets(SextetBits(q[|q| - 4..]))
  }

  /** The text decoded. */
  function Decoded(s: seq<Byte>): (d: seq<Byte>)
    ensures |d| <= |s|
  {
    Bytes(Sextets(s))
  }

  // ----- the accumulator, which is never cleared

  /** `(ch << 6) | t`. */
  function ShiftIn(ch: Word, t: nat): Word {
    Or(Shl(ch, 6), OfNat(t))
  }

  /** `(char)(ch >> n)`. */
  function Truncated(ch: Word, n: nat): Byte
    requires n <= 24
  {
    Octet((Zeros(n) + ch[..32 - n])[24..])
  }

  lemma ShiftInBits(ch: Word, t: nat)
    requires t < 64
    ensures ShiftIn(ch, t) == ch[6..] + Low(t, 6)
  {
    assert Pow2(6) == 64;
    LowLeadingZeros(t, 32, 6);
  }

  /** The low-order bits of the accumulator are those of the values in the group so far. */
  ghost predicate Accumulated(ch: Word, q: seq<nat>, n: nat) {
    n <= |q| && n <= 4 && ch[32 - 6 * n..] == SextetBits(q[|q| - n..])
  }

  lemma NothingAccumulated(ch: Word, q: seq<nat>)
    ensures Accumulated(ch, q, 0)
  {
  }

  lemma Accumulate(ch: Word, q: seq<nat>, n: nat, t: nat)
    requires Accumulated(ch, q, n) && n < 4 && t < 64
    ensures Accumulated(ShiftIn(ch, t), q + [t], n + 1)
  {
    var now, more := ShiftIn(ch, t), (q + [t])[|q| - n..];
    ShiftInBits(ch, t);
    assert more[..|more| - 1] == q[|q| - n..] && more[|more| - 1] == t;
    assert now[32 - 6 * (n + 1)..] == ch[32 - 6 * n..] + Low(t, 6);
  }

  /** A full group's three bytes; older bits in the accumulator do no harm. */
  lemma StoresGroup(ch: Word, q: seq<nat>)
    requires Accumulated(ch, q, 4)
    ensures [Truncated(ch, 16), Truncated(ch, 8), Truncated(ch, 0)] == Octets(SextetBits(q[|q| - 4..]))
  {
    var b := SextetBits(q[|q| - 4..]);
    assert (Zeros(16) + ch[..16])[24..] == b[..8];
    assert (Zeros(8) + ch[..24])[24..] == b[8..16];
    assert (Zeros(0) + ch[..32])[24..] == b[16..];
  }

  // ----- the method

  /** The first n characters are read and their bytes lie at the start of the memory; `out` never
      passes the reading position, and from there on the text is intact. */
  ghost predicate Decoding(mem: seq<Byte>, was: seq<Byte>, n: nat, out: nat) {
    && |mem| == |was| && n <= |CString(was)| && out == |Decoded(was[..n])| <= n
    && mem[..out] == Decoded(was[..n]) && mem[out..] == was[out..]
  }

  lemma SextetsStep(was: seq<Byte>, n: nat)
    requires n < |was|
    ensures var q, t := Sextets(was[..n]), Value64(was[n]);
      Sextets(was[..n + 1]) == if t < 0 then q else q + [t]
    ensures Decoded(was[..n]) == Bytes(Sextets(was[..n])) && Decoded(was[..n + 1]) == Bytes(Sextets(was[..n + 1]))
  {
    assert was[..n + 1][..n] == was[..n];
  }

  /** The groups before the last n < 4 values count, these do not. */
  lemma {:induction false} WholeGroups(q: seq<nat>, n: nat)
    requires n == |q| % 4
    ensures Bytes(q) == Bytes(q[..|q| - n])
    decreases n
  {
    hide SextetBits, Octets;
    if n == 0 {
      assert q[..|q|] == q;
    } else {
      var p := q[..|q| - 1];
      CountUp(|p|, 4);
      NoLastGroup(q);
      hide Bytes;
      WholeGroups(p, n - 1);
      assert p[..|p| - (n - 1)] == q[..|q| - n];
    }
  }

  lemma FewBytes(q: seq<nat>)
    requires |q| < 4
    ensures Bytes(q) == []
  {
  }

  lemma LastGroup(r: seq<nat>)
    requires |r| >= 4 && |r| % 4 == 0
    ensures Bytes(r) == Bytes(r[..|r| - 4]) + Octets(SextetBits(r[|r| - 4..]))
  {
    hide SextetBits, Octets;
  }

  lemma NoLastGroup(r: seq<nat>)
    requires |r| % 4 != 0
    ensures Bytes(r) == Bytes(r[..|r| - 1])
  {
    hide SextetBits, Octets;
    if |r| < 4 { FewBytes(r[..|r| - 1]); }
  }

  lemma BytesStep(q: seq<nat>, t: nat)
    ensures Bytes(q + [t]) ==
      if |q| % 4 == 3 then Bytes(q) + Octets(SextetBits((q + [t])[|q| - 3..])) else Bytes(q)
  {
    hide *;
    var r := q + [t];
    assert r[..|r| - 1] == q;
    CountUp(|q|, 4);
    if |q| % 4 == 3 {
      WholeGroups(q, 3);
      LastGroup(r);
      assert r[..|r| - 4] == q[..|q| - 3];
    } else {
      NoLastGroup(r);
    }
  }

  /** The state of the loop behind n characters. */
  ghost predicate Progress(mem: seq<Byte>, was: seq<Byte>, n: nat, out: nat, i: nat, ch: Word) {
    Decoding(mem, was, n, out) && i == |Sextets(was[..n])| % 4 && Accumulated(ch, Sextets(was[..n]), i)
  }

  lemma Begins(was: seq<Byte>, ch: Word)
    ensures Progress(was, was, 0, 0, 0, ch)
  {
  }

  lemma Skipped(mem: seq<Byte>, was: seq<Byte>, n: nat, out: nat, i: nat, ch: Word)
    requires Progress(mem, was, n, out, i, ch) && n < |CString(was)| && Value64(was[n]) < 0
    ensures Progress(mem, was, n + 1, out, i, ch)
  {
    hide Sextets, Bytes, Accumulated, Value64, CString;
    SextetsStep(was, n);
  }

  lemma Gathered(mem: seq<Byte>, was: seq<Byte>, n: nat, out: nat, i: nat, ch: Word)
    requires Progress(mem, was, n, out, i, ch) && n < |CString(was)| && Value64(was[n]) >= 0 && i < 3
    ensures Progress(mem, was, n + 1, out, i + 1, ShiftIn(ch, Value64(was[n])))
  {
    hide Sextets, Bytes, Accumulated, Value64, CString, ShiftIn;
    var q, t := Sextets(was[..n]), Value64(was[n]);
    SextetsStep(was, n);
    CountUp(|q|, 4);
    BytesStep(q, t);
    Accumulate(ch, q, i, t);
  }

  /** Three bytes are stored where the text has been read already. */
  lemma Filled(mem: seq<Byte>, was: seq<Byte>, n: nat, out: nat, ch: Word)
    requires Progress(mem, was, n, out, 3, ch) && n < |CString(was)| && Value64(was[n]) >= 0
    ensures out + 3 <= n + 1
    ensures var now := ShiftIn(ch, Value64(was[n]));
      var group := [Truncated(now, 16), Truncated(now, 8), Truncated(now, 0)];
      Progress(mem[..out] + group + mem[out + 3..], was, n + 1, out + 3, 0, now)
  {
    hide Sextets, Bytes, Accumulated, Value64, CString, ShiftIn, Truncated, SextetBits, Octets;
    var q, t := Sextets(was[..n]), Value64(was[n]);
    var now := ShiftIn(ch, t);
    SextetsStep(was, n);
    CountUp(|q|, 4);
    BytesStep(q, t);
    Accumulate(ch, q, 3, t);
    StoresGroup(now, q + [t]);
    NothingAccumulated(now, q + [t]);
    assert Decoding(mem, was, n, out);
    hide *;
    DecodingStores(mem, was, n, out, [Truncated(now, 16), Truncated(now, 8), Truncated(now, 0)]);
  }

  lemma DecodingStores(mem: seq<Byte>, was: seq<Byte>, n: nat, out: nat, group: seq<Byte>)
    requires Decoding(mem, was, n, out) && n < |CString(was)| && |group| == 3
    requires Decoded(was[..n + 1]) == Decoded(was[..n]) + group
    ensures out + 3 <= n + 1
    ensures Decoding(mem[..out] + group + mem[out + 3..], was, n + 1, out + 3)
  {
    hide Sextets, Bytes, CString;
    assert |Decoded(was[..n + 1])| <= |was[..n + 1]|;
    var now := mem[..out] + group + mem[out + 3..];
    assert now[..out + 3] == mem[..out] + group;
    assert now[out + 3..] == mem[out..][3..];
  }

  /** The next character is the terminator exactly if the whole text is read. */
  lemma NextCharacter(mem: seq<Byte>, was: seq<Byte>, n: nat, out: nat, i: nat, ch: Word)
    requires Progress(mem, was, n, out, i, ch) && Terminated(was)
    ensures out <= n < |mem| == |was| && mem[n] == was[n] && n <= |CString(was)| && i < 4
    ensures mem[n] != 0 <==> n < |CString(was)|
  {
    hide Decoded, Accumulated, Sextets;
    assert mem[n] == mem[out..][n - out];
    if n < |CString(was)| { assert CString(was)[n] in CString(was); }
  }

  lemma Ends(mem: seq<Byte>, was: seq<Byte>, out: nat, i: nat, ch: Word)
    requires Progress(mem, was, |CString(was)|, out, i, ch) && Terminated(was)
    ensures out < |mem|
    ensures var d := Decoded(CString(was)); |d| + 1 <= |was| && mem[out := 0] == d + [0] + was[|d| + 1..]
  {
    hide Decoded;
    var d := Decoded(CString(was));
    assert was[..|CString(was)|] == CString(was);
    assert mem[out..][1..] == was[out..][1..];
    assert mem[out + 1..] == was[out + 1..];
    assert mem[out := 0] == mem[..out] + [0] + mem[out + 1..];
  }

  method Store(data: array<Byte>, out: nat, ch: Word)
    requires out + 3 <= data.Length
    modifies data
    ensures data[..] == old(data[..out])
        + [Truncated(ch, 16), Truncated(ch, 8), Truncated(ch, 0)] + old(data[out + 3..])
  {
    data[out], data[out + 1], data[out + 2] := Truncated(ch, 16), Truncated(ch, 8), Truncated(ch, 0);
  }

  method DecodeBase64(data: array<Byte>)
    requires Terminated(data[..])
    modifies data
    ensures var was := old(data[..]);
      var d := Decoded(CString(was));
      data[..] == d + [0] + was[|d| + 1..]
  {
    hide *;
    ghost var was := data[..];
    var next, out, i := 0, 0, 0;
    var ch: Word := OfNat(0);
    Begins(was, ch);
    NextCharacter(data[..], was, 0, 0, 0, ch);
    while data[next] != 0
      invariant 0 <= out <= next < data.Length && 0 <= i < 4 && data[next] == was[next]
      invariant Progress(data[..], was, next, out, i, ch)
      invariant next <= |CString(was)| && (data[next] != 0 <==> next < |CString(was)|)
      decreases |was| - next
    {
      var t := Value64(data[next]);
      if t < 0 {
        Skipped(data[..], was, next, out, i, ch);
      } else if i < 3 {
        Gathered(data[..], was, next, out, i, ch);
        ch := ShiftIn(ch, t);
        i := i + 1;
      } else {
        Filled(data[..], was, next, out, ch);
        ch := ShiftIn(ch, t);
        Store(data, out, ch);
        out := out + 3;
        i := 0;
      }
      next := next + 1;
      NextCharacter(data[..], was, next, out, i, ch);
    }
    Ends(data[..], was, out, i, ch);
    data[out] := 0;
  }

  // ----- section 4 of RFC 4648

  function Char64(v: nat): (c: Byte)
    requires v < 64
    ensures c != 0 && c != EQUALS && Value64(c) == v
  {
    AlphabetAt(v);
    ALPHABET[v]
  }

  /** The character for six bits. */
  function SixBits(b: seq<bool>): Byte
    requires |b| == 6
  {
    ValueBound(b);
    assert Pow2(6) == 64;
    Char64(Value(b))
  }

  function BitsOf(b: seq<Byte>): (r: seq<bool>)
    ensures |r| == 8 * |b|
  {
    if b == [] then [] else BitsOf(b[..|b| - 1]) + Low(b[|b| - 1] as nat, 8)
  }

  /** One group of one, two or three bytes: missing bits are zero, missing characters are padding. */
  function EncodeGroup(b: seq<Byte>): (g: seq<Byte>)
    requires 1 <= |b| <= 3
    ensures |g| == 4
  {
    var bits := BitsOf(b) + Zeros(24 - 8 * |b|);
    [SixBits(bits[..6]), SixBits(bits[6..12]),
     if |b| >= 2 then SixBits(bits[12..18]) else EQUALS,
     if |b| == 3 then SixBits(bits[18..]) else EQUALS]
  }

  function Encode(b: seq<Byte>): seq<Byte> {
    if b == [] then []
    else
      var n := LastSize(|b|);
      Encode(b[..|b| - n]) + EncodeGroup(b[|b| - n..])
  }

  // ----- the round trip

  lemma {:induction false} SextetsConcat(a: seq<Byte>, b: seq<Byte>)
    ensures Sextets(a + b) == Sextets(a) + Sextets(b)
  {
    if b == [] {
      assert a + b == a;
    } else {
      var b' := b[..|b| - 1];
      SextetsConcat(a, b');
      assert (a + b)[..|a + b| - 1] == a + b';
    }
  }

  /** Characters outside the alphabet, such as the line end behind the credentials, have no effect. */
  lemma {:induction false} JunkIgnored(a: seq<Byte>, junk: seq<Byte>, b: seq<Byte>)
    requires forall i :: 0 <= i < |junk| ==> junk[i] !in ALPHABET && junk[i] != EQUALS
    ensures Decoded(a + junk + b) == Decoded(a + b)
  {
    SextetsConcat(a + junk, b);
    SextetsConcat(a, junk);
    SextetsConcat(a, b);
    forall i | 0 <= i < |junk| ensures Value64(junk[i]) < 0 { Value64Iff(junk[i], 0); }
    JunkHasNone(junk);
    assert Sextets(a) + [] == Sextets(a);
  }

  lemma {:induction false} JunkHasNone(junk: seq<Byte>)
    requires forall i :: 0 <= i < |junk| ==> Value64(junk[i]) < 0
    ensures Sextets(junk) == []
  {
    if junk != [] { JunkHasNone(junk[..|junk| - 1]); }
  }

  lemma FourCharacters(w: Byte, x: Byte, y: Byte, z: Byte)
    requires Value64(w) >= 0 && Value64(x) >= 0 && Value64(y) >= 0 && Value64(z) >= 0
    ensures Sextets([w, x, y, z]) == [Value64(w), Value64(x), Value64(y), Value64(z)]
  {
    hide Value64;
    assert [w, x, y, z][..3] == [w, x, y];
    assert [w, x, y][..2] == [w, x];
    assert [w, x][..1] == [w];
    assert [w][..0] == [];
    assert Sextets([w]) == [Value64(w)];
    assert Sextets([w, x]) == [Value64(w), Value64(x)];
    assert Sextets([w, x, y]) == [Value64(w), Value64(x), Value64(y)];
  }

  lemma FourValues(a: nat, b: nat, c: nat, d: nat)
    ensures SextetBits([a, b, c, d]) == Low(a, 6) + Low(b, 6) + Low(c, 6) + Low(d, 6)
  {
    hide Low;
    assert [a, b, c, d][..3] == [a, b, c];
    assert [a, b, c][..2] == [a, b];
    assert [a, b][..1] == [a];
    assert [a][..0] == [];
    assert SextetBits([a]) == Low(a, 6);
    assert SextetBits([a, b]) == Low(a, 6) + Low(b, 6);
    assert SextetBits([a, b, c]) == Low(a, 6) + Low(b, 6) + Low(c, 6);
  }

  /** The character stands for these six bits. */
  ghost predicate Carries(c: Byte, b: seq<bool>) {
    Value64(c) >= 0 && b == Low(Value64(c), 6)
  }

  lemma PaddingCarries(b: seq<bool>)
    requires b == Zeros(6)
    ensures Carries(EQUALS, b)
  {
    LowZero(6);
  }

  lemma SixBitsCarry(b: seq<bool>)
    requires |b| == 6
    ensures Carries(SixBits(b), b)
  {
    ValueBound(b);
    LowOfValue(b);
  }

  lemma FourCarry(g: seq<Byte>, bits: seq<bool>)
    requires |g| == 4 && |bits| == 24
    requires Carries(g[0], bits[..6]) && Carries(g[1], bits[6..12])
    requires Carries(g[2], bits[12..18]) && Carries(g[3], bits[18..])
    ensures |Sextets(g)| == 4 && SextetBits(Sextets(g)) == bits
  {
    hide Low, Sextets, SextetBits;
    FourCharacters(g[0], g[1], g[2], g[3]);
    FourValues(Value64(g[0]), Value64(g[1]), Value64(g[2]), Value64(g[3]));
    assert g == [g[0], g[1], g[2], g[3]];
    assert bits == bits[..6] + bits[6..12] + bits[12..18] + bits[18..];
  }

  /** A group's characters carry its bits, padding included. */
  lemma GroupBits(b: seq<Byte>)
    requires 1 <= |b| <= 3
    ensures |Sextets(EncodeGroup(b))| == 4
    ensures SextetBits(Sextets(EncodeGroup(b))) == BitsOf(b) + Zeros(24 - 8 * |b|)
  {
    hide BitsOf, Low, SixBits, Sextets, SextetBits, Carries;
    var bits, g := BitsOf(b) + Zeros(24 - 8 * |b|), EncodeGroup(b);
    SixBitsCarry(bits[..6]);
    SixBitsCarry(bits[6..12]);
    if |b| >= 2 { SixBitsCarry(bits[12..18]); } else { PaddingCarries(bits[12..18]); }
    if |b| == 3 { SixBitsCarry(bits[18..]); } else { PaddingCarries(bits[18..]); }
    FourCarry(g, bits);
  }

  lemma OctetBack(b: Byte)
    ensures Octet(Low(b as nat, 8)) == b && Octet(Zeros(8)) == 0
  {
    assert Pow2(8) == 256;
    ValueOfLow(b as nat, 8);
    ZerosValue(8);
  }

  lemma ThreeBytes(x: Byte, y: Byte, z: Byte)
    ensures Octets(Low(x as nat, 8) + Low(y as nat, 8) + Low(z as nat, 8)) == [x, y, z]
  {
    OctetBack(x);
    OctetBack(y);
    OctetBack(z);
    var b := Low(x as nat, 8) + Low(y as nat, 8) + Low(z as nat, 8);
    hide Low, Octet;
    assert b[..8] == Low(x as nat, 8);
    assert b[8..16] == Low(y as nat, 8);
    assert b[16..] == Low(z as nat, 8);
  }

  /** A decoded group: its bytes, and zeros where bytes are missing. */
  lemma GroupBack(b: seq<Byte>)
    requires 1 <= |b| <= 3
    ensures |Sextets(EncodeGroup(b))| == 4
    ensures Octets(SextetBits(Sextets(EncodeGroup(b)))) == b + Blank(3 - |b|)
  {
    hide *;
    GroupBits(b);
    var x, y, z := b[0], if |b| >= 2 then b[1] else 0, if |b| == 3 then b[2] else 0;
    ThreeBytes(x, y, z);
    PaddedBits(b, x, y, z);
    assert b + Blank(3 - |b|) == [x, y, z];
  }

  lemma PaddedBits(b: seq<Byte>, x: Byte, y: Byte, z: Byte)
    requires 1 <= |b| <= 3 && b == [x, y, z][..|b|]
    requires (|b| < 2 ==> y == 0) && (|b| < 3 ==> z == 0)
    ensures BitsOf(b) + Zeros(24 - 8 * |b|) == Low(x as nat, 8) + Low(y as nat, 8) + Low(z as nat, 8)
  {
    LowZero(8);
    hide Low;
    assert b[..1] == [x] && BitsOf([x]) == Low(x as nat, 8) by { assert [x][..0] == []; }
    if |b| >= 2 {
      assert b[..2] == [x, y] && [x, y][..1] == [x];
      assert BitsOf([x, y]) == Low(x as nat, 8) + Low(y as nat, 8);
    }
    if |b| == 3 {
      assert b == [x, y, z] && [x, y, z][..2] == [x, y];
    }
  }

  lemma BytesAppend(p: seq<nat>, q: seq<nat>)
    requires |p| % 4 == 0 && |q| == 4
    ensures Bytes(p + q) == Bytes(p) + Octets(SextetBits(q))
  {
    LastGroup(p + q);
    hide *;
    assert (p + q)[..|p + q| - 4] == p;
    assert (p + q)[|p + q| - 4..] == q;
  }

  /** How many bytes the last group of n is short of. */
  function Missing(n: nat): (m: nat)
    ensures m < 3
  {
    if n % 3 == 0 then 0 else 3 - n % 3
  }

  /** The size of the last group. */
  function LastSize(n: nat): (k: nat)
    requires n > 0
    ensures 1 <= k <= 3 && k <= n && Missing(n - k) == 0 && Missing(n) == 3 - k
  {
    if n % 3 == 0 then 3 else n % 3
  }

  /** One more group behind whole groups. */
  lemma DecodedAppend(e: seq<Byte>, group: seq<Byte>)
    requires |Sextets(e)| % 4 == 0 && 1 <= |group| <= 3
    ensures |Sextets(e + EncodeGroup(group))| % 4 == 0
    ensures Decoded(e + EncodeGroup(group)) == Decoded(e) + (group + Blank(3 - |group|))
  {
    var p, q := Sextets(e), Sextets(EncodeGroup(group));
    assert Decoded(e) == Bytes(p) && Decoded(e + EncodeGroup(group)) == Bytes(Sextets(e + EncodeGroup(group)));
    hide *;
    SextetsConcat(e, EncodeGroup(group));
    GroupBack(group);
    BytesAppend(p, q);
  }

  lemma EncodeLast(b: seq<Byte>)
    ensures b == [] ==> Sextets(Encode(b)) == [] && Decoded(Encode(b)) == [] && Missing(|b|) == 0
    ensures b != [] ==>
      var n := LastSize(|b|);
      Encode(b) == Encode(b[..|b| - n]) + EncodeGroup(b[|b| - n..])
  {
    hide EncodeGroup, SextetBits, Octets, Value64;
  }

  /** Decoding an encoded string gives it back, with zeros for the padding. */
  lemma {:induction false} DecodedEncode(b: seq<Byte>)
    ensures |Sextets(Encode(b))| % 4 == 0
    ensures Decoded(Encode(b)) == b + Blank(Missing(|b|))
  {
    hide *;
    EncodeLast(b);
    if b != [] {
      var n := LastSize(|b|);
      var front, group := b[..|b| - n], b[|b| - n..];
      DecodedEncode(front);
      DecodedAppend(Encode(front), group);
      assert front + Blank(0) == front;
      assert b + Blank(3 - n) == front + (group + Blank(3 - n));
    }
  }

  lemma GroupHasNoNul(b: seq<Byte>)
    requires 1 <= |b| <= 3
    ensures 0 !in EncodeGroup(b)
  {
    hide BitsOf, Value, Value64;
  }

  lemma {:induction false} EncodeHasNoNul(b: seq<Byte>)
    ensures 0 !in Encode(b)
  {
    if b != [] {
      var n := LastSize(|b|);
      EncodeHasNoNul(b[..|b| - n]);
      GroupHasNoNul(b[|b| - n..]);
      hide EncodeGroup;
    }
  }

  /** Memory that holds an encoded C string, and anything behind it, meets what DecodeBase64 asks for,
      and the memory it leaves holds the string itself. */
  lemma RoundTrip(b: seq<Byte>, tail: seq<Byte>)
    requires 0 !in b
    ensures var was := Encode(b) + [0] + tail;
      && Terminated(was) && CString(was) == Encode(b)
      && var d := Decoded(CString(was));
      CString(d + [0] + was[|d| + 1..]) == b
  {
    EncodeHasNoNul(b);
    hide *;
    var was := Encode(b) + [0] + tail;
    assert was == Encode(b) + ([0] + tail);
    CStringOf(Encode(b), [0] + tail);
    EndsBefore(was, Encode(b));
    DecodedEncode(b);
    var d := Decoded(Encode(b));
    var rest := Blank(Missing(|b|)) + [0] + was[|d| + 1..];
    assert d + [0] + was[|d| + 1..] == b + rest;
    CStringOf(b, rest);
  }
}
