// Bytes, bit strings and 32-bit machine words.
//
// A bit string is a seq<bool>, most significant bit first. A 32-bit C integer is exactly its 32
// bits, so shifts drop and append bits, and `&`, `|` act bit by bit: no wrap-around is abstracted.
module Bits {

  newtype Byte = x: int | 0 <= x < 256

  /** n zero bytes. */
  function Blank(n: nat): (z: seq<Byte>)
    ensures |z| == n && forall i :: 0 <= i < n ==> z[i] == 0
  {
    seq(n, _ => 0)
  }

  function Flatten(parts: seq<seq<Byte>>): seq<Byte> {
    if parts == [] then [] else parts[0] + Flatten(parts[1..])
  }

  function Pow2(n: nat): (r: nat)
    ensures r > 0
  {
    if n == 0 then 1 else 2 * Pow2(n - 1)
  }

  lemma DoubleProduct(x: nat, y: nat)
    ensures 2 * (x * y) == 2 * x * y
  {
  }

  lemma {:induction false} Pow2Add(a: nat, b: nat)
    ensures Pow2(a + b) == Pow2(a) * Pow2(b)
  {
    if a > 0 {
      Pow2Add(a - 1, b);
      DoubleProduct(Pow2(a - 1), Pow2(b));
    }
  }

  /** The number a bit string denotes. */
  function Value(b: seq<bool>): nat {
    if b == [] then 0
    else 2 * Value(b[..|b| - 1]) + (if b[|b| - 1] then 1 else 0)
  }

  /** The w low-order bits of n. */
  function Low(n: nat, w: nat): (b: seq<bool>)
    ensures |b| == w
    decreases w, n
  {
    if w == 0 then [] else Low(n / 2, w - 1) + [n % 2 == 1]
  }

  lemma {:induction false} ValueBound(b: seq<bool>)
    ensures Value(b) < Pow2(|b|)
  {
    if b != [] { ValueBound(b[..|b| - 1]); }
  }

  lemma {:induction false} LowOfValue(b: seq<bool>)
    ensures Low(Value(b), |b|) == b
  {
    if b != [] { LowOfValue(b[..|b| - 1]); }
  }

  lemma {:induction false} ValueOfLow(n: nat, w: nat)
    requires n < Pow2(w)
    ensures Value(Low(n, w)) == n
  {
    if w > 0 {
      ValueOfLow(n / 2, w - 1);
      assert Low(n, w)[..w - 1] == Low(n / 2, w - 1);
    }
  }

  lemma {:induction false} ValueConcat(a: seq<bool>, b: seq<bool>)
    ensures Value(a + b) == Value(a) * Pow2(|b|) + Value(b)
  {
    if b == [] {
      assert a + b == a;
    } else {
      var b' := b[..|b| - 1];
      ValueConcat(a, b');
      assert (a + b)[..|a + b| - 1] == a + b';
      assert Value(a) * Pow2(|b|) == 2 * (Value(a) * Pow2(|b'|));
    }
  }

  /** The last v of w low-order bits are the v low-order bits. */
  lemma {:induction false} LowSuffix(n: nat, w: nat, v: nat)
    requires v <= w
    ensures Low(n, w)[w - v..] == Low(n, v)
  {
    if v > 0 {
      LowSuffix(n / 2, w - 1, v - 1);
      assert Low(n, w)[w - v..] == Low(n / 2, w - 1)[w - v..] + [n % 2 == 1];
    }
  }

  lemma {:induction false} LowZero(w: nat)
    ensures Low(0, w) == Zeros(w)
  {
    if w > 0 { LowZero(w - 1); }
  }

  lemma {:induction false} LowOnes(w: nat)
    ensures Low(Pow2(w) - 1, w) == seq(w, _ => true)
  {
    if w > 0 {
      LowOnes(w - 1);
      assert (Pow2(w) - 1) / 2 == Pow2(w - 1) - 1;
    }
  }

  /** A small number written in many bits starts with zeros. */
  lemma {:induction false} LowLeadingZeros(n: nat, w: nat, v: nat)
    requires n < Pow2(v) && v <= w
    ensures Low(n, w) == Zeros(w - v) + Low(n, v)
  {
    if v == 0 {
      LowZero(w);
    } else {
      LowLeadingZeros(n / 2, w - 1, v - 1);
    }
  }

  function Zeros(n: nat): (b: seq<bool>)
    ensures |b| == n && forall i :: 0 <= i < n ==> !b[i]
  {
    seq(n, _ => false)
  }

  // ----- streams

  /** An endless bit string. */
  type Stream = nat -> bool

  /** The n bits of the stream from bit p on. */
  function Window(s: Stream, p: nat, n: nat): (w: seq<bool>)
    ensures |w| == n
  {
    seq(n, i requires 0 <= i < n => s(p + i))
  }

  lemma WindowSplit(s: Stream, p: nat, n: nat, m: nat)
    ensures Window(s, p, n + m) == Window(s, p, n) + Window(s, p + n, m)
  {
  }

  // ----- 32-bit words

  type Word = w: seq<bool> | |w| == 32 witness seq(32, _ => false)

  function OfNat(n: nat): Word { Low(n, 32) }

  /** C's `w << n`. */
  function Shl(w: Word, n: nat): Word
    requires n <= 32
  {
    w[n..] + Zeros(n)
  }

  /** C's `w >> n` on a signed int: the sign bit is copied in. */
  function Sar(w: Word, n: nat): Word
    requires n <= 32
  {
    seq(n, _ => w[0]) + w[..32 - n]
  }

  function Or(a: Word, b: Word): Word {
    seq(32, i requires 0 <= i < 32 => a[i] || b[i])
  }

  function And(a: Word, b: Word): Word {
    seq(32, i requires 0 <= i < 32 => a[i] && b[i])
  }

  /** The word whose top n bits are set. */
  function TopMask(n: nat): Word
    requires n <= 32
  {
    Shl(OfNat(Pow2(n) - 1), 32 - n)
  }

  lemma TopMaskBits(n: nat)
    requires n <= 32
    ensures TopMask(n) == seq(n, _ => true) + Zeros(32 - n)
  {
    LowOnes(n);
    LowLeadingZeros(Pow2(n) - 1, 32, n);
  }

  lemma AlignedBits(n: nat, w: nat)
    requires w <= 32
    ensures Shl(OfNat(n), 32 - w) == Low(n, w) + Zeros(32 - w)
  {
    LowSuffix(n, 32, w);
  }

  lemma AndTop(data: Word, m: Word, w: nat)
    requires w <= 32 && m == seq(w, _ => true) + Zeros(32 - w)
    ensures And(data, m) == data[..w] + Zeros(32 - w)
  {
  }

  /** The masked comparison of the table search looks at the top w bits only. */
  lemma MaskedCompare(data: Word, n: nat, w: nat)
    requires w <= 32
    ensures And(data, TopMask(w)) == Shl(OfNat(n), 32 - w) <==> data[..w] == Low(n, w)
  {
    TopMaskBits(w);
    AlignedBits(n, w);
    AndTop(data, TopMask(w), w);
    assert (data[..w] + Zeros(32 - w))[..w] == data[..w];
    assert (Low(n, w) + Zeros(32 - w))[..w] == Low(n, w);
  }

  /** `data | (b << (24 - k))` appends the eight bits of b behind the k valid bits of data. */
  lemma OrByte(data: Word, k: nat, b: Byte)
    requires k <= 24 && data[k..] == Zeros(32 - k)
    ensures Or(data, Shl(OfNat(b as nat), 24 - k)) == data[..k] + Low(b as nat, 8) + Zeros(24 - k)
  {
    assert Pow2(8) == 256;
    LowLeadingZeros(b as nat, 32, 8);
    var s := Shl(OfNat(b as nat), 24 - k);
    assert s == Zeros(k) + Low(b as nat, 8) + Zeros(24 - k);
    forall i | k <= i < 32 ensures !data[i] { assert data[i] == data[k..][i - k]; }
  }

  lemma AndLow(w: Word, m: Word, s: nat)
    requires s <= 32 && m == Zeros(32 - s) + seq(s, _ => true)
    ensures And(w, m) == Zeros(32 - s) + w[32 - s..]
  {
  }

  lemma SarLow(w: Word, s: nat)
    requires s <= 32
    ensures Sar(w, 32 - s)[32 - s..] == w[..s]
  {
  }

  /** The number a word denotes as a signed int. */
  function Signed(w: Word): int {
    if w[0] then Value(w) - Pow2(32) else Value(w)
  }

  lemma {:induction false} OnesValue(n: nat)
    ensures Value(seq(n, _ => true)) == Pow2(n) - 1
  {
    if n > 0 {
      OnesValue(n - 1);
      assert seq(n, _ => true)[..n - 1] == seq(n - 1, _ => true);
    }
  }

  lemma SignCopied(w: Word, n: nat)
    requires n < 32
    ensures Value(Sar(w, n)) == Value(w[..32 - n]) + if w[0] then Pow2(32) - Pow2(32 - n) else 0
  {
    hide Value;
    var front := seq(n, _ => w[0]);
    ValueConcat(front, w[..32 - n]);
    Pow2Add(n, 32 - n);
    if w[0] {
      OnesValue(n);
      assert front == seq(n, _ => true);
      Spread(Pow2(n), Pow2(32 - n));
    } else {
      ZerosValue(n);
      assert front == Zeros(n);
    }
  }

  lemma Spread(a: nat, p: nat)
    requires a > 0
    ensures (a - 1) * p == a * p - p
  {
  }

  /** `>>` on a signed int divides by a power of two and rounds down. */
  lemma SarRoundsDown(w: Word, n: nat)
    requires n < 32
    ensures Signed(Sar(w, n)) * Pow2(n) <= Signed(w) < (Signed(Sar(w, n)) + 1) * Pow2(n)
  {
    hide Value;
    var hi, lo := w[..32 - n], w[32 - n..];
    assert w == hi + lo;
    ValueConcat(hi, lo);
    ValueBound(lo);
    SignCopied(w, n);
    Pow2Add(32 - n, n);
    assert Sar(w, n)[0] == w[0];
    RoundedDown(Value(hi), Value(lo), Pow2(n), Pow2(32 - n));
  }

  lemma RoundedDown(h: int, l: nat, p: nat, q: nat)
    requires l < p
    ensures h * p <= h * p + l < (h + 1) * p
    ensures (h - q) * p == h * p - q * p && (h - q + 1) * p == h * p - q * p + p
  {
  }

  /** `(data >> (32 - s)) & mask[s]` is the value of the top s bits, whatever the sign. */
  lemma TopBits(data: Word, s: nat)
    requires s <= 16
    ensures Value(And(Sar(data, 32 - s), OfNat(Pow2(s) - 1))) == Value(data[..s])
  {
    hide Low, Value, Pow2, Sar, And;
    var m := OfNat(Pow2(s) - 1);
    assert m == Zeros(32 - s) + seq(s, _ => true) by {
      LowOnes(s);
      LowLeadingZeros(Pow2(s) - 1, 32, s);
    }
    AndLow(Sar(data, 32 - s), m, s);
    SarLow(data, s);
    ValueConcat(Zeros(32 - s), data[..s]);
    ZerosValue(32 - s);
  }

  lemma {:induction false} ZerosValue(n: nat)
    ensures Value(Zeros(n)) == 0
  {
    if n > 0 {
      ZerosValue(n - 1);
      assert Zeros(n)[..n - 1] == Zeros(n - 1);
    }
  }
}
