// The tests for CR LF and for an empty line, and push_byte, on the 32-bit int of the code.
module CrlfWords {
  import opened Bits
  import opened MjpgProxy

  /** The int that holds these four bytes. */
  function WordOf(w: Four): Word {
    Low(w[0] as nat, 8) + Low(w[1] as nat, 8) + Low(w[2] as nat, 8) + Low(w[3] as nat, 8)
  }

  /** `((13 << 8) | 10)`. */
  const CRLF_MASK: Word := Or(Shl(OfNat(13), 8), OfNat(10))

  /** The place of a bit of the mask: bits 3, 2 and 0 of the third byte, 3 and 1 of the last one. */
  predicate InMask(i: nat) {
    i == 20 || i == 21 || i == 23 || i == 28 || i == 30
  }

  lemma Nibble(n: nat, b: seq<bool>)
    requires n < 16 && |b| == 4
    requires b[0] == (n / 8 % 2 == 1) && b[1] == (n / 4 % 2 == 1) && b[2] == (n / 2 % 2 == 1) && b[3] == (n % 2 == 1)
    ensures Low(n, 4) == b
  {
    LastBit(n, 4);
    LastBit(n / 2, 3);
    LastBit(n / 4, 2);
    LastBit(n / 8, 1);
    hide Low;
    assert n / 2 / 2 == n / 4 && n / 4 / 2 == n / 8;
  }

  lemma MaskBits(i: nat)
    requires i < 32
    ensures CRLF_MASK[i] <==> InMask(i)
  {
    assert Pow2(4) == 16;
    Nibble(13, [true, true, false, true]);
    Nibble(10, [true, false, true, false]);
    LowLeadingZeros(13, 32, 4);
    LowLeadingZeros(10, 32, 4);
    hide Low;
    assert OfNat(13) == Zeros(28) + [true, true, false, true];
    assert OfNat(10) == Zeros(28) + [true, false, true, false];
    assert Shl(OfNat(13), 8) == Zeros(20) + [true, true, false, true] + Zeros(8);
  }

  lemma ByteBits(b: Byte)
    ensures var l := Low(b as nat, 8);
      && (l[4] <==> b / 8 % 2 == 1) && (l[5] <==> b / 4 % 2 == 1)
      && (l[6] <==> b / 2 % 2 == 1) && (l[7] <==> b % 2 == 1)
  {
    var n := b as nat;
    LastBit(n, 8);
    LastBit(n / 2, 7);
    LastBit(n / 4, 6);
    LastBit(n / 8, 5);
    hide Low;
    assert n / 2 / 2 == n / 4 && n / 4 / 2 == n / 8;
  }

  lemma LastBit(n: nat, w: nat)
    requires w > 0
    ensures Low(n, w) == Low(n / 2, w - 1) + [n % 2 == 1]
  {
  }

  /** is_crlf: all bits of the mask are set in the two low bytes. */
  lemma CrlfIsMasked(w: Four)
    ensures And(CRLF_MASK, WordOf(w)) == CRLF_MASK <==> IsCrlf(w)
  {
    ByteBits(w[2]);
    ByteBits(w[3]);
    MaskFits(WordOf(w));
    hide Low, And, CRLF_MASK;
    var x := WordOf(w);
    assert x[20] == Low(w[2] as nat, 8)[4] && x[21] == Low(w[2] as nat, 8)[5] && x[23] == Low(w[2] as nat, 8)[7];
    assert x[28] == Low(w[3] as nat, 8)[4] && x[30] == Low(w[3] as nat, 8)[6];
  }

  lemma MaskFits(x: Word)
    ensures And(CRLF_MASK, x) == CRLF_MASK <==> x[20] && x[21] && x[23] && x[28] && x[30]
  {
    forall i | 0 <= i < 32 ensures CRLF_MASK[i] <==> InMask(i) { MaskBits(i); }
    hide CRLF_MASK;
    if And(CRLF_MASK, x) == CRLF_MASK {
      forall i | 0 <= i < 32 && InMask(i) ensures x[i] { assert And(CRLF_MASK, x)[i]; }
      assert InMask(20) && InMask(21) && InMask(23) && InMask(28) && InMask(30);
    }
  }

  /** is_crlfcrlf: the same of the two high bytes, shifted down, whatever the sign. */
  lemma CrlfCrlfIsMasked(w: Four)
    ensures And(CRLF_MASK, WordOf(w)) == CRLF_MASK && And(CRLF_MASK, Sar(WordOf(w), 16)) == CRLF_MASK
      <==> IsCrlfCrlf(w)
  {
    CrlfIsMasked(w);
    ByteBits(w[0]);
    ByteBits(w[1]);
    MaskFits(Sar(WordOf(w), 16));
    hide Low, And, CRLF_MASK;
    var x := Sar(WordOf(w), 16);
    assert x[20] == Low(w[0] as nat, 8)[4] && x[21] == Low(w[0] as nat, 8)[5] && x[23] == Low(w[0] as nat, 8)[7];
    assert x[28] == Low(w[1] as nat, 8)[4] && x[30] == Low(w[1] as nat, 8)[6];
  }

  /** A char as an int. */
  function Promoted(b: Byte, signedChar: bool): Word {
    (if signedChar && b >= 128 then seq(24, _ => true) else Zeros(24)) + Low(b as nat, 8)
  }

  /** push_byte: `(*bytes << 8) | byte`. */
  lemma PushIsShiftIn(w: Four, b: Byte, signedChar: bool)
    ensures WordOf(PushByte(w, b, signedChar)) == Or(Shl(WordOf(w), 8), Promoted(b, signedChar))
  {
    AllOnes();
    hide Low;
    var x := Shl(WordOf(w), 8);
    assert x == Low(w[1] as nat, 8) + Low(w[2] as nat, 8) + Low(w[3] as nat, 8) + Zeros(8);
  }

  lemma AllOnes()
    ensures Low(255, 8) == seq(8, _ => true)
  {
    assert Pow2(8) == 256;
    LowOnes(8);
  }
}
