// The entropy encoder that section F.1.2 of ITU-T T.81 specifies, and the proof that the decoder
// of getFrameSharpnessValue undoes it.
module EntropyEncoder {
  import opened Bits
  import opened CanonicalCode
  import opened HuffmanTables
  import opened Stuffing
  import opened EntropyDecoder

  // ----- coefficient values: a size category and that many extra bits

  function BitLength(n: nat): nat {
    if n == 0 then 0 else 1 + BitLength(n / 2)
  }

  function Abs(v: int): nat { if v < 0 then -v else v }

  /** SSSS, the number of bits of |v|. */
  function Category(v: int): nat { BitLength(Abs(v)) }

  /** The extra bits as a number: v itself, or for a negative v the low-order bits of v - 1. */
  function Extra(v: int): int {
    if v >= 0 then v else v + Pow2(Category(v)) - 1
  }

  lemma {:induction false} BitLengthBounds(n: nat)
    ensures n > 0 ==> BitLength(n) > 0 && Pow2(BitLength(n) - 1) <= n
    ensures n < Pow2(BitLength(n))
  {
    if n > 1 { BitLengthBounds(n / 2); }
  }

  lemma {:induction false} BitLengthUnique(n: nat, s: nat)
    requires s > 0 && Pow2(s - 1) <= n < Pow2(s)
    ensures BitLength(n) == s
  {
    if s > 1 { BitLengthUnique(n / 2, s - 1); }
  }

  /** HUFF_EXTEND recovers every value from its category and extra bits. */
  lemma ExtendOfExtra(v: int)
    ensures 0 <= Extra(v) < Pow2(Category(v))
    ensures Extend(Extra(v), Category(v)) == v
  {
    BitLengthBounds(Abs(v));
  }

  /** And conversely: the two are bijections between values and bit strings. */
  lemma ExtraOfExtend(x: nat, s: nat)
    requires x < Pow2(s)
    ensures Category(Extend(x, s)) == s && Extra(Extend(x, s)) == x
  {
    if s > 0 { BitLengthUnique(Abs(Extend(x, s)), s); }
  }

  /** The values of one category are in the order of their extra bits: with ExtraOfExtend this leaves
      no choice which bits stand for which value. */
  lemma ExtendInOrder(x: nat, y: nat, s: nat)
    requires x < y < Pow2(s)
    ensures Extend(x, s) < Extend(y, s)
  {
  }

  // ----- symbols

  function IndexOf(t: seq<Entry>, sym: nat, k: nat): nat
    decreases |t| - k
  {
    if k >= |t| || t[k].sym as nat == sym then k else IndexOf(t, sym, k + 1)
  }

  lemma {:induction false} IndexOfMeaning(t: seq<Entry>, sym: nat, k: nat)
    ensures var i := IndexOf(t, sym, k); i < |t| ==> t[i].sym as nat == sym
    decreases |t| - k
  {
    if k < |t| && t[k].sym as nat != sym { IndexOfMeaning(t, sym, k + 1); }
  }

  /** The table has a code for the symbol that is not its last code. */
  predicate Codable(t: seq<Entry>, sym: nat) {
    IndexOf(t, sym, 0) < |t| - 1
  }

  function EncodeSymbol(t: seq<Entry>, sym: nat): seq<bool>
    requires Codable(t, sym)
  {
    CodeBits(t[IndexOf(t, sym, 0)])
  }

  /** The bits lie in the stream at p. */
  ghost predicate Streams(s: Stream, p: nat, bits: seq<bool>)
    decreases |bits|
  {
    bits == [] || (s(p) == bits[0] && Streams(s, p + 1, bits[1..]))
  }

  lemma {:induction false} StreamsSplit(s: Stream, p: nat, a: seq<bool>, b: seq<bool>)
    requires Streams(s, p, a + b)
    ensures Streams(s, p, a) && Streams(s, p + |a|, b)
    decreases |a|
  {
    if a == [] {
      assert a + b == b;
    } else {
      assert (a + b)[1..] == a[1..] + b;
      StreamsSplit(s, p + 1, a[1..], b);
    }
  }

  lemma {:induction false} StreamsIffWindow(s: Stream, p: nat, bits: seq<bool>)
    ensures Streams(s, p, bits) <==> Window(s, p, |bits|) == bits
    decreases |bits|
  {
    if bits != [] {
      StreamsIffWindow(s, p + 1, bits[1..]);
      WindowSplit(s, p, 1, |bits| - 1);
      assert bits == [bits[0]] + bits[1..];
      assert Window(s, p, 1) == [s(p)];
    }
  }

  type CodeTable = t: seq<Entry> | Short(t) && PrefixFree(t) witness []

  /** readXC reads back an encoded symbol. */
  lemma SymbolRead(t: CodeTable, sym: nat, s: Stream, p: nat)
    requires Codable(t, sym) && Streams(s, p, EncodeSymbol(t, sym))
    ensures var r := Search(t, 0, Window(s, p, 16));
      r.Some? && r.value.sym as nat == sym && r.value.len == |EncodeSymbol(t, sym)|
  {
    var k := IndexOf(t, sym, 0);
    IndexOfMeaning(t, sym, 0);
    StreamsIffWindow(s, p, EncodeSymbol(t, sym));
    WindowSplit(s, p, t[k].len, 16 - t[k].len);
    assert Window(s, p, 16)[..t[k].len] == Window(s, p, t[k].len);
    SearchIff(t, Window(s, p, 16), k);
  }

  // ----- blocks

  function EncodeValue(t: seq<Entry>, sym: nat, v: int): seq<bool>
    requires Codable(t, sym)
  {
    EncodeSymbol(t, sym) + Low(if Extra(v) >= 0 then Extra(v) else 0, Category(v))
  }

  /** The zero run from coefficient k on. */
  function Run(c: seq<int>, k: nat): (r: nat)
    requires k <= |c|
    ensures k + r <= |c|
    decreases |c| - k
  {
    if k < |c| && c[k] == 0 then 1 + Run(c, k + 1) else 0
  }

  lemma {:induction false} RunMeaning(c: seq<int>, k: nat)
    requires k <= |c|
    ensures var r := Run(c, k);
      && (k + r < |c| ==> c[k + r] != 0)
      && forall i :: k <= i < k + r ==> c[i] == 0
    decreases |c| - k
  {
    if k < |c| && c[k] == 0 { RunMeaning(c, k + 1); }
  }

  const EOB: nat := 0x00
  const ZRL: nat := 0xF0

  /** A run/size symbol, the value whose extra bits follow, and the coefficient that comes next. */
  datatype Token = Token(sym: nat, v: int, k: nat, last: bool)

  /** Section F.1.2.2: ZRL for sixteen zeros, EOB for zeros up to the end. */
  function NextToken(c: seq<int>, k: nat): (t: Token)
    requires |c| == 64 && k < 64
    ensures k <= t.k <= 64 && (!t.last ==> k < t.k)
  {
    var r := Run(c, k);
    if k + r == 64 then Token(EOB, 0, k, true)
    else if r > 15 then Token(ZRL, 0, k + 16, false)
    else Token(16 * r + Category(c[k + r]), c[k + r], k + r + 1, false)
  }

  /** Every symbol of the coefficients from k on has a usable code. */
  predicate AcCodable(ac: seq<Entry>, c: seq<int>, k: nat)
    requires |c| == 64 && k <= 64
    decreases 64 - k, c
  {
    k == 64 ||
    var t := NextToken(c, k);
    && Codable(ac, t.sym) && Category(t.v) <= 15
    && (t.last || AcCodable(ac, c, t.k))
  }

  function EncodeAc(ac: seq<Entry>, c: seq<int>, k: nat): seq<bool>
    requires |c| == 64 && k <= 64 && AcCodable(ac, c, k)
    decreases 64 - k, c
  {
    if k == 64 then []
    else
      var t := NextToken(c, k);
      EncodeValue(ac, t.sym, t.v) + if t.last then [] else EncodeAc(ac, c, t.k)
  }

  predicate BlockCodable(dc: seq<Entry>, ac: seq<Entry>, c: seq<int>, pred: int) {
    |c| == 64 && Codable(dc, Category(c[0] - pred)) && AcCodable(ac, c, 1)
  }

  /** Section F.1.2.1: the DC coefficient as a difference to its predecessor, then the others. */
  function EncodeBlock(dc: seq<Entry>, ac: seq<Entry>, c: seq<int>, pred: int): seq<bool>
    requires BlockCodable(dc, ac, c, pred)
  {
    var diff := c[0] - pred;
    EncodeValue(dc, Category(diff), diff) + EncodeAc(ac, c, 1)
  }

  // ----- reading them back

  lemma ValueRead(t: CodeTable, sym: nat, v: int, s: Stream, p: nat)
    requires Codable(t, sym) && Streams(s, p, EncodeValue(t, sym, v))
    ensures var r, size := Search(t, 0, Window(s, p, 16)), Category(v);
      && r.Some? && r.value.sym as nat == sym
      && Extend(Value(Window(s, p + r.value.len, size)), size) == v
      && |EncodeValue(t, sym, v)| == r.value.len + size
  {
    ExtendOfExtra(v);
    StreamsSplit(s, p, EncodeSymbol(t, sym), Low(Extra(v), Category(v)));
    SymbolRead(t, sym, s, p);
    StreamsIffWindow(s, p + |EncodeSymbol(t, sym)|, Low(Extra(v), Category(v)));
    ValueOfLow(Extra(v), Category(v));
  }

  /** What the decoder holds of c when it has read the coefficients below k. */
  function Partial(c: seq<int>, k: nat): (d: seq<int>)
    requires k <= |c| == 64
    ensures |d| == 64
  {
    c[..k] + seq(64 - k, _ => 0)
  }

  lemma DivMod16(r: nat, s: nat)
    requires s < 16
    ensures (16 * r + s) / 16 == r && (16 * r + s) % 16 == s
  {
  }

  lemma TokenEnds(s: Stream, q: nat, c: seq<int>, k: nat)
    requires |c| == 64 && 1 <= k < 64 && k + Run(c, k) == 64
    ensures ApplySymbol(EOB, s, q, k - 1, Partial(c, k)) == Next(k - 1, c, q, true)
  {
    RunMeaning(c, k);
    hide Run, Window, Value, Extend;
    assert Partial(c, k) == c;
  }

  lemma TokenSkips(s: Stream, q: nat, c: seq<int>, k: nat)
    requires |c| == 64 && 1 <= k < 64 && k + Run(c, k) < 64 && Run(c, k) > 15
    ensures ApplySymbol(ZRL, s, q, k - 1, Partial(c, k)) == Next(k + 15, Partial(c, k + 16), q, false)
  {
    RunMeaning(c, k);
    hide Run, Window, Value, Extend;
    assert Partial(c, k) == Partial(c, k + 16);
  }

  lemma StoreBehindRun(c: seq<int>, k: nat)
    requires |c| == 64 && 1 <= k < 64 && k + Run(c, k) < 64
    ensures var i := k + Run(c, k); c[i] != 0 && Partial(c, k)[i := c[i]] == Partial(c, i + 1)
  {
    RunMeaning(c, k);
    hide Run;
  }

  lemma TokenStores(s: Stream, q: nat, c: seq<int>, k: nat, v: int)
    requires |c| == 64 && 1 <= k < 64 && k + Run(c, k) < 64 && Run(c, k) <= 15 && v == c[k + Run(c, k)]
    requires Category(v) <= 15 && Extend(Value(Window(s, q, Category(v))), Category(v)) == v
    ensures var i := k + Run(c, k);
      ApplySymbol(16 * Run(c, k) + Category(v), s, q, k - 1, Partial(c, k))
        == Next(i, Partial(c, i + 1), q + Category(v), false)
  {
    hide Run, Partial, Window, Value, Extend, BitLength;
    StoreBehindRun(c, k);
    BitLengthBounds(Abs(v));
    DivMod16(Run(c, k), Category(v));
  }

  /** One run/size symbol does what its token says. */
  lemma TokenApplied(s: Stream, q: nat, c: seq<int>, k: nat, t: Token)
    requires |c| == 64 && 1 <= k < 64 && t == NextToken(c, k) && Category(t.v) <= 15
    requires Extend(Value(Window(s, q, Category(t.v))), Category(t.v)) == t.v
    ensures ApplySymbol(t.sym, s, q, k - 1, Partial(c, k))
      == Next(t.k - 1, if t.last then c else Partial(c, t.k), q + Category(t.v), t.last)
  {
    hide ApplySymbol, Partial, Window, Value, Extend, Run;
    if t.last {
      TokenEnds(s, q, c, k);
    } else if Run(c, k) > 15 {
      TokenSkips(s, q, c, k);
    } else {
      TokenStores(s, q, c, k, t.v);
    }
  }

  lemma TokenRead(ac: CodeTable, s: Stream, p: nat, c: seq<int>, k: nat, t: Token)
    requires |c| == 64 && 1 <= k < 64 && t == NextToken(c, k) && Category(t.v) <= 15
    requires Codable(ac, t.sym) && Streams(s, p, EncodeValue(ac, t.sym, t.v))
    ensures StepAc(ac, s, p, k - 1, Partial(c, k))
      == Next(t.k - 1, if t.last then c else Partial(c, t.k), p + |EncodeValue(ac, t.sym, t.v)|, t.last)
  {
    ValueRead(ac, t.sym, t.v, s, p);
    TokenApplied(s, p + Search(ac, 0, Window(s, p, 16)).value.len, c, k, t);
  }

  lemma AcSplit(ac: CodeTable, s: Stream, p: nat, c: seq<int>, k: nat, t: Token)
    requires |c| == 64 && k < 64 && AcCodable(ac, c, k) && t == NextToken(c, k)
    requires Streams(s, p, EncodeAc(ac, c, k))
    ensures Codable(ac, t.sym) && Category(t.v) <= 15 && (!t.last ==> AcCodable(ac, c, t.k))
    ensures var first := EncodeValue(ac, t.sym, t.v);
      && Streams(s, p, first)
      && if t.last then EncodeAc(ac, c, k) == first
         else
           && |EncodeAc(ac, c, k)| == |first| + |EncodeAc(ac, c, t.k)|
           && Streams(s, p + |first|, EncodeAc(ac, c, t.k))
  {
    hide Codable, EncodeValue, NextToken, Streams;
    var first := EncodeValue(ac, t.sym, t.v);
    if t.last {
      assert first + [] == first;
    } else {
      StreamsSplit(s, p, first, EncodeAc(ac, c, t.k));
    }
  }

  lemma AcEnds(ac: CodeTable, s: Stream, p: nat, j: nat, d: seq<int>, j': nat, d': seq<int>, q: nat)
    requires |d| == 64 && j < 63 && StepAc(ac, s, p, j, d) == Next(j', d', q, true)
    ensures ReadAc(ac, s, p, j, d) == Good(d', q)
  {
  }

  lemma AcGoesOn(ac: CodeTable, s: Stream, p: nat, j: nat, d: seq<int>, j': nat, d': seq<int>, q: nat)
    requires |d| == 64 && j < 63 && StepAc(ac, s, p, j, d) == Next(j', d', q, false)
    ensures j' <= 63 && |d'| == 64 && ReadAc(ac, s, p, j, d) == ReadAc(ac, s, q, j', d')
  {
  }

  lemma AcReadLast(ac: CodeTable, s: Stream, p: nat, c: seq<int>, k: nat)
    requires |c| == 64 && 1 <= k < 64 && AcCodable(ac, c, k) && Streams(s, p, EncodeAc(ac, c, k))
    requires NextToken(c, k).last
    ensures ReadAc(ac, s, p, k - 1, Partial(c, k)) == Good(c, p + |EncodeAc(ac, c, k)|)
  {
    var t := NextToken(c, k);
    AcSplit(ac, s, p, c, k, t);
    TokenRead(ac, s, p, c, k, t);
    AcEnds(ac, s, p, k - 1, Partial(c, k), t.k - 1, c, p + |EncodeAc(ac, c, k)|);
  }

  lemma AcAdvance(ac: CodeTable, s: Stream, p: nat, c: seq<int>, k: nat, t: Token)
    requires |c| == 64 && 1 <= k < 64 && t == NextToken(c, k) && !t.last && Category(t.v) <= 15
    requires Codable(ac, t.sym) && Streams(s, p, EncodeValue(ac, t.sym, t.v))
    ensures ReadAc(ac, s, p, k - 1, Partial(c, k))
      == ReadAc(ac, s, p + |EncodeValue(ac, t.sym, t.v)|, t.k - 1, Partial(c, t.k))
  {
    hide *;
    TokenRead(ac, s, p, c, k, t);
    var q := p + |EncodeValue(ac, t.sym, t.v)|;
    AcGoesOn(ac, s, p, k - 1, Partial(c, k), t.k - 1, Partial(c, t.k), q);
  }

  lemma AcReadMore(ac: CodeTable, s: Stream, p: nat, c: seq<int>, k: nat) returns (k': nat, q: nat)
    requires |c| == 64 && 1 <= k < 64 && AcCodable(ac, c, k) && Streams(s, p, EncodeAc(ac, c, k))
    requires !NextToken(c, k).last
    ensures k < k' <= 64 && AcCodable(ac, c, k') && Streams(s, q, EncodeAc(ac, c, k'))
    ensures p + |EncodeAc(ac, c, k)| == q + |EncodeAc(ac, c, k')|
    ensures ReadAc(ac, s, p, k - 1, Partial(c, k)) == ReadAc(ac, s, q, k' - 1, Partial(c, k'))
  {
    hide *;
    var t := NextToken(c, k);
    AcSplit(ac, s, p, c, k, t);
    AcAdvance(ac, s, p, c, k, t);
    k', q := t.k, p + |EncodeValue(ac, t.sym, t.v)|;
  }

  lemma {:induction false} AcRead(ac: CodeTable, s: Stream, p: nat, c: seq<int>, k: nat)
    requires |c| == 64 && 1 <= k <= 64 && AcCodable(ac, c, k) && Streams(s, p, EncodeAc(ac, c, k))
    ensures ReadAc(ac, s, p, k - 1, Partial(c, k)) == Good(c, p + |EncodeAc(ac, c, k)|)
    decreases 64 - k
  {
    if k == 64 {
      assert Partial(c, k) == c;
    } else if NextToken(c, k).last {
      AcReadLast(ac, s, p, c, k);
    } else {
      var k', q := AcReadMore(ac, s, p, c, k);
      AcRead(ac, s, q, c, k');
    }
  }

  lemma DiffRead(dc: CodeTable, s: Stream, p: nat, diff: int)
    requires Codable(dc, Category(diff))
    requires Streams(s, p, EncodeValue(dc, Category(diff), diff))
    ensures ReadDiff(dc, s, p) == Good(diff, p + |EncodeValue(dc, Category(diff), diff)|)
  {
    ValueRead(dc, Category(diff), diff, s, p);
  }

  lemma DcRead(dc: CodeTable, ac: CodeTable, s: Stream, p: nat, c: seq<int>, pred: int) returns (q: nat)
    requires BlockCodable(dc, ac, c, pred) && Streams(s, p, EncodeBlock(dc, ac, c, pred))
    ensures Streams(s, q, EncodeAc(ac, c, 1))
    ensures p + |EncodeBlock(dc, ac, c, pred)| == q + |EncodeAc(ac, c, 1)|
    ensures ReadDiff(dc, s, p) == Good(c[0] - pred, q)
  {
    var diff := c[0] - pred;
    var first := EncodeValue(dc, Category(diff), diff);
    StreamsSplit(s, p, first, EncodeAc(ac, c, 1));
    DiffRead(dc, s, p, diff);
    q := p + |first|;
  }

  /** readTable gives back exactly the 64 coefficients and stops behind the block's last bit. */
  lemma BlockRead(dc: CodeTable, ac: CodeTable, s: Stream, p: nat, c: seq<int>, pred: int)
    requires BlockCodable(dc, ac, c, pred) && Streams(s, p, EncodeBlock(dc, ac, c, pred))
    ensures ReadBlock(dc, ac, s, p, pred) == Good(c, p + |EncodeBlock(dc, ac, c, pred)|)
  {
    hide Streams, EncodeAc, EncodeBlock, ReadAc, ReadBlock, ReadDiff, AcCodable, Codable, Short, PrefixFree;
    var q := DcRead(dc, ac, s, p, c, pred);
    var d := Partial(c, 1);
    assert d == Zeroes(c[0]);
    BlockBehindDiff(dc, ac, s, p, pred, c[0] - pred, q, d);
    AcRead(ac, s, q, c, 1);
  }

  // ----- MCUs

  ghost predicate McuCodable(t: seq<seq<Entry>>, sel: Selection, m: Mcu, preds: Preds)
    requires sel.Usable(t)
  {
    && BlockCodable(t[sel.dcY], t[sel.acY], m.y0, preds.y)
    && BlockCodable(t[sel.dcY], t[sel.acY], m.y1, m.y0[0])
    && BlockCodable(t[2], t[3], m.cr, preds.cr)
    && BlockCodable(t[2], t[3], m.cb, preds.cb)
  }

  ghost function EncodeMcu(t: seq<seq<Entry>>, sel: Selection, m: Mcu, preds: Preds): seq<bool>
    requires sel.Usable(t) && McuCodable(t, sel, m, preds)
  {
    EncodeBlock(t[sel.dcY], t[sel.acY], m.y0, preds.y) + EncodeBlock(t[sel.dcY], t[sel.acY], m.y1, m.y0[0])
    + (EncodeBlock(t[2], t[3], m.cr, preds.cr) + EncodeBlock(t[2], t[3], m.cb, preds.cb))
  }

  function After(m: Mcu): Preds
    requires |m.y1| == |m.cr| == |m.cb| == 64
  {
    Preds(m.y1[0], m.cr[0], m.cb[0])
  }

  ghost predicate ScanCodable(t: seq<seq<Entry>>, sel: Selection, ms: seq<Mcu>, preds: Preds)
    requires sel.Usable(t)
  {
    ms == [] || (McuCodable(t, sel, ms[0], preds) && ScanCodable(t, sel, ms[1..], After(ms[0])))
  }

  /** The entropy-coded bits of a scan. */
  ghost function EncodeMcus(t: seq<seq<Entry>>, sel: Selection, ms: seq<Mcu>, preds: Preds): seq<bool>
    requires sel.Usable(t) && ScanCodable(t, sel, ms, preds)
  {
    if ms == [] then []
    else EncodeMcu(t, sel, ms[0], preds) + EncodeMcus(t, sel, ms[1..], After(ms[0]))
  }

  ghost predicate AllPrefixFree(t: seq<seq<Entry>>) {
    forall i :: 0 <= i < |t| ==> Short(t[i]) && PrefixFree(t[i])
  }

  lemma McuRead(t: seq<seq<Entry>>, sel: Selection, s: Stream, p: nat, m: Mcu, preds: Preds)
    requires sel.Usable(t) && AllPrefixFree(t) && McuCodable(t, sel, m, preds)
    requires Streams(s, p, EncodeMcu(t, sel, m, preds))
    ensures ReadMcu(t, sel, s, p, preds) == Good(m, p + |EncodeMcu(t, sel, m, preds)|)
  {
    hide EncodeBlock, ReadBlock, Streams, PrefixFree, DcTable, Short, Codable, AcCodable;
    var y0 := EncodeBlock(t[sel.dcY], t[sel.acY], m.y0, preds.y);
    var y1 := EncodeBlock(t[sel.dcY], t[sel.acY], m.y1, m.y0[0]);
    var cr, cb := EncodeBlock(t[2], t[3], m.cr, preds.cr), EncodeBlock(t[2], t[3], m.cb, preds.cb);
    StreamsSplit(s, p, y0 + y1, cr + cb);
    StreamsSplit(s, p, y0, y1);
    StreamsSplit(s, p + |y0 + y1|, cr, cb);
    BlockRead(t[sel.dcY], t[sel.acY], s, p, m.y0, preds.y);
    BlockRead(t[sel.dcY], t[sel.acY], s, p + |y0|, m.y1, m.y0[0]);
    BlockRead(t[2], t[3], s, p + |y0 + y1|, m.cr, preds.cr);
    BlockRead(t[2], t[3], s, p + |y0 + y1| + |cr|, m.cb, preds.cb);
  }

  lemma {:induction false} McusRead(t: seq<seq<Entry>>, sel: Selection, s: Stream, p: nat, ms: seq<Mcu>,
                                    preds: Preds, done: seq<Mcu>)
    requires sel.Usable(t) && AllPrefixFree(t) && ScanCodable(t, sel, ms, preds)
    requires Streams(s, p, EncodeMcus(t, sel, ms, preds))
    ensures ReadMcus(t, sel, s, p, preds, |ms|, done)
      == Good(done + ms, p + |EncodeMcus(t, sel, ms, preds)|)
    decreases |ms|
  {
    hide ReadMcu, EncodeMcu, Streams, AllPrefixFree, DcTable, Short, Codable, AcCodable;
    if ms == [] {
      assert done + ms == done;
    } else {
      var m := EncodeMcu(t, sel, ms[0], preds);
      StreamsSplit(s, p, m, EncodeMcus(t, sel, ms[1..], After(ms[0])));
      McuRead(t, sel, s, p, ms[0], preds);
      McusRead(t, sel, s, p + |m|, ms[1..], After(ms[0]), done + [ms[0]]);
      assert done + [ms[0]] + ms[1..] == done + ms;
    }
  }

  // ----- bytes

  /** Section F.1.2.3: the last byte is filled up with one bits. */
  function Pad(bits: seq<bool>): (r: seq<bool>)
    ensures |r| % 8 == 0 && bits <= r
  {
    bits + seq((8 - |bits| % 8) % 8, _ => true)
  }

  function Pack(bits: seq<bool>): (b: seq<Byte>)
    requires |bits| % 8 == 0
    ensures 8 * |b| == |bits|
  {
    if bits == [] then []
    else
      ValueBound(bits[..8]);
      assert Pow2(8) == 256;
      [Value(bits[..8]) as Byte] + Pack(bits[8..])
  }

  lemma {:induction false} PackedBits(bits: seq<bool>, i: nat)
    requires |bits| % 8 == 0 && i < |bits|
    ensures Low(Pack(bits)[i / 8] as nat, 8)[i % 8] == bits[i]
  {
    hide Low, Value;
    if i < 8 {
      LowOfValue(bits[..8]);
    } else {
      PackedBits(bits[8..], i - 8);
      assert (i - 8) / 8 == i / 8 - 1 && (i - 8) % 8 == i % 8;
    }
  }

  function BitIn(x: Byte, j: nat): bool
    requires j < 8
  {
    Low(x as nat, 8)[j]
  }

  /** The byte agrees with byte i of the data bits, as far as these go. */
  ghost predicate ByteHolds(x: Byte, bits: seq<bool>, i: nat) {
    forall k :: 8 * i <= k < 8 * i + 8 && k < |bits| ==> BitIn(x, k % 8) == bits[k]
  }

  ghost predicate BytesHold(mem: seq<Byte>, bits: seq<bool>) {
    forall i :: 0 <= 8 * i < |bits| ==> ByteHolds(StreamByte(mem, i), bits, i)
  }

  lemma WindowBit(mem: seq<Byte>, n: nat, k: nat)
    requires k < n
    ensures Window(StreamOf(mem), 0, n)[k] == BitIn(StreamByte(mem, k / 8), k % 8)
  {
    hide Low, StreamByte;
  }

  lemma BytesFromBits(mem: seq<Byte>, bits: seq<bool>)
    requires Window(StreamOf(mem), 0, |bits|) == bits
    ensures BytesHold(mem, bits)
  {
    hide Window, StreamByte, BitIn;
    forall i | 0 <= 8 * i < |bits| ensures ByteHolds(StreamByte(mem, i), bits, i) {
      forall k | 8 * i <= k < 8 * i + 8 && k < |bits| ensures BitIn(StreamByte(mem, i), k % 8) == bits[k] {
        WindowBit(mem, |bits|, k);
        assert k / 8 == i;
      }
    }
  }

  lemma BitsFromBytes(mem: seq<Byte>, bits: seq<bool>)
    requires BytesHold(mem, bits)
    ensures Window(StreamOf(mem), 0, |bits|) == bits
  {
    hide Window, StreamByte, BitIn;
    forall k | 0 <= k < |bits| ensures Window(StreamOf(mem), 0, |bits|)[k] == bits[k] {
      WindowBit(mem, |bits|, k);
      assert ByteHolds(StreamByte(mem, k / 8), bits, k / 8);
    }
  }

  /** The bits are in the stream iff each of its bytes agrees with them. */
  lemma StreamsByByte(mem: seq<Byte>, bits: seq<bool>)
    ensures Streams(StreamOf(mem), 0, bits) <==> BytesHold(mem, bits)
  {
    hide *;
    StreamsIffWindow(StreamOf(mem), 0, bits);
    if Window(StreamOf(mem), 0, |bits|) == bits { BytesFromBits(mem, bits); }
    if BytesHold(mem, bits) { BitsFromBytes(mem, bits); }
  }

  lemma SameBits(x: Byte, y: Byte)
    requires forall j :: 0 <= j < 8 ==> BitIn(x, j) == BitIn(y, j)
    ensures x == y
  {
    assert Pow2(8) == 256;
    ValueOfLow(x as nat, 8);
    ValueOfLow(y as nat, 8);
    hide Low, Value;
    var l, m := Low(x as nat, 8), Low(y as nat, 8);
    forall j | 0 <= j < 8 ensures l[j] == m[j] { assert BitIn(x, j) == BitIn(y, j); }
    assert l == m;
  }

  /** Every byte of the scan agrees with the data bits. */
  lemma PackedHolds(bits: seq<bool>, i: nat)
    requires 8 * i < |bits|
    ensures i < |Pack(Pad(bits))| && ByteHolds(Pack(Pad(bits))[i], bits, i)
  {
    hide Pack;
    var b := Pack(Pad(bits));
    forall k | 8 * i <= k < 8 * i + 8 && k < |bits| ensures BitIn(b[i], k % 8) == bits[k] {
      assert k / 8 == i;
      PackedBits(Pad(bits), k);
    }
  }

  /** Of a byte all of whose bits are data there is only one that agrees. */
  lemma WholeByte(bits: seq<bool>, i: nat, x: Byte)
    requires 8 * i + 8 <= |bits|
    ensures i < |Pack(Pad(bits))| && (ByteHolds(x, bits, i) <==> x == Pack(Pad(bits))[i])
  {
    hide Pack, BitIn;
    PackedHolds(bits, i);
    var y := Pack(Pad(bits))[i];
    if ByteHolds(x, bits, i) {
      forall j | 0 <= j < 8 ensures BitIn(x, j) == BitIn(y, j) { assert (8 * i + j) % 8 == j; }
      SameBits(x, y);
    }
  }

  lemma ZeroHolds(bits: seq<bool>, i: nat)
    ensures ByteHolds(0, bits, i) <==> forall k :: 8 * i <= k < 8 * i + 8 && k < |bits| ==> !bits[k]
  {
    LowZero(8);
  }

  ghost predicate NoneSet(bits: seq<bool>, k: nat) {
    forall j :: k <= j < |bits| ==> !bits[j]
  }

  /** Behind an FF whose stuffing is not taken off there is no set bit any more. */
  ghost predicate BitsUndone(bits: seq<bool>) {
    var b := Pack(Pad(bits));
    forall i :: 0 <= i < |b| && Exposed(b, i, 2) ==> NoneSet(bits, 8 * (i + 1))
  }

  /** The number of whole bytes before the last one. */
  function Front(bits: seq<bool>): (p: nat)
    requires bits != []
    ensures |Pack(Pad(bits))| == p + 1 && 8 * p < |bits| <= 8 * p + 8
  {
    |Pack(Pad(bits))| - 1
  }

  lemma ZerosIffNoneSet(bits: seq<bool>, i: nat)
    requires bits != [] && i <= Front(bits)
    ensures NoneSet(bits, 8 * i) <==> Zero(Pack(Pad(bits))[i..Front(bits)]) && NoneSet(bits, 8 * Front(bits))
  {
    hide Pack, Front, ByteHolds;
    var b, p := Pack(Pad(bits)), Front(bits);
    var mid := b[i..p];
    forall j | i <= j < p ensures b[j] == 0 <==> forall k :: 8 * j <= k < 8 * j + 8 && k < |bits| ==> !bits[k] {
      WholeByte(bits, j, 0);
      ZeroHolds(bits, j);
    }
    if NoneSet(bits, 8 * i) {
      forall j | 0 <= j < |mid| ensures mid[j] == 0 { assert mid[j] == b[i + j]; }
    }
    if Zero(mid) && NoneSet(bits, 8 * p) {
      forall k | 8 * i <= k < |bits| ensures !bits[k] {
        if k < 8 * p {
          assert mid[k / 8 - i] == b[k / 8];
          assert 8 * (k / 8) <= k < 8 * (k / 8) + 8;
        }
      }
    }
  }

  /** The condition on the bits, in terms of the whole bytes before the last one. */
  lemma BitsUndoneIff(bits: seq<bool>)
    requires bits != []
    ensures var p := Front(bits);
      var front := Pack(Pad(bits))[..p];
      BitsUndone(bits) <==> Undone(front, 2) && (Slips(front, 2) ==> NoneSet(bits, 8 * p))
  {
    hide Pack, Front, Zero, NoneSet;
    var b, p := Pack(Pad(bits)), Front(bits);
    var front := b[..p];
    forall i | 0 <= i < p
      ensures Exposed(front, i, 2) <==> Exposed(b, i, 2)
      ensures NoneSet(bits, 8 * (i + 1)) <==> Zero(front[i + 1..]) && NoneSet(bits, 8 * p) {
      ZerosIffNoneSet(bits, i + 1);
      assert b[i + 1..p] == front[i + 1..];
    }
    assert NoneSet(bits, 8 * (p + 1)) by { NoneBehind(bits, 8 * (p + 1)); }
  }

  lemma NoneBehind(bits: seq<bool>, k: nat)
    requires |bits| <= k
    ensures NoneSet(bits, k)
  {
  }

  /** The bits are in the stream iff the whole bytes are and the last one agrees as far as it counts. */
  lemma StreamsIff(mem: seq<Byte>, bits: seq<bool>)
    requires bits != []
    ensures var p := Front(bits);
      Streams(StreamOf(mem), 0, bits) <==>
        Sees(mem, Pack(Pad(bits))[..p]) && ByteHolds(StreamByte(mem, p), bits, p)
  {
    hide Pack, Front, StreamByte, Streams, StreamOf, ByteHolds;
    StreamsByByte(mem, bits);
    var b, p := Pack(Pad(bits)), Front(bits);
    forall i | 0 <= i < p ensures ByteHolds(StreamByte(mem, i), bits, i) <==> StreamByte(mem, i) == b[i] {
      WholeByte(bits, i, StreamByte(mem, i));
    }
  }

  lemma FrontAndLast(b: seq<Byte>, p: nat)
    requires p + 1 == |b|
    ensures b == b[..p] + [b[p]]
  {
  }

  lemma StuffSplit(b: seq<Byte>, p: nat, tail: seq<Byte>)
    requires p + 1 == |b|
    ensures Stuff(b) + tail == Stuff(b[..p]) + (Escape(b[p]) + tail)
  {
    hide *;
    var f, y := b[..p], b[p];
    FrontAndLast(b, p);
    calc {
      Stuff(b) + tail;
      Stuff(f + [y]) + tail;
      { StuffLast(f, y, tail); }
      Stuff(f) + (Escape(y) + tail);
    }
  }

  lemma StuffLast(f: seq<Byte>, y: Byte, tail: seq<Byte>)
    ensures Stuff(f + [y]) + tail == Stuff(f) + (Escape(y) + tail)
  {
    hide *;
    StuffConcat(f, [y]);
    StuffOne(y);
  }

  /** An exposed FF in the last place has nothing behind it. */
  lemma UndoneBut(b: seq<Byte>, p: nat)
    requires p + 1 == |b| && !Slips(b[..p], 2)
    ensures Undone(b, 2)
  {
    forall i | 0 <= i < |b| && Exposed(b, i, 2) ensures Zero(b[i + 1..]) {
      assert i < p ==> Exposed(b[..p], i, 2);
    }
  }

  /** Of a scan, stuffed and with any bytes behind it, the decoder sees exactly the encoded bits iff no
      set bit comes behind an FF among the first two bytes or an FF that follows another FF. */
  lemma BitsSeenIff(bits: seq<bool>, tail: seq<Byte>)
    ensures Streams(StreamOf(Stuff(Pack(Pad(bits))) + tail), 0, bits) <==> BitsUndone(bits)
  {
    if bits != [] {
      hide *;
      var b, p := Pack(Pad(bits)), Front(bits);
      var mem := Stuff(b) + tail;
      StreamsIff(mem, bits);
      BitsUndoneIff(bits);
      StuffSplit(b, p, tail);
      UnstuffingIff(b[..p], Escape(b[p]) + tail);
      if Slips(b[..p], 2) {
        ZeroHoldsLast(bits);
      } else if Undone(b[..p], 2) {
        UndoneBut(b, p);
        UnstuffingIff(b, tail);
        SeesAt(mem, b, p);
        PackedHolds(bits, p);
      }
    }
  }

  lemma SeesAt(mem: seq<Byte>, b: seq<Byte>, p: nat)
    requires Sees(mem, b) && p < |b|
    ensures StreamByte(mem, p) == b[p]
  {
  }

  lemma ZeroHoldsLast(bits: seq<bool>)
    requires bits != []
    ensures ByteHolds(0, bits, Front(bits)) <==> NoneSet(bits, 8 * Front(bits))
  {
    ZeroHolds(bits, Front(bits));
    hide Front, ByteHolds;
  }

  /** The scan as it lies in the file. */
  ghost function ScanBytes(t: seq<seq<Entry>>, sel: Selection, ms: seq<Mcu>): seq<Byte>
    requires sel.Usable(t) && ScanCodable(t, sel, ms, Preds(0, 0, 0))
  {
    Pack(Pad(EncodeMcus(t, sel, ms, Preds(0, 0, 0))))
  }

  /** Entropy round trip: of any MCUs encoded with prefix-free tables, and any bytes behind them, the
      decoder gives back every coefficient of every block and stops behind the last bit, provided
      byte stuffing is undone for these bytes (UnstuffingIff). */
  lemma EntropyRoundTrip(t: seq<seq<Entry>>, sel: Selection, ms: seq<Mcu>, tail: seq<Byte>)
    requires sel.Usable(t) && AllPrefixFree(t) && ScanCodable(t, sel, ms, Preds(0, 0, 0))
    requires BitsUndone(EncodeMcus(t, sel, ms, Preds(0, 0, 0)))
    ensures ReadMcus(t, sel, StreamOf(Stuff(ScanBytes(t, sel, ms)) + tail), 0, Preds(0, 0, 0), |ms|, [])
      == Good(ms, |EncodeMcus(t, sel, ms, Preds(0, 0, 0))|)
  {
    hide ReadMcus, EncodeMcus, Streams, Stuff, StreamOf, AllPrefixFree, DcTable, Short, BitsUndone;
    var bits := EncodeMcus(t, sel, ms, Preds(0, 0, 0));
    BitsSeenIff(bits, tail);
    McusRead(t, sel, StreamOf(Stuff(ScanBytes(t, sel, ms)) + tail), 0, ms, Preds(0, 0, 0), []);
    assert [] + ms == ms;
  }

  /** The same of the decoder itself: a scan built on such memory reads all the MCUs. */
  method DecodeEncoded(mem: seq<Byte>, tables: Tables, sel: Selection, cnt: nat, ghost ms: seq<Mcu>,
                       ghost tail: seq<Byte>)
    returns (ok: bool, mcus: seq<Mcu>)
    requires tables.Valid() && sel.Usable(tables.content) && AllPrefixFree(tables.content)
    requires ScanCodable(tables.content, sel, ms, Preds(0, 0, 0)) && cnt == |ms|
    requires BitsUndone(EncodeMcus(tables.content, sel, ms, Preds(0, 0, 0)))
    requires mem == Stuff(ScanBytes(tables.content, sel, ms)) + tail
    ensures ok && mcus == ms
  {
    hide *;
    var scan := new Scan(mem, tables);
    EntropyRoundTrip(tables.content, sel, ms, tail);
    ok, mcus := scan.ReadScan(sel, cnt);
  }
}
