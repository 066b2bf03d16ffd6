// What is an entropy-coded scan, written as a grammar of code words and extra bits, without reference
// to the way it is decoded: the decoder accepts exactly these scans, and returns what they stand for.
module ScanGrammar {
  import opened Bits
  import opened CanonicalCode
  import opened HuffmanTables
  import opened Stuffing
  import opened EntropyDecoder
  import opened EntropyEncoder

  // ----- code words with their extra bits

  /** The code word of entry k, and the value its extra bits stand for. */
  datatype Item = Item(k: nat, v: int)

  /** The last entry of a table is not in use. */
  predicate InUse(t: seq<Entry>, i: Item) {
    i.k + 1 < |t|
  }

  /** The extra bits of a value, section F.1.2.1 of ITU-T T.81. */
  function ExtraBits(v: int): (b: seq<bool>)
    ensures |b| == Category(v)
  {
    ExtendOfExtra(v);
    Low(Extra(v), Category(v))
  }

  function ItemBits(t: seq<Entry>, i: Item): seq<bool>
    requires InUse(t, i)
  {
    CodeBits(t[i.k]) + ExtraBits(i.v)
  }

  predicate AllInUse(t: seq<Entry>, items: seq<Item>) {
    forall n :: 0 <= n < |items| ==> InUse(t, items[n])
  }

  function ItemsBits(t: seq<Entry>, items: seq<Item>): seq<bool>
    requires AllInUse(t, items)
  {
    if items == [] then [] else ItemBits(t, items[0]) + ItemsBits(t, items[1..])
  }

  // ----- the grammar

  predicate ZeroFrom(c: seq<int>, k: nat, n: nat)
    requires k <= n <= |c|
  {
    forall i :: k <= i < n ==> c[i] == 0
  }

  /** The items stand for the coefficients from k on. A symbol is a run r and a size z: r zeros and a
      value of category z, or for z == 0 sixteen zeros if r is 15, and otherwise only zeros up to the
      end. No run goes beyond coefficient 63, and nothing follows the last coefficient. */
  predicate AcItems(ac: seq<Entry>, items: seq<Item>, c: seq<int>, k: nat)
    requires |c| == 64 && k <= 64
    decreases |items|
  {
    if items == [] then k == 64
    else
      && k < 64 && InUse(ac, items[0])
      && var r, z, v := ac[items[0].k].sym as nat / 16, ac[items[0].k].sym as nat % 16, items[0].v;
        && Category(v) == z
        && if z > 0 then
             k + r < 64 && ZeroFrom(c, k, k + r) && c[k + r] == v && AcItems(ac, items[1..], c, k + r + 1)
           else if r == 15 then
             k + 16 <= 64 && ZeroFrom(c, k, k + 16) && AcItems(ac, items[1..], c, k + 16)
           else
             ZeroFrom(c, k, 64) && |items| == 1
  }

  /** The items of a block. */
  datatype Block = Block(diff: Item, acs: seq<Item>)

  predicate Stands(dc: seq<Entry>, ac: seq<Entry>, b: Block, c: seq<int>, pred: int) {
    && |c| == 64 && InUse(dc, b.diff)
    && b.diff.v == c[0] - pred && Category(b.diff.v) == dc[b.diff.k].sym as nat
    && AcItems(ac, b.acs, c, 1)
  }

  function BlockBits(dc: seq<Entry>, ac: seq<Entry>, b: Block): seq<bool>
    requires InUse(dc, b.diff) && AllInUse(ac, b.acs)
  {
    ItemBits(dc, b.diff) + ItemsBits(ac, b.acs)
  }

  /** The bits are a block with these coefficients. */
  ghost predicate CodedBlock(dc: seq<Entry>, ac: seq<Entry>, bits: seq<bool>, c: seq<int>, pred: int) {
    exists b :: Stands(dc, ac, b, c, pred) && AllInUse(ac, b.acs) && bits == BlockBits(dc, ac, b)
  }

  /** Where each of the blocks of an MCU ends. */
  datatype Cuts = Cuts(p1: nat, p2: nat, p3: nat)

  ghost predicate CodedMcuAt(t: seq<seq<Entry>>, sel: Selection, bits: seq<bool>, m: Mcu, preds: Preds, at: Cuts)
    requires sel.Usable(t)
  {
    && at.p1 <= at.p2 <= at.p3 <= |bits|
    && CodedBlock(t[sel.dcY], t[sel.acY], bits[..at.p1], m.y0, preds.y)
    && |m.y0| == 64 && CodedBlock(t[sel.dcY], t[sel.acY], bits[at.p1..at.p2], m.y1, m.y0[0])
    && CodedBlock(t[2], t[3], bits[at.p2..at.p3], m.cr, preds.cr)
    && CodedBlock(t[2], t[3], bits[at.p3..], m.cb, preds.cb)
  }

  /** Two luminance blocks, the second one predicted from the first, and one block for each colour. */
  ghost predicate CodedMcu(t: seq<seq<Entry>>, sel: Selection, bits: seq<bool>, m: Mcu, preds: Preds)
    requires sel.Usable(t)
  {
    exists at :: CodedMcuAt(t, sel, bits, m, preds, at)
  }

  /** The bits are a scan of these MCUs, each predicted from the one before. */
  ghost predicate Coded(t: seq<seq<Entry>>, sel: Selection, bits: seq<bool>, ms: seq<Mcu>, preds: Preds)
    requires sel.Usable(t)
    decreases |ms|
  {
    if ms == [] then bits == []
    else exists n: nat :: CodedFirst(t, sel, bits, ms, preds, n) && Coded(t, sel, bits[n..], ms[1..], After(ms[0]))
  }

  ghost predicate CodedFirst(t: seq<seq<Entry>>, sel: Selection, bits: seq<bool>, ms: seq<Mcu>, preds: Preds, n: nat)
    requires sel.Usable(t) && ms != []
  {
    && n <= |bits| && CodedMcu(t, sel, bits[..n], ms[0], preds)
    && |ms[0].y1| == |ms[0].cr| == |ms[0].cb| == 64
  }

  // ----- what is decoded is coded

  /** A symbol that the search returns, with the z bits behind it, is an item. */
  lemma ItemFound(t: seq<Entry>, s: Stream, p: nat, e: Entry, z: nat) returns (i: Item)
    requires Short(t) && Search(t, 0, Window(s, p, 16)) == Some(e)
    ensures
      && InUse(t, i) && t[i.k] == e && Category(i.v) == z
      && i.v == Extend(Value(Window(s, p + e.len, z)), z)
      && ItemBits(t, i) == Window(s, p, e.len + z)
  {
    SearchMeaning(t, 0, Window(s, p, 16));
    var k :| 0 <= k < |t| - 1 && t[k] == e && Matches(t[k], Window(s, p, 16));
    var x := Window(s, p + e.len, z);
    ValueBound(x);
    ExtraOfExtend(Value(x), z);
    LowOfValue(x);
    i := Item(k, Extend(Value(x), z));
    WindowSplit(s, p, e.len, 16 - e.len);
    WindowSplit(s, p, e.len, z);
  }

  /** The items behind the first one. */
  lemma MoreItems(t: seq<Entry>, i: Item, items: seq<Item>, s: Stream, p: nat, n: nat, m: nat)
    requires InUse(t, i) && AllInUse(t, items)
    requires ItemBits(t, i) == Window(s, p, n) && ItemsBits(t, items) == Window(s, p + n, m)
    ensures AllInUse(t, [i] + items) && ItemsBits(t, [i] + items) == Window(s, p, n + m)
  {
    assert ([i] + items)[1..] == items;
    WindowSplit(s, p, n, m);
  }

  /** What an item does to coefficients that are known below k; the next one is j + 1. */
  predicate Does(ac: seq<Entry>, i: Item, k: nat, d: seq<int>, j: nat, d': seq<int>, eob: bool) {
    && |d| == 64 && 1 <= k < 64 && InUse(ac, i)
    && var r, z := ac[i.k].sym as nat / 16, ac[i.k].sym as nat % 16;
      && Category(i.v) == z
      && if z > 0 then !eob && k + r < 64 && j == k + r && d' == d[k + r := i.v]
         else if r == 15 then !eob && j == k + 15 < 64 && d' == d
         else eob && j == k - 1 && d' == d
  }

  /** One symbol of the AC loop, from coefficient k on. */
  lemma StepCoded(ac: seq<Entry>, s: Stream, p: nat, k: nat, d: seq<int>, j: nat, d': seq<int>, q: nat, eob: bool)
    returns (i: Item)
    requires Short(ac) && |d| == 64 && 1 <= k < 64 && StepAc(ac, s, p, k - 1, d) == Next(j, d', q, eob)
    ensures Does(ac, i, k, d, j, d', eob) && p <= q && ItemBits(ac, i) == Window(s, p, q - p)
  {
    var e := Search(ac, 0, Window(s, p, 16)).value;
    i := ItemFound(ac, s, p, e, e.sym as nat % 16);
  }

  lemma StepKnown(ac: seq<Entry>, i: Item, k: nat, d: seq<int>, j: nat, d': seq<int>)
    requires Does(ac, i, k, d, j, d', false) && d == Partial(d, k)
    ensures k < j + 1 <= 64 && |d'| == 64 && d' == Partial(d', j + 1)
  {
    hide Category;
  }

  lemma KnownBefore(k: nat, d: seq<int>, j: nat, v: int, c: seq<int>)
    requires |d| == |c| == 64 && k <= j < 64 && d == Partial(d, k) && d[j := v] == Partial(c, j + 1)
    ensures d == Partial(c, k) && ZeroFrom(c, k, j) && c[j] == v
  {
    forall n | 0 <= n <= j ensures c[n] == d[j := v][n] { assert Partial(c, j + 1)[n] == c[n]; }
    forall n | k <= n < 64 ensures d[n] == 0 { assert Partial(d, k)[n] == 0; }
  }

  /** An item in front of others. */
  lemma ItemBefore(ac: seq<Entry>, i: Item, rest: seq<Item>, k: nat, d: seq<int>, j: nat, d': seq<int>, c: seq<int>)
    requires Does(ac, i, k, d, j, d', false) && d == Partial(d, k)
    requires |c| == 64 && j < 64 && d' == Partial(c, j + 1) && AcItems(ac, rest, c, j + 1)
    ensures AcItems(ac, [i] + rest, c, k) && d == Partial(c, k)
  {
    hide Category, Partial;
    assert d' == d[j := d'[j]];
    KnownBefore(k, d, j, d'[j], c);
    ZeroBehind(d, k);
    assert ([i] + rest)[1..] == rest;
  }

  lemma ZeroBehind(d: seq<int>, k: nat)
    requires |d| == 64 && k <= 64 && d == Partial(d, k)
    ensures ZeroFrom(d, k, 64)
  {
    forall n | k <= n < 64 ensures d[n] == 0 { assert Partial(d, k)[n] == 0; }
  }

  lemma ItemLast(ac: seq<Entry>, i: Item, k: nat, d: seq<int>, j: nat, d': seq<int>)
    requires Does(ac, i, k, d, j, d', true) && d == Partial(d, k)
    ensures d' == d && AcItems(ac, [i], d, k) && ItemsBits(ac, [i]) == ItemBits(ac, i)
  {
    hide Category;
    assert [i][1..] == [];
    assert ItemBits(ac, i) + [] == ItemBits(ac, i);
    ZeroBehind(d, k);
  }

  /** What the AC loop accepts are items of the grammar, for the coefficients it returns. */
  lemma {:induction false} AcCoded(ac: seq<Entry>, s: Stream, p: nat, k: nat, d: seq<int>, c: seq<int>, q: nat)
    returns (items: seq<Item>)
    requires Short(ac) && |d| == 64 && 1 <= k <= 64 && d == Partial(d, k)
    requires ReadAc(ac, s, p, k - 1, d) == Good(c, q)
    ensures p <= q && AllInUse(ac, items) && ItemsBits(ac, items) == Window(s, p, q - p)
    ensures |c| == 64 && d == Partial(c, k) && AcItems(ac, items, c, k)
    decreases 64 - k
  {
    hide StepAc, Does, ItemBits, Partial, Window, Short, Search;
    items := [];
    if k < 64 {
      AcBehindStep(ac, s, p, k - 1, d);
      hide ReadAc;
      var step := StepAc(ac, s, p, k - 1, d);
      var i := StepCoded(ac, s, p, k, d, step.j, step.c, step.p, step.eob);
      if step.eob {
        ItemLast(ac, i, k, d, step.j, step.c);
        items := [i];
      } else {
        StepKnown(ac, i, k, d, step.j, step.c);
        items := AcCoded(ac, s, step.p, step.j + 1, step.c, c, q);
        ItemBefore(ac, i, items, k, d, step.j, step.c, c);
        MoreItems(ac, i, items, s, p, step.p - p, q - step.p);
        items := [i] + items;
      }
    }
  }

  // ----- and what is coded is decoded

  lemma WindowOfBoth(s: Stream, p: nat, a: seq<bool>, b: seq<bool>)
    requires Window(s, p, |a + b|) == a + b
    ensures Window(s, p, |a|) == a && Window(s, p + |a|, |b|) == b
  {
    WindowSplit(s, p, |a|, |b|);
    assert Window(s, p, |a|) == (a + b)[..|a|] && Window(s, p + |a|, |b|) == (a + b)[|a|..];
  }

  lemma ItemRead(t: CodeTable, i: Item, s: Stream, p: nat)
    requires InUse(t, i) && Window(s, p, |ItemBits(t, i)|) == ItemBits(t, i)
    ensures var e, z := t[i.k], Category(i.v);
      && Search(t, 0, Window(s, p, 16)) == Some(e) && |ItemBits(t, i)| == e.len + z
      && Extend(Value(Window(s, p + e.len, z)), z) == i.v
  {
    var e, z := t[i.k], Category(i.v);
    hide PrefixFree;
    ExtendOfExtra(i.v);
    ValueOfLow(Extra(i.v), z);
    WindowOfBoth(s, p, CodeBits(e), ExtraBits(i.v));
    WindowSplit(s, p, e.len, 16 - e.len);
    SearchIff(t, Window(s, p, 16), i.k);
  }

  lemma DoesStep(ac: CodeTable, i: Item, k: nat, d: seq<int>, j: nat, d': seq<int>, eob: bool, s: Stream, p: nat)
    requires Does(ac, i, k, d, j, d', eob) && Window(s, p, |ItemBits(ac, i)|) == ItemBits(ac, i)
    ensures StepAc(ac, s, p, k - 1, d) == Next(j, d', p + |ItemBits(ac, i)|, eob)
  {
    ItemRead(ac, i, s, p);
    hide Search, Window, Extend, Value, Category, ItemBits, PrefixFree;
  }

  /** The first item as a step of the AC loop. */
  lemma FirstDoes(ac: seq<Entry>, items: seq<Item>, c: seq<int>, k: nat) returns (j: nat, eob: bool)
    requires |c| == 64 && 1 <= k < 64 && AcItems(ac, items, c, k)
    ensures items != [] && j < 64 && Does(ac, items[0], k, Partial(c, k), j, if eob then c else Partial(c, j + 1), eob)
    ensures if eob then |items| == 1 else k <= j && AcItems(ac, items[1..], c, j + 1)
  {
    hide Category;
    var r, z := ac[items[0].k].sym as nat / 16, ac[items[0].k].sym as nat % 16;
    j, eob := if z > 0 then k + r else if r == 15 then k + 15 else k - 1, z == 0 && r < 15;
    if z > 0 {
      assert Partial(c, k)[k + r := c[k + r]] == Partial(c, j + 1);
    } else if r == 15 {
      assert Partial(c, k) == Partial(c, j + 1);
    } else {
      assert Partial(c, k) == c;
    }
  }

  lemma NoItems(ac: CodeTable, items: seq<Item>, c: seq<int>, s: Stream, p: nat)
    requires |c| == 64 && AcItems(ac, items, c, 64) && AllInUse(ac, items)
    ensures ReadAc(ac, s, p, 63, Partial(c, 64)) == Good(c, p + |ItemsBits(ac, items)|)
  {
    assert Partial(c, 64) == c;
  }

  lemma RestInUse(ac: seq<Entry>, items: seq<Item>)
    requires AllInUse(ac, items) && items != []
    ensures InUse(ac, items[0]) && AllInUse(ac, items[1..])
    ensures ItemsBits(ac, items) == ItemBits(ac, items[0]) + ItemsBits(ac, items[1..])
    ensures |items| == 1 ==> ItemsBits(ac, items) == ItemBits(ac, items[0])
  {
    hide ItemBits;
  }

  lemma {:induction false} AcItemsRead(ac: CodeTable, items: seq<Item>, c: seq<int>, k: nat, s: Stream, p: nat)
    requires |c| == 64 && 1 <= k <= 64 && AcItems(ac, items, c, k) && AllInUse(ac, items)
    requires Window(s, p, |ItemsBits(ac, items)|) == ItemsBits(ac, items)
    ensures ReadAc(ac, s, p, k - 1, Partial(c, k)) == Good(c, p + |ItemsBits(ac, items)|)
    decreases |items|
  {
    hide *;
    if k == 64 {
      NoItems(ac, items, c, s, p);
    } else {
      var j, eob := FirstDoes(ac, items, c, k);
      RestInUse(ac, items);
      var i, rest := items[0], items[1..];
      WindowOfBoth(s, p, ItemBits(ac, i), ItemsBits(ac, rest));
      DoesStep(ac, i, k, Partial(c, k), j, if eob then c else Partial(c, j + 1), eob, s, p);
      AcBehindStep(ac, s, p, k - 1, Partial(c, k));
      if !eob { AcItemsRead(ac, rest, c, j + 1, s, p + |ItemBits(ac, i)|); }
    }
  }

  // ----- blocks

  /** readTable accepts exactly the blocks of the grammar. */
  lemma BlockDecodedIsCoded(dc: seq<Entry>, ac: seq<Entry>, s: Stream, p: nat, pred: int, c: seq<int>, q: nat)
    requires Short(dc) && Short(ac) && ReadBlock(dc, ac, s, p, pred) == Good(c, q)
    ensures p <= q && CodedBlock(dc, ac, Window(s, p, q - p), c, pred)
  {
    hide ReadAc, Search, Window, Short, AcItems, ItemBits, ItemsBits, Extend, Value, Category;
    var e := Search(dc, 0, Window(s, p, 16)).value;
    var i := ItemFound(dc, s, p, e, e.sym as nat);
    var mid := p + e.len + e.sym as nat;
    var d := Zeroes(pred + i.v);
    assert d == Partial(d, 1);
    var items := AcCoded(ac, s, mid, 1, d, c, q);
    assert c[0] == Partial(c, 1)[0];
    WindowSplit(s, p, mid - p, q - mid);
    var b := Block(i, items);
    assert Stands(dc, ac, b, c, pred) && Window(s, p, q - p) == BlockBits(dc, ac, b);
  }

  lemma BlockCodedIsDecoded(dc: CodeTable, ac: CodeTable, s: Stream, p: nat, pred: int, c: seq<int>, q: nat)
    requires p <= q && CodedBlock(dc, ac, Window(s, p, q - p), c, pred)
    ensures ReadBlock(dc, ac, s, p, pred) == Good(c, q)
  {
    hide ReadAc, Search, Window, PrefixFree, AcItems, ItemBits, ItemsBits, Extend, Value, Category;
    var b :| Stands(dc, ac, b, c, pred) && AllInUse(ac, b.acs) && Window(s, p, q - p) == BlockBits(dc, ac, b);
    var mid := p + |ItemBits(dc, b.diff)|;
    WindowOfBoth(s, p, ItemBits(dc, b.diff), ItemsBits(ac, b.acs));
    ItemRead(dc, b.diff, s, p);
    AcItemsRead(ac, b.acs, c, 1, s, mid);
    assert Partial(c, 1) == Zeroes(c[0]);
    BlockBehindDiff(dc, ac, s, p, pred, b.diff.v, mid, Partial(c, 1));
  }

  lemma BlockIff(dc: CodeTable, ac: CodeTable, s: Stream, p: nat, pred: int, c: seq<int>, q: nat)
    ensures ReadBlock(dc, ac, s, p, pred) == Good(c, q)
      <==> p <= q && CodedBlock(dc, ac, Window(s, p, q - p), c, pred)
  {
    hide *;
    if ReadBlock(dc, ac, s, p, pred) == Good(c, q) { BlockDecodedIsCoded(dc, ac, s, p, pred, c, q); }
    if p <= q && CodedBlock(dc, ac, Window(s, p, q - p), c, pred) { BlockCodedIsDecoded(dc, ac, s, p, pred, c, q); }
  }

  // ----- MCUs and scans

  lemma WindowPart(s: Stream, p: nat, n: nat, a: nat, b: nat)
    requires a <= b <= n
    ensures Window(s, p, n)[a..b] == Window(s, p + a, b - a) && Window(s, p, n)[b..] == Window(s, p + b, n - b)
  {
  }

  ghost predicate GoodTables(t: seq<seq<Entry>>, sel: Selection) {
    sel.Usable(t) && AllPrefixFree(t)
  }

  lemma McuDecodedIsCoded(t: seq<seq<Entry>>, sel: Selection, s: Stream, p: nat, preds: Preds, m: Mcu, q: nat)
    requires GoodTables(t, sel) && ReadMcu(t, sel, s, p, preds) == Good(m, q)
    ensures p <= q && CodedMcu(t, sel, Window(s, p, q - p), m, preds)
  {
    hide ReadBlock, Window, PrefixFree, DcTable, CodedBlock;
    var p1 := ReadBlock(t[sel.dcY], t[sel.acY], s, p, preds.y).next;
    var p2 := ReadBlock(t[sel.dcY], t[sel.acY], s, p1, m.y0[0]).next;
    var p3 := ReadBlock(t[2], t[3], s, p2, preds.cr).next;
    BlockIff(t[sel.dcY], t[sel.acY], s, p, preds.y, m.y0, p1);
    BlockIff(t[sel.dcY], t[sel.acY], s, p1, m.y0[0], m.y1, p2);
    BlockIff(t[2], t[3], s, p2, preds.cr, m.cr, p3);
    BlockIff(t[2], t[3], s, p3, preds.cb, m.cb, q);
    var at := Cuts(p1 - p, p2 - p, p3 - p);
    WindowPart(s, p, q - p, 0, at.p1);
    WindowPart(s, p, q - p, at.p1, at.p2);
    WindowPart(s, p, q - p, at.p2, at.p3);
    assert CodedMcuAt(t, sel, Window(s, p, q - p), m, preds, at);
  }

  lemma McuCodedIsDecoded(t: seq<seq<Entry>>, sel: Selection, s: Stream, p: nat, preds: Preds, m: Mcu, q: nat)
    requires GoodTables(t, sel) && p <= q && CodedMcu(t, sel, Window(s, p, q - p), m, preds)
    ensures ReadMcu(t, sel, s, p, preds) == Good(m, q)
  {
    hide ReadBlock, Window, PrefixFree, DcTable, CodedBlock;
    var at :| CodedMcuAt(t, sel, Window(s, p, q - p), m, preds, at);
    WindowPart(s, p, q - p, 0, at.p1);
    WindowPart(s, p, q - p, at.p1, at.p2);
    WindowPart(s, p, q - p, at.p2, at.p3);
    BlockIff(t[sel.dcY], t[sel.acY], s, p, preds.y, m.y0, p + at.p1);
    BlockIff(t[sel.dcY], t[sel.acY], s, p + at.p1, m.y0[0], m.y1, p + at.p2);
    BlockIff(t[2], t[3], s, p + at.p2, preds.cr, m.cr, p + at.p3);
    BlockIff(t[2], t[3], s, p + at.p3, preds.cb, m.cb, q);
  }

  lemma {:induction false} McusDecodedIsCoded(t: seq<seq<Entry>>, sel: Selection, s: Stream, p: nat, preds: Preds,
                                              n: nat, done: seq<Mcu>, all: seq<Mcu>, q: nat)
    requires GoodTables(t, sel) && ReadMcus(t, sel, s, p, preds, n, done) == Good(all, q)
    ensures p <= q && |all| == |done| + n && done == all[..|done|]
    ensures Coded(t, sel, Window(s, p, q - p), all[|done|..], preds)
    decreases n
  {
    hide ReadMcu, Window, CodedMcu, AllPrefixFree, DcTable, Short;
    if n > 0 {
      var o := ReadMcu(t, sel, s, p, preds);
      var m, mid, d := o.value, o.next, |done|;
      McuDecodedIsCoded(t, sel, s, p, preds, m, mid);
      McusDecodedIsCoded(t, sel, s, mid, After(m), n - 1, done + [m], all, q);
      WindowPart(s, p, q - p, 0, mid - p);
      var ms := all[d..];
      assert ms[0] == m && ms[1..] == all[d + 1..];
      assert CodedFirst(t, sel, Window(s, p, q - p), ms, preds, mid - p);
    }
  }

  lemma {:induction false} McusCodedIsDecoded(t: seq<seq<Entry>>, sel: Selection, s: Stream, p: nat, preds: Preds,
                                              ms: seq<Mcu>, done: seq<Mcu>, q: nat)
    requires GoodTables(t, sel) && p <= q && Coded(t, sel, Window(s, p, q - p), ms, preds)
    ensures ReadMcus(t, sel, s, p, preds, |ms|, done) == Good(done + ms, q)
    decreases |ms|
  {
    hide ReadMcu, Window, CodedMcu, AllPrefixFree, DcTable, Short;
    if ms == [] {
      assert done + ms == done;
    } else {
      var bits := Window(s, p, q - p);
      var n: nat :| CodedFirst(t, sel, bits, ms, preds, n) && Coded(t, sel, bits[n..], ms[1..], After(ms[0]));
      WindowPart(s, p, q - p, 0, n);
      McuCodedIsDecoded(t, sel, s, p, preds, ms[0], p + n);
      McusCodedIsDecoded(t, sel, s, p + n, After(ms[0]), ms[1..], done + [ms[0]], q);
      assert done + [ms[0]] + ms[1..] == done + ms;
    }
  }

  /** From bit p up to bit q the stream is a scan that stands for these n MCUs. */
  ghost predicate CodedTo(t: seq<seq<Entry>>, sel: Selection, s: Stream, p: nat, preds: Preds, n: nat,
                          ms: seq<Mcu>, q: nat)
    requires sel.Usable(t)
  {
    |ms| == n && p <= q && Coded(t, sel, Window(s, p, q - p), ms, preds)
  }

  /** The decoder returns these MCUs and stops at bit q if and only if the bits up to there are a scan
      that stands for them. */
  lemma DecodesIff(t: seq<seq<Entry>>, sel: Selection, s: Stream, p: nat, preds: Preds, n: nat, ms: seq<Mcu>, q: nat)
    requires GoodTables(t, sel)
    ensures ReadMcus(t, sel, s, p, preds, n, []) == Good(ms, q) <==> CodedTo(t, sel, s, p, preds, n, ms, q)
  {
    hide ReadMcus, Coded, Window, AllPrefixFree;
    if ReadMcus(t, sel, s, p, preds, n, []) == Good(ms, q) {
      McusDecodedIsCoded(t, sel, s, p, preds, n, [], ms, q);
      assert ms[0..] == ms;
    }
    if CodedTo(t, sel, s, p, preds, n, ms, q) {
      McusCodedIsDecoded(t, sel, s, p, preds, ms, [], q);
      assert [] + ms == ms;
    }
  }

  /** So it fails if and only if no scan of n MCUs lies there. */
  lemma FailsIff(t: seq<seq<Entry>>, sel: Selection, s: Stream, p: nat, preds: Preds, n: nat)
    requires GoodTables(t, sel)
    ensures ReadMcus(t, sel, s, p, preds, n, []).Bad?
      <==> forall ms: seq<Mcu>, q: nat :: !CodedTo(t, sel, s, p, preds, n, ms, q)
  {
    hide ReadMcus, CodedTo, AllPrefixFree;
    var o := ReadMcus(t, sel, s, p, preds, n, []);
    if o.Good? { DecodesIff(t, sel, s, p, preds, n, o.value, o.next); }
    forall ms: seq<Mcu>, q: nat | CodedTo(t, sel, s, p, preds, n, ms, q) ensures o.Good? {
      DecodesIff(t, sel, s, p, preds, n, ms, q);
    }
  }

  /** In particular where none of the codes in use comes first. */
  lemma UnmatchedFails(t: seq<seq<Entry>>, sel: Selection, s: Stream, p: nat, preds: Preds, n: nat)
    requires sel.Usable(t) && n > 0
    requires forall k :: 0 <= k < |t[sel.dcY]| - 1 ==> !Matches(t[sel.dcY][k], Window(s, p, 16))
    ensures ReadMcus(t, sel, s, p, preds, n, []) == Bad
  {
    SearchMeaning(t[sel.dcY], 0, Window(s, p, 16));
  }

  /** Which is so behind the code word of the last entry. */
  lemma LastCodeFails(t: seq<seq<Entry>>, sel: Selection, s: Stream, p: nat, preds: Preds, n: nat)
    requires GoodTables(t, sel) && n > 0 && t[sel.dcY] != []
    requires Matches(t[sel.dcY][|t[sel.dcY]| - 1], Window(s, p, 16))
    ensures ReadMcus(t, sel, s, p, preds, n, []) == Bad
  {
    var dc, w := t[sel.dcY], Window(s, p, 16);
    assert Short(dc) && PrefixFree(dc);
    forall k | 0 <= k < |dc| - 1 ensures !Matches(dc[k], w) { assert !BothMatch(dc, w, k, |dc| - 1); }
    hide Matches, PrefixFree, Window;
    UnmatchedFails(t, sel, s, p, preds, n);
  }

  /** The decoder itself, on any memory: it succeeds if and only if the stream starts with a scan of that
      many MCUs, and then these are what it returns. */
  method Decode(mem: seq<Byte>, tables: Tables, sel: Selection, cnt: nat) returns (ok: bool, mcus: seq<Mcu>)
    requires tables.Valid() && GoodTables(tables.content, sel)
    ensures ok ==> exists q: nat :: CodedTo(tables.content, sel, StreamOf(mem), 0, Preds(0, 0, 0), cnt, mcus, q)
    ensures !ok ==> forall ms: seq<Mcu>, q: nat ::
      !CodedTo(tables.content, sel, StreamOf(mem), 0, Preds(0, 0, 0), cnt, ms, q)
  {
    hide *;
    ghost var t := tables.content;
    assert sel.Usable(t) by { UsableTables(t, sel); }
    var scan := new Scan(mem, tables);
    ghost var o := ReadMcus(t, sel, StreamOf(mem), 0, Preds(0, 0, 0), cnt, []);
    ok, mcus := scan.ReadScan(sel, cnt);
    if ok {
      DecodesIff(t, sel, StreamOf(mem), 0, Preds(0, 0, 0), cnt, o.value, o.next);
    } else {
      FailsIff(t, sel, StreamOf(mem), 0, Preds(0, 0, 0), cnt);
    }
  }

  lemma UsableTables(t: seq<seq<Entry>>, sel: Selection)
    requires GoodTables(t, sel)
    ensures sel.Usable(t)
  {
  }
}
