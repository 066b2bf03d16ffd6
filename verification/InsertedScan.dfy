// A scan coded with the tables the UVC input plugin inserts, decoded by the autofocus plugin.
module InsertedScan {
  import opened Bits
  import opened CanonicalCode
  import opened HuffmanTables
  import opened Stuffing
  import opened EntropyDecoder
  import opened EntropyEncoder
  import opened StandardTables
  import ScanGrammar
  import AnnexK

  /** Entry k stands for symbol k. */
  ghost predicate Counting(t: seq<Entry>) {
    forall k :: 0 <= k < |t| ==> t[k].sym as nat == k
  }

  lemma {:induction false} IndexOfCounting(t: seq<Entry>, sym: nat, k: nat)
    requires Counting(t) && k <= |t|
    ensures IndexOf(t, sym, k) == if k <= sym < |t| then sym else |t|
    decreases |t| - k
  {
    if k < |t| && t[k].sym as nat != sym { IndexOfCounting(t, sym, k + 1); }
  }

  lemma TableCounting(d: Definition)
    requires Sound(d.counts, d.symbols) && |d.symbols| <= 12
    requires forall k :: 0 <= k < |d.symbols| ==> d.symbols[k] as nat == k
    ensures Counting(TableOf(d)) && |TableOf(d)| == |d.symbols|
  {
    SizesAscending(d.counts);
  }

  lemma DcSymbolsCount(k: nat)
    requires k < 12
    ensures DC0_SYMBOLS[k] as nat == k && DC1_SYMBOLS[k] as nat == k
  {
  }

  /** The inserted DC tables have a code for each category up to 11, but as the match of a table's last
      entry is thrown away a difference of category 11 cannot be read. */
  lemma ReadableCategories(sym: nat)
    ensures Sound(DC0_COUNTS, DC0_SYMBOLS) && Sound(DC1_COUNTS, DC1_SYMBOLS)
    ensures Codable(TableOf(DC0), sym) <==> sym <= 10
    ensures Codable(TableOf(DC1), sym) <==> sym <= 10
  {
    hide Sound, TableOf, Codable, Counting;
    DcTablesCount();
    CodableCounting(TableOf(DC0), sym);
    CodableCounting(TableOf(DC1), sym);
  }

  /** Nor does the decoder ever return it, whatever the bits are. */
  lemma LastCategoryNeverRead(t: seq<Entry>, w: seq<bool>)
    requires Counting(t) && Short(t) && |w| == 16
    ensures Search(t, 0, w).Some? ==> Search(t, 0, w).value.sym as nat < |t| - 1
  {
    SearchMeaning(t, 0, w);
  }

  lemma CodableCounting(t: seq<Entry>, sym: nat)
    requires Counting(t) && t != []
    ensures Codable(t, sym) <==> sym < |t| - 1
  {
    IndexOfCounting(t, sym, 0);
  }

  lemma DcTablesCount()
    ensures Sound(DC0_COUNTS, DC0_SYMBOLS) && Counting(TableOf(DC0)) && |TableOf(DC0)| == 12
    ensures Sound(DC1_COUNTS, DC1_SYMBOLS) && Counting(TableOf(DC1)) && |TableOf(DC1)| == 12
  {
    Dc0Sound();
    Dc1Sound();
    assert |DC0_SYMBOLS| == |DC1_SYMBOLS| == 12;
    forall k | 0 <= k < 12 ensures DC0_SYMBOLS[k] as nat == k && DC1_SYMBOLS[k] as nat == k { DcSymbolsCount(k); }
    hide *;
    TableCounting(DC0);
    TableCounting(DC1);
  }

  // ----- the AC tables

  /** A symbol can be coded iff an entry before the last one stands for it. */
  lemma {:induction false} CodableIff(t: seq<Entry>, sym: nat, k: nat)
    requires k <= |t|
    ensures IndexOf(t, sym, k) < |t| - 1 <==> exists i :: k <= i < |t| - 1 && t[i].sym as nat == sym
    decreases |t| - k
  {
    if k < |t| && t[k].sym as nat != sym { CodableIff(t, sym, k + 1); }
  }

  lemma NotInThree(a: seq<Byte>, b: seq<Byte>, c: seq<Byte>, x: Byte)
    requires x !in a && x !in b && x !in c
    ensures x !in a + b + c
  {
  }

  lemma Ac0AWithoutFA()
    ensures 0xFA !in AC0_A
  {
  }

  lemma Ac0BWithoutFA()
    ensures 0xFA !in AC0_B
  {
  }

  lemma Ac0CWithoutFA()
    ensures 0xFA !in AC0_C
  {
  }

  lemma Ac1AWithoutFA()
    ensures 0xFA !in AC1_A
  {
  }

  lemma Ac1BWithoutFA()
    ensures 0xFA !in AC1_B
  {
  }

  lemma Ac1CWithoutFA()
    ensures 0xFA !in AC1_C
  {
  }

  lemma FrontsInThree()
    ensures AC0_FRONT == AC0_A + AC0_B + AC0_C && AC1_FRONT == AC1_A + AC1_B + AC1_C
  {
  }

  lemma FrontsWithoutFA()
    ensures 0xFA !in AC0_FRONT && 0xFA !in AC1_FRONT
  {
    hide *;
    FrontsInThree();
    Ac0AWithoutFA();
    Ac0BWithoutFA();
    Ac0CWithoutFA();
    Ac1AWithoutFA();
    Ac1BWithoutFA();
    Ac1CWithoutFA();
    NotInThree(AC0_A, AC0_B, AC0_C, 0xFA);
    NotInThree(AC1_A, AC1_B, AC1_C, 0xFA);
  }

  lemma TableSymbols(d: Definition)
    requires Sound(d.counts, d.symbols)
    ensures var t := TableOf(d); |t| == |d.symbols| && forall k :: 0 <= k < |t| ==> t[k].sym == d.symbols[k]
  {
    SizesAscending(d.counts);
  }

  /** Of a table whose symbols are these and one more, exactly these can be coded, and nothing else is
      ever read from it. */
  lemma FrontReadable(d: Definition, front: seq<Byte>, last: Byte, sym: Byte, w: seq<bool>)
    requires Sound(d.counts, d.symbols) && d.symbols == front + [last] && |w| == 16
    ensures Codable(TableOf(d), sym as nat) <==> sym in front
    ensures Short(TableOf(d))
    ensures Search(TableOf(d), 0, w).Some? ==> Search(TableOf(d), 0, w).value.sym in front
  {
    var t := TableOf(d);
    TableSymbols(d);
    SoundTabled(d);
    CodableIff(t, sym as nat, 0);
    SearchMeaning(t, 0, w);
    hide *;
    forall k | 0 <= k < |t| - 1 ensures t[k].sym == front[k] { assert d.symbols[k] == front[k]; }
  }

  lemma AcSound()
    ensures Sound(AC0.counts, AC0.symbols) && AC0.symbols == AC0_FRONT + [0xFA]
    ensures Sound(AC1.counts, AC1.symbols) && AC1.symbols == AC1_FRONT + [0xFA]
  {
    Ac0Sound();
    Ac1Sound();
  }

  /** The inserted AC tables have a code for the symbol FA too, a value of category 10 behind 15 zeros,
      but it is their last one: it alone cannot be read. */
  lemma ReadableRunSizes(sym: Byte, w: seq<bool>)
    requires |w| == 16
    ensures Sound(AC0.counts, AC0.symbols) && Sound(AC1.counts, AC1.symbols)
    ensures Codable(TableOf(AC0), sym as nat) <==> sym in AC0.symbols && sym != 0xFA
    ensures Codable(TableOf(AC1), sym as nat) <==> sym in AC1.symbols && sym != 0xFA
    ensures Short(TableOf(AC0)) && Short(TableOf(AC1))
    ensures Search(TableOf(AC0), 0, w).Some? ==> Search(TableOf(AC0), 0, w).value.sym != 0xFA
    ensures Search(TableOf(AC1), 0, w).Some? ==> Search(TableOf(AC1), 0, w).value.sym != 0xFA
  {
    hide *;
    AcSound();
    FrontsWithoutFA();
    FrontReadable(AC0, AC0_FRONT, 0xFA, sym, w);
    FrontReadable(AC1, AC1_FRONT, 0xFA, sym, w);
  }

  lemma CountingIsDc(t: seq<Entry>)
    requires Counting(t) && |t| <= 17 && Short(t)
    ensures DcTable(t)
  {
  }

  /** With the tables read from the inserted segment the decoder gives back every scan coded with them,
      whatever tables it held before. */
  lemma InsertedTablesDecode(tables: seq<seq<Entry>>, ms: seq<Mcu>, tail: seq<Byte>)
    requires |tables| == TABLES
    ensures SegmentAt(SegmentBody(), 0)
    ensures var t, sel := SegmentTables(tables, SegmentBody(), 0), Selection(0, 1);
      && sel.Usable(t)
      && (ScanCodable(t, sel, ms, Preds(0, 0, 0)) && BitsUndone(EncodeMcus(t, sel, ms, Preds(0, 0, 0))) ==>
          ReadMcus(t, sel, StreamOf(Stuff(ScanBytes(t, sel, ms)) + tail), 0, Preds(0, 0, 0), |ms|, [])
            == Good(ms, |EncodeMcus(t, sel, ms, Preds(0, 0, 0))|))
  {
    hide *;
    InsertedTablesParse(tables);
    var t, sel := SegmentTables(tables, SegmentBody(), 0), Selection(0, 1);
    TabledUsable(t);
    if ScanCodable(t, sel, ms, Preds(0, 0, 0)) && BitsUndone(EncodeMcus(t, sel, ms, Preds(0, 0, 0))) {
      EntropyRoundTrip(t, sel, ms, tail);
    }
  }

  /** Where a scan begins with nine bits 111111110, the code word of category 11, it cannot be decoded
      with these tables. */
  lemma CategoryElevenFails(tables: seq<seq<Entry>>, s: Stream, p: nat, preds: Preds, n: nat)
    requires |tables| == TABLES && n > 0 && Window(s, p, 9) == Low(0x1FE, 9)
    ensures SegmentAt(SegmentBody(), 0)
    ensures var t, sel := SegmentTables(tables, SegmentBody(), 0), Selection(0, 1);
      sel.Usable(t) && ReadMcus(t, sel, s, p, preds, n, []) == Bad
  {
    assert TABLES == 4;
    hide *;
    InsertedTablesParse(tables);
    var t, sel := SegmentTables(tables, SegmentBody(), 0), Selection(0, 1);
    TabledUsable(t);
    LastOfDc0(t[0], s, p);
    assert ScanGrammar.GoodTables(t, sel) by { GoodIf(t, sel); }
    ScanGrammar.LastCodeFails(t, sel, s, p, preds, n);
  }

  lemma GoodIf(t: seq<seq<Entry>>, sel: Selection)
    requires sel.Usable(t) && AllPrefixFree(t)
    ensures ScanGrammar.GoodTables(t, sel)
  {
  }

  lemma LastOfDc0(t: seq<Entry>, s: Stream, p: nat)
    requires Tabled(t, DC0) && Window(s, p, 9) == Low(0x1FE, 9)
    ensures |t| == 12 && t[11].len <= 16 && Matches(t[11], Window(s, p, 16))
  {
    AnnexK.Dc0Words(11);
    assert AnnexK.K3[11] == AnnexK.CodeWord(9, 0x1FE);
    hide *;
    WindowSplit(s, p, 9, 7);
    assert t[11] == Entry(9, 0x1FE, 11) by { TableIs(t, DC0); }
    MatchesWord(t[11], Window(s, p, 9), Window(s, p + 9, 7));
  }

  lemma TableIs(t: seq<Entry>, d: Definition)
    requires Tabled(t, d)
    ensures Sound(d.counts, d.symbols) && t == TableOf(d)
  {
  }

  lemma MatchesWord(e: Entry, front: seq<bool>, rest: seq<bool>)
    requires |front| == e.len && front == Low(e.code, e.len)
    ensures Matches(e, front + rest)
  {
  }

  lemma TabledUsable(t: seq<seq<Entry>>)
    requires |t| == TABLES && Tabled(t[0], DC0) && Tabled(t[1], AC0) && Tabled(t[2], DC1) && Tabled(t[3], AC1)
    ensures Selection(0, 1).Usable(t) && AllPrefixFree(t)
  {
    hide Sound, TableOf, Counting, PrefixFree, DcTable, Short;
    DcTablesCount();
    CountingIsDc(t[0]);
    CountingIsDc(t[2]);
  }
}
