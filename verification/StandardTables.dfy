// The Huffman table segment the UVC input plugin inserts (huffman.h), read by the parser of the
// autofocus plugin.
module StandardTables {
  import opened Bits
  import opened CanonicalCode
  import opened HuffmanTables

  const DC0_COUNTS: seq<Byte> := [0, 1, 5, 1, 1, 1, 1, 1, 1, 0, 0, 0, 0, 0, 0, 0]

  const DC0_SYMBOLS: seq<Byte> :=
    [0x00, 0x01, 0x02, 0x03, 0x04, 0x05, 0x06, 0x07, 0x08, 0x09, 0x0A, 0x0B]

  const DC1_COUNTS: seq<Byte> := [0, 3, 1, 1, 1, 1, 1, 1, 1, 1, 1, 0, 0, 0, 0, 0]

  const DC1_SYMBOLS: seq<Byte> :=
    [0x00, 0x01, 0x02, 0x03, 0x04, 0x05, 0x06, 0x07, 0x08, 0x09, 0x0A, 0x0B]

  const AC0_COUNTS: seq<Byte> := [0, 2, 1, 3, 3, 2, 4, 3, 5, 5, 4, 4, 0, 0, 1, 125]

  const AC0_1: seq<Byte> :=
    [0x01, 0x02, 0x03, 0x00, 0x04, 0x11, 0x05, 0x12, 0x21, 0x31, 0x41, 0x06, 0x13, 0x51, 0x61, 0x07, 0x22, 0x71]

  const AC0_2: seq<Byte> :=
    [0x14, 0x32, 0x81, 0x91, 0xA1, 0x08, 0x23, 0x42, 0xB1, 0xC1, 0x15, 0x52, 0xD1, 0xF0, 0x24, 0x33, 0x62, 0x72]

  const AC0_3: seq<Byte> :=
    [0x82, 0x09, 0x0A, 0x16, 0x17, 0x18, 0x19, 0x1A, 0x25, 0x26, 0x27, 0x28, 0x29, 0x2A, 0x34, 0x35, 0x36, 0x37]

  const AC0_A: seq<Byte> := AC0_1 + AC0_2 + AC0_3

  const AC0_4: seq<Byte> :=
    [0x38, 0x39, 0x3A, 0x43, 0x44, 0x45, 0x46, 0x47, 0x48, 0x49, 0x4A, 0x53, 0x54, 0x55, 0x56, 0x57, 0x58, 0x59]

  const AC0_5: seq<Byte> :=
    [0x5A, 0x63, 0x64, 0x65, 0x66, 0x67, 0x68, 0x69, 0x6A, 0x73, 0x74, 0x75, 0x76, 0x77, 0x78, 0x79, 0x7A, 0x83]

  const AC0_6: seq<Byte> :=
    [0x84, 0x85, 0x86, 0x87, 0x88, 0x89, 0x8A, 0x92, 0x93, 0x94, 0x95, 0x96, 0x97, 0x98, 0x99, 0x9A, 0xA2, 0xA3]

  const AC0_B: seq<Byte> := AC0_4 + AC0_5 + AC0_6

  const AC0_7: seq<Byte> :=
    [0xA4, 0xA5, 0xA6, 0xA7, 0xA8, 0xA9, 0xAA, 0xB2, 0xB3, 0xB4, 0xB5, 0xB6, 0xB7, 0xB8, 0xB9, 0xBA, 0xC2, 0xC3]

  const AC0_8: seq<Byte> :=
    [0xC4, 0xC5, 0xC6, 0xC7, 0xC8, 0xC9, 0xCA, 0xD2, 0xD3, 0xD4, 0xD5, 0xD6, 0xD7, 0xD8, 0xD9, 0xDA, 0xE1, 0xE2]

  const AC0_9: seq<Byte> :=
    [0xE3, 0xE4, 0xE5, 0xE6, 0xE7, 0xE8, 0xE9, 0xEA, 0xF1, 0xF2, 0xF3, 0xF4, 0xF5, 0xF6, 0xF7, 0xF8, 0xF9]

  const AC0_C: seq<Byte> := AC0_7 + AC0_8 + AC0_9

  /** All symbols but the last. */
  const AC0_FRONT: seq<Byte> := AC0_A + AC0_B + AC0_C

  const AC0_SYMBOLS: seq<Byte> := AC0_FRONT + [0xFA]

  const AC1_COUNTS: seq<Byte> := [0, 2, 1, 2, 4, 4, 3, 4, 7, 5, 4, 4, 0, 1, 2, 119]

  const AC1_1: seq<Byte> :=
    [0x00, 0x01, 0x02, 0x03, 0x11, 0x04, 0x05, 0x21, 0x31, 0x06, 0x12, 0x41, 0x51, 0x07, 0x61, 0x71, 0x13, 0x22]

  const AC1_2: seq<Byte> :=
    [0x32, 0x81, 0x08, 0x14, 0x42, 0x91, 0xA1, 0xB1, 0xC1, 0x09, 0x23, 0x33, 0x52, 0xF0, 0x15, 0x62, 0x72, 0xD1]

  const AC1_3: seq<Byte> :=
    [0x0A, 0x16, 0x24, 0x34, 0xE1, 0x25, 0xF1, 0x17, 0x18, 0x19, 0x1A, 0x26, 0x27, 0x28, 0x29, 0x2A, 0x35, 0x36]

  const AC1_A: seq<Byte> := AC1_1 + AC1_2 + AC1_3

  const AC1_4: seq<Byte> :=
    [0x37, 0x38, 0x39, 0x3A, 0x43, 0x44, 0x45, 0x46, 0x47, 0x48, 0x49, 0x4A, 0x53, 0x54, 0x55, 0x56, 0x57, 0x58]

  const AC1_5: seq<Byte> :=
    [0x59, 0x5A, 0x63, 0x64, 0x65, 0x66, 0x67, 0x68, 0x69, 0x6A, 0x73, 0x74, 0x75, 0x76, 0x77, 0x78, 0x79, 0x7A]

  const AC1_6: seq<Byte> :=
    [0x82, 0x83, 0x84, 0x85, 0x86, 0x87, 0x88, 0x89, 0x8A, 0x92, 0x93, 0x94, 0x95, 0x96, 0x97, 0x98, 0x99, 0x9A]

  const AC1_B: seq<Byte> := AC1_4 + AC1_5 + AC1_6

  const AC1_7: seq<Byte> :=
    [0xA2, 0xA3, 0xA4, 0xA5, 0xA6, 0xA7, 0xA8, 0xA9, 0xAA, 0xB2, 0xB3, 0xB4, 0xB5, 0xB6, 0xB7, 0xB8, 0xB9, 0xBA]

  const AC1_8: seq<Byte> :=
    [0xC2, 0xC3, 0xC4, 0xC5, 0xC6, 0xC7, 0xC8, 0xC9, 0xCA, 0xD2, 0xD3, 0xD4, 0xD5, 0xD6, 0xD7, 0xD8, 0xD9, 0xDA]

  const AC1_9: seq<Byte> :=
    [0xE2, 0xE3, 0xE4, 0xE5, 0xE6, 0xE7, 0xE8, 0xE9, 0xEA, 0xF2, 0xF3, 0xF4, 0xF5, 0xF6, 0xF7, 0xF8, 0xF9]

  const AC1_C: seq<Byte> := AC1_7 + AC1_8 + AC1_9

  /** All symbols but the last. */
  const AC1_FRONT: seq<Byte> := AC1_A + AC1_B + AC1_C

  const AC1_SYMBOLS: seq<Byte> := AC1_FRONT + [0xFA]

  /** One table definition of a segment. */
  datatype Definition = Definition(header: Byte, counts: seq<Byte>, symbols: seq<Byte>)

  function Written(d: Definition): seq<Byte> {
    [d.header] + d.counts + d.symbols
  }

  function WrittenAll(ds: seq<Definition>): seq<Byte> {
    if ds == [] then [] else Written(ds[0]) + WrittenAll(ds[1..])
  }

  const DC0 := Definition(0x00, DC0_COUNTS, DC0_SYMBOLS)
  const DC1 := Definition(0x01, DC1_COUNTS, DC1_SYMBOLS)
  const AC0 := Definition(0x10, AC0_COUNTS, AC0_SYMBOLS)
  const AC1 := Definition(0x11, AC1_COUNTS, AC1_SYMBOLS)

  /** dht_data: 420 bytes. */
  function Dht(): (d: seq<Byte>)
    ensures |d| == 420 && d[0] == 0xFF && d[1] == 0xC4
  {
    [0xFF, 0xC4, 0x01, 0xA2] + SegmentBody()
  }

  /** The segment without marker and length. */
  function SegmentBody(): (s: seq<Byte>)
    ensures |s| + 2 == 0x01A2
  {
    Written(DC0) + Written(DC1) + Written(AC0) + Written(AC1)
  }

  // ----- counting

  /** The first k counts: how many symbols, and the code space in units of a code of length k. */
  function Count(counts: seq<Byte>, k: nat): nat
    requires k <= |counts|
    decreases k, counts
  {
    if k == 0 then 0 else Count(counts, k - 1) + counts[k - 1] as nat
  }

  function Weight(counts: seq<Byte>, k: nat): nat
    requires k <= |counts|
    decreases k, counts
  {
    if k == 0 then 0 else 2 * Weight(counts, k - 1) + counts[k - 1] as nat
  }

  lemma HalveUnit(w: nat, c: nat, p: nat)
    ensures w * (2 * p) + c * p == (2 * w + c) * p
  {
  }

  lemma {:induction false} Counted(counts: seq<Byte>, k: nat)
    requires k <= |counts| <= 16
    ensures |Sizes(counts[..k])| == Count(counts, k)
    ensures CodeSpace(counts[..k]) == Weight(counts, k) * Pow2(16 - k)
  {
    if k > 0 {
      Counted(counts, k - 1);
      assert counts[..k][..k - 1] == counts[..k - 1];
      HalveUnit(Weight(counts, k - 1), counts[k - 1] as nat, Pow2(16 - k));
    }
  }

  /** A definition whose counts match its symbols and leave code space over. */
  ghost predicate Sound(counts: seq<Byte>, symbols: seq<Byte>) {
    |counts| == 16 && |Sizes(counts)| == |symbols| <= ENTRIES && CodeSpace(counts) < Pow2(16)
  }

  ghost predicate SoundAll(ds: seq<Definition>) {
    ds == [] || (Sound(ds[0].counts, ds[0].symbols) && Tables.TableIndex(ds[0].header) < TABLES && SoundAll(ds[1..]))
  }

  /** Four counts as one number: how many, and in units of the last one's length. */
  function Sum4(c: seq<Byte>, k: nat): nat
    requires k + 4 <= |c|
  {
    c[k] as nat + c[k + 1] as nat + c[k + 2] as nat + c[k + 3] as nat
  }

  function Weight4(c: seq<Byte>, k: nat): nat
    requires k + 4 <= |c|
  {
    8 * c[k] as nat + 4 * c[k + 1] as nat + 2 * c[k + 2] as nat + c[k + 3] as nat
  }

  /** Count and Weight after four more counts. */
  lemma Four(c: seq<Byte>, k: nat)
    requires k + 4 <= |c|
    ensures Count(c, k + 4) == Count(c, k) + Sum4(c, k)
    ensures Weight(c, k + 4) == 16 * Weight(c, k) + Weight4(c, k)
  {
    assert Weight(c, k + 2) == 4 * Weight(c, k) + 2 * c[k] as nat + c[k + 1] as nat;
    assert Count(c, k + 2) == Count(c, k) + c[k] as nat + c[k + 1] as nat;
  }

  lemma FullSpace()
    ensures Pow2(16) == 65536
  {
    assert Pow2(8) == 256;
    Pow2Add(8, 8);
  }

  lemma SoundIf(c: seq<Byte>, symbols: seq<Byte>)
    requires |c| == 16 && Sum4(c, 0) + Sum4(c, 4) + Sum4(c, 8) + Sum4(c, 12) == |symbols| <= ENTRIES
    requires 4096 * Weight4(c, 0) + 256 * Weight4(c, 4) + 16 * Weight4(c, 8) + Weight4(c, 12) < 65536
    ensures Sound(c, symbols)
  {
    CountedAll(c);
    CountedBy4(c);
    FullSpace();
    hide *;
  }

  lemma CountedAll(c: seq<Byte>)
    requires |c| == 16
    ensures |Sizes(c)| == Count(c, 16) && CodeSpace(c) == Weight(c, 16)
  {
    Counted(c, 16);
    assert Pow2(0) == 1;
    hide *;
    assert c[..16] == c;
  }

  lemma CountedBy4(c: seq<Byte>)
    requires |c| == 16
    ensures Count(c, 16) == Sum4(c, 0) + Sum4(c, 4) + Sum4(c, 8) + Sum4(c, 12)
    ensures Weight(c, 16) == 4096 * Weight4(c, 0) + 256 * Weight4(c, 4) + 16 * Weight4(c, 8) + Weight4(c, 12)
  {
    assert Count(c, 0) == Weight(c, 0) == 0;
    hide *;
    Four(c, 0);
    Four(c, 4);
    Four(c, 8);
    Four(c, 12);
  }

  lemma Dc0Sound()
    ensures Sound(DC0_COUNTS, DC0_SYMBOLS)
  {
    SoundIf(DC0_COUNTS, DC0_SYMBOLS);
  }

  lemma Dc1Sound()
    ensures Sound(DC1_COUNTS, DC1_SYMBOLS)
  {
    SoundIf(DC1_COUNTS, DC1_SYMBOLS);
  }

  lemma Ac0Sound()
    ensures Sound(AC0_COUNTS, AC0_SYMBOLS)
  {
    SoundIf(AC0_COUNTS, AC0_SYMBOLS);
  }

  lemma Ac1Sound()
    ensures Sound(AC1_COUNTS, AC1_SYMBOLS)
  {
    SoundIf(AC1_COUNTS, AC1_SYMBOLS);
  }

  // ----- parsing

  lemma TableIgnoresRest(counts: seq<Byte>, more: seq<Byte>, symbols: seq<Byte>)
    requires |Sizes(counts)| <= |symbols| <= |more| && more[..|symbols|] == symbols
    ensures Table(counts, more) == Table(counts, symbols)
  {
    SizesAscending(counts);
    forall k | 0 <= k < |symbols| ensures more[k] == symbols[k] { assert more[..|symbols|][k] == symbols[k]; }
  }

  /** A definition written into a segment is read back, whatever lies around it. */
  lemma ReadBack(buffer: seq<Byte>, pos: nat, d: Definition, tables: seq<seq<Entry>>)
    requires Sound(d.counts, d.symbols) && Tables.TableIndex(d.header) < TABLES == |tables|
    requires pos + 17 + |d.symbols| <= |buffer| && buffer[pos..pos + 17 + |d.symbols|] == Written(d)
    ensures DefinitionAt(buffer, pos) && DefinitionEnd(buffer, pos) == pos + 17 + |d.symbols|
    ensures Defined(tables, buffer, pos) == tables[Tables.TableIndex(d.header) := TableOf(d)]
  {
    var w := buffer[pos..pos + 17 + |d.symbols|];
    assert w[0] == d.header && w[1..17] == d.counts && w[17..] == d.symbols;
    assert buffer[pos] == w[0];
    assert buffer[pos + 1..pos + 17] == d.counts by {
      forall k | 0 <= k < 16 ensures buffer[pos + 1 + k] == d.counts[k] { assert buffer[pos + 1 + k] == w[1 + k]; }
    }
    assert buffer[pos + 17..][..|d.symbols|] == w[17..];
    TableIgnoresRest(d.counts, buffer[pos + 17..], d.symbols);
  }

  /** The table a definition stands for. */
  ghost function TableOf(d: Definition): seq<Entry>
    requires Sound(d.counts, d.symbols)
  {
    Table(d.counts, d.symbols)
  }

  /** The tables with each definition stored in the place its header names. */
  ghost function Stored(tables: seq<seq<Entry>>, ds: seq<Definition>): seq<seq<Entry>>
    requires SoundAll(ds) && |tables| == TABLES
    decreases |ds|
  {
    if ds == [] then tables
    else Stored(tables[Tables.TableIndex(ds[0].header) := TableOf(ds[0])], ds[1..])
  }

  /** Parsing a segment gives back the definitions it was written from. */
  lemma {:induction false} SegmentReadBack(front: seq<Byte>, ds: seq<Definition>, tables: seq<seq<Entry>>)
    requires SoundAll(ds) && ds != [] && |tables| == TABLES
    ensures var buffer := front + WrittenAll(ds);
      SegmentAt(buffer, |front|) && SegmentTables(tables, buffer, |front|) == Stored(tables, ds)
    decreases |ds|
  {
    hide *;
    var d := ds[0];
    var front' := front + Written(d);
    var buffer := front' + WrittenAll(ds[1..]);
    var next := StoredFirst(tables, ds);
    FirstWritten(front, ds);
    ReadBack(buffer, |front|, d, tables);
    if ds[1..] != [] {
      SegmentReadBack(front', ds[1..], next);
    }
    SegmentStep(buffer, |front|, tables);
  }

  lemma StoredFirst(tables: seq<seq<Entry>>, ds: seq<Definition>) returns (next: seq<seq<Entry>>)
    requires SoundAll(ds) && ds != [] && |tables| == TABLES
    ensures Sound(ds[0].counts, ds[0].symbols) && |ds[0].counts| == 16
    ensures Tables.TableIndex(ds[0].header) < TABLES == |next|
    ensures next == tables[Tables.TableIndex(ds[0].header) := TableOf(ds[0])]
    ensures SoundAll(ds[1..]) && Stored(tables, ds) == Stored(next, ds[1..])
    ensures ds[1..] == [] ==> Stored(tables, ds) == next
  {
    next := tables[Tables.TableIndex(ds[0].header) := TableOf(ds[0])];
  }

  lemma FirstWritten(front: seq<Byte>, ds: seq<Definition>)
    requires ds != [] && |ds[0].counts| == 16
    ensures var end, buffer := |front| + 17 + |ds[0].symbols|, front + WrittenAll(ds);
      && end <= |buffer| && buffer[|front|..end] == Written(ds[0])
      && buffer == front + Written(ds[0]) + WrittenAll(ds[1..])
    ensures ds[1..] == [] <==> WrittenAll(ds[1..]) == []
  {
    assert |Written(ds[0])| == 17 + |ds[0].symbols|;
    assert WrittenAll(ds) == Written(ds[0]) + WrittenAll(ds[1..]);
    assert ds[1..] == [] <==> WrittenAll(ds[1..]) == [];
    hide *;
    Middle(front, Written(ds[0]), WrittenAll(ds[1..]));
  }

  lemma Middle(a: seq<Byte>, b: seq<Byte>, c: seq<Byte>)
    ensures a + (b + c) == a + b + c && (a + b + c)[|a|..|a| + |b|] == b
  {
  }

  lemma SegmentStep(buffer: seq<Byte>, pos: nat, tables: seq<seq<Entry>>)
    requires DefinitionAt(buffer, pos) && |tables| == TABLES
    requires var end := DefinitionEnd(buffer, pos); end == |buffer| || SegmentAt(buffer, end)
    ensures SegmentAt(buffer, pos)
    ensures var next, end := Defined(tables, buffer, pos), DefinitionEnd(buffer, pos);
      SegmentTables(tables, buffer, pos) == if end == |buffer| then next else SegmentTables(next, buffer, end)
  {
  }

  lemma WrittenFour(a: Definition, b: Definition, c: Definition, d: Definition)
    ensures WrittenAll([a, b, c, d]) == Written(a) + Written(b) + Written(c) + Written(d)
  {
    hide Written;
    assert [a, b, c, d][1..] == [b, c, d];
    assert [b, c, d][1..] == [c, d];
    assert [c, d][1..] == [d];
    assert WrittenAll([d]) == Written(d);
    assert WrittenAll([c, d]) == Written(c) + Written(d);
  }

  lemma SoundFour(a: Definition, b: Definition, c: Definition, d: Definition)
    requires SoundAll([a, b, c, d])
    ensures Sound(a.counts, a.symbols) && Sound(b.counts, b.symbols)
    ensures Sound(c.counts, c.symbols) && Sound(d.counts, d.symbols)
    ensures SoundAll([b, c, d]) && SoundAll([c, d]) && SoundAll([d])
  {
    hide Sound;
    assert [a, b, c, d][1..] == [b, c, d];
    assert [b, c, d][1..] == [c, d];
    assert [c, d][1..] == [d];
    assert SoundAll([b, c, d]);
    assert SoundAll([c, d]);
    assert SoundAll([d]);
  }

  lemma StoredFour(tables: seq<seq<Entry>>, a: Definition, b: Definition, c: Definition, d: Definition)
    requires SoundAll([a, b, c, d]) && |tables| == TABLES
    requires a.header == 0x00 && b.header == 0x01 && c.header == 0x10 && d.header == 0x11
    ensures Sound(a.counts, a.symbols) && Sound(b.counts, b.symbols)
    ensures Sound(c.counts, c.symbols) && Sound(d.counts, d.symbols)
    ensures Stored(tables, [a, b, c, d]) == [TableOf(a), TableOf(c), TableOf(b), TableOf(d)]
  {
    SoundFour(a, b, c, d);
    hide TableOf, Sound;
    assert [a, b, c, d][1..] == [b, c, d];
    assert [b, c, d][1..] == [c, d];
    assert [c, d][1..] == [d];
    assert [d][1..] == [];
    var t1 := tables[0 := TableOf(a)];
    var t2 := t1[2 := TableOf(b)];
    var t3 := t2[1 := TableOf(c)];
    var t4 := t3[3 := TableOf(d)];
    assert Stored(t4, []) == t4;
    assert Stored(t3, [d]) == t4;
    assert Stored(t2, [c, d]) == t4;
    assert Stored(t1, [b, c, d]) == t4;
  }

  /** The table of a sound definition, and no window starts with two of its codes. */
  ghost predicate Tabled(t: seq<Entry>, d: Definition) {
    Sound(d.counts, d.symbols) && t == TableOf(d) && Short(t) && PrefixFree(t)
  }

  lemma SoundTabled(d: Definition)
    requires Sound(d.counts, d.symbols)
    ensures Tabled(TableOf(d), d)
  {
    TableIsPrefixFree(d.counts, d.symbols);
  }

  lemma FourTables(tables: seq<seq<Entry>>, a: Definition, b: Definition, c: Definition, d: Definition)
    requires SoundAll([a, b, c, d]) && |tables| == TABLES
    requires a.header == 0x00 && b.header == 0x01 && c.header == 0x10 && d.header == 0x11
    ensures var body := Written(a) + Written(b) + Written(c) + Written(d);
      SegmentAt(body, 0)
      && var ts := SegmentTables(tables, body, 0);
      |ts| == TABLES && Tabled(ts[0], a) && Tabled(ts[2], b) && Tabled(ts[1], c) && Tabled(ts[3], d)
  {
    SegmentReadBack([], [a, b, c, d], tables);
    WrittenFour(a, b, c, d);
    SoundFour(a, b, c, d);
    StoredFour(tables, a, b, c, d);
    hide *;
    assert [] + WrittenAll([a, b, c, d]) == WrittenAll([a, b, c, d]);
    SoundTabled(a);
    SoundTabled(b);
    SoundTabled(c);
    SoundTabled(d);
  }

  lemma StandardSound()
    ensures SoundAll([DC0, DC1, AC0, AC1])
  {
    Dc0Sound();
    Dc1Sound();
    Ac0Sound();
    Ac1Sound();
    hide Sound;
    assert [DC0, DC1, AC0, AC1][1..] == [DC1, AC0, AC1];
    assert [DC1, AC0, AC1][1..] == [AC0, AC1];
    assert [AC0, AC1][1..] == [AC1];
    assert [AC1][1..] == [];
    assert SoundAll([]);
    assert SoundAll([AC1]);
    assert SoundAll([AC0, AC1]);
    assert SoundAll([DC1, AC0, AC1]);
  }

  /** The parser of the autofocus plugin accepts the inserted segment, reads all four tables from it,
      and each of them is prefix-free. */
  lemma InsertedTablesParse(tables: seq<seq<Entry>>)
    requires |tables| == TABLES
    ensures SegmentAt(SegmentBody(), 0)
    ensures var ts := SegmentTables(tables, SegmentBody(), 0);
      |ts| == TABLES && Tabled(ts[0], DC0) && Tabled(ts[1], AC0) && Tabled(ts[2], DC1) && Tabled(ts[3], AC1)
  {
    StandardSound();
    FourTables(tables, DC0, DC1, AC0, AC1);
  }
}
