// The code words of the inserted tables are those that Annex K.3.3 of ITU-T T.81 lists.
module AnnexK {
  import opened Bits
  import opened CanonicalCode
  import opened StandardTables

  // ----- where the codes of one length lie, and what they are

  lemma {:induction false} SizeAt(counts: seq<Byte>, n: nat, k: nat)
    requires 0 < n <= |counts| && Count(counts, n - 1) <= k < Count(counts, n)
    ensures k < |Sizes(counts[..n])| && Sizes(counts[..n])[k] == n
    ensures |Sizes(counts[..n - 1])| == Count(counts, n - 1)
    ensures Sizes(counts[..n])[..Count(counts, n - 1)] == Sizes(counts[..n - 1])
  {
    SizesCounted(counts, n - 1);
    SizesCounted(counts, n);
    assert counts[..n][..n - 1] == counts[..n - 1];
  }

  lemma {:induction false} SizesCounted(counts: seq<Byte>, n: nat)
    requires n <= |counts|
    ensures |Sizes(counts[..n])| == Count(counts, n)
  {
    if n > 0 {
      SizesCounted(counts, n - 1);
      assert counts[..n][..n - 1] == counts[..n - 1];
    }
  }

  /** Longer codes come behind. */
  lemma {:induction false} SizesFront(counts: seq<Byte>, n: nat, m: nat)
    requires n <= m <= |counts|
    ensures Sizes(counts[..n]) <= Sizes(counts[..m])
    decreases m
  {
    if n < m {
      SizesFront(counts, n, m - 1);
      assert counts[..m][..m - 1] == counts[..m - 1];
    }
  }

  /** The sizes around code number j of length n. */
  lemma Around(counts: seq<Byte>, n: nat, j: nat)
    requires |counts| == 16 && 0 < n <= 16 && j <= counts[n - 1] as nat
    ensures var sizes, start := Sizes(counts), Count(counts, n - 1);
      && start + j <= |sizes| && sizes[..start] == Sizes(counts[..n - 1])
      && (j < counts[n - 1] as nat ==> start + j < |sizes| && sizes[start + j] == n)
  {
    var start := Count(counts, n - 1);
    SizesFront(counts, n, 16);
    SizesFront(counts, n - 1, 16);
    SizesCounted(counts, n);
    SizesCounted(counts, n - 1);
    assert counts[..16] == counts;
    assert Count(counts, n) == start + counts[n - 1] as nat;
    hide Sizes, Count;
    if j < counts[n - 1] as nat { SizeAt(counts, n, start + j); }
  }

  ghost predicate Sized(counts: seq<Byte>, t: seq<Entry>) {
    Canonical(t) && |t| == |Sizes(counts)| && forall i :: 0 <= i < |t| ==> t[i].len == Sizes(counts)[i]
  }

  lemma SpaceStart(counts: seq<Byte>, t: seq<Entry>, n: nat)
    requires |counts| == 16 && 0 < n <= 16 && Sized(counts, t)
    ensures Count(counts, n - 1) <= |t|
    ensures Space(t, Count(counts, n - 1)) == 2 * Weight(counts, n - 1) * Pow2(16 - n)
  {
    hide Space, Sizes, Count, Weight, CodeSpace, SizeSpace, Follows;
    var start := Count(counts, n - 1);
    Around(counts, n, 0);
    SpaceIsSizeSpace(Sizes(counts), t, start);
    SizeSpaceOfCounts(counts[..n - 1]);
    Counted(counts, n - 1);
    HalveUnit(Weight(counts, n - 1), 0, Pow2(16 - n));
  }

  /** Left-aligned the codes of length n start where the shorter ones end. */
  lemma {:induction false} SpaceAt(counts: seq<Byte>, t: seq<Entry>, n: nat, j: nat)
    requires |counts| == 16 && 0 < n <= 16 && j <= counts[n - 1] as nat && Sized(counts, t)
    ensures Count(counts, n - 1) + j <= |t|
    ensures Space(t, Count(counts, n - 1) + j) == (2 * Weight(counts, n - 1) + j) * Pow2(16 - n)
    decreases j
  {
    hide Sizes, Count, Weight, Pow2, Follows;
    var start := Count(counts, n - 1);
    Around(counts, n, j);
    if j == 0 {
      SpaceStart(counts, t, n);
    } else {
      SpaceAt(counts, t, n, j - 1);
      Around(counts, n, j - 1);
      OneMore(2 * Weight(counts, n - 1) + j - 1, Pow2(16 - n));
      assert Space(t, start + j) == Space(t, start + j - 1) + Pow2(16 - n);
    }
  }

  lemma OneMore(a: nat, p: nat)
    ensures (a + 1) * p == a * p + p
  {
  }

  lemma TableSized(d: Definition)
    requires Sound(d.counts, d.symbols)
    ensures |d.counts| == 16 && Sized(d.counts, TableOf(d)) && |TableOf(d)| == |d.symbols|
    ensures forall k :: 0 <= k < |TableOf(d)| ==> TableOf(d)[k].sym == d.symbols[k]
  {
    SizesAscending(d.counts);
    AssignIsCanonical(Sizes(d.counts), d.symbols);
  }

  /** Code number j of length n. */
  lemma CodeAt(d: Definition, n: nat, j: nat)
    requires Sound(d.counts, d.symbols) && 0 < n <= 16 && j < d.counts[n - 1] as nat
    ensures var k := Count(d.counts, n - 1) + j;
      && k < |TableOf(d)| == |d.symbols|
      && TableOf(d)[k] == Entry(n, 2 * Weight(d.counts, n - 1) + j, d.symbols[k])
  {
    hide TableOf, Sizes, Count, Weight, Pow2, Follows, Space;
    var t, k, counts := TableOf(d), Count(d.counts, n - 1) + j, d.counts;
    TableSized(d);
    Around(counts, n, j);
    SpaceAt(counts, t, n, j);
    IntervalStart(t, k);
    assert t[k].len == n;
    SameFactor(t[k].code, 2 * Weight(counts, n - 1) + j, Pow2(16 - n));
  }

  lemma SameFactor(a: nat, b: nat, p: nat)
    requires p > 0 && a * p == b * p
    ensures a == b
  {
    if a < b { BlocksFit(a, b, p); }
    if b < a { BlocksFit(b, a, p); }
  }

  // ----- how many codes there are up to each length, and where they go on

  lemma Step(c: seq<Byte>, n: nat)
    requires n < |c|
    ensures Count(c, n + 1) == Count(c, n) + c[n] as nat && Weight(c, n + 1) == 2 * Weight(c, n) + c[n] as nat
    ensures Count(c, 0) == 0 && Weight(c, 0) == 0
  {
  }


  /** DC0: how many codes are shorter than each length, and its first code word. */
  const DC0_SHORTER: seq<nat> := [0, 0, 0, 1, 6, 7, 8, 9, 10, 11, 12, 12, 12, 12, 12, 12, 12]
  const DC0_FIRST: seq<nat> :=
    [0, 0, 0, 0x2, 0xE, 0x1E, 0x3E, 0x7E, 0xFE, 0x1FE, 0x3FE, 0x7FC, 0xFF8, 0x1FF0, 0x3FE0, 0x7FC0, 0xFF80]

  lemma Dc0Adds(n: nat)
    requires 0 < n <= 16
    ensures Count(DC0_COUNTS, n - 1) == DC0_SHORTER[n] && 2 * Weight(DC0_COUNTS, n - 1) == DC0_FIRST[n]
    decreases n
  {
    hide Count, Weight;
    Step(DC0_COUNTS, n - 1);
    if n > 1 {
      Dc0Adds(n - 1);
      Step(DC0_COUNTS, n - 2);
    }
  }

  /** DC1: how many codes are shorter than each length, and its first code word. */
  const DC1_SHORTER: seq<nat> := [0, 0, 0, 3, 4, 5, 6, 7, 8, 9, 10, 11, 12, 12, 12, 12, 12]
  const DC1_FIRST: seq<nat> :=
    [0, 0, 0, 0x6, 0xE, 0x1E, 0x3E, 0x7E, 0xFE, 0x1FE, 0x3FE, 0x7FE, 0xFFE, 0x1FFC, 0x3FF8, 0x7FF0, 0xFFE0]

  lemma Dc1Adds(n: nat)
    requires 0 < n <= 16
    ensures Count(DC1_COUNTS, n - 1) == DC1_SHORTER[n] && 2 * Weight(DC1_COUNTS, n - 1) == DC1_FIRST[n]
    decreases n
  {
    hide Count, Weight;
    Step(DC1_COUNTS, n - 1);
    if n > 1 {
      Dc1Adds(n - 1);
      Step(DC1_COUNTS, n - 2);
    }
  }

  /** AC0: how many codes are shorter than each length, and its first code word. */
  const AC0_SHORTER: seq<nat> := [0, 0, 0, 2, 3, 6, 9, 11, 15, 18, 23, 28, 32, 36, 36, 36, 37]
  const AC0_FIRST: seq<nat> :=
    [0, 0, 0, 0x4, 0xA, 0x1A, 0x3A, 0x78, 0xF8, 0x1F6, 0x3F6, 0x7F6, 0xFF4, 0x1FF0, 0x3FE0, 0x7FC0, 0xFF82]

  lemma Ac0Adds(n: nat)
    requires 0 < n <= 16
    ensures Count(AC0_COUNTS, n - 1) == AC0_SHORTER[n] && 2 * Weight(AC0_COUNTS, n - 1) == AC0_FIRST[n]
    decreases n
  {
    hide Count, Weight;
    Step(AC0_COUNTS, n - 1);
    if n > 1 {
      Ac0Adds(n - 1);
      Step(AC0_COUNTS, n - 2);
    }
  }

  /** AC1: how many codes are shorter than each length, and its first code word. */
  const AC1_SHORTER: seq<nat> := [0, 0, 0, 2, 3, 5, 9, 13, 16, 20, 27, 32, 36, 40, 40, 41, 43]
  const AC1_FIRST: seq<nat> :=
    [0, 0, 0, 0x4, 0xA, 0x18, 0x38, 0x78, 0xF6, 0x1F4, 0x3F6, 0x7F6, 0xFF4, 0x1FF0, 0x3FE0, 0x7FC2, 0xFF88]

  lemma Ac1Adds(n: nat)
    requires 0 < n <= 16
    ensures Count(AC1_COUNTS, n - 1) == AC1_SHORTER[n] && 2 * Weight(AC1_COUNTS, n - 1) == AC1_FIRST[n]
    decreases n
  {
    hide Count, Weight;
    Step(AC1_COUNTS, n - 1);
    if n > 1 {
      Ac1Adds(n - 1);
      Step(AC1_COUNTS, n - 2);
    }
  }

  // ----- the DC tables

  datatype CodeWord = CodeWord(len: nat, code: nat)

  /** Table K.3: the code word of each category. */
  const K3: seq<CodeWord> :=
    [CodeWord(2, 0), CodeWord(3, 0x2), CodeWord(3, 0x3), CodeWord(3, 0x4),
     CodeWord(3, 0x5), CodeWord(3, 0x6), CodeWord(4, 0xE), CodeWord(5, 0x1E),
     CodeWord(6, 0x3E), CodeWord(7, 0x7E), CodeWord(8, 0xFE), CodeWord(9, 0x1FE)]

  lemma Dc0Place(k: nat)
    requires k < 12
    ensures |K3| == |DC0_SYMBOLS| == 12 && |DC0_COUNTS| == 16 && |DC0_SHORTER| == |DC0_FIRST| == 17
    ensures DC0_SYMBOLS[k] as nat == k
    ensures var l := K3[k].len;
      && 0 < l <= 16 && DC0_SHORTER[l] <= k < DC0_SHORTER[l] + DC0_COUNTS[l - 1] as nat
      && K3[k].code == DC0_FIRST[l] + (k - DC0_SHORTER[l])
  {
  }

  /** The code words of the DC table 0 of the segment are those of table K.3. */
  lemma Dc0Words(k: nat)
    requires k < 12
    ensures Sound(DC0.counts, DC0.symbols) && |TableOf(DC0)| == |K3| == 12
    ensures TableOf(DC0)[k] == Entry(K3[k].len, K3[k].code, k as Byte)
  {
    assert DC0.counts == DC0_COUNTS && DC0.symbols == DC0_SYMBOLS;
    hide *;
    Dc0Sound();
    Dc0Place(k);
    var l := K3[k].len;
    Dc0Adds(l);
    CodeAt(DC0, l, k - DC0_SHORTER[l]);
  }

  /** Table K.4: the code word of each category. */
  const K4: seq<CodeWord> :=
    [CodeWord(2, 0), CodeWord(2, 0x1), CodeWord(2, 0x2), CodeWord(3, 0x6),
     CodeWord(4, 0xE), CodeWord(5, 0x1E), CodeWord(6, 0x3E), CodeWord(7, 0x7E),
     CodeWord(8, 0xFE), CodeWord(9, 0x1FE), CodeWord(10, 0x3FE), CodeWord(11, 0x7FE)]

  lemma Dc1Place(k: nat)
    requires k < 12
    ensures |K4| == |DC1_SYMBOLS| == 12 && |DC1_COUNTS| == 16 && |DC1_SHORTER| == |DC1_FIRST| == 17
    ensures DC1_SYMBOLS[k] as nat == k
    ensures var l := K4[k].len;
      && 0 < l <= 16 && DC1_SHORTER[l] <= k < DC1_SHORTER[l] + DC1_COUNTS[l - 1] as nat
      && K4[k].code == DC1_FIRST[l] + (k - DC1_SHORTER[l])
  {
  }

  /** The code words of the DC table 1 of the segment are those of table K.4. */
  lemma Dc1Words(k: nat)
    requires k < 12
    ensures Sound(DC1.counts, DC1.symbols) && |TableOf(DC1)| == |K4| == 12
    ensures TableOf(DC1)[k] == Entry(K4[k].len, K4[k].code, k as Byte)
  {
    assert DC1.counts == DC1_COUNTS && DC1.symbols == DC1_SYMBOLS;
    hide *;
    Dc1Sound();
    Dc1Place(k);
    var l := K4[k].len;
    Dc1Adds(l);
    CodeAt(DC1, l, k - DC1_SHORTER[l]);
  }

  // ----- the symbols of the AC tables

  /** For each run the code lengths of the sizes from 1 on; those left out have 16 bits. */
  datatype Lengths = Lengths(rows: seq<seq<nat>>, eob: nat, zrl: nat)

  /** The length of a symbol's code word; 0, if it has none. */
  function LengthOf(t: Lengths, sym: Byte): nat {
    var r, s := sym as nat / 16, sym as nat % 16;
    if sym == 0x00 then t.eob
    else if sym == 0xF0 then t.zrl
    else if s == 0 || s > 10 || r >= |t.rows| then 0
    else if s <= |t.rows[r]| then t.rows[r][s - 1]
    else 16
  }

  /** Table K.5. */
  const K5: Lengths := Lengths(
    [[2, 2, 3, 4, 5, 7, 8, 10], [4, 5, 7, 9, 11], [5, 8, 10, 12], [6, 9, 12], [6, 10], [7, 11],
     [7, 12], [8, 12], [9, 15], [9], [9], [10], [10], [11], [], []], 4, 11)

  /** Table K.6. */
  const K6: Lengths := Lengths(
    [[2, 3, 4, 5, 5, 6, 7, 9, 10, 12], [4, 6, 8, 9, 11, 12], [5, 8, 10, 12, 15], [5, 8, 10, 12], [6, 9], [6, 10],
     [7, 11], [7, 11], [8], [9], [9], [9], [9], [11], [14], [15]], 2, 10)

  /** Symbols of one row of the table, with the lengths of their code words. */
  ghost predicate HasLengths(t: Lengths, row: seq<Byte>, from: nat, to: nat, lengths: seq<nat>, at: nat) {
    to <= |row| && at + to <= |lengths| && forall i :: from <= i < to ==> LengthOf(t, row[i]) == lengths[at + i]
  }

  ghost predicate Long(t: Lengths, row: seq<Byte>) {
    forall i :: 0 <= i < |row| ==> LengthOf(t, row[i]) == 16 && (i > 0 ==> row[i - 1] < row[i])
  }

  /** In order among those of one length. */
  ghost predicate Rises(row: seq<Byte>, lengths: seq<nat>, at: nat)
    requires at + |row| <= |lengths|
  {
    forall i :: 0 < i < |row| && lengths[at + i - 1] == lengths[at + i] ==> row[i - 1] < row[i]
  }

  /** The lengths of the first three rows. */
  const AC0_LENGTHS: seq<nat> :=
    [2, 2, 3, 4, 4, 4, 5, 5, 5, 6, 6, 7, 7, 7, 7, 8, 8, 8]
    + [9, 9, 9, 9, 9, 10, 10, 10, 10, 10, 11, 11, 11, 11, 12, 12, 12, 12]
    + [15, 16, 16, 16, 16, 16, 16, 16, 16, 16, 16, 16, 16, 16, 16, 16, 16, 16]

  lemma Ac0Row1a()
    ensures |AC0_1| == 18 && HasLengths(K5, AC0_1, 0, 9, AC0_LENGTHS, 0)
  {
  }

  lemma Ac0Row1b()
    ensures |AC0_1| == 18 && HasLengths(K5, AC0_1, 9, 18, AC0_LENGTHS, 0)
  {
  }

  lemma Ac0Row1Rises()
    ensures |AC0_1| == 18 && Rises(AC0_1, AC0_LENGTHS, 0)
  {
  }

  lemma Ac0Row2a()
    ensures |AC0_2| == 18 && HasLengths(K5, AC0_2, 0, 9, AC0_LENGTHS, 18)
  {
  }

  lemma Ac0Row2b()
    ensures |AC0_2| == 18 && HasLengths(K5, AC0_2, 9, 18, AC0_LENGTHS, 18)
  {
  }

  lemma Ac0Row2Rises()
    ensures |AC0_2| == 18 && Rises(AC0_2, AC0_LENGTHS, 18)
  {
  }

  lemma Ac0Row3a()
    ensures |AC0_3| == 18 && HasLengths(K5, AC0_3, 0, 9, AC0_LENGTHS, 36)
  {
  }

  lemma Ac0Row3b()
    ensures |AC0_3| == 18 && HasLengths(K5, AC0_3, 9, 18, AC0_LENGTHS, 36)
  {
  }

  lemma Ac0Row3Rises()
    ensures |AC0_3| == 18 && Rises(AC0_3, AC0_LENGTHS, 36)
  {
  }

  lemma Ac0Row4()
    ensures |AC0_4| == 18 && Long(K5, AC0_4)
  {
  }

  lemma Ac0Row5()
    ensures |AC0_5| == 18 && Long(K5, AC0_5)
  {
  }

  lemma Ac0Row6()
    ensures |AC0_6| == 18 && Long(K5, AC0_6)
  {
  }

  lemma Ac0Row7()
    ensures |AC0_7| == 18 && Long(K5, AC0_7)
  {
  }

  lemma Ac0Row8()
    ensures |AC0_8| == 18 && Long(K5, AC0_8)
  {
  }

  lemma Ac0Row9()
    ensures |AC0_9| == 17 && Long(K5, AC0_9)
  {
  }

  /** The lengths of the first three rows. */
  const AC1_LENGTHS: seq<nat> :=
    [2, 2, 3, 4, 4, 5, 5, 5, 5, 6, 6, 6, 6, 7, 7, 7, 8, 8]
    + [8, 8, 9, 9, 9, 9, 9, 9, 9, 10, 10, 10, 10, 10, 11, 11, 11, 11]
    + [12, 12, 12, 12, 14, 15, 15, 16, 16, 16, 16, 16, 16, 16, 16, 16, 16, 16]

  lemma Ac1Row1a()
    ensures |AC1_1| == 18 && HasLengths(K6, AC1_1, 0, 9, AC1_LENGTHS, 0)
  {
  }

  lemma Ac1Row1b()
    ensures |AC1_1| == 18 && HasLengths(K6, AC1_1, 9, 18, AC1_LENGTHS, 0)
  {
  }

  lemma Ac1Row1Rises()
    ensures |AC1_1| == 18 && Rises(AC1_1, AC1_LENGTHS, 0)
  {
  }

  lemma Ac1Row2a()
    ensures |AC1_2| == 18 && HasLengths(K6, AC1_2, 0, 9, AC1_LENGTHS, 18)
  {
  }

  lemma Ac1Row2b()
    ensures |AC1_2| == 18 && HasLengths(K6, AC1_2, 9, 18, AC1_LENGTHS, 18)
  {
  }

  lemma Ac1Row2Rises()
    ensures |AC1_2| == 18 && Rises(AC1_2, AC1_LENGTHS, 18)
  {
  }

  lemma Ac1Row3a()
    ensures |AC1_3| == 18 && HasLengths(K6, AC1_3, 0, 9, AC1_LENGTHS, 36)
  {
  }

  lemma Ac1Row3b()
    ensures |AC1_3| == 18 && HasLengths(K6, AC1_3, 9, 18, AC1_LENGTHS, 36)
  {
  }

  lemma Ac1Row3Rises()
    ensures |AC1_3| == 18 && Rises(AC1_3, AC1_LENGTHS, 36)
  {
  }

  lemma Ac1Row4()
    ensures |AC1_4| == 18 && Long(K6, AC1_4)
  {
  }

  lemma Ac1Row5()
    ensures |AC1_5| == 18 && Long(K6, AC1_5)
  {
  }

  lemma Ac1Row6()
    ensures |AC1_6| == 18 && Long(K6, AC1_6)
  {
  }

  lemma Ac1Row7()
    ensures |AC1_7| == 18 && Long(K6, AC1_7)
  {
  }

  lemma Ac1Row8()
    ensures |AC1_8| == 18 && Long(K6, AC1_8)
  {
  }

  lemma Ac1Row9()
    ensures |AC1_9| == 17 && Long(K6, AC1_9)
  {
  }

  // ----- put together

  /** The nine rows of a table, the last one with one symbol less, and the last symbol. */
  lemma NineRows(rows: seq<seq<Byte>>, k: nat)
    requires |rows| == 9 && (forall r :: 0 <= r < 8 ==> |rows[r]| == 18) && |rows[8]| == 17 && k < 162
    ensures var all := rows[0] + rows[1] + rows[2] + (rows[3] + rows[4] + rows[5])
        + (rows[6] + rows[7] + rows[8]) + [0xFA];
      |all| == 162 && all[k] == if k == 161 then 0xFA else rows[k / 18][k % 18]
  {
    var a, b, c := rows[0] + rows[1] + rows[2], rows[3] + rows[4] + rows[5], rows[6] + rows[7] + rows[8];
    ThreeRows(rows[0], rows[1], rows[2], if k < 54 then k else 0);
    ThreeRows(rows[3], rows[4], rows[5], if 54 <= k < 108 then k - 54 else 0);
    ThreeRows(rows[6], rows[7], rows[8], if 108 <= k < 161 then k - 108 else 0);
    assert |a| == |b| == 54 && |c| == 53;
    assert (a + b + c + [0xFA])[k] ==
      if k < 54 then a[k] else if k < 108 then b[k - 54] else if k < 161 then c[k - 108] else 0xFA;
  }

  lemma ThreeRows(a: seq<Byte>, b: seq<Byte>, c: seq<Byte>, k: nat)
    requires |a| == |b| == 18 && k < 36 + |c|
    ensures (a + b + c)[k] == if k < 18 then a[k] else if k < 36 then b[k - 18] else c[k - 36]
  {
  }

  /** What the rows of an AC table are like. */
  ghost predicate Rowed(t: Lengths, rows: seq<seq<Byte>>, lengths: seq<nat>) {
    && |rows| == 9 && (forall r :: 0 <= r < 8 ==> |rows[r]| == 18) && |rows[8]| == 17 && |lengths| == 54
    && (forall r :: 0 <= r < 3 ==> HasLengths(t, rows[r], 0, 18, lengths, 18 * r) && Rises(rows[r], lengths, 18 * r))
    && (forall r :: 3 <= r < 9 ==> Long(t, rows[r]))
  }

  lemma RowedIf(t: Lengths, a: seq<Byte>, b: seq<Byte>, c: seq<Byte>, d: seq<Byte>, e: seq<Byte>, f: seq<Byte>,
                g: seq<Byte>, h: seq<Byte>, i: seq<Byte>, lengths: seq<nat>)
    requires |a| == |b| == |c| == |d| == |e| == |f| == |g| == |h| == 18 && |i| == 17 && |lengths| == 54
    requires HasLengths(t, a, 0, 18, lengths, 0) && Rises(a, lengths, 0)
    requires HasLengths(t, b, 0, 18, lengths, 18) && Rises(b, lengths, 18)
    requires HasLengths(t, c, 0, 18, lengths, 36) && Rises(c, lengths, 36)
    requires Long(t, d) && Long(t, e) && Long(t, f) && Long(t, g) && Long(t, h) && Long(t, i)
    ensures Rowed(t, [a, b, c, d, e, f, g, h, i], lengths)
  {
    hide HasLengths, Rises, Long;
  }

  lemma HalvesJoin(t: Lengths, row: seq<Byte>, lengths: seq<nat>, at: nat)
    requires |row| == 18 && HasLengths(t, row, 0, 9, lengths, at) && HasLengths(t, row, 9, 18, lengths, at)
    ensures HasLengths(t, row, 0, 18, lengths, at)
  {
  }

  lemma Ac0Rowed()
    ensures Rowed(K5, [AC0_1, AC0_2, AC0_3, AC0_4, AC0_5, AC0_6, AC0_7, AC0_8, AC0_9], AC0_LENGTHS)
  {
    assert |AC0_LENGTHS| == 54;
    hide *;
    Ac0Row1a();
    Ac0Row1b();
    Ac0Row1Rises();
    HalvesJoin(K5, AC0_1, AC0_LENGTHS, 0);
    Ac0Row2a();
    Ac0Row2b();
    Ac0Row2Rises();
    HalvesJoin(K5, AC0_2, AC0_LENGTHS, 18);
    Ac0Row3a();
    Ac0Row3b();
    Ac0Row3Rises();
    HalvesJoin(K5, AC0_3, AC0_LENGTHS, 36);
    Ac0Row4();
    Ac0Row5();
    Ac0Row6();
    Ac0Row7();
    Ac0Row8();
    Ac0Row9();
    RowedIf(K5, AC0_1, AC0_2, AC0_3, AC0_4, AC0_5, AC0_6, AC0_7, AC0_8, AC0_9, AC0_LENGTHS);
  }

  lemma Ac1Rowed()
    ensures Rowed(K6, [AC1_1, AC1_2, AC1_3, AC1_4, AC1_5, AC1_6, AC1_7, AC1_8, AC1_9], AC1_LENGTHS)
  {
    assert |AC1_LENGTHS| == 54;
    hide *;
    Ac1Row1a();
    Ac1Row1b();
    Ac1Row1Rises();
    HalvesJoin(K6, AC1_1, AC1_LENGTHS, 0);
    Ac1Row2a();
    Ac1Row2b();
    Ac1Row2Rises();
    HalvesJoin(K6, AC1_2, AC1_LENGTHS, 18);
    Ac1Row3a();
    Ac1Row3b();
    Ac1Row3Rises();
    HalvesJoin(K6, AC1_3, AC1_LENGTHS, 36);
    Ac1Row4();
    Ac1Row5();
    Ac1Row6();
    Ac1Row7();
    Ac1Row8();
    Ac1Row9();
    RowedIf(K6, AC1_1, AC1_2, AC1_3, AC1_4, AC1_5, AC1_6, AC1_7, AC1_8, AC1_9, AC1_LENGTHS);
  }

  /** How long the code word of entry k is. */
  function LengthAt(lengths: seq<nat>, k: nat): nat {
    if k < |lengths| then lengths[k] else 16
  }

  predicate SameLength(lengths: seq<nat>, k: nat) {
    k > 0 && LengthAt(lengths, k - 1) == LengthAt(lengths, k)
  }

  /** Where one row ends and the next one begins the order goes on. */
  ghost predicate Joined(rows: seq<seq<Byte>>, lengths: seq<nat>)
    requires |rows| == 9 && (forall r :: 0 <= r < 8 ==> |rows[r]| == 18) && |rows[8]| == 17
  {
    && (forall r :: 0 < r < 9 ==> SameLength(lengths, 18 * r) ==> rows[r - 1][17] < rows[r][0])
    && rows[8][16] < 0xFA
  }

  /** In a table of such rows each symbol has a code word of the length it should have, and those of one
      length are in order. */
  lemma RowedAt(t: Lengths, rows: seq<seq<Byte>>, lengths: seq<nat>, all: seq<Byte>, k: nat)
    requires Rowed(t, rows, lengths) && Joined(rows, lengths) && LengthOf(t, 0xFA) == 16 && k < 162
    requires all == rows[0] + rows[1] + rows[2] + (rows[3] + rows[4] + rows[5])
      + (rows[6] + rows[7] + rows[8]) + [0xFA]
    ensures |all| == 162 && LengthOf(t, all[k]) == LengthAt(lengths, k)
    ensures k > 0 && LengthAt(lengths, k - 1) == LengthAt(lengths, k) ==> all[k - 1] < all[k]
  {
    hide LengthOf;
    NineRows(rows, k);
    if k > 0 { NineRows(rows, k - 1); }
    var r, i := k / 18, k % 18;
    if k < 161 {
      InRow(t, rows, lengths, k);
      if k > 0 && i == 0 { assert (k - 1) / 18 == r - 1 && (k - 1) % 18 == 17 && k == 18 * r; }
      if i > 0 { assert (k - 1) / 18 == r && (k - 1) % 18 == i - 1; }
    }
  }

  lemma InRow(t: Lengths, rows: seq<seq<Byte>>, lengths: seq<nat>, k: nat)
    requires Rowed(t, rows, lengths) && k < 161
    ensures var r, i := k / 18, k % 18;
      && LengthOf(t, rows[r][i]) == LengthAt(lengths, k)
      && (i > 0 && LengthAt(lengths, k - 1) == LengthAt(lengths, k) ==> rows[r][i - 1] < rows[r][i])
  {
    hide LengthOf;
    var r, i := k / 18, k % 18;
    assert k == 18 * r + i;
    if r < 3 {
      assert HasLengths(t, rows[r], 0, 18, lengths, 18 * r) && Rises(rows[r], lengths, 18 * r);
    } else {
      assert Long(t, rows[r]);
    }
  }

  lemma Ac0Joined()
    ensures Joined([AC0_1, AC0_2, AC0_3, AC0_4, AC0_5, AC0_6, AC0_7, AC0_8, AC0_9], AC0_LENGTHS)
  {
  }

  lemma Ac0Last()
    ensures LengthOf(K5, 0xFA) == 16
  {
  }

  lemma Ac1Joined()
    ensures Joined([AC1_1, AC1_2, AC1_3, AC1_4, AC1_5, AC1_6, AC1_7, AC1_8, AC1_9], AC1_LENGTHS)
  {
  }

  lemma Ac1Last()
    ensures LengthOf(K6, 0xFA) == 16
  {
  }

  lemma SameLengthIs(lengths: seq<nat>, k: nat)
    ensures SameLength(lengths, k) <==> k > 0 && LengthAt(lengths, k - 1) == LengthAt(lengths, k)
  {
  }

  lemma Ac0Places(k: nat)
    requires k < 54
    ensures var l := AC0_LENGTHS[k];
      0 < l <= 16 && AC0_SHORTER[l] <= k < AC0_SHORTER[l] + AC0_COUNTS[l - 1] as nat
  {
  }

  lemma Ac0Place(k: nat)
    requires k < 162
    ensures |AC0_COUNTS| == 16 && |AC0_SHORTER| == |AC0_FIRST| == 17
    ensures var l := LengthAt(AC0_LENGTHS, k);
      0 < l <= 16 && AC0_SHORTER[l] <= k < AC0_SHORTER[l] + AC0_COUNTS[l - 1] as nat
  {
    assert |AC0_LENGTHS| == 54 && AC0_SHORTER[16] == 37 && AC0_COUNTS[15] == 125;
    hide AC0_LENGTHS, AC0_SHORTER, AC0_COUNTS;
    if k < 54 { Ac0Places(k); }
  }

  lemma Ac0Symbol(k: nat)
    requires k < 162
    ensures |AC0_SYMBOLS| == 162 && LengthOf(K5, AC0_SYMBOLS[k]) == LengthAt(AC0_LENGTHS, k)
    ensures SameLength(AC0_LENGTHS, k) ==> AC0_SYMBOLS[k - 1] < AC0_SYMBOLS[k]
  {
    var rows := [AC0_1, AC0_2, AC0_3, AC0_4, AC0_5, AC0_6, AC0_7, AC0_8, AC0_9];
    assert AC0_SYMBOLS == rows[0] + rows[1] + rows[2] + (rows[3] + rows[4] + rows[5])
      + (rows[6] + rows[7] + rows[8]) + [0xFA];
    hide *;
    Ac0Rowed();
    Ac0Joined();
    Ac0Last();
    hide LengthAt;
    RowedAt(K5, rows, AC0_LENGTHS, AC0_SYMBOLS, k);
    SameLengthIs(AC0_LENGTHS, k);
  }

  /** The AC table 0 of the segment is table K.5: entry k bears the code word that follows those of its
      length and of the shorter ones, its symbol has that length there, and symbols of one length are in
      order. */
  lemma Ac0Words(k: nat)
    requires k < 162
    ensures Sound(AC0.counts, AC0.symbols) && |TableOf(AC0)| == |AC0_SYMBOLS| == 162
    ensures |AC0_SHORTER| == |AC0_FIRST| == 17
    ensures var e, l := TableOf(AC0)[k], LengthOf(K5, AC0_SYMBOLS[k]);
      && 0 < l <= 16 && AC0_SHORTER[l] <= k
      && e == Entry(l, AC0_FIRST[l] + (k - AC0_SHORTER[l]), AC0_SYMBOLS[k])
      && (k > 0 && TableOf(AC0)[k - 1].len == l ==> TableOf(AC0)[k - 1].sym < e.sym)
  {
    hide *;
    Ac0Sound();
    Ac0Code(k);
    if k > 0 {
      Ac0Code(k - 1);
      SameLengthIs(AC0_LENGTHS, k);
    }
  }

  lemma Ac0Code(k: nat)
    requires k < 162
    ensures Sound(AC0.counts, AC0.symbols) && |TableOf(AC0)| == |AC0_SYMBOLS| == 162
    ensures |AC0_SHORTER| == |AC0_FIRST| == 17
    ensures var l := LengthAt(AC0_LENGTHS, k);
      && 0 < l <= 16 && AC0_SHORTER[l] <= k && LengthOf(K5, AC0_SYMBOLS[k]) == l
      && TableOf(AC0)[k] == Entry(l, AC0_FIRST[l] + (k - AC0_SHORTER[l]), AC0_SYMBOLS[k])
    ensures SameLength(AC0_LENGTHS, k) ==> AC0_SYMBOLS[k - 1] < AC0_SYMBOLS[k]
  {
    assert AC0.counts == AC0_COUNTS && AC0.symbols == AC0_SYMBOLS;
    hide *;
    Ac0Sound();
    Ac0Symbol(k);
    Ac0Place(k);
    var l := LengthAt(AC0_LENGTHS, k);
    Ac0Adds(l);
    CodeAt(AC0, l, k - AC0_SHORTER[l]);
  }

  lemma Ac1Places(k: nat)
    requires k < 54
    ensures var l := AC1_LENGTHS[k];
      0 < l <= 16 && AC1_SHORTER[l] <= k < AC1_SHORTER[l] + AC1_COUNTS[l - 1] as nat
  {
  }

  lemma Ac1Place(k: nat)
    requires k < 162
    ensures |AC1_COUNTS| == 16 && |AC1_SHORTER| == |AC1_FIRST| == 17
    ensures var l := LengthAt(AC1_LENGTHS, k);
      0 < l <= 16 && AC1_SHORTER[l] <= k < AC1_SHORTER[l] + AC1_COUNTS[l - 1] as nat
  {
    assert |AC1_LENGTHS| == 54 && AC1_SHORTER[16] == 43 && AC1_COUNTS[15] == 119;
    hide AC1_LENGTHS, AC1_SHORTER, AC1_COUNTS;
    if k < 54 { Ac1Places(k); }
  }

  lemma Ac1Symbol(k: nat)
    requires k < 162
    ensures |AC1_SYMBOLS| == 162 && LengthOf(K6, AC1_SYMBOLS[k]) == LengthAt(AC1_LENGTHS, k)
    ensures SameLength(AC1_LENGTHS, k) ==> AC1_SYMBOLS[k - 1] < AC1_SYMBOLS[k]
  {
    var rows := [AC1_1, AC1_2, AC1_3, AC1_4, AC1_5, AC1_6, AC1_7, AC1_8, AC1_9];
    assert AC1_SYMBOLS == rows[0] + rows[1] + rows[2] + (rows[3] + rows[4] + rows[5])
      + (rows[6] + rows[7] + rows[8]) + [0xFA];
    hide *;
    Ac1Rowed();
    Ac1Joined();
    Ac1Last();
    hide LengthAt;
    RowedAt(K6, rows, AC1_LENGTHS, AC1_SYMBOLS, k);
    SameLengthIs(AC1_LENGTHS, k);
  }

  /** The AC table 1 of the segment is table K.6: entry k bears the code word that follows those of its
      length and of the shorter ones, its symbol has that length there, and symbols of one length are in
      order. */
  lemma Ac1Words(k: nat)
    requires k < 162
    ensures Sound(AC1.counts, AC1.symbols) && |TableOf(AC1)| == |AC1_SYMBOLS| == 162
    ensures |AC1_SHORTER| == |AC1_FIRST| == 17
    ensures var e, l := TableOf(AC1)[k], LengthOf(K6, AC1_SYMBOLS[k]);
      && 0 < l <= 16 && AC1_SHORTER[l] <= k
      && e == Entry(l, AC1_FIRST[l] + (k - AC1_SHORTER[l]), AC1_SYMBOLS[k])
      && (k > 0 && TableOf(AC1)[k - 1].len == l ==> TableOf(AC1)[k - 1].sym < e.sym)
  {
    hide *;
    Ac1Sound();
    Ac1Code(k);
    if k > 0 {
      Ac1Code(k - 1);
      SameLengthIs(AC1_LENGTHS, k);
    }
  }

  lemma Ac1Code(k: nat)
    requires k < 162
    ensures Sound(AC1.counts, AC1.symbols) && |TableOf(AC1)| == |AC1_SYMBOLS| == 162
    ensures |AC1_SHORTER| == |AC1_FIRST| == 17
    ensures var l := LengthAt(AC1_LENGTHS, k);
      && 0 < l <= 16 && AC1_SHORTER[l] <= k && LengthOf(K6, AC1_SYMBOLS[k]) == l
      && TableOf(AC1)[k] == Entry(l, AC1_FIRST[l] + (k - AC1_SHORTER[l]), AC1_SYMBOLS[k])
    ensures SameLength(AC1_LENGTHS, k) ==> AC1_SYMBOLS[k - 1] < AC1_SYMBOLS[k]
  {
    assert AC1.counts == AC1_COUNTS && AC1.symbols == AC1_SYMBOLS;
    hide *;
    Ac1Sound();
    Ac1Symbol(k);
    Ac1Place(k);
    var l := LengthAt(AC1_LENGTHS, k);
    Ac1Adds(l);
    CodeAt(AC1, l, k - AC1_SHORTER[l]);
  }
}
