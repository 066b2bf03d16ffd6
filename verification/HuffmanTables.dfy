// The four lookup tables of getFrameSharpnessValue and the loops that fill them from a DHT segment.
module HuffmanTables {
  import opened Bits
  import opened CanonicalCode

  const TABLES := 4
  const ENTRIES := 162

  /** What dht_lookup_bitlen, _bits, _mask and _code hold at one place. */
  datatype Slot = Slot(bitlen: nat, bits: Word, mask: Word, code: Byte) {
    /** The slot holds the entry e: its code left-aligned, and the mask of its length. */
    ghost predicate Holds(e: Entry) {
      e.len <= 16 && this == Slot(e.len, Shl(OfNat(e.code), 32 - e.len), TopMask(e.len), e.sym)
    }
  }

  ghost predicate AllShort(tables: seq<seq<Entry>>) {
    forall i :: 0 <= i < |tables| ==> Short(tables[i])
  }

  /** Row `tab` of the lookup arrays holds one table; sizes[tab] slots of it are in use. */
  class Tables {
    const slots: array2<Slot>
    const sizes: array<nat>
    ghost var content: seq<seq<Entry>>
    ghost const Repr: set<object> := {this, slots, sizes}

    ghost predicate Shape()
      reads this
    {
      slots.Length0 == sizes.Length == |content| == TABLES && slots.Length1 == ENTRIES
    }

    ghost predicate Valid()
      reads Repr
    {
      Shape() && AllShort(content) && forall tab :: 0 <= tab < TABLES ==> RowValid(tab)
    }

    ghost predicate RowValid(tab: nat)
      reads Repr
      requires Shape() && tab < TABLES
    {
      && sizes[tab] == |content[tab]| <= ENTRIES
      && Prefix(tab, content[tab], |content[tab]|)
    }

    /** Row tab starts with the first k entries of t. */
    ghost predicate Prefix(tab: nat, t: seq<Entry>, k: nat)
      reads this, slots
      requires Shape() && tab < TABLES && k <= |t| <= ENTRIES
    {
      forall i :: 0 <= i < k ==> slots[tab, i].Holds(t[i])
    }

    constructor ()
      ensures Valid() && fresh(Repr) && content == [[], [], [], []]
    {
      slots := new Slot[TABLES, ENTRIES];
      sizes := new nat[TABLES](_ => 0);
      content := [[], [], [], []];
    }

    /** Every table but `tab` is intact. */
    ghost predicate OthersValid(tab: nat)
      reads Repr
      requires Shape()
    {
      forall r :: 0 <= r < TABLES && r != tab ==> RowValid(r)
    }

    /** Table `tab` is being filled with t and k entries are in place. */
    ghost predicate Filling(tab: nat, t: seq<Entry>, k: nat)
      reads Repr
    {
      && Shape() && AllShort(content) && tab < TABLES && k <= |t| <= ENTRIES
      && OthersValid(tab) && Prefix(tab, t, k)
    }

    /** Writes entry `ind` of table `tab`, on its way to hold t. */
    method Store(tab: nat, ind: nat, len: nat, codeVal: nat, sym: Byte, ghost t: seq<Entry>)
      requires Filling(tab, t, ind) && ind < |t| && t[ind] == Entry(len, codeVal, sym) && len <= 16
      modifies slots
      ensures Filling(tab, t, ind + 1)
    {
      slots[tab, ind] :=
        Slot(len, Shl(OfNat(codeVal), 32 - len), Shl(OfNat(Pow2(len) - 1), 32 - len), sym);
      forall r | 0 <= r < TABLES && r != tab ensures RowValid(r) { assert old(RowValid(r)); }
    }

    /** Records the size of a table whose entries are all in place. */
    method StoreSize(tab: nat, size: nat, ghost t: seq<Entry>)
      requires Filling(tab, t, size) && size == |t| && Short(t)
      modifies sizes, this`content
      ensures Valid() && content == old(content)[tab := t]
    {
      sizes[tab] := size;
      content := content[tab := t];
      forall r | 0 <= r < TABLES ensures RowValid(r) { assert r != tab ==> old(RowValid(r)); }
    }

    /** The inner loop: `count` codes of length len. */
    method FillLength(tab: nat, len: nat, count: nat, start: nat, startCode: nat, syms: seq<Byte>,
                      ghost lens: seq<nat>, ghost t: seq<Entry>)
      returns (tableInd: nat, codeVal: nat)
      requires Ascending(lens) && |lens| <= |syms| && t == Assign(lens, syms) && len <= 16
      requires start + count <= |lens| && forall k :: start <= k < start + count ==> lens[k] == len
      requires startCode == Expected(t, start, len) && Filling(tab, t, start)
      modifies slots
      ensures tableInd == start + count && codeVal == Expected(t, tableInd, len)
      ensures Filling(tab, t, tableInd)
    {
      tableInd, codeVal := start, startCode;
      for indCode := 0 to count
        invariant tableInd == start + indCode && codeVal == Expected(t, tableInd, len)
        invariant Filling(tab, t, tableInd)
      {
        ExpectedIsCode(lens, syms, t, tableInd, len);
        Store(tab, tableInd, len, codeVal, syms[tableInd], t);
        tableInd, codeVal := tableInd + 1, codeVal + 1;
      }
    }

    /** The outer loop over the 16 code lengths: fills table `tab` from its counts and symbols. */
    method Fill(tab: nat, counts: seq<Byte>, syms: seq<Byte>) returns (size: nat)
      requires Valid() && tab < TABLES && |counts| == 16
      requires |Sizes(counts)| <= ENTRIES && |Sizes(counts)| <= |syms|
      modifies slots, sizes, this`content
      ensures size == |Sizes(counts)|
      ensures Valid() && content == old(content)[tab := Table(counts, syms)]
    {
      SizesAscending(counts);
      ghost var ends := SizesLayout(counts);
      ghost var lens := Sizes(counts);
      ghost var t := Assign(lens, syms);
      var tableInd, codeVal := 0, 0;
      for len := 1 to 17
        invariant tableInd == ends[len - 1] <= |t| && codeVal == Expected(t, tableInd, len)
        invariant tableInd > 0 ==> lens[tableInd - 1] < len
        invariant content == old(content) && Filling(tab, t, tableInd)
      {
        var count := counts[len - 1] as nat;
        assert Block(counts, lens, ends, len - 1);
        tableInd, codeVal := FillLength(tab, len, count, tableInd, codeVal, syms, lens, t);
        ExpectedShift(t, tableInd, len);
        codeVal := 2 * codeVal;
      }
      StoreSize(tab, tableInd, t);
      size := tableInd;
    }

    /** The table number of a DHT table header: 0 and 2 are DC tables, 1 and 3 are AC tables. */
    static function TableIndex(header: Byte): nat {
      header as nat % 16 * 2 + header as nat / 16
    }

    /** Parses the table description at pos and returns the position behind it. */
    method ReadDefinition(buffer: seq<Byte>, pos: nat) returns (pos2: nat)
      requires Valid() && DefinitionAt(buffer, pos)
      modifies slots, sizes, this`content
      ensures Valid() && pos2 == DefinitionEnd(buffer, pos)
      ensures content == Defined(old(content), buffer, pos)
    {
      var n := Fill(TableIndex(buffer[pos]), buffer[pos + 1..pos + 17], buffer[pos + 17..]);
      pos2 := pos + 17 + n;
    }

    /** The do-while loop over the tables of one segment body. */
    method ReadSegment(buffer: seq<Byte>)
      requires Valid() && SegmentAt(buffer, 0)
      modifies slots, sizes, this`content
      ensures Valid() && content == SegmentTables(old(content), buffer, 0)
    {
      var pos := ReadDefinition(buffer, 0);
      while pos < |buffer|
        invariant Valid() && pos <= |buffer| && (pos < |buffer| ==> SegmentAt(buffer, pos))
        invariant SegmentTables(old(content), buffer, 0)
          == if pos < |buffer| then SegmentTables(content, buffer, pos) else content
      {
        pos := ReadDefinition(buffer, pos);
      }
    }
  }

  /** Section B.2.4.2: the class, 0 for DC and 1 for AC, is in the high nibble of a table header, and the
      number of the table in the low one. */
  lemma TableNumber(kind: nat, number: nat)
    requires kind < 16 && number < 16
    ensures Tables.TableIndex((16 * kind + number) as Byte) == 2 * number + kind
  {
  }

  // ----- section B.2.4.2: the body of a DHT segment is a list of table definitions

  /** A definition the lookup arrays have room for lies at pos. */
  ghost predicate DefinitionAt(buffer: seq<Byte>, pos: nat) {
    && pos + 17 <= |buffer| && Tables.TableIndex(buffer[pos]) < TABLES
    && |Sizes(buffer[pos + 1..pos + 17])| <= ENTRIES
    && DefinitionEnd(buffer, pos) <= |buffer|
  }

  ghost function DefinitionEnd(buffer: seq<Byte>, pos: nat): nat
    requires pos + 17 <= |buffer|
  {
    pos + 17 + |Sizes(buffer[pos + 1..pos + 17])|
  }

  ghost function Defined(tables: seq<seq<Entry>>, buffer: seq<Byte>, pos: nat): seq<seq<Entry>>
    requires DefinitionAt(buffer, pos) && |tables| == TABLES
  {
    tables[Tables.TableIndex(buffer[pos]) := Table(buffer[pos + 1..pos + 17], buffer[pos + 17..])]
  }

  ghost predicate SegmentAt(buffer: seq<Byte>, pos: nat)
    decreases |buffer| - pos
  {
    && DefinitionAt(buffer, pos)
    && (DefinitionEnd(buffer, pos) == |buffer| || SegmentAt(buffer, DefinitionEnd(buffer, pos)))
  }

  /** The tables after a segment: each definition replaces the table it names. */
  ghost function SegmentTables(tables: seq<seq<Entry>>, buffer: seq<Byte>, pos: nat): seq<seq<Entry>>
    requires SegmentAt(buffer, pos) && |tables| == TABLES
    decreases |buffer| - pos
  {
    var next := Defined(tables, buffer, pos);
    if DefinitionEnd(buffer, pos) == |buffer| then next
    else SegmentTables(next, buffer, DefinitionEnd(buffer, pos))
  }

  // ----- the running code value

  /** code_val while codes of length len are being assigned and k entries are done. */
  ghost function Expected(t: seq<Entry>, k: nat, len: nat): nat
    requires k <= |t|
  {
    if k == 0 || t[k - 1].len > len then 0 else NextCode(t[k - 1].code, t[k - 1].len, len)
  }

  lemma ExpectedShift(t: seq<Entry>, k: nat, len: nat)
    requires k <= |t| && (k > 0 ==> t[k - 1].len <= len)
    ensures Expected(t, k, len + 1) == 2 * Expected(t, k, len)
  {
    if k > 0 { NextCodeShift(t[k - 1].code, t[k - 1].len, len); }
  }

  /** An entry of length len gets the expected code, and one more is expected behind it. */
  lemma ExpectedIsCode(lens: seq<nat>, syms: seq<Byte>, t: seq<Entry>, k: nat, len: nat)
    requires Ascending(lens) && |lens| <= |syms| && t == Assign(lens, syms)
    requires k < |lens| && lens[k] == len
    ensures t[k] == Entry(len, Expected(t, k, len), syms[k])
    ensures Expected(t, k + 1, len) == Expected(t, k, len) + 1
  {
    NextCodeShift(Code(lens, k), len, len);
  }
}
