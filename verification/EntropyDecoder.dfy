// The bit reservoir, readXC, readTable and the MCU loop of getFrameSharpnessValue.
module EntropyDecoder {
  import opened Bits
  import opened CanonicalCode
  import opened HuffmanTables
  import opened Stuffing

  /** HUFF_EXTEND, section F.2.2.1 of ITU-T T.81. For no bits at all the value is 0. */
  function Extend(x: nat, s: nat): int {
    if s == 0 then 0
    else if x < Pow2(s - 1) then x - Pow2(s) + 1
    else x
  }

  // ----- what the decoder computes, as functions of the bit stream

  /** 64 coefficients in zigzag order, and the position of the first bit behind them. */
  datatype Decoded<T> = Bad | Good(value: T, next: nat)

  /** No DC symbol asks for more than the 16 bits that the mask table covers. */
  ghost predicate DcTable(t: seq<Entry>) {
    Short(t) && forall k :: 0 <= k < |t| ==> t[k].sym <= 16
  }

  /** One symbol of the AC loop: j coefficients are done and c holds what was read so far. */
  datatype AcStep = Fail | Next(j: nat, c: seq<int>, p: nat, eob: bool)

  /** What the run/size symbol does; its extra bits start at q. */
  function ApplySymbol(sym: nat, s: Stream, q: nat, j: nat, c: seq<int>): (r: AcStep)
    requires |c| == 64 && j < 63
    ensures r.Next? ==> j <= r.j <= 63 && |r.c| == 64 && r.c[0] == c[0] && (!r.eob ==> j < r.j)
  {
    var repeat, val := sym / 16, sym % 16;
    if val == 0 then
      if repeat != 15 then Next(j, c, q, true)
      else if j + 16 <= 63 then Next(j + 16, c, q, false)
      else Fail
    else
      var i := j + repeat + 1;
      if i > 63 then Fail
      else Next(i, c[i := Extend(Value(Window(s, q, val)), val)], q + val, false)
  }

  function StepAc(ac: seq<Entry>, s: Stream, p: nat, j: nat, c: seq<int>): (r: AcStep)
    requires Short(ac) && |c| == 64 && j < 63
    ensures r.Next? ==> j <= r.j <= 63 && |r.c| == 64 && r.c[0] == c[0] && (!r.eob ==> j < r.j)
  {
    match Search(ac, 0, Window(s, p, 16))
    case None => Fail
    case Some(e) => ApplySymbol(e.sym as nat, s, p + e.len, j, c)
  }

  /** The AC loop. */
  function ReadAc(ac: seq<Entry>, s: Stream, p: nat, j: nat, c: seq<int>): (r: Decoded<seq<int>>)
    requires Short(ac) && |c| == 64 && j <= 63
    ensures r.Good? ==> |r.value| == 64 && r.value[0] == c[0]
    decreases 63 - j, c
  {
    if j == 63 then Good(c, p)
    else match StepAc(ac, s, p, j, c)
      case Fail => Bad
      case Next(j', c', p', eob) => if eob then Good(c', p') else ReadAc(ac, s, p', j', c')
  }

  lemma AcBehindStep(ac: seq<Entry>, s: Stream, p: nat, j: nat, c: seq<int>)
    requires Short(ac) && |c| == 64 && j < 63
    ensures ReadAc(ac, s, p, j, c) == match StepAc(ac, s, p, j, c)
      case Fail => Bad
      case Next(j', c', p', eob) => if eob then Good(c', p') else ReadAc(ac, s, p', j', c')
  {
  }

  function Zeroes(dc: int): (c: seq<int>)
    ensures |c| == 64
  {
    [dc] + seq(63, _ => 0)
  }

  /** The DC difference: its size as a Huffman code, then that many bits. */
  function ReadDiff(dc: seq<Entry>, s: Stream, p: nat): Decoded<int>
    requires Short(dc)
  {
    match Search(dc, 0, Window(s, p, 16))
    case None => Bad
    case Some(e) =>
      var q, size := p + e.len, e.sym as nat;
      Good(Extend(Value(Window(s, q, size)), size), q + size)
  }

  /** One block: the DC difference, then the AC coefficients. */
  function ReadBlock(dc: seq<Entry>, ac: seq<Entry>, s: Stream, p: nat, pred: int)
    : (r: Decoded<seq<int>>)
    requires Short(dc) && Short(ac)
    ensures r.Good? ==> |r.value| == 64
  {
    match ReadDiff(dc, s, p)
    case Bad => Bad
    case Good(diff, q) => ReadAc(ac, s, q, 0, Zeroes(pred + diff))
  }

  lemma BlockBehindDiff(dc: seq<Entry>, ac: seq<Entry>, s: Stream, p: nat, pred: int,
                        diff: int, q: nat, c: seq<int>)
    requires Short(dc) && Short(ac) && ReadDiff(dc, s, p) == Good(diff, q) && c == Zeroes(pred + diff)
    ensures ReadBlock(dc, ac, s, p, pred) == ReadAc(ac, s, q, 0, c)
  {
  }

  datatype Preds = Preds(y: int, cr: int, cb: int)
  datatype Mcu = Mcu(y0: seq<int>, y1: seq<int>, cr: seq<int>, cb: seq<int>)

  /** Table numbers: the luminance tables come from the scan header, the others are 2 and 3. */
  datatype Selection = Selection(dcY: nat, acY: nat) {
    ghost predicate Usable(t: seq<seq<Entry>>) {
      && |t| == TABLES && dcY < TABLES && acY < TABLES
      && DcTable(t[dcY]) && Short(t[acY]) && DcTable(t[2]) && Short(t[3])
    }
  }

  /** Two luminance blocks that share a predictor, then one block of each colour component. */
  ghost function ReadMcu(t: seq<seq<Entry>>, sel: Selection, s: Stream, p: nat, preds: Preds)
    : (r: Decoded<Mcu>)
    requires sel.Usable(t)
    ensures r.Good? ==> |r.value.y1| == |r.value.cr| == |r.value.cb| == 64
  {
    match ReadBlock(t[sel.dcY], t[sel.acY], s, p, preds.y)
    case Bad => Bad
    case Good(y0, p1) =>
      match ReadBlock(t[sel.dcY], t[sel.acY], s, p1, y0[0])
      case Bad => Bad
      case Good(y1, p2) =>
        match ReadBlock(t[2], t[3], s, p2, preds.cr)
        case Bad => Bad
        case Good(cr, p3) =>
          match ReadBlock(t[2], t[3], s, p3, preds.cb)
          case Bad => Bad
          case Good(cb, p4) =>
            Good(Mcu(y0, y1, cr, cb), p4)
  }

  /** n more MCUs behind the ones already decoded. */
  ghost function ReadMcus(t: seq<seq<Entry>>, sel: Selection, s: Stream, p: nat, preds: Preds,
                          n: nat, done: seq<Mcu>): Decoded<seq<Mcu>>
    requires sel.Usable(t)
    decreases n
  {
    if n == 0 then Good(done, p)
    else match ReadMcu(t, sel, s, p, preds)
      case Bad => Bad
      case Good(m, q) =>
        ReadMcus(t, sel, s, q, Preds(m.y1[0], m.cr[0], m.cb[0]), n - 1, done + [m])
  }

  // ----- the decoder itself

  class Scan {
    const mem: seq<Byte>
    const tables: Tables
    ghost const codes: seq<seq<Entry>>
    ghost const stream: Stream
    var pos: nat
    var data: Word
    var bitlen: nat
    var bitsUsed: nat
    ghost var loads: nat
    ghost var used: nat

    /** data holds the next bitlen bits of the stream, left-aligned, with zeros below. */
    ghost predicate Reservoir()
      reads this`pos, this`data, this`bitlen, this`loads, this`used
    {
      && pos == Loads(mem, loads).pos
      && used + bitlen == 8 * |Loads(mem, loads).bytes|
      && Holds()
    }

    ghost predicate Holds()
      reads this`data, this`bitlen, this`used
    {
      stream == StreamOf(mem) && bitlen <= 32 && data == Window(stream, used, bitlen) + Zeros(32 - bitlen)
    }

    ghost predicate Valid()
      reads this`pos, this`data, this`bitlen, this`loads, this`used, tables.Repr
    {
      && this !in tables.Repr && tables.Valid() && tables.content == codes
      && Reservoir() && bitlen <= 31
    }

    /** The first two bytes of the scan are loaded without unstuffing. */
    constructor (mem: seq<Byte>, tables: Tables)
      requires tables.Valid()
      ensures this.mem == mem && this.tables == tables && codes == tables.content
      ensures stream == StreamOf(mem)
      ensures Valid() && used == 0 && bitlen == 16
    {
      this.mem, this.tables, codes := mem, tables, tables.content;
      stream := StreamOf(mem);
      pos, bitlen, bitsUsed := 2, 16, 0;
      data := Or(Shl(OfNat(At(mem, 0) as nat), 24), Shl(OfNat(At(mem, 1) as nat), 16));
      loads, used := 0, 0;
      new;
      FirstTwo(mem);
    }

    /** One byte at the low end of the valid bits. */
    method PutByte(uc: Byte, ghost i: nat)
      requires Holds() && bitlen <= 24
      requires used + bitlen == 8 * i && StreamByte(mem, i) == uc
      modifies this`data, this`bitlen
      ensures Holds() && bitlen == old(bitlen) + 8
    {
      hide StreamByte, StreamBit, StreamOf, Low, Pow2;
      var n := bitlen;
      OrByte(data, n, uc);
      data := Or(data, Shl(OfNat(uc as nat), 24 - n));
      bitlen := n + 8;
      WindowSplit(stream, used, n, 8);
      WindowByte(mem, i);
    }

    /** The byte behind an FF, without its stuffing. */
    method LoadBehindFF(ghost i: nat)
      requires Holds() && bitlen <= 24 && used + bitlen == 8 * i
      requires StreamByte(mem, i) == if At(mem, pos) == 0 then At(mem, pos + 1) else At(mem, pos)
      modifies this`data, this`bitlen, this`pos
      ensures Holds() && bitlen == old(bitlen) + 8
      ensures pos == if At(mem, old(pos)) == 0 then old(pos) + 2 else old(pos) + 1
    {
      var uc := At(mem, pos);
      pos := pos + 1;
      if uc == 0 {
        uc := At(mem, pos);
        pos := pos + 1;
      }
      PutByte(uc, i);
    }

    /** One iteration of the refill loop. */
    method LoadNext()
      requires Reservoir() && bitlen < 16
      modifies this`data, this`bitlen, this`pos, this`loads
      ensures Reservoir() && old(bitlen) < bitlen <= 31
    {
      ghost var next := LoadedByStep(mem, loads);
      var uc := At(mem, pos);
      pos := pos + 1;
      PutByte(uc, next.i);
      if uc == FF {
        LoadBehindFF(next.i + 1);
      }
      loads := loads + 1;
    }

    /** The refill loop, the same before and after a code is read. */
    method Refill()
      requires Reservoir() && bitlen <= 31
      modifies this`data, this`bitlen, this`pos, this`loads
      ensures Reservoir() && 16 <= bitlen <= 31
    {
      while bitlen < 16
        invariant Reservoir() && bitlen <= 31
      {
        LoadNext();
      }
    }

    /** `data << n; bitlen -= n`: n bits of the stream are used up. */
    method Consume(n: nat)
      requires Reservoir() && n <= bitlen
      modifies this`data, this`bitlen, this`used
      ensures Reservoir() && bitlen == old(bitlen) - n && used == old(used) + n
    {
      hide Window, StreamOf, Loads;
      WindowSplit(stream, used, n, bitlen - n);
      data := Shl(data, n);
      bitlen := bitlen - n;
      used := used + n;
    }

    /** The next s bits as a number. */
    method TakeBits(s: nat) returns (v: nat)
      requires Reservoir() && s <= 16 <= bitlen <= 31
      modifies this`data, this`bitlen, this`used
      ensures Reservoir() && bitlen == old(bitlen) - s && used == old(used) + s
      ensures v == Value(Window(stream, old(used), s))
    {
      hide Value, Low, Sar, And, Pow2;
      v := Value(And(Sar(data, 32 - s), OfNat(Pow2(s) - 1)));
      TopBits(data, s);
      WindowSplit(stream, used, s, bitlen - s);
      assert data[..s] == Window(stream, used, s);
      Consume(s);
    }

    /** The search loop: -1, or a symbol and in bitsUsed the length of its code. */
    method FindCode(tab: nat) returns (res: int)
      requires Valid() && 16 <= bitlen && tab < TABLES
      modifies this`bitsUsed
      ensures match Search(codes[tab], 0, Window(stream, used, 16))
        case None => res == -1
        case Some(e) => res == e.sym as int && bitsUsed == e.len <= 16
    {
      ghost var t, w := codes[tab], Window(stream, used, 16);
      WindowSplit(stream, used, 16, bitlen - 16);
      assert data[..16] == w;
      assert tables.RowValid(tab);
      var ind, done := 0, false;
      res := -1;
      while !done
        invariant !done ==> (ind == 0 || ind < |t|) && Search(t, ind, w) == Search(t, 0, w)
        invariant done ==> exists e :: Search(t, 0, w) == Some(e) && res == e.sym as int && bitsUsed == e.len
        decreases if done then 0 else 1 + |t| - ind
      {
        var slot := tables.slots[tab, ind];
        if ind < |t| { MatchesInData(data, slot, t[ind], w); }
        if And(data, slot.mask) == slot.bits {
          res := slot.code as int;
          bitsUsed := slot.bitlen;
          done := true;
        }
        ind := ind + 1;
        if ind >= tables.sizes[tab] {
          return -1;
        }
      }
      SearchMeaning(t, 0, w);
    }

    /** One Huffman code: the symbol, or -1. */
    method ReadXC(tab: nat) returns (res: int)
      requires Valid() && tab < TABLES
      modifies this
      ensures Valid() && -1 <= res < 256 && (res >= 0 ==> 16 <= bitlen)
      ensures match Search(codes[tab], 0, Window(stream, old(used), 16))
        case None => res == -1
        case Some(e) => res == e.sym as int && used == old(used) + e.len
    {
      hide Search, Window;
      Refill();
      res := FindCode(tab);
      if res == -1 {
        return;
      }
      Consume(bitsUsed);
      Refill();
    }

    /** The table has room for coefficients beyond the 64 of a well-formed block. */
    method StoreCoefficient(table: array<int>, i: nat, v: int)
      requires i < table.Length == 128
      modifies table
      ensures table[..64] == if i < 64 then old(table[..64])[i := v] else old(table[..64])
    {
      table[i] := v;
    }

    /** The body of the AC loop behind its readXC. */
    method Apply(comb: nat, table: array<int>, j: nat) returns (j': nat, eob: bool)
      requires Valid() && 16 <= bitlen && j < 63 && comb < 256
      requires table.Length == 128 && table !in tables.Repr
      modifies this`data, this`bitlen, this`used, table
      ensures Valid()
      ensures match ApplySymbol(comb, stream, old(used), j, old(table[..64]))
        case Fail => j' > 63 && !eob
        case Next(k, c, p, e) => j' == k && eob == e && used == p && table[..64] == c
    {
      j', eob := j, false;
      var val, repeat := comb % 16, comb / 16;
      if val == 0 {
        if repeat == 15 {
          j' := j' + 16;
        } else {
          eob := true;
        }
      } else {
        j' := j' + repeat;
        var v := TakeBits(val);
        StoreCoefficient(table, j' + 1, Extend(v, val));
        j' := j' + 1;
      }
    }

    /** The body of the AC loop; -1 if there is no code. */
    method ReadAcSymbol(tabAC: nat, table: array<int>, j: nat) returns (rc: int, j': nat, eob: bool)
      requires Valid() && tabAC < TABLES && j < 63 && table.Length == 128 && table !in tables.Repr
      modifies this, table
      ensures Valid()
      ensures match StepAc(codes[tabAC], stream, old(used), j, old(table[..64]))
        case Fail => rc == -1 || (rc == 0 && j' > 63 && !eob)
        case Next(k, c, p, e) => rc == 0 && j' == k && eob == e && used == p && table[..64] == c
    {
      hide Search, ApplySymbol, Window, Reservoir;
      j', eob := j, false;
      rc := ReadXC(tabAC);
      if rc >= 0 {
        j', eob := Apply(rc, table, j);
        rc := 0;
      }
    }

    /** The AC loop. */
    method ReadAcs(tabAC: nat, table: array<int>) returns (rc: int)
      requires Valid() && tabAC < TABLES && table.Length == 128 && table !in tables.Repr
      modifies this, table
      ensures Valid()
      ensures match ReadAc(codes[tabAC], stream, old(used), 0, old(table[..64]))
        case Bad => rc == -1
        case Good(c, next) => rc == 0 && table[..64] == c && used == next
    {
      ghost var ac := codes[tabAC];
      ghost var goal := ReadAc(ac, stream, used, 0, table[..64]);
      var j, eob := 0, false;
      while j < 63 && !eob
        invariant Valid()
        invariant eob ==> j <= 63 && goal == Good(table[..64], used)
        invariant !eob ==> goal == if j <= 63 then ReadAc(ac, stream, used, j, table[..64]) else Bad
        decreases if j < 63 && !eob then 63 - j else 0
      {
        AcBehindStep(ac, stream, used, j, table[..64]);
        rc, j, eob := ReadAcSymbol(tabAC, table, j);
        if rc < 0 {
          return;
        }
      }
      rc := if j <= 63 then 0 else -1;
    }

    /** The DC coefficient of a block, into a cleared table. */
    method ReadDc(tabDC: nat, lastDC: int, table: array<int>) returns (rc: int, dc: int)
      requires Valid() && tabDC < TABLES && DcTable(codes[tabDC])
      requires table.Length == 128 && table !in tables.Repr
      modifies this, table
      ensures Valid()
      ensures match ReadDiff(codes[tabDC], stream, old(used))
        case Bad => rc == -1
        case Good(diff, next) =>
          rc == 0 && used == next && dc == lastDC + diff && table[..64] == Zeroes(dc)
    {
      hide Search, Window, Value, Low, Pow2;
      dc := lastDC;
      for k := 0 to 64
        modifies table
        invariant forall i :: 0 <= i < k ==> table[i] == 0
      {
        table[k] := 0;
      }
      SearchMeaning(codes[tabDC], 0, Window(stream, used, 16));
      var sizeVal := ReadXC(tabDC);
      if sizeVal < 0 {
        return -1, dc;
      }
      var v := TakeBits(sizeVal);
      dc := Extend(v, sizeVal) + dc;
      table[0] := dc;
      rc := 0;
    }

    /** readTable: decodes one block into table[..64] and returns the new DC predictor. */
    method ReadTable(tabDC: nat, tabAC: nat, lastDC: int, table: array<int>) returns (rc: int, dc: int)
      requires Valid() && tabDC < TABLES && tabAC < TABLES && DcTable(codes[tabDC])
      requires table.Length == 128 && table !in tables.Repr
      modifies this, table
      ensures Valid()
      ensures match ReadBlock(codes[tabDC], codes[tabAC], stream, old(used), lastDC)
        case Bad => rc == -1
        case Good(c, next) => rc == 0 && table[..64] == c && used == next && dc == c[0]
    {
      rc, dc := ReadDc(tabDC, lastDC, table);
      if rc == 0 {
        BlockBehindDiff(codes[tabDC], codes[tabAC], stream, old(used), lastDC, dc - lastDC, used, table[..64]);
        rc := ReadAcs(tabAC, table);
      }
    }

    /** The body of the MCU loop: four blocks, each with the predictor of its component. */
    method ReadOneMcu(sel: Selection, preds: Preds) returns (ok: bool, m: Mcu, preds': Preds)
      requires Valid() && sel.Usable(codes)
      modifies this
      ensures Valid()
      ensures match ReadMcu(codes, sel, stream, old(used), preds)
        case Bad => !ok
        case Good(mcu, next) =>
          ok && m == mcu && used == next && preds' == Preds(mcu.y1[0], mcu.cr[0], mcu.cb[0])
    {
      ok, m, preds' := false, Mcu([], [], [], []), preds;
      var table := new int[128];
      var rc, y, cr, cb;
      rc, y := ReadTable(sel.dcY, sel.acY, preds.y, table);
      if rc < 0 { return; }
      var y0 := table[..64];
      rc, y := ReadTable(sel.dcY, sel.acY, y, table);
      if rc < 0 { return; }
      var y1 := table[..64];
      rc, cr := ReadTable(2, 3, preds.cr, table);
      if rc < 0 { return; }
      var crs := table[..64];
      rc, cb := ReadTable(2, 3, preds.cb, table);
      if rc < 0 { return; }
      ok, m, preds' := true, Mcu(y0, y1, crs, table[..64]), Preds(y, cr, cb);
    }

    /** The MCU loop over a scan; what getFrameSharpnessValue adds to its sums is returned here. */
    method ReadScan(sel: Selection, cnt: nat) returns (ok: bool, mcus: seq<Mcu>)
      requires Valid() && sel.Usable(codes)
      modifies this
      ensures Valid()
      ensures match ReadMcus(codes, sel, stream, old(used), Preds(0, 0, 0), cnt, [])
        case Bad => !ok
        case Good(ms, next) => ok && mcus == ms && used == next
    {
      hide ReadMcu, DcTable, Short;
      ok, mcus := true, [];
      var preds := Preds(0, 0, 0);
      ghost var goal := ReadMcus(codes, sel, stream, used, preds, cnt, []);
      for i := 0 to cnt
        invariant Valid() && ok && goal == ReadMcus(codes, sel, stream, used, preds, cnt - i, mcus)
      {
        var m;
        ok, m, preds := ReadOneMcu(sel, preds);
        if !ok {
          return;
        }
        mcus := mcus + [m];
      }
    }
  }

  /** The masked comparison is the match of the first 16 bits. */
  lemma MatchesInData(data: Word, slot: Slot, e: Entry, w: seq<bool>)
    requires slot.Holds(e) && e.len <= 16 && w == data[..16]
    ensures And(data, slot.mask) == slot.bits <==> Matches(e, w)
  {
    MaskedCompare(data, e.code, e.len);
    assert data[..16][..e.len] == data[..e.len];
  }

  lemma FirstTwo(mem: seq<Byte>)
    ensures Or(Shl(OfNat(At(mem, 0) as nat), 24), Shl(OfNat(At(mem, 1) as nat), 16))
         == Window(StreamOf(mem), 0, 16) + Zeros(16)
  {
    var b0, b1 := At(mem, 0), At(mem, 1);
    var one := Shl(OfNat(b0 as nat), 24);
    assert one == Low(b0 as nat, 8) + Zeros(24) by { AlignedBits(b0 as nat, 8); }
    assert one[8..] == Zeros(24) && one[..8] == Low(b0 as nat, 8);
    OrByte(one, 8, b1);
    assert Window(StreamOf(mem), 0, 16) == Low(b0 as nat, 8) + Low(b1 as nat, 8) by {
      StreamIsLoaded(mem, 0, 0);
      StreamIsLoaded(mem, 0, 1);
      WindowByte(mem, 0);
      WindowByte(mem, 1);
      WindowSplit(StreamOf(mem), 0, 8, 8);
    }
  }
}
