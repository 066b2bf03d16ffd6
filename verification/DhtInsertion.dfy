// Inserting the standard Huffman tables into a camera's picture: is_huffman and memcpy_picture of the
// UVC input plugin.
module DhtInsertion {
  import opened Bits
  import opened StandardTables

  const SOF0: Byte := 0xC0
  const DHT: Byte := 0xC4
  const SOS: Byte := 0xDA

  /** The marker FF m stands at p. */
  predicate Marker(mem: seq<Byte>, p: nat, m: Byte) {
    p + 1 < |mem| && mem[p] == 0xFF && mem[p + 1] == m
  }

  /** No marker FF m starts before position n. */
  ghost predicate NoneBefore(mem: seq<Byte>, n: nat, m: Byte) {
    forall q :: 0 <= q < n ==> !Marker(mem, q, m)
  }

  /** A DHT marker lies among the first 2049 positions with no SOS marker before it. */
  ghost predicate HasTable(mem: seq<Byte>) {
    exists p :: 0 <= p <= 2048 && Marker(mem, p, DHT) && NoneBefore(mem, p, SOS)
  }

  /** The first start-of-frame marker at or after p; size, if there is none below size. */
  function FrameHeader(mem: seq<Byte>, size: nat, p: nat): (r: nat)
    requires p <= size
    ensures p <= r <= size
    decreases size - p
  {
    if p == size || Marker(mem, p, SOF0) then p else FrameHeader(mem, size, p + 1)
  }

  /** is_huffman looks at no byte behind the memory: it stops at a marker, or after 2051 bytes. */
  ghost predicate Ample(mem: seq<Byte>) {
    2051 <= |mem| || exists p :: 0 <= p < |mem| && (Marker(mem, p, SOS) || Marker(mem, p, DHT))
  }

  /** Nor does the search for the start-of-frame marker: it stops there, or one byte behind the size. */
  ghost predicate Searchable(mem: seq<Byte>, size: nat) {
    size + 2 <= |mem| || exists p :: 0 <= p < size && Marker(mem, p, SOF0)
  }

  /** The memory is readable as far as memcpy_picture looks for a picture of this size. */
  ghost predicate Readable(mem: seq<Byte>, size: nat) {
    size <= |mem| && Ample(mem) && (HasTable(mem) || Searchable(mem, size))
  }

  /** What memcpy_picture makes of the first size bytes of mem. */
  ghost function Picture(mem: seq<Byte>, size: nat): seq<Byte>
    requires Readable(mem, size)
  {
    if HasTable(mem) then mem[..size]
    else
      var p := FrameHeader(mem, size, 0);
      if p == size then [] else mem[..p] + Dht() + mem[p..size]
  }

  method IsHuffman(buf: array<Byte>) returns (yes: bool)
    requires Ample(buf[..])
    ensures yes <==> HasTable(buf[..])
  {
    var i := 0;
    while !(buf[i] == 0xFF && buf[i + 1] == SOS)
      invariant i <= 2049 && NoneBefore(buf[..], i, SOS) && NoneBefore(buf[..], i, DHT)
      decreases 2049 - i
    {
      if i > 2048 {
        return false;
      }
      if buf[i] == 0xFF && buf[i + 1] == DHT {
        assert Marker(buf[..], i, DHT);
        return true;
      }
      i := i + 1;
    }
    assert Marker(buf[..], i, SOS);
    return false;
  }

  /** One more byte of a copy. */
  lemma CopyStep(was: seq<Byte>, data: seq<Byte>, pos: nat, i: nat)
    requires i < |data| && pos + |data| <= |was|
    ensures (was[..pos] + data[..i] + was[pos + i..])[pos + i := data[i]] ==
      was[..pos] + data[..i + 1] + was[pos + i + 1..]
  {
  }

  method Copy(out: array<Byte>, pos: nat, data: seq<Byte>) returns (end: nat)
    requires pos + |data| <= out.Length
    modifies out
    ensures end == pos + |data| && out[..] == old(out[..pos]) + data + old(out[pos + |data|..])
  {
    ghost var was := out[..];
    for i := 0 to |data|
      invariant out[..] == was[..pos] + data[..i] + was[pos + i..]
    {
      CopyStep(was, data, pos, i);
      out[pos + i] := data[i];
    }
    end := pos + |data|;
  }

  /** The search for the start-of-frame marker. */
  method FindFrameHeader(buf: array<Byte>, size: nat) returns (cur: nat)
    requires Searchable(buf[..], size)
    ensures cur == FrameHeader(buf[..], size, 0)
  {
    cur := 0;
    while !(buf[cur] == 0xFF && buf[cur + 1] == SOF0) && cur < size
      invariant cur <= size && FrameHeader(buf[..], size, 0) == FrameHeader(buf[..], size, cur)
      invariant NoneBefore(buf[..], cur, SOF0)
    {
      cur := cur + 1;
    }
  }

  /** Overwriting the bytes behind a with d. */
  lemma Spliced(a: seq<Byte>, b: seq<Byte>, d: seq<Byte>)
    requires |d| <= |b|
    ensures (a + b)[..|a|] + d + (a + b)[|a| + |d|..] == a + d + b[|d|..]
  {
    assert (a + b)[..|a|] == a;
    assert (a + b)[|a| + |d|..] == b[|d|..];
  }

  /** Three copies: what comes before the marker, the table, and the rest. */
  method SpliceIn(out: array<Byte>, buf: array<Byte>, cur: nat, size: nat)
    requires out != buf && cur <= size <= buf.Length && size + 420 <= out.Length
    modifies out
    ensures out[..] == buf[..cur] + Dht() + buf[cur..size] + old(out[size + 420..])
  {
    hide *;
    ghost var was, front := out[..], buf[..cur];
    var pos := Copy(out, 0, buf[..cur]);
    assert out[..] == front + was[cur..];
    pos := Copy(out, pos, Dht());
    assert out[..] == front + Dht() + was[cur + 420..] by { Spliced(front, was[cur..], Dht()); }
    pos := Copy(out, pos, buf[cur..size]);
    Spliced(front + Dht(), was[cur + 420..], buf[cur..size]);
  }

  /** A buffer of n bytes takes what comes out: the picture as it is, or with 420 more bytes. */
  ghost predicate Room(mem: seq<Byte>, size: nat, n: nat) {
    if HasTable(mem) then size <= n else NoneBefore(mem, size, SOF0) || size + 420 <= n
  }

  /** memcpy_picture; bytes of out behind the picture stay as they are. */
  method MemcpyPicture(out: array<Byte>, buf: array<Byte>, size: nat) returns (pos: nat)
    requires out != buf && Readable(buf[..], size) && Room(buf[..], size, out.Length)
    modifies out
    ensures pos == |Picture(buf[..], size)| <= out.Length
    ensures out[..] == Picture(buf[..], size) + old(out[pos..])
  {
    FrameHeaderIsFirst(buf[..], size, 0);
    hide HasTable, FrameHeader, SegmentBody, Dht;
    pos := 0;
    var found := IsHuffman(buf);
    if !found {
      var cur := FindFrameHeader(buf, size);
      if cur >= size {
        return;
      }
      SpliceIn(out, buf, cur, size);
      pos := size + 420;
    } else {
      pos := Copy(out, pos, buf[..size]);
    }
  }

  // ----- what the insertion promises

  lemma {:induction false} FrameHeaderIsFirst(mem: seq<Byte>, size: nat, p: nat)
    requires p <= size
    ensures var r := FrameHeader(mem, size, p);
      (r < size ==> Marker(mem, r, SOF0)) && forall q :: p <= q < r ==> !Marker(mem, q, SOF0)
    decreases size - p
  {
    if p < size && !Marker(mem, p, SOF0) { FrameHeaderIsFirst(mem, size, p + 1); }
  }

  /** The copies stay inside an output buffer of n bytes iff the picture has its own table and fits, or
      there is no start-of-frame marker, or there is room for 420 bytes more. */
  lemma RoomIff(mem: seq<Byte>, size: nat, n: nat)
    requires Readable(mem, size)
    ensures |Picture(mem, size)| <= n <==> Room(mem, size, n)
  {
    FrameHeaderIsFirst(mem, size, 0);
    hide HasTable, FrameHeader, SegmentBody, Dht;
    if NoneBefore(mem, size, SOF0) {
      assert FrameHeader(mem, size, 0) == size;
    }
  }

  /** Where the table goes in, if it goes in at all. */
  ghost predicate Splices(mem: seq<Byte>, size: nat, p: nat)
    requires Readable(mem, size)
  {
    !HasTable(mem) && p < size && p == FrameHeader(mem, size, 0)
  }

  /** Up to and including the first byte of the inserted table nothing has changed. */
  lemma SameMarkers(mem: seq<Byte>, size: nat, p: nat, tail: seq<Byte>, q: nat, m: Byte)
    requires Readable(mem, size) && Splices(mem, size, p) && q < p
    ensures Marker(Picture(mem, size) + tail, q, m) <==> Marker(mem, q, m)
  {
    FrameHeaderIsFirst(mem, size, 0);
  }

  /** The output is recognised as having a table iff the table went in early enough: at one of the
      first 2049 positions and before any SOS marker. */
  lemma OutputHasTableIff(mem: seq<Byte>, size: nat, p: nat, tail: seq<Byte>)
    requires Readable(mem, size) && Splices(mem, size, p)
    ensures HasTable(Picture(mem, size) + tail) <==> p <= 2048 && NoneBefore(mem, p, SOS)
  {
    var out := Picture(mem, size) + tail;
    assert Marker(out, p, DHT);
    forall q, m: Byte | 0 <= q < p ensures Marker(out, q, m) <==> Marker(mem, q, m) {
      SameMarkers(mem, size, p, tail, q, m);
    }
    hide Dht, FrameHeader, Marker;
    if p <= 2048 && NoneBefore(mem, p, SOS) {
      assert NoneBefore(out, p, SOS);
    }
    if HasTable(out) {
      var k :| 0 <= k <= 2048 && Marker(out, k, DHT) && NoneBefore(out, k, SOS);
      if k < p {
        assert false;
      }
    }
  }

  /** Nothing comes out exactly if there is neither a table nor a start-of-frame marker to put one in
      front of, or nothing went in. */
  lemma EmptyIff(mem: seq<Byte>, size: nat)
    requires Readable(mem, size)
    ensures Picture(mem, size) == [] <==> size == 0 || (!HasTable(mem) && NoneBefore(mem, size, SOF0))
  {
    FrameHeaderIsFirst(mem, size, 0);
    hide SegmentBody, Dht, HasTable, FrameHeader;
    if !HasTable(mem) && NoneBefore(mem, size, SOF0) {
      assert FrameHeader(mem, size, 0) == size;
    }
  }

  /** A second pass over the output changes nothing iff the first one put the table in early enough. */
  lemma SecondPassIff(mem: seq<Byte>, size: nat, p: nat, tail: seq<Byte>)
    requires Readable(mem, size) && Splices(mem, size, p)
    requires Readable(Picture(mem, size) + tail, |Picture(mem, size)|)
    ensures Picture(Picture(mem, size) + tail, |Picture(mem, size)|) == Picture(mem, size)
      <==> p <= 2048 && NoneBefore(mem, p, SOS)
  {
    var out := Picture(mem, size);
    var again := out + tail;
    OutputHasTableIff(mem, size, p, tail);
    assert |out| >= 420;
    hide Splices, SegmentBody, Dht, FrameHeader, HasTable;
    assert again[..|out|] == out;
    if !HasTable(again) {
      var k := FrameHeader(again, |out|, 0);
      assert Picture(again, |out|) == [] || |Picture(again, |out|)| == |out| + 420;
    }
  }

  /** A picture whose own table lies inside it is never touched, whatever lies behind it in memory. */
  lemma OwnTableKept(mem: seq<Byte>, size: nat, p: nat, tail: seq<Byte>)
    requires Readable(mem, size) && p <= 2048 && p + 2 <= size
    requires Marker(mem, p, DHT) && NoneBefore(mem, p, SOS)
    ensures Readable(mem[..size] + tail, size)
    ensures Picture(mem[..size] + tail, size) == mem[..size]
  {
    var again := mem[..size] + tail;
    assert Marker(again, p, DHT);
    assert NoneBefore(again, p, SOS) by {
      forall q | 0 <= q < p ensures !Marker(again, q, SOS) { assert !Marker(mem, q, SOS); }
    }
    assert again[..size] == mem[..size];
  }

  /** The first DHT marker at or after p. */
  function FirstTable(mem: seq<Byte>, p: nat): (r: nat)
    requires p <= |mem|
    ensures p <= r <= |mem|
    decreases |mem| - p
  {
    if p == |mem| || Marker(mem, p, DHT) then p else FirstTable(mem, p + 1)
  }

  lemma {:induction false} FirstTableAt(mem: seq<Byte>, p: nat, k: nat)
    requires p <= k < |mem| && Marker(mem, k, DHT) && NoneBefore(mem, k, DHT)
    ensures FirstTable(mem, p) == k
    decreases k - p
  {
    if p < k { FirstTableAt(mem, p + 1, k); }
  }

  /** Cuts 420 bytes out at the first DHT marker. */
  function WithoutTable(s: seq<Byte>): seq<Byte> {
    var k := FirstTable(s, 0);
    if k + 420 <= |s| then s[..k] + s[k + 420..] else s
  }

  /** Where the table went in early enough, cutting out the first table restores the input. */
  lemma CuttingRestores(mem: seq<Byte>, size: nat, p: nat)
    requires Readable(mem, size) && Splices(mem, size, p) && p <= 2048 && NoneBefore(mem, p, SOS)
    ensures WithoutTable(Picture(mem, size)) == mem[..size]
  {
    var out := Picture(mem, size);
    assert Marker(out, p, DHT);
    assert out + [] == out;
    forall q | 0 <= q < p ensures !Marker(out, q, DHT) {
      SameMarkers(mem, size, p, [], q, DHT);
      assert Marker(mem, q, DHT) ==> NoneBefore(mem, q, SOS);
    }
    FirstTableAt(out, 0, p);
    assert out == mem[..p] + Dht() + mem[p..size];
    hide *;
    Cut(mem[..p], Dht(), mem[p..size]);
    assert mem[..p] + mem[p..size] == mem[..size];
  }

  lemma Cut(a: seq<Byte>, d: seq<Byte>, b: seq<Byte>)
    ensures (a + d + b)[..|a|] + (a + d + b)[|a| + |d|..] == a + b
  {
    assert (a + d + b)[..|a|] == a;
    assert (a + d + b)[|a| + |d|..] == b;
  }
}
