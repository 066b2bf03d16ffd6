// Byte stuffing (section B.1.1.5 of ITU-T T.81) and the order in which the decoder's refill loop
// loads bytes, which is not quite its inverse.
module Stuffing {
  import opened Bits

  const FF: Byte := 0xFF

  /** What fgetc_ delivers at position i. Nothing is said about what lies behind mem except that it
      can be read; the theorems put an arbitrary tail there. */
  function At(mem: seq<Byte>, i: nat): Byte {
    if i < |mem| then mem[i] else 0
  }

  /** The bytes loaded into the reservoir so far, and Gpos. */
  datatype Feed = Feed(bytes: seq<Byte>, pos: nat)

  /** One iteration of the refill loop: a byte, and behind FF a second one. Of FF 00 x it loads FF and
      x, without looking whether x is FF again. */
  function LoadStep(mem: seq<Byte>, f: Feed): Feed {
    var uc := At(mem, f.pos);
    if uc != FF then Feed(f.bytes + [uc], f.pos + 1)
    else if At(mem, f.pos + 1) == 0 then Feed(f.bytes + [FF, At(mem, f.pos + 2)], f.pos + 3)
    else Feed(f.bytes + [FF, At(mem, f.pos + 1)], f.pos + 2)
  }

  /** The first two bytes are loaded as they are; then k iterations. */
  function Loads(mem: seq<Byte>, k: nat): (f: Feed)
    ensures |f.bytes| >= k + 2
  {
    if k == 0 then Feed([At(mem, 0), At(mem, 1)], 2) else LoadStep(mem, Loads(mem, k - 1))
  }

  lemma {:induction false} LoadsGrow(mem: seq<Byte>, j: nat, k: nat)
    requires j <= k
    ensures Loads(mem, j).bytes <= Loads(mem, k).bytes
  {
    if j < k { LoadsGrow(mem, j, k - 1); }
  }

  /** Byte i of the stream the decoder sees. */
  function StreamByte(mem: seq<Byte>, i: nat): Byte {
    Loads(mem, i).bytes[i]
  }

  lemma StreamIsLoaded(mem: seq<Byte>, k: nat, i: nat)
    requires i < |Loads(mem, k).bytes|
    ensures Loads(mem, k).bytes[i] == StreamByte(mem, i)
  {
    if i <= k { LoadsGrow(mem, i, k); } else { LoadsGrow(mem, k, i); }
  }

  /** What is loaded is what lies in memory, in step with it up to the end. */
  ghost predicate Raw(mem: seq<Byte>, f: Feed) {
    && (forall i :: 0 <= i < |f.bytes| ==> f.bytes[i] == At(mem, i))
    && 2 <= |f.bytes| <= f.pos && (f.pos == |f.bytes| || |mem| <= |f.bytes|)
  }

  lemma RawMore(mem: seq<Byte>, f: Feed, x: Byte, pos: nat)
    requires Raw(mem, f) && x == At(mem, |f.bytes|) && f.pos < pos && (pos == |f.bytes| + 1 || |mem| <= |f.bytes| + 1)
    ensures Raw(mem, Feed(f.bytes + [x], pos))
  {
    hide At;
  }

  lemma RawStep(mem: seq<Byte>, f: Feed)
    requires Raw(mem, f)
    requires forall p :: 2 <= p < |mem| - 1 && mem[p] == FF ==> mem[p + 1] != 0
    ensures Raw(mem, LoadStep(mem, f))
  {
    var uc, n := At(mem, f.pos), |f.bytes|;
    RawMore(mem, f, uc, f.pos + 1);
    if uc == FF {
      var g := Feed(f.bytes + [FF], f.pos + 1);
      if At(mem, f.pos + 1) == 0 {
        RawMore(mem, g, At(mem, f.pos + 2), f.pos + 3);
      } else {
        RawMore(mem, g, At(mem, f.pos + 1), f.pos + 2);
      }
      assert f.bytes + [FF] + [At(mem, f.pos + 2)] == f.bytes + [FF, At(mem, f.pos + 2)];
      assert f.bytes + [FF] + [At(mem, f.pos + 1)] == f.bytes + [FF, At(mem, f.pos + 1)];
    }
  }

  /** Memory without a zero behind an FF, apart from the first two bytes, is the stream itself: markers are
      data for this decoder. */
  lemma {:induction false} RawIsKept(mem: seq<Byte>, k: nat)
    requires forall p :: 2 <= p < |mem| - 1 && mem[p] == FF ==> mem[p + 1] != 0
    ensures Raw(mem, Loads(mem, k))
  {
    hide LoadStep;
    if k > 0 {
      RawIsKept(mem, k - 1);
      RawStep(mem, Loads(mem, k - 1));
    }
  }

  /** One iteration in numbers: from i loaded bytes and position pos to i' and pos'. */
  datatype Iteration = Iteration(i: nat, pos: nat, i': nat, pos': nat)

  /** What one iteration adds to the stream, and how far it moves. */
  lemma LoadedByStep(mem: seq<Byte>, k: nat) returns (n: Iteration)
    ensures |Loads(mem, k).bytes| == n.i && Loads(mem, k).pos == n.pos
    ensures |Loads(mem, k + 1).bytes| == n.i' && Loads(mem, k + 1).pos == n.pos'
    ensures StreamByte(mem, n.i) == At(mem, n.pos)
    ensures At(mem, n.pos) != FF ==> n.i' == n.i + 1 && n.pos' == n.pos + 1
    ensures At(mem, n.pos) == FF && At(mem, n.pos + 1) == 0 ==>
      n.i' == n.i + 2 && n.pos' == n.pos + 3 && StreamByte(mem, n.i + 1) == At(mem, n.pos + 2)
    ensures At(mem, n.pos) == FF && At(mem, n.pos + 1) != 0 ==>
      n.i' == n.i + 2 && n.pos' == n.pos + 2 && StreamByte(mem, n.i + 1) == At(mem, n.pos + 1)
  {
    var f, g := Loads(mem, k), Loads(mem, k + 1);
    n := Iteration(|f.bytes|, f.pos, |g.bytes|, g.pos);
    StreamIsLoaded(mem, k + 1, n.i);
    if At(mem, f.pos) == FF { StreamIsLoaded(mem, k + 1, n.i + 1); }
  }

  function StreamBit(mem: seq<Byte>, i: nat): bool {
    Low(StreamByte(mem, i / 8) as nat, 8)[i % 8]
  }

  /** The stream the decoder sees. */
  function StreamOf(mem: seq<Byte>): Stream {
    (i: nat) => StreamBit(mem, i)
  }

  lemma WindowByte(mem: seq<Byte>, i: nat)
    ensures Window(StreamOf(mem), 8 * i, 8) == Low(StreamByte(mem, i) as nat, 8)
  {
    hide Low, StreamByte;
    forall j | 0 <= j < 8
      ensures Window(StreamOf(mem), 8 * i, 8)[j] == Low(StreamByte(mem, i) as nat, 8)[j]
    {
      assert (8 * i + j) / 8 == i && (8 * i + j) % 8 == j;
      assert StreamBit(mem, 8 * i + j) == Low(StreamByte(mem, i) as nat, 8)[j];
    }
  }

  // ----- stuffing

  /** Behind every FF of the coded data the encoder puts a zero byte. */
  function Stuff(b: seq<Byte>): seq<Byte> {
    if b == [] then []
    else Escape(b[0]) + Stuff(b[1..])
  }

  function Escape(y: Byte): seq<Byte> {
    if y == FF then [FF, 0] else [y]
  }

  /** An FF whose stuffing the decoder does not take off: one of the first `raw` bytes, or one that
      follows another FF. */
  predicate Exposed(b: seq<Byte>, i: nat, raw: nat)
    requires i < |b|
  {
    b[i] == FF && (i < raw || (i > 0 && b[i - 1] == FF))
  }

  ghost predicate Zero(b: seq<Byte>) {
    forall i :: 0 <= i < |b| ==> b[i] == 0
  }

  /** Behind an exposed FF there are only zeros. */
  ghost predicate Undone(b: seq<Byte>, raw: nat) {
    forall i :: 0 <= i < |b| && Exposed(b, i, raw) ==> Zero(b[i + 1..])
  }

  ghost predicate Slips(b: seq<Byte>, raw: nat) {
    exists i :: 0 <= i < |b| && Exposed(b, i, raw)
  }

  ghost predicate Covered(b: seq<Byte>, n: nat, raw: nat)
    requires n <= |b|
  {
    forall i :: 0 <= i < n ==> !Exposed(b, i, raw)
  }

  /** A front without an exposed FF and without an FF at its end plays no part. */
  lemma FrontCovered(f: seq<Byte>, c: seq<Byte>, raw: nat)
    requires Covered(f, |f|, raw) && f != [] && f[|f| - 1] != FF && raw <= |f|
    ensures Undone(f + c, raw) <==> Undone(c, 0)
    ensures Slips(f + c, raw) <==> Slips(c, 0)
  {
    hide Zero;
    var b, n := f + c, |f|;
    forall i | 0 <= i < n ensures !Exposed(b, i, raw) { assert !Exposed(f, i, raw); }
    forall i | 0 <= i < |c| ensures Exposed(b, n + i, raw) <==> Exposed(c, i, 0) {
      assert b[n + i] == c[i] && b[n - 1] == f[n - 1];
    }
    assert Undone(c, 0) ==> Undone(b, raw) by {
      if Undone(c, 0) {
        forall i | 0 <= i < |b| && Exposed(b, i, raw) ensures Zero(b[i + 1..]) {
          assert Exposed(c, i - n, 0) && b[i + 1..] == c[i - n + 1..];
        }
      }
    }
    assert Undone(b, raw) ==> Undone(c, 0) by {
      if Undone(b, raw) {
        forall i | 0 <= i < |c| && Exposed(c, i, 0) ensures Zero(c[i + 1..]) {
          assert Exposed(b, n + i, raw) && b[n + i + 1..] == c[i + 1..];
        }
      }
    }
    if Slips(c, 0) {
      var i :| 0 <= i < |c| && Exposed(c, i, 0);
      assert Exposed(b, n + i, raw);
    }
    if Slips(b, raw) {
      var i :| 0 <= i < |b| && Exposed(b, i, raw);
      assert Exposed(c, i - n, 0);
    }
  }

  /** A front whose last byte is its first exposed FF leaves room for zeros only. */
  lemma FrontExposed(f: seq<Byte>, d: seq<Byte>, raw: nat)
    requires f != [] && Covered(f, |f| - 1, raw) && Exposed(f, |f| - 1, raw)
    ensures Undone(f + d, raw) <==> Zero(d)
    ensures Slips(f + d, raw)
  {
    var b, n := f + d, |f|;
    assert Exposed(b, n - 1, raw) && b[n..] == d;
    if Zero(d) {
      forall j | n <= j < |b| ensures b[j] == 0 { assert b[j] == d[j - n]; }
      forall i | 0 <= i < |b| && Exposed(b, i, raw) ensures Zero(b[i + 1..]) {
        assert i < n - 1 ==> Exposed(f, i, raw);
      }
    }
  }

  lemma StuffCons(y: Byte, b: seq<Byte>)
    ensures Stuff([y] + b) == Escape(y) + Stuff(b)
  {
    assert ([y] + b)[1..] == b;
  }

  // ----- the stream behind stuffed data

  lemma {:induction false} StuffConcat(b: seq<Byte>, c: seq<Byte>)
    ensures Stuff(b + c) == Stuff(b) + Stuff(c)
  {
    if b == [] {
      assert b + c == c;
    } else {
      var y, d := b[0], b[1..];
      calc {
        Stuff(b + c);
        { assert b + c == [y] + (d + c); }
        Stuff([y] + (d + c));
        { StuffCons(y, d + c); }
        Escape(y) + Stuff(d + c);
        { StuffConcat(d, c); }
        Escape(y) + (Stuff(d) + Stuff(c));
        Escape(y) + Stuff(d) + Stuff(c);
        Stuff(b) + Stuff(c);
      }
    }
  }

  lemma StuffPlain(y: Byte, z: Byte)
    requires y != FF && z != FF
    ensures Stuff([y]) == [y] && Stuff([y, z]) == [y, z]
  {
    StuffCons(y, []);
    StuffCons(z, []);
    StuffCons(y, [z]);
    assert [y] + [] == [y] && [z] + [] == [z] && [y] + [z] == [y, z];
  }

  /** Behind the stuffed form of b comes the stuffed form of c. */
  lemma AtBehind(b: seq<Byte>, c: seq<Byte>, tail: seq<Byte>, i: nat)
    requires i < |Stuff(c)|
    ensures At(Stuff(b + c) + tail, |Stuff(b)| + i) == Stuff(c)[i]
  {
    StuffConcat(b, c);
  }

  /** The loop has loaded exactly b, and c is still to come. */
  function Loaded(b: seq<Byte>): Feed { Feed(b, |Stuff(b)|) }

  lemma StepOne(b: seq<Byte>, y: Byte, c: seq<Byte>, tail: seq<Byte>)
    requires y != FF
    ensures LoadStep(Stuff(b + ([y] + c)) + tail, Loaded(b)) == Loaded(b + [y])
  {
    StuffCons(y, c);
    AtBehind(b, [y] + c, tail, 0);
    StuffConcat(b, [y]);
    StuffPlain(y, y);
  }

  lemma StepTwo(b: seq<Byte>, z: Byte, c: seq<Byte>, tail: seq<Byte>)
    requires z != FF
    ensures LoadStep(Stuff(b + ([FF] + ([z] + c))) + tail, Loaded(b)) == Loaded(b + [FF, z])
  {
    var rest := [FF] + ([z] + c);
    assert Stuff(rest) == [FF, 0, z] + Stuff(c) by {
      StuffCons(FF, [z] + c);
      StuffCons(z, c);
    }
    AtBehind(b, rest, tail, 0);
    AtBehind(b, rest, tail, 1);
    AtBehind(b, rest, tail, 2);
    assert Stuff([FF, z]) == [FF, 0, z] by {
      StuffCons(FF, [z]);
      StuffPlain(z, z);
      assert [FF] + [z] == [FF, z];
    }
    StuffConcat(b, [FF, z]);
  }

  lemma StepLast(b: seq<Byte>, tail: seq<Byte>)
    ensures b + [FF] <= LoadStep(Stuff(b + [FF]) + tail, Loaded(b)).bytes
  {
    StuffCons(FF, []);
    assert [FF] + [] == [FF];
    AtBehind(b, [FF], tail, 0);
  }

  /** The stream the decoder sees starts with these bytes. */
  ghost predicate Sees(mem: seq<Byte>, data: seq<Byte>) {
    forall i :: 0 <= i < |data| ==> StreamByte(mem, i) == data[i]
  }

  lemma AllLoaded(data: seq<Byte>, mem: seq<Byte>, k: nat)
    requires data <= Loads(mem, k).bytes
    ensures Sees(mem, data)
  {
    forall i | 0 <= i < |data| ensures StreamByte(mem, i) == data[i] { StreamIsLoaded(mem, k, i); }
  }

  /** The loop is one byte behind, at the zero that should have been skipped: from here on it yields a
      zero too many, which goes unnoticed only among zeros. */
  lemma {:induction false} Lags(b: seq<Byte>, d: seq<Byte>, tail: seq<Byte>, k: nat)
    requires Stuff(b) != [] && Stuff(b)[|Stuff(b)| - 1] == 0
    requires Loads(Stuff(b + d) + tail, k) == Feed(b, |Stuff(b)| - 1)
    ensures Sees(Stuff(b + d) + tail, b + d) <==> Zero(d)
    ensures Zero(d) ==> StreamByte(Stuff(b + d) + tail, |b + d|) == 0
    decreases |d|
  {
    hide StreamByte, Loads;
    var mem, n := Stuff(b + d) + tail, |Stuff(b)|;
    assert At(mem, n - 1) == 0 by { StuffConcat(b, d); }
    assert Loads(mem, k + 1) == Feed(b + [0], n) by { LoadsNext(mem, k); }
    StreamIsLoaded(mem, k + 1, |b|);
    if d == [] {
      assert b + d == b;
      AllLoaded(b, mem, k);
    } else if d[0] != 0 {
      assert (b + d)[|b|] == d[0];
    } else {
      var e := d[1..];
      assert d == [0] + e;
      assert b + d == (b + [0]) + e;
      StuffConcat(b, [0]);
      StuffPlain(0, 0);
      Lags(b + [0], e, tail, k + 1);
      assert Zero(d) <==> Zero(e);
    }
  }

  lemma LoadsNext(mem: seq<Byte>, k: nat)
    ensures Loads(mem, k + 1) == LoadStep(mem, Loads(mem, k))
  {
  }

  lemma StuffBoth(d: seq<Byte>)
    ensures Stuff([FF, FF] + d) == [FF, 0, FF, 0] + Stuff(d)
  {
    assert [FF, FF] + d == [FF] + ([FF] + d);
    StuffCons(FF, [FF] + d);
    StuffCons(FF, d);
  }

  lemma StepBoth(b: seq<Byte>, d: seq<Byte>, tail: seq<Byte>)
    ensures LoadStep(Stuff(b + ([FF, FF] + d)) + tail, Loaded(b)) == Feed(b + [FF, FF], |Stuff(b)| + 3)
    ensures Stuff(b + [FF, FF]) == Stuff(b) + [FF, 0, FF, 0]
  {
    hide Stuff;
    var rest := [FF, FF] + d;
    StuffBoth(d);
    AtBehind(b, rest, tail, 0);
    AtBehind(b, rest, tail, 1);
    AtBehind(b, rest, tail, 2);
    StuffConcat(b, [FF, FF]);
    StuffTwo(FF, FF);
  }

  /** The rest c of the data, with b loaded and no FF at its end. */
  lemma {:induction false} StreamFrom(b: seq<Byte>, c: seq<Byte>, tail: seq<Byte>, k: nat)
    requires Loads(Stuff(b + c) + tail, k) == Loaded(b)
    ensures Sees(Stuff(b + c) + tail, b + c) <==> Undone(c, 0)
    ensures Undone(c, 0) && Slips(c, 0) ==> StreamByte(Stuff(b + c) + tail, |b + c|) == 0
    decreases |c|
  {
    hide Stuff, Loads, LoadStep, StreamByte, Undone, Slips, Sees;
    var mem := Stuff(b + c) + tail;
    LoadsNext(mem, k);
    if c == [] {
      assert b + c == b;
      AllLoaded(b, mem, k);
      Alone([]);
    } else if c[0] != FF {
      var y, d := c[0], c[1..];
      assert c == [y] + d;
      StepOne(b, y, d, tail);
      FrontCovered([y], d, 0);
      assert b + c == (b + [y]) + d;
      StreamFrom(b + [y], d, tail, k + 1);
    } else if |c| == 1 {
      assert c == [FF];
      StepLast(b, tail);
      AllLoaded(b + c, mem, k + 1);
      Alone(c);
    } else if c[1] != FF {
      var z, d := c[1], c[2..];
      assert c == [FF] + ([z] + d) == [FF, z] + d;
      StepTwo(b, z, d, tail);
      FrontCovered([FF, z], d, 0);
      assert b + c == (b + [FF, z]) + d;
      StreamFrom(b + [FF, z], d, tail, k + 1);
    } else {
      var d := c[2..];
      assert c == [FF, FF] + d;
      StepBoth(b, d, tail);
      FrontExposed([FF, FF], d, 0);
      assert b + c == (b + [FF, FF]) + d;
      Lags(b + [FF, FF], d, tail, k + 1);
    }
  }

  lemma Alone(c: seq<Byte>)
    requires |c| <= 1
    ensures Undone(c, 0) && !Slips(c, 0)
  {
  }

  lemma Beginning(y: Byte, z: Byte, rest: seq<Byte>)
    ensures Loads([y, z] + rest, 0) == Feed([y, z], 2)
  {
  }

  /** The first two bytes of the memory are loaded raw, the stuffing behind an FF among them. */
  lemma StreamFromStart(y: Byte, z: Byte, c: seq<Byte>, tail: seq<Byte>)
    ensures var b, mem := [y, z] + c, Stuff([y, z] + c) + tail;
      && (Sees(mem, b) <==> Undone(b, 2))
      && (Undone(b, 2) && Slips(b, 2) ==> StreamByte(mem, |b|) == 0)
  {
    hide Stuff, Loads, LoadStep, StreamByte, Undone, Slips;
    var b, mem := [y, z] + c, Stuff([y, z] + c) + tail;
    assert b == [y] + ([z] + c);
    StuffCons(y, [z] + c);
    StuffCons(z, c);
    if y == FF {
      Beginning(FF, 0, Escape(z) + Stuff(c) + tail);
      assert mem == [FF, 0] + (Escape(z) + Stuff(c) + tail);
      FrontExposed([FF], [z] + c, 2);
      StreamIsLoaded(mem, 0, 1);
      if z == 0 {
        StuffTwo(FF, 0);
        Lags([FF, 0], c, tail, 0);
        assert Zero([z] + c) <==> Zero(c) by { assert ([z] + c)[1..] == c; ZeroCons(c); }
        assert [FF] + ([z] + c) == [FF, 0] + c;
      } else {
        assert b[1] == z && ([z] + c)[0] == z;
      }
    } else if z == FF {
      Beginning(y, FF, [0] + Stuff(c) + tail);
      assert mem == [y, FF] + ([0] + Stuff(c) + tail);
      StuffTwo(y, FF);
      FrontExposed([y, FF], c, 2);
      Lags([y, FF], c, tail, 0);
    } else {
      Beginning(y, z, Stuff(c) + tail);
      assert mem == [y, z] + (Stuff(c) + tail);
      StuffTwo(y, z);
      FrontCovered([y, z], c, 2);
      StreamFrom([y, z], c, tail, 0);
    }
  }

  lemma ZeroCons(c: seq<Byte>)
    ensures Zero([0] + c) <==> Zero(c)
  {
    assert Zero([0] + c) ==> Zero(c) by {
      if Zero([0] + c) {
        forall i | 0 <= i < |c| ensures c[i] == 0 { assert ([0] + c)[i + 1] == c[i]; }
      }
    }
  }

  lemma StuffOne(y: Byte)
    ensures Stuff([y]) == Escape(y)
  {
    StuffCons(y, []);
    assert [y] + [] == [y];
  }

  lemma StuffTwo(y: Byte, z: Byte)
    ensures Stuff([y, z]) == Escape(y) + Escape(z)
  {
    StuffCons(y, [z]);
    StuffCons(z, []);
    assert [y] + [z] == [y, z] && [z] + [] == [z];
  }

  /** The decoder undoes byte stuffing, whatever follows in memory, iff behind every FF among the first
      two bytes and every FF that follows another FF there are only zeros. If there is such an FF then,
      one zero too many comes behind the data. */
  lemma UnstuffingIff(b: seq<Byte>, tail: seq<Byte>)
    ensures Sees(Stuff(b) + tail, b) <==> Undone(b, 2)
    ensures Undone(b, 2) && Slips(b, 2) ==> StreamByte(Stuff(b) + tail, |b|) == 0
  {
    hide *;
    if |b| >= 2 {
      assert b == [b[0], b[1]] + b[2..];
      StreamFromStart(b[0], b[1], b[2..], tail);
    } else if |b| == 1 {
      assert b == [b[0]];
      StreamFromOne(b[0], tail);
    } else {
      StreamFromNone(Stuff(b) + tail);
    }
  }

  lemma StreamFromNone(mem: seq<Byte>)
    ensures Sees(mem, []) && Undone([], 2) && !Slips([], 2)
  {
  }

  lemma StreamFromOne(y: Byte, tail: seq<Byte>)
    ensures Sees(Stuff([y]) + tail, [y]) && Undone([y], 2)
    ensures Slips([y], 2) ==> StreamByte(Stuff([y]) + tail, 1) == 0
  {
    var mem := Stuff([y]) + tail;
    StuffCons(y, []);
    assert [y] + [] == [y];
    assert mem == Escape(y) + tail;
    hide Stuff;
    assert Loads(mem, 0) == Feed([At(mem, 0), At(mem, 1)], 2);
    StreamIsLoaded(mem, 0, 0);
    StreamIsLoaded(mem, 0, 1);
  }

  /** For one, FF FF stuffed as FF 00 FF 00 comes back with a zero byte too many, and every byte behind
      it is one place late in the bit stream. */
  lemma DoubleFFNotUndone(tail: seq<Byte>)
    ensures var mem := Stuff([1, 2, FF, FF, 3]) + tail;
      Sees(mem, [1, 2, FF, FF, 0, 3]) && Window(StreamOf(mem), 8 * 4, 8) == Low(0, 8)
  {
    var mem := Stuff([1, 2, FF, FF, 3]) + tail;
    var rest := [3] + tail;
    assert mem == [1, 2, FF, 0, FF, 0] + rest by {
      StuffConcat([1, 2], [FF, FF] + [3]);
      StuffConcat([FF, FF], [3]);
      StuffTwo(1, 2);
      StuffTwo(FF, FF);
      StuffPlain(3, 3);
      assert [1, 2, FF, FF, 3] == [1, 2] + ([FF, FF] + [3]);
    }
    hide Stuff;
    assert Loads(mem, 1) == Feed([1, 2, FF, FF], 5);
    assert Loads(mem, 2) == Feed([1, 2, FF, FF, 0], 6);
    assert Loads(mem, 3) == Feed([1, 2, FF, FF, 0, 3], 7);
    AllLoaded([1, 2, FF, FF, 0, 3], mem, 3);
    WindowByte(mem, 4);
  }
}
