// The Huffman codes of section C.2 of ITU-T T.81, and the linear table search of the decoder.
module CanonicalCode {
  import opened Bits

  datatype Option<+T> = None | Some(value: T)

  datatype Entry = Entry(len: nat, code: nat, sym: Byte)

  function CodeBits(e: Entry): seq<bool> { Low(e.code, e.len) }

  /** HUFFSIZE: the length l, counts[l - 1] times, for each l in turn. */
  function Sizes(counts: seq<Byte>): seq<nat> {
    if counts == [] then []
    else
      var n := |counts|;
      Sizes(counts[..n - 1]) + seq(counts[n - 1] as nat, _ => n)
  }

  lemma {:induction false} SizesAscending(counts: seq<Byte>)
    ensures Ascending(Sizes(counts))
    ensures forall k :: 0 <= k < |Sizes(counts)| ==> 1 <= Sizes(counts)[k] <= |counts|
  {
    if counts != [] { SizesAscending(counts[..|counts| - 1]); }
  }

  ghost predicate Ascending(sizes: seq<nat>) {
    forall j, k :: 0 <= j <= k < |sizes| ==> sizes[j] <= sizes[k]
  }

  /** The code that follows a code of length len: count up, then append zero bits to reach len'. */
  function NextCode(code: nat, len: nat, len': nat): nat
    requires len <= len'
  {
    (code + 1) * Pow2(len' - len)
  }

  /** HUFFCODE. */
  function Code(sizes: seq<nat>, k: nat): nat
    requires Ascending(sizes) && k < |sizes|
  {
    if k == 0 then 0 else NextCode(Code(sizes, k - 1), sizes[k - 1], sizes[k])
  }

  /** The table with these code lengths and these symbols. */
  function Assign(sizes: seq<nat>, syms: seq<Byte>): (t: seq<Entry>)
    requires Ascending(sizes) && |sizes| <= |syms|
    ensures |t| == |sizes|
  {
    seq(|sizes|, k requires 0 <= k < |sizes| => Entry(sizes[k], Code(sizes, k), syms[k]))
  }

  /** The table a DHT segment with these counts and these symbols stands for. */
  function Table(counts: seq<Byte>, syms: seq<Byte>): (t: seq<Entry>)
    requires |Sizes(counts)| <= |syms|
    ensures |t| == |Sizes(counts)|
  {
    SizesAscending(counts);
    Assign(Sizes(counts), syms)
  }

  /** Where the codes of each length lie: those of length n + 1 at ends[n] up to ends[n + 1]. */
  ghost predicate Layout(counts: seq<Byte>, lens: seq<nat>, ends: seq<nat>) {
    && |ends| == |counts| + 1 && ends[0] == 0 && ends[|counts|] == |lens|
    && forall n :: 0 <= n < |counts| ==> Block(counts, lens, ends, n)
  }

  ghost predicate Block(counts: seq<Byte>, lens: seq<nat>, ends: seq<nat>, n: nat)
    requires n < |counts| < |ends|
  {
    && ends[n] + counts[n] as nat == ends[n + 1] <= |lens|
    && forall k :: ends[n] <= k < ends[n + 1] ==> lens[k] == n + 1
  }

  lemma {:induction false} SizesLayout(counts: seq<Byte>) returns (ends: seq<nat>)
    ensures Layout(counts, Sizes(counts), ends)
  {
    if counts == [] {
      ends := [0];
    } else {
      var n := |counts| - 1;
      var shorter := SizesLayout(counts[..n]);
      ends := shorter + [|Sizes(counts)|];
      forall m | 0 <= m < |counts| ensures Block(counts, Sizes(counts), ends, m) {
        if m < n { assert Block(counts[..n], Sizes(counts[..n]), shorter, m); }
      }
    }
  }

  lemma NextCodeShift(code: nat, len: nat, len': nat)
    requires len <= len'
    ensures NextCode(code, len, len' + 1) == 2 * NextCode(code, len, len')
    ensures NextCode(code, len, len) == code + 1
  {
  }

  // ----- code space

  /** How much of the space of 16-bit strings the first k codes take up. */
  function Space(t: seq<Entry>, k: nat): nat
    requires k <= |t| && Short(t)
  {
    if k == 0 then 0 else Space(t, k - 1) + Pow2(16 - t[k - 1].len)
  }

  ghost predicate Short(t: seq<Entry>) {
    forall k :: 0 <= k < |t| ==> 1 <= t[k].len <= 16
  }

  ghost predicate Canonical(t: seq<Entry>) {
    && Short(t)
    && (t != [] ==> t[0].code == 0)
    && (forall k :: 0 < k < |t| ==> Follows(t, k))
  }

  ghost predicate Follows(t: seq<Entry>, k: nat)
    requires 0 < k < |t|
  {
    t[k - 1].len <= t[k].len && t[k].code == NextCode(t[k - 1].code, t[k - 1].len, t[k].len)
  }

  /** The codes fit: 16-bit strings suffice for all of them. */
  ghost predicate Fits(t: seq<Entry>)
    requires Short(t)
  {
    Space(t, |t|) <= Pow2(16)
  }

  lemma AssignIsCanonical(sizes: seq<nat>, syms: seq<Byte>)
    requires Ascending(sizes) && |sizes| <= |syms|
    requires forall k :: 0 <= k < |sizes| ==> 1 <= sizes[k] <= 16
    ensures Canonical(Assign(sizes, syms))
  {
    var t := Assign(sizes, syms);
    forall k | 0 < k < |t| ensures Follows(t, k) {
      assert t[k - 1].code == Code(sizes, k - 1) && sizes[k - 1] <= sizes[k];
    }
  }

  lemma MulAssoc(a: nat, b: nat, c: nat)
    ensures (a + 1) * b * c == a * (b * c) + b * c
  {
  }

  /** Code k, left-aligned, starts exactly where the earlier codes end. */
  lemma {:induction false} IntervalStart(t: seq<Entry>, k: nat)
    requires Canonical(t) && k < |t|
    ensures t[k].code * Pow2(16 - t[k].len) == Space(t, k)
  {
    if k > 0 {
      IntervalStart(t, k - 1);
      assert Follows(t, k);
      var prev, d, r := t[k - 1], t[k].len - t[k - 1].len, 16 - t[k].len;
      Pow2Add(d, r);
      assert t[k].code == (prev.code + 1) * Pow2(d);
      MulAssoc(prev.code, Pow2(d), Pow2(r));
      assert d + r == 16 - prev.len;
    }
  }

  lemma {:induction false} SpaceMonotone(t: seq<Entry>, j: nat, k: nat)
    requires Short(t) && j <= k <= |t|
    ensures Space(t, j) <= Space(t, k)
  {
    if j < k { SpaceMonotone(t, j, k - 1); }
  }

  /** a + 1 blocks of p fit into m blocks of p iff a < m. */
  lemma BlocksFit(a: nat, m: nat, p: nat)
    requires p > 0
    ensures a * p + p <= m * p <==> a < m
  {
    if a < m { Distribute(a, m - a - 1, p); } else { Distribute(m, a - m, p); }
  }

  lemma Distribute(a: nat, d: nat, p: nat)
    ensures (a + d) * p == a * p + d * p && (a + 1 + d) * p == a * p + p + d * p && d * p >= 0
  {
  }

  lemma CodeFits(t: seq<Entry>, k: nat)
    requires Canonical(t) && k < |t|
    ensures t[k].code < Pow2(t[k].len) <==> Space(t, k + 1) <= Pow2(16)
  {
    hide Pow2, Follows;
    var c, l := t[k].code, t[k].len;
    IntervalStart(t, k);
    Pow2Add(l, 16 - l);
    BlocksFit(c, Pow2(l), Pow2(16 - l));
    assert Space(t, k + 1) == Space(t, k) + Pow2(16 - l);
  }

  /** The counts leave enough code space iff no code needs more bits than its length. */
  lemma FitsIffNoOverflow(t: seq<Entry>)
    requires Canonical(t)
    ensures Fits(t) <==> forall k :: 0 <= k < |t| ==> t[k].code < Pow2(t[k].len)
  {
    if Fits(t) {
      forall k | 0 <= k < |t| ensures t[k].code < Pow2(t[k].len) {
        SpaceMonotone(t, k + 1, |t|);
        CodeFits(t, k);
      }
    } else {
      CodeFits(t, |t| - 1);
    }
  }

  // ----- matching

  predicate Matches(e: Entry, w: seq<bool>)
    requires e.len <= |w|
  {
    w[..e.len] == CodeBits(e)
  }

  /** h * p + r, with r < p, lies in block c of size p iff h is c. */
  lemma SameBlock(h: nat, c: nat, p: nat, r: nat)
    requires r < p
    ensures c * p <= h * p + r < c * p + p <==> h == c
  {
    if h < c { BlocksFit(h, c, p); }
    if c < h { BlocksFit(c, h, p); }
  }

  /** A 16-bit window starts with a code iff its value lies in the code's interval. */
  lemma MatchesIffInInterval(e: Entry, w: seq<bool>)
    requires 1 <= e.len <= 16 == |w| && e.code < Pow2(e.len)
    ensures var p := Pow2(16 - e.len);
      Matches(e, w) <==> e.code * p <= Value(w) < e.code * p + p
  {
    var hi, lo := w[..e.len], w[e.len..];
    assert w == hi + lo;
    ValueConcat(hi, lo);
    ValueBound(lo);
    LowOfValue(hi);
    ValueOfLow(e.code, e.len);
    SameBlock(Value(hi), e.code, Pow2(16 - e.len), Value(lo));
  }

  lemma MatchInSpace(t: seq<Entry>, w: seq<bool>, k: nat)
    requires Canonical(t) && Fits(t) && |w| == 16 && k < |t|
    ensures Matches(t[k], w) <==> Space(t, k) <= Value(w) < Space(t, k + 1)
  {
    FitsIffNoOverflow(t);
    MatchesIffInInterval(t[k], w);
    IntervalStart(t, k);
  }

  ghost predicate BothMatch(t: seq<Entry>, w: seq<bool>, j: nat, k: nat)
    requires Short(t)
  {
    |w| == 16 && j < |t| && k < |t| && Matches(t[j], w) && Matches(t[k], w)
  }

  /** No window starts with two codes of the table. */
  ghost predicate PrefixFree(t: seq<Entry>)
    requires Short(t)
  {
    forall w, j: nat, k: nat :: BothMatch(t, w, j, k) ==> j == k
  }

  /** Canonical codes that fit are prefix-free. */
  lemma CanonicalIsPrefixFree(t: seq<Entry>)
    requires Canonical(t) && Fits(t)
    ensures PrefixFree(t)
  {
    forall w, j: nat, k: nat | BothMatch(t, w, j, k) ensures j == k {
      MatchInSpace(t, w, j);
      MatchInSpace(t, w, k);
      if j < k { SpaceMonotone(t, j + 1, k); }
      if k < j { SpaceMonotone(t, k + 1, j); }
    }
  }

  // ----- from the counts of a DHT segment

  /** The part of the code space that the counts ask for. */
  function CodeSpace(counts: seq<Byte>): nat
    requires |counts| <= 16
  {
    if counts == [] then 0
    else
      var n := |counts|;
      CodeSpace(counts[..n - 1]) + counts[n - 1] as nat * Pow2(16 - n)
  }

  function SizeSpace(sizes: seq<nat>): nat
    requires forall k :: 0 <= k < |sizes| ==> sizes[k] <= 16
  {
    if sizes == [] then 0 else SizeSpace(sizes[..|sizes| - 1]) + Pow2(16 - sizes[|sizes| - 1])
  }

  lemma {:induction false} SizeSpaceOfRepeat(sizes: seq<nat>, len: nat, n: nat)
    requires (forall k :: 0 <= k < |sizes| ==> sizes[k] <= 16) && len <= 16
    ensures var all := sizes + seq(n, _ => len);
      (forall k :: 0 <= k < |all| ==> all[k] <= 16)
      && SizeSpace(all) == SizeSpace(sizes) + n * Pow2(16 - len)
  {
    var all := sizes + seq(n, _ => len);
    if n == 0 {
      assert all == sizes;
    } else {
      SizeSpaceOfRepeat(sizes, len, n - 1);
      assert all[..|all| - 1] == sizes + seq(n - 1, _ => len);
      Distribute(n - 1, 1, Pow2(16 - len));
    }
  }

  lemma {:induction false} SizeSpaceOfCounts(counts: seq<Byte>)
    requires |counts| <= 16
    ensures (forall k :: 0 <= k < |Sizes(counts)| ==> Sizes(counts)[k] <= 16)
      && SizeSpace(Sizes(counts)) == CodeSpace(counts)
  {
    if counts != [] {
      var n := |counts|;
      SizeSpaceOfCounts(counts[..n - 1]);
      SizeSpaceOfRepeat(Sizes(counts[..n - 1]), n, counts[n - 1] as nat);
    }
  }

  lemma {:induction false} SpaceIsSizeSpace(sizes: seq<nat>, t: seq<Entry>, k: nat)
    requires k <= |t| == |sizes| && Short(t) && forall i :: 0 <= i < |t| ==> t[i].len == sizes[i]
    ensures (forall i :: 0 <= i < k ==> sizes[..k][i] <= 16) && Space(t, k) == SizeSpace(sizes[..k])
  {
    if k > 0 {
      SpaceIsSizeSpace(sizes, t, k - 1);
      assert sizes[..k][..k - 1] == sizes[..k - 1];
    }
  }

  /** A table read from a DHT segment is prefix-free whenever its counts fit the code space. */
  lemma TableIsPrefixFree(counts: seq<Byte>, syms: seq<Byte>)
    requires |counts| == 16 && |Sizes(counts)| <= |syms| && CodeSpace(counts) <= Pow2(16)
    ensures Short(Table(counts, syms)) && PrefixFree(Table(counts, syms))
  {
    var sizes, t := Sizes(counts), Table(counts, syms);
    SizesAscending(counts);
    AssignIsCanonical(sizes, syms);
    SizeSpaceOfCounts(counts);
    SpaceIsSizeSpace(sizes, t, |t|);
    assert sizes[..|t|] == sizes;
    CanonicalIsPrefixFree(t);
  }

  // ----- the search

  /** The decoder's linear search. The size check comes after the index was advanced, so a match at
      the last entry is thrown away. */
  function Search(t: seq<Entry>, ind: nat, w: seq<bool>): (e: Option<Entry>)
    requires Short(t) && |w| == 16
    decreases |t| - ind
  {
    if ind + 1 >= |t| then None
    else if Matches(t[ind], w) then Some(t[ind])
    else Search(t, ind + 1, w)
  }

  lemma {:induction false} SearchMeaning(t: seq<Entry>, ind: nat, w: seq<bool>)
    requires Short(t) && |w| == 16
    ensures match Search(t, ind, w)
      case Some(e) => exists k :: ind <= k < |t| - 1 && t[k] == e && Matches(t[k], w)
      case None => forall k :: ind <= k < |t| - 1 ==> !Matches(t[k], w)
    decreases |t| - ind
  {
    if ind + 1 < |t| && !Matches(t[ind], w) { SearchMeaning(t, ind + 1, w); }
  }

  /** With a prefix-free table the search returns entry k iff the window starts with code k and k is
      not the last entry. */
  lemma SearchIff(t: seq<Entry>, w: seq<bool>, k: nat)
    requires Short(t) && PrefixFree(t) && |w| == 16 && k < |t| && Matches(t[k], w)
    ensures Search(t, 0, w) == if k == |t| - 1 then None else Some(t[k])
  {
    SearchMeaning(t, 0, w);
    forall j | 0 <= j < |t| && Matches(t[j], w) ensures j == k { assert BothMatch(t, w, j, k); }
  }
}
