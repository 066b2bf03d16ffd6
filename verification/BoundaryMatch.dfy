// The naive boundary matcher: where it stands, what it finds and what it misses.
module BoundaryMatch {
  import opened Bits
  import opened Ascii
  import opened MjpgProxy

  /** The matched count after some content, up to the first complete match. */
  function Match(m: nat, data: seq<Byte>): (n: nat)
    requires m < |BOUNDARY|
    ensures n <= |BOUNDARY|
    decreases |data|
  {
    if data == [] then m
    else
      var n := Compare(BOUNDARY, m, data[0]);
      if n == |BOUNDARY| then n else Match(n, data[1..])
  }

  /** The matcher does not fire in this content. */
  predicate Clean(data: seq<Byte>) { Match(0, data) < |BOUNDARY| }

  lemma {:induction false} MatchConcat(m: nat, a: seq<Byte>, b: seq<Byte>)
    requires m < |BOUNDARY|
    ensures Match(m, a + b) == if Match(m, a) == |BOUNDARY| then |BOUNDARY| else Match(Match(m, a), b)
    decreases |a|
  {
    if a == [] {
      assert a + b == b;
    } else {
      assert (a + b)[1..] == a[1..] + b;
      var n := Compare(BOUNDARY, m, a[0]);
      if n < |BOUNDARY| { MatchConcat(n, a[1..], b); }
    }
  }

  predicate EndsWith(data: seq<Byte>, suffix: seq<Byte>) {
    |suffix| <= |data| && data[|data| - |suffix|..] == suffix
  }

  /** The boundary lies somewhere in the data. */
  ghost predicate Contains(data: seq<Byte>) {
    exists i :: 0 <= i <= |data| && EndsWith(data[..i], BOUNDARY)
  }

  lemma CompareKeepsSuffix(data: seq<Byte>, m: nat, b: Byte)
    requires m < |BOUNDARY| && EndsWith(data, BOUNDARY[..m])
    ensures EndsWith(data + [b], BOUNDARY[..Compare(BOUNDARY, m, b)])
  {
    hide Text;
    if BOUNDARY[m] == b {
      assert BOUNDARY[..m + 1] == BOUNDARY[..m] + [b];
    }
  }

  /** The matched count is always the length of a prefix of the boundary that the content ends with;
      it is complete only if the boundary was there. */
  lemma {:induction false} MatchIsSuffix(seen: seq<Byte>, m: nat, data: seq<Byte>)
    requires m < |BOUNDARY| && EndsWith(seen, BOUNDARY[..m])
    ensures var n := Match(m, data);
      if n < |BOUNDARY| then EndsWith(seen + data, BOUNDARY[..n]) else Contains(seen + data)
    decreases |data|
  {
    hide EndsWith;
    if data == [] {
      assert seen + data == seen;
    } else {
      var n := Compare(BOUNDARY, m, data[0]);
      CompareKeepsSuffix(seen, m, data[0]);
      var i := |seen| + 1;
      assert (seen + data)[..i] == seen + [data[0]];
      if n < |BOUNDARY| {
        MatchIsSuffix(seen + [data[0]], n, data[1..]);
        assert seen + [data[0]] + data[1..] == seen + data;
      } else {
        assert BOUNDARY[..n] == BOUNDARY;
      }
    }
  }

  /** No boundary in the content, no callback from it. */
  lemma CleanUnlessContained(data: seq<Byte>)
    requires !Contains(data)
    ensures Clean(data)
  {
    assert BOUNDARY[..0] == [];
    MatchIsSuffix([], 0, data);
    assert [] + data == data;
  }

  lemma BoundaryText()
    ensures |BOUNDARY| == 20 && BOUNDARY[0] == DASH && BOUNDARY[1] == DASH
    ensures forall i :: 0 <= i < |BOUNDARY| ==> BOUNDARY[i] != CR && BOUNDARY[i] != LF
    ensures forall i :: 2 <= i < |BOUNDARY| ==> BOUNDARY[i] != DASH
  {
    var s := "--boundarydonotcross";
    assert forall i :: 2 <= i < |s| ==> 97 <= s[i] as int < 256;
  }

  lemma {:induction false} MatchGrows(m: nat, n: nat)
    requires m < |BOUNDARY| && m <= n <= |BOUNDARY|
    ensures Match(m, BOUNDARY[m..n]) == n
    decreases n - m
  {
    hide Text;
    if m < n {
      assert BOUNDARY[m..n][0] == BOUNDARY[m] && BOUNDARY[m..n][1..] == BOUNDARY[m + 1..n];
      if m + 1 < |BOUNDARY| { MatchGrows(m + 1, n); }
    }
  }

  /** Behind CR LF the matcher finds every boundary, whatever it had matched before. */
  lemma FoundBehindCrlf(m: nat, n: nat)
    requires m < |BOUNDARY| && n <= |BOUNDARY|
    ensures Match(m, [CR, LF] + BOUNDARY[..n]) == n
  {
    BoundaryText();
    hide Text;
    MatchConcat(m, [CR, LF], BOUNDARY[..n]);
    assert Match(m, [CR, LF]) == 0 by {
      assert [CR, LF][1..] == [LF] && [LF][1..] == [];
      assert Match(m, [CR, LF]) == Match(0, [LF]) == Match(0, []);
    }
    MatchGrows(0, n);
    assert BOUNDARY[0..n] == BOUNDARY[..n];
  }

  lemma {:induction false} NoDashNoMatch(data: seq<Byte>)
    requires forall i :: 0 <= i < |data| ==> data[i] != DASH
    ensures Match(0, data) == 0
    decreases |data|
  {
    BoundaryText();
    hide Text;
    if data != [] { NoDashNoMatch(data[1..]); }
  }

  /** A boundary is found from the start of a match only: a partial match in front of it leaves the
      matcher out of step. */
  lemma FoundIffUnmatched(m: nat)
    requires m < |BOUNDARY|
    ensures Match(m, BOUNDARY) == |BOUNDARY| <==> m == 0
  {
    BoundaryText();
    if m == 0 {
      MatchGrows(0, |BOUNDARY|);
      assert BOUNDARY[0..|BOUNDARY|] == BOUNDARY;
    } else {
      Mismatched(m);
    }
  }

  /** The two dashes do not fit behind a partial match, and without them nothing else matches. */
  lemma Mismatched(m: nat)
    requires 0 < m < |BOUNDARY|
    ensures Match(m, BOUNDARY) == 0
  {
    BoundaryText();
    hide Text, Match;
    var dashes, rest := [DASH, DASH], BOUNDARY[2..];
    assert BOUNDARY == dashes + [rest[0]] + rest[1..];
    DashesEnd(m, rest[0]);
    MatchConcat(m, dashes + [rest[0]], rest[1..]);
    NoDashNoMatch(rest[1..]);
  }

  lemma DashesEnd(m: nat, b: Byte)
    requires 0 < m < |BOUNDARY| && b == BOUNDARY[2]
    ensures Match(m, [DASH, DASH] + [b]) == 0
  {
    BoundaryText();
    hide Text;
    assert [DASH, DASH] + [b] == [DASH, DASH, b];
    assert [DASH, DASH, b][1..] == [DASH, b] && [DASH, b][1..] == [b] && [b][1..] == [];
    if m == 1 {
      assert Match(1, [DASH, DASH, b]) == Match(2, [DASH, b]) == Match(0, [b]) == Match(0, []);
    } else {
      assert Match(m, [DASH, DASH, b]) == Match(0, [DASH, b]) == Match(1, [b]) == Match(0, []);
    }
  }

  /** Behind content in which nothing was found, a boundary is found iff the content does not end in a
      partial match, and then at its last byte. */
  lemma FoundIff(content: seq<Byte>)
    requires Clean(content)
    ensures !Clean(content + BOUNDARY) <==> Match(0, content) == 0
    ensures forall n :: 0 <= n < |BOUNDARY| ==> Clean(content + BOUNDARY[..n])
  {
    var m := Match(0, content);
    MatchConcat(0, content, BOUNDARY);
    FoundIffUnmatched(m);
    forall n | 0 <= n < |BOUNDARY| ensures Clean(content + BOUNDARY[..n]) {
      MatchConcat(0, content, BOUNDARY[..n]);
      NotBefore(m, n);
    }
  }

  lemma NotBefore(m: nat, n: nat)
    requires m < |BOUNDARY| && n < |BOUNDARY|
    ensures Match(m, BOUNDARY[..n]) < |BOUNDARY|
  {
    BoundaryText();
    hide Text, Match;
    if m == 0 {
      MatchGrows(0, n);
      assert BOUNDARY[0..n] == BOUNDARY[..n];
    } else {
      Mismatched(m);
      MatchConcat(m, BOUNDARY[..n], BOUNDARY[n..]);
      assert BOUNDARY[..n] + BOUNDARY[n..] == BOUNDARY;
    }
  }

  /** For one, a boundary behind a dash is missed. */
  lemma MissedBehindDash()
    ensures Contains([DASH] + BOUNDARY) && Clean([DASH] + BOUNDARY)
  {
    BoundaryText();
    hide Text, Contains;
    assert Match(0, [DASH]) == 1 by { assert [DASH][1..] == []; }
    FoundIff([DASH]);
    ContainsAtEnd([DASH]);
  }

  lemma ContainsAtEnd(front: seq<Byte>)
    ensures Contains(front + BOUNDARY)
  {
    hide Text;
    var data := front + BOUNDARY;
    assert data[..|data|] == data && EndsWith(data[..|data|], BOUNDARY);
  }
}
