// The multipart stream that one plugin prints, read back by another: printer and parser agree.
module Transport {
  import opened Bits
  import opened Ascii
  import opened MjpgProxy
  import opened BoundaryMatch
  import opened HttpStream

  // ----- headers

  /** Four bytes ending at i pass for CR LF CR LF. */
  predicate Masked(h: seq<Byte>, i: nat)
    requires i < |h|
  {
    i >= 3 && HasCrBits(h[i - 3]) && HasLfBits(h[i - 2]) && HasCrBits(h[i - 1]) && HasLfBits(h[i])
  }

  /** No four bytes do. */
  ghost predicate Quiet(h: seq<Byte>) {
    forall i :: 0 <= i < |h| ==> !Masked(h, i)
  }

  ghost predicate Plain7(h: seq<Byte>) {
    forall i :: 0 <= i < |h| ==> h[i] < 128
  }

  function LastFour(h: seq<Byte>): Four {
    ([0, 0, 0, 0] + h)[|h|..]
  }

  lemma MaskedIff(h: seq<Byte>, b: Byte)
    ensures IsCrlfCrlf(LastFour(h + [b])) <==> Masked(h + [b], |h|)
    ensures LastFour(h + [b]) == LastFour(h)[1..] + [b]
  {
  }

  /** last_four_bytes behind a header of any bytes. */
  function Register(h: seq<Byte>, sc: bool): Four {
    if h == [] then Init.last else PushByte(Register(h[..|h| - 1], sc), h[|h| - 1], sc)
  }

  /** Nowhere in the header does it pass for an empty line. */
  ghost predicate Unended(h: seq<Byte>, sc: bool)
    decreases |h|
  {
    h == [] || (!IsCrlfCrlf(Register(h, sc)) && Unended(h[..|h| - 1], sc))
  }

  /** While nothing in it passes for an empty line, the extractor stays in the header. */
  lemma {:induction false} HeaderGoesOn(h: seq<Byte>, sc: bool)
    requires Unended(h, sc)
    ensures var o := Run(Init, h, sc);
      o.events == [] && o.state.(contentLength := 0) == Init.(last := Register(h, sc))
  {
    if h != [] {
      var n := |h| - 1;
      var front, b := h[..n], h[n];
      assert h == front + [b];
      HeaderGoesOn(front, sc);
      RunConcat(Init, front, [b], sc);
      RunOne(Run(Init, front, sc).state, b, sc);
    }
  }

  lemma RunOne(s: State, b: Byte, sc: bool)
    requires s.Ok()
    ensures Run(s, [b], sc) == Step(s, b, sc)
  {
    hide Step;
    var first := Step(s, b, sc);
    assert [b][1..] == [];
    assert first.events + [] == first.events;
  }

  /** The byte that completes the first masked empty line starts the content. */
  lemma HeaderEnds(h: seq<Byte>, b: Byte, sc: bool)
    requires Unended(h, sc) && IsCrlfCrlf(Register(h + [b], sc))
    ensures var o := Run(Init, h + [b], sc);
      o.events == [] && o.state.part == Content && o.state.content == [] && o.state.matched == 0
  {
    assert (h + [b])[..|h|] == h;
    HeaderGoesOn(h, sc);
    RunConcat(Init, h, [b], sc);
    RunOne(Run(Init, h, sc).state, b, sc);
  }

  /** Where no byte is negative as a char, the register holds the last four bytes, and the masked test
      looks at these alone. */
  lemma {:induction false} RegisterIsLastFour(h: seq<Byte>, sc: bool)
    requires Plain7(h) || !sc
    ensures Register(h, sc) == LastFour(h) && (Unended(h, sc) <==> Quiet(h))
  {
    if h != [] {
      var n := |h| - 1;
      var front, b := h[..n], h[n];
      assert h == front + [b];
      assert Plain7(h) ==> Plain7(front) && b < 128;
      RegisterIsLastFour(front, sc);
      MaskedIff(front, b);
      assert Quiet(h) <==> Quiet(front) && !Masked(h, n) by {
        forall i | 0 <= i < n ensures Masked(front, i) <==> Masked(h, i) {}
      }
    }
  }

  /** A negative char sets all bits above it: it ends a header alone, if it has the bits of LF. */
  lemma NegativeCharEnds(h: seq<Byte>, b: Byte)
    requires b >= 128
    ensures IsCrlfCrlf(Register(h + [b], true)) <==> HasLfBits(b)
  {
    assert (h + [b])[..|h|] == h;
  }

  /** A header of bytes below 128 ends where four of them pass for an empty line for the first time. */
  lemma PlainHeaderEnds(h: seq<Byte>, b: Byte, sc: bool)
    requires Quiet(h) && Plain7(h + [b]) && Masked(h + [b], |h|)
    ensures var o := Run(Init, h + [b], sc);
      o.events == [] && o.state.part == Content && o.state.content == [] && o.state.matched == 0
  {
    assert Plain7(h) by { forall i | 0 <= i < |h| ensures h[i] < 128 { assert (h + [b])[i] < 128; } }
    RegisterIsLastFour(h, sc);
    RegisterIsLastFour(h + [b], sc);
    MaskedIff(h, b);
    hide Run, Masked, Quiet, Plain7, Register, LastFour;
    HeaderEnds(h, b, sc);
  }

  // ----- content

  function Stored(s: State, data: seq<Byte>, m: nat): State {
    s.(content := s.content + data, matched := m)
  }

  lemma StoredTwice(s: State, a: seq<Byte>, b: seq<Byte>, m: nat, n: nat)
    ensures Stored(Stored(s, a, m), b, n) == Stored(s, a + b, n) && Stored(s, [], s.matched) == s
  {
    assert s.content + a + b == s.content + (a + b) && s.content + [] == s.content;
  }

  /** Content that fits and does not make the matcher fire is stored. */
  lemma {:induction false} ContentGoesOn(s: State, data: seq<Byte>, sc: bool)
    requires s.Ok() && s.part == Content && |s.content| + |data| <= BUFFER_SIZE - 1
    requires Match(s.matched, data) < |BOUNDARY|
    ensures Run(s, data, sc) == Outcome(Stored(s, data, Match(s.matched, data)), [])
    decreases |data|
  {
    hide Text, Compare;
    if data == [] {
      StoredTwice(s, [], [], 0, 0);
    } else {
      var m := Compare(BOUNDARY, s.matched, data[0]);
      var s' := Stored(s, [data[0]], m);
      assert Step(s, data[0], sc) == Outcome(s', []);
      ContentGoesOn(s', data[1..], sc);
      StoredTwice(s, [data[0]], data[1..], m, Match(m, data[1..]));
      assert [data[0]] + data[1..] == data;
    }
  }

  /** Once the buffer is full no byte changes anything any more. */
  lemma {:induction false} FullIsStuck(s: State, data: seq<Byte>, sc: bool)
    requires s.Ok() && s.part == Content && |s.content| >= BUFFER_SIZE - 1
    ensures Run(s, data, sc) == Outcome(s, [])
    decreases |data|
  {
    if data != [] { FullIsStuck(s, data[1..], sc); }
  }

  /** The state behind a header, with an empty buffer. */
  ghost predicate AtContent(s: State) {
    s.Ok() && s.part == Content && s.content == [] && s.matched == 0
  }

  /** The frames that come through: not too long, and the matcher does not fire in them. */
  predicate Deliverable(data: seq<Byte>) {
    |data| <= 262121 && Clean(data)
  }

  const CRLF: seq<Byte> := [CR, LF]

  /** The byte on which the matcher fires ends the part. */
  lemma MatchCompletes(s: State, content: seq<Byte>, b: Byte, sc: bool)
    requires AtContent(s) && |content| < BUFFER_SIZE - 1
    requires Match(0, content) < |BOUNDARY| && Match(0, content + [b]) == |BOUNDARY|
    ensures Run(s, content + [b], sc) == Outcome(Init, [Received(content + [b])])
  {
    hide Text, Run;
    var m := Match(0, content);
    var s' := Stored(s, content, m);
    assert s'.content == content;
    ContentGoesOn(s, content, sc);
    assert Compare(BOUNDARY, m, b) == |BOUNDARY| by {
      MatchConcat(0, content, [b]);
      assert [b][1..] == [];
      assert Match(m, [b]) == |BOUNDARY|;
    }
    RunOne(s', b, sc);
    RunConcat(s, content, [b], sc);
  }

  lemma MatchOfPart(data: seq<Byte>)
    requires Clean(data)
    ensures var all := data + CRLF + BOUNDARY;
      Match(0, all[..|all| - 1]) < |BOUNDARY| && Match(0, all) == |BOUNDARY|
  {
    BoundaryText();
    hide Text, Match;
    var n := |BOUNDARY| - 1;
    var all := data + CRLF + BOUNDARY;
    assert all[..|all| - 1] == data + (CRLF + BOUNDARY[..n]);
    assert all == data + (CRLF + BOUNDARY[..n + 1]);
    MatchConcat(0, data, CRLF + BOUNDARY[..n]);
    MatchConcat(0, data, CRLF + BOUNDARY[..n + 1]);
    FoundBehindCrlf(Match(0, data), n);
    FoundBehindCrlf(Match(0, data), n + 1);
  }

  /** A frame followed by CR LF and the boundary is delivered whole. */
  lemma ContentDelivered(s: State, data: seq<Byte>, sc: bool)
    requires AtContent(s) && Deliverable(data)
    ensures Run(s, data + CRLF + BOUNDARY, sc) == Outcome(Init, [Image(data)])
  {
    BoundaryText();
    MatchOfPart(data);
    hide Text, Match, Run;
    var all := data + CRLF + BOUNDARY;
    var n := |all| - 1;
    assert all == all[..n] + [all[n]];
    MatchCompletes(s, all[..n], all[n], sc);
    assert all[..|data|] == data;
  }

  /** The shortest front on which the matcher fires. */
  lemma {:induction false} FirstHit(data: seq<Byte>) returns (k: nat)
    requires Match(0, data) == |BOUNDARY|
    ensures 0 < k <= |data|
    ensures Match(0, data[..k]) == |BOUNDARY| && Match(0, data[..k - 1]) < |BOUNDARY|
    decreases |data|
  {
    var n := |data| - 1;
    if Match(0, data[..n]) == |BOUNDARY| {
      k := FirstHit(data[..n]);
      assert data[..n][..k] == data[..k] && data[..n][..k - 1] == data[..k - 1];
    } else {
      k := |data|;
      assert data[..k] == data;
    }
  }

  /** A boundary less than two bytes behind the header makes the length negative. */
  lemma BadLengthIff(s: State, front: seq<Byte>, sc: bool)
    requires AtContent(s) && Clean(front) && Match(0, front) == 0 && |front| + |BOUNDARY| <= BUFFER_SIZE - 1
    ensures var o := Run(s, front + BOUNDARY, sc);
      && |o.events| == 1 && (o.events[0].BadLength? <==> |front| < 2)
      && (|front| < 2 ==> o.events[0] == BadLength(|front| - 2))
  {
    BoundaryText();
    var all, n := front + BOUNDARY, |front| + |BOUNDARY| - 1;
    assert all == all[..n] + [all[n]];
    assert all[..n] == front + BOUNDARY[..|BOUNDARY| - 1];
    FoundIff(front);
    hide Text, Match, Run;
    MatchCompletes(s, all[..n], all[n], sc);
  }

  /** Otherwise, whatever follows, what comes out first is something else, or nothing at all. */
  lemma FirstEventWrong(s: State, data: seq<Byte>, rest: seq<Byte>, sc: bool)
    requires AtContent(s) && !Deliverable(data)
    ensures var o := Run(s, data + CRLF + BOUNDARY + rest, sc); o.events == [] || o.events[0] != Image(data)
  {
    BoundaryText();
    var part := data + CRLF + BOUNDARY;
    var all := part + rest;
    assert Match(0, part) == |BOUNDARY| by {
      if Clean(data) {
        MatchOfPart(data);
      } else {
        MatchConcat(0, data, CRLF + BOUNDARY);
        assert part == data + (CRLF + BOUNDARY);
      }
    }
    var k := FirstHit(part);
    assert all[..k] == part[..k] && all[..k - 1] == part[..k - 1];
    if k <= BUFFER_SIZE - 1 {
      if k == |part| && !Clean(data) { NotCleanMeans(data); }
      EarlyCallback(s, all, k, sc);
      var e := Run(s, all, sc).events[0];
      assert e.Image? ==> |e.data| < |data|;
    } else {
      StuckFirst(s, all, k, sc);
    }
  }

  lemma ContentNotDelivered(s: State, data: seq<Byte>, sc: bool)
    requires AtContent(s) && !Deliverable(data)
    ensures Run(s, data + CRLF + BOUNDARY, sc) != Outcome(Init, [Image(data)])
  {
    hide *;
    FirstEventWrong(s, data, [], sc);
    assert data + CRLF + BOUNDARY + [] == data + CRLF + BOUNDARY;
  }

  lemma EarlyCallback(s: State, all: seq<Byte>, k: nat, sc: bool)
    requires AtContent(s) && 0 < k <= |all| && k <= BUFFER_SIZE - 1
    requires Match(0, all[..k]) == |BOUNDARY| && Match(0, all[..k - 1]) < |BOUNDARY|
    ensures var o := Run(s, all, sc); o.events != [] && o.events[0] == Received(all[..k])
  {
    hide Text, Match, Run, Received;
    assert all[..k] == all[..k - 1] + [all[k - 1]];
    MatchCompletes(s, all[..k - 1], all[k - 1], sc);
    RunConcat(s, all[..k], all[k..], sc);
    assert all == all[..k] + all[k..];
  }

  /** The buffer is full before the matcher fires: no callback at all. */
  lemma StuckFirst(s: State, all: seq<Byte>, k: nat, sc: bool)
    requires AtContent(s) && BUFFER_SIZE - 1 < k <= |all|
    requires Match(0, all[..k]) == |BOUNDARY| && Match(0, all[..k - 1]) < |BOUNDARY|
    ensures Run(s, all, sc).events == []
  {
    hide Text, Match, Run;
    var n := BUFFER_SIZE - 1;
    var front := all[..n];
    assert Match(0, front) < |BOUNDARY| by {
      MatchConcat(0, front, all[n..k - 1]);
      assert all[..k - 1] == front + all[n..k - 1];
    }
    ContentGoesOn(s, front, sc);
    FullIsStuck(Stored(s, front, Match(0, front)), all[n..], sc);
    RunConcat(s, front, all[n..], sc);
    assert all == front + all[n..];
  }

  lemma NotCleanMeans(data: seq<Byte>)
    requires !Clean(data)
    ensures var all := data + CRLF + BOUNDARY; Match(0, all[..|all| - 1]) == |BOUNDARY|
  {
    hide Text, Match;
    var all := data + CRLF + BOUNDARY;
    MatchConcat(0, data, all[|data|..|all| - 1]);
    assert all[..|all| - 1] == data + all[|data|..|all| - 1];
  }

  // ----- the headers that are really sent

  /** Neither half of a masked CR LF. */
  predicate Dull(b: Byte) { !HasCrBits(b) && !HasLfBits(b) }

  ghost predicate Calm(h: seq<Byte>) { Quiet(h) && Plain7(h) }

  lemma CalmJoin(a: seq<Byte>, b: seq<Byte>)
    requires Calm(a) && Calm(b) && (a == [] || b == [] || Dull(a[|a| - 1]) || Dull(b[0]))
    ensures Calm(a + b)
  {
    var h := a + b;
    forall i | 0 <= i < |h| ensures !Masked(h, i) {
      if i < |a| {
        assert !Masked(a, i);
      } else if i >= |a| + 3 {
        assert !Masked(b, i - |a|);
      }
    }
  }

  lemma DigitsAreDull(b: Byte)
    requires IsDigit(b)
    ensures Dull(b)
  {
  }

  lemma NumeralIsCalm(s: seq<Byte>)
    requires IsNumeral(s)
    ensures Calm(s) && Dull(s[|s| - 1])
  {
    forall i | 0 <= i < |s| ensures !Masked(s, i) { if i > 0 { DigitsAreDull(s[i]); } }
    DigitsAreDull(s[|s| - 1]);
  }

  lemma TypeNameCalm()
    ensures Calm([67, 111, 110, 116, 101, 110, 116, 45, 84, 121, 112, 101, 58, 32])
  {
  }

  lemma TypeValueCalm()
    ensures Calm([105, 109, 97, 103, 101, 47, 106, 112, 101, 103, 13, 10])
  {
  }

  lemma TypeText()
    ensures Calm(Text("Content-Type: image/jpeg\r\n"))
  {
    hide Calm;
    TypeNameCalm();
    TypeValueCalm();
    var a: seq<Byte> := [67, 111, 110, 116, 101, 110, 116, 45, 84, 121, 112, 101, 58, 32];
    var b: seq<Byte> := [105, 109, 97, 103, 101, 47, 106, 112, 101, 103, 13, 10];
    assert Text("Content-Type: image/jpeg\r\n") == a + b;
    CalmJoin(a, b);
  }

  lemma LengthTextCalm()
    ensures Calm([67, 111, 110, 116, 101, 110, 116, 45, 76, 101, 110, 103, 116, 104, 58, 32])
  {
  }

  lemma LengthText()
    ensures Calm(Text("Content-Length: "))
  {
    hide Calm;
    LengthTextCalm();
    assert Text("Content-Length: ")
      == [67, 111, 110, 116, 101, 110, 116, 45, 76, 101, 110, 103, 116, 104, 58, 32];
  }

  lemma StampTextCalm()
    ensures Calm([88, 45, 84, 105, 109, 101, 115, 116, 97, 109, 112, 58, 32])
  {
  }

  lemma StampText()
    ensures Calm(Text("X-Timestamp: "))
  {
    hide Calm;
    StampTextCalm();
    assert Text("X-Timestamp: ")
      == [88, 45, 84, 105, 109, 101, 115, 116, 97, 109, 112, 58, 32];
  }

  lemma StatusTextCalm()
    ensures Calm([72, 84, 84, 80, 47, 49, 46, 48, 32, 50, 48, 48, 32, 79, 75, 13])
  {
  }

  lemma StatusText()
    ensures Calm(Text("HTTP/1.0 200 OK\r"))
  {
    hide Calm;
    StatusTextCalm();
    assert Text("HTTP/1.0 200 OK\r")
      == [72, 84, 84, 80, 47, 49, 46, 48, 32, 50, 48, 48, 32, 79, 75, 13];
  }

  lemma CrlfText()
    ensures Text("\r\n") == CRLF && Calm(CRLF) && Text(".") == [46] && Calm([46])
    ensures STATUS == Text("HTTP/1.0 200 OK\r") + [LF]
    ensures Masked(STATUS, |STATUS| - 1) && Plain7(STATUS)
  {
  }

  /** What precedes a frame on the wire, without the very last byte. */
  function BeforeFrame(f: Frame): seq<Byte> {
    CRLF + Text("Content-Type: image/jpeg\r\n")
    + Text("Content-Length: ") + Decimal(|f.bytes|) + CRLF
    + Text("X-Timestamp: ") + Decimal(f.sec) + ([46] + Decimal06(f.usec)) + [CR, LF, CR]
  }

  lemma BeforeFrameIsHeader(f: Frame)
    ensures CRLF + PartHeader(f) == BeforeFrame(f) + [LF]
  {
    CrlfText();
    hide Text, Decimal, Decimal06;
    assert [CR, LF, CR] + [LF] == CRLF + CRLF;
  }

  lemma FractionIsCalm(n: int)
    ensures var d := [46] + Decimal06(n); Calm(d) && Dull(d[|d| - 1])
  {
    DecimalIsNumeral(n);
    var s := Decimal06(n);
    var d := [46] + s;
    forall i | 0 <= i < |d| ensures !Masked(d, i) {
      if i >= 3 { DigitsAreDull(s[i - 1]); assert d[i] == s[i - 1]; }
    }
    DigitsAreDull(s[|s| - 1]);
  }

  lemma Ends()
    ensures Dull(Text("Content-Type: image/jpeg\r\n")[0]) && Dull(Text("Content-Length: ")[0])
    ensures Dull(Text("Content-Length: ")[15]) && |Text("Content-Length: ")| == 16
    ensures Dull(Text("X-Timestamp: ")[0]) && Dull(Text("X-Timestamp: ")[12]) && |Text("X-Timestamp: ")| == 13
  {
  }

  lemma BeforeFrameIsCalm(f: Frame)
    ensures Calm(BeforeFrame(f))
  {
    CrlfText();
    TypeText();
    LengthText();
    StampText();
    Ends();
    DecimalIsNumeral(|f.bytes|);
    NumeralIsCalm(Decimal(|f.bytes|));
    DecimalIsNumeral(f.sec);
    NumeralIsCalm(Decimal(f.sec));
    FractionIsCalm(f.usec);
    hide Text, Calm, Decimal, Decimal06, Dull;
    var c := CRLF + Text("Content-Type: image/jpeg\r\n");
    CalmJoin(CRLF, Text("Content-Type: image/jpeg\r\n"));
    CalmJoin(c, Text("Content-Length: "));
    c := c + Text("Content-Length: ");
    CalmJoin(c, Decimal(|f.bytes|));
    c := c + Decimal(|f.bytes|);
    CalmJoin(c, CRLF);
    c := c + CRLF;
    CalmJoin(c, Text("X-Timestamp: "));
    c := c + Text("X-Timestamp: ");
    CalmJoin(c, Decimal(f.sec));
    c := c + Decimal(f.sec);
    CalmJoin(c, [46] + Decimal06(f.usec));
    c := c + ([46] + Decimal06(f.usec));
    TailIsCalm();
    CalmJoin(c, [CR, LF, CR]);
  }

  lemma TailIsCalm()
    ensures Calm([CR, LF, CR])
  {
  }

  /** Every part header, whatever the size and the time, passes for an empty line at its last byte
      and nowhere before. */
  lemma PartHeaderEndsOnce(f: Frame, sc: bool)
    ensures var o := Run(Init, CRLF + PartHeader(f), sc); o.events == [] && AtContent(o.state)
  {
    BeforeFrameIsHeader(f);
    BeforeFrameIsCalm(f);
    var h := BeforeFrame(f);
    assert h[|h| - 3..] == [CR, LF, CR] && |h| >= 3 by { hide Text, Decimal, Decimal06; }
    hide BeforeFrame, PartHeader, Quiet, Run;
    assert (h + [LF])[|h| - 3..] == [CR, LF, CR, LF];
    assert h[|h| - 3] == CR && h[|h| - 2] == LF && h[|h| - 1] == CR;
    assert Masked(h + [LF], |h|);
    PlainHeaderEnds(h, LF, sc);
  }

  // ----- the response header

  predicate DashPair(h: seq<Byte>, i: nat)
    requires i < |h| - 1
  {
    h[i] == DASH && h[i + 1] == DASH
  }

  ghost predicate DashFree(h: seq<Byte>) {
    forall i :: 0 <= i < |h| - 1 ==> !DashPair(h, i)
  }

  lemma {:induction false} DashFreeIsClean(h: seq<Byte>)
    requires DashFree(h)
    ensures Match(0, h) <= 1 && (Match(0, h) == 1 ==> h != [] && h[|h| - 1] == DASH)
  {
    if h != [] {
      var n := |h| - 1;
      var front := h[..n];
      assert DashFree(front) by {
        forall i | 0 <= i < n - 1 ensures !DashPair(front, i) { assert !DashPair(h, i); }
      }
      if n > 0 { assert !DashPair(h, n - 1); }
      DashFreeIsClean(front);
      assert h == front + [h[n]];
      BoundaryText();
      hide Text;
      MatchConcat(0, front, [h[n]]);
      assert [h[n]][1..] == [];
    }
  }

  lemma DashFreeJoin(a: seq<Byte>, b: seq<Byte>)
    requires DashFree(a) && DashFree(b) && a != [] && a[|a| - 1] != DASH
    ensures DashFree(a + b)
  {
    var h := a + b;
    forall i | 0 <= i < |h| - 1 ensures !DashPair(h, i) {
      if i < |a| - 1 {
        assert !DashPair(a, i);
      } else if i >= |a| {
        assert !DashPair(b, i - |a|);
      }
    }
  }

  /** A piece of n bytes without a double dash that does not end in a dash. */
  ghost predicate Harmless(t: seq<Byte>, n: nat) {
    |t| == n > 0 && DashFree(t) && t[n - 1] != DASH
  }

  lemma HarmlessJoin(a: seq<Byte>, m: nat, b: seq<Byte>, n: nat)
    requires Harmless(a, m) && Harmless(b, n)
    ensures Harmless(a + b, m + n)
  {
    DashFreeJoin(a, b);
  }

  lemma OriginText()
    ensures Harmless(Text("Access-Control-Allow-Origin: *\r\n"), 32)
  {
  }

  lemma ConnectionText()
    ensures Harmless(Text("Connection: close\r\n"), 19)
  {
  }

  lemma ServerText()
    ensures Harmless(Text("Server: MJPG-Streamer/0.2\r\n"), 27)
  {
  }

  lemma CacheText()
    ensures Harmless(Text("Cache-Control: no-store, no-cache, "), 35)
  {
  }

  lemma RevalidateText()
    ensures Harmless(Text("must-revalidate, pre-check=0, "), 30)
  {
  }

  lemma CheckText()
    ensures Harmless(Text("post-check=0, max-age=0\r\n"), 25)
  {
  }

  lemma PragmaText()
    ensures Harmless(Text("Pragma: no-cache\r\n"), 18)
  {
  }

  lemma ExpiresText()
    ensures Harmless(Text("Expires: Mon, 3 Jan 2000 12:34:56 GMT\r\n"), 39)
  {
  }

  lemma MixedText()
    ensures Harmless(Text("Content-Type: "), 14)
    ensures Harmless(Text("multipart/x-mixed-replace;boundary="), 35)
  {
  }

  lemma NameText()
    ensures Harmless(Text("boundarydonotcross"), 18)
    ensures Harmless(Text("\r\n"), 2)
  {
  }

  lemma InternalErrorText()
    ensures Harmless(Text("HTTP/1.0 500 Internal Server Error\r\n"), 36)
  {
  }

  lemma PlainText()
    ensures Harmless(Text("Content-type: text/plain\r\n"), 26)
  {
  }

  lemma RefusalText()
    ensures Harmless(Text("500: Internal Server Error!\r\n"), 29)
    ensures Harmless(Text("not enough memory"), 17)
  {
  }

  lemma StdHeaderText()
    ensures Harmless(STD_HEADER, 193)
  {
    ConnectionText();
    ServerText();
    CacheText();
    RevalidateText();
    CheckText();
    PragmaText();
    ExpiresText();
    hide Text, Harmless;
    var c := Text("Connection: close\r\n");
    HarmlessJoin(c, 19, Text("Server: MJPG-Streamer/0.2\r\n"), 27);
    c := c + Text("Server: MJPG-Streamer/0.2\r\n");
    HarmlessJoin(c, 46, Text("Cache-Control: no-store, no-cache, "), 35);
    c := c + Text("Cache-Control: no-store, no-cache, ");
    HarmlessJoin(c, 81, Text("must-revalidate, pre-check=0, "), 30);
    c := c + Text("must-revalidate, pre-check=0, ");
    HarmlessJoin(c, 111, Text("post-check=0, max-age=0\r\n"), 25);
    c := c + Text("post-check=0, max-age=0\r\n");
    HarmlessJoin(c, 136, Text("Pragma: no-cache\r\n"), 18);
    c := c + Text("Pragma: no-cache\r\n");
    HarmlessJoin(c, 154, Text("Expires: Mon, 3 Jan 2000 12:34:56 GMT\r\n"), 39);
  }

  lemma FieldsText()
    ensures Harmless(FIELDS, 294)
  {
    OriginText();
    StdHeaderText();
    MixedText();
    NameText();
    hide Text, Harmless, STD_HEADER;
    var c := Text("Access-Control-Allow-Origin: *\r\n");
    HarmlessJoin(c, 32, STD_HEADER, 193);
    c := c + STD_HEADER;
    HarmlessJoin(c, 225, Text("Content-Type: "), 14);
    c := c + Text("Content-Type: ");
    HarmlessJoin(c, 239, Text("multipart/x-mixed-replace;boundary="), 35);
    c := c + Text("multipart/x-mixed-replace;boundary=");
    HarmlessJoin(c, 274, HTTP_BOUNDARY, 18);
    c := c + HTTP_BOUNDARY;
    HarmlessJoin(c, 292, Text("\r\n"), 2);
  }

  /** The error response, with the line end before it. */
  lemma RefusalDashFree()
    ensures DashFree(CRLF + REFUSAL)
  {
    InternalErrorText();
    PlainText();
    RefusalText();
    StdHeaderText();
    NameText();
    CrlfText();
    hide Text, STD_HEADER;
    var c := CRLF;
    HarmlessJoin(c, 2, Text("HTTP/1.0 500 Internal Server Error\r\n"), 36);
    c := c + Text("HTTP/1.0 500 Internal Server Error\r\n");
    HarmlessJoin(c, 38, Text("Content-type: text/plain\r\n"), 26);
    c := c + Text("Content-type: text/plain\r\n");
    HarmlessJoin(c, 64, STD_HEADER, 193);
    c := c + STD_HEADER;
    HarmlessJoin(c, 257, Text("\r\n"), 2);
    c := c + Text("\r\n");
    HarmlessJoin(c, 259, Text("500: Internal Server Error!\r\n"), 29);
    c := c + Text("500: Internal Server Error!\r\n");
    HarmlessJoin(c, 288, Text("not enough memory"), 17);
    assert c + Text("not enough memory") == CRLF + REFUSAL;
  }

  /** The response fields go into the first callback whole. */
  lemma FieldsDeliverable()
    ensures Deliverable(FIELDS)
  {
    FieldsText();
    DashFreeIsClean(FIELDS);
    BoundaryText();
  }

  // ----- the whole stream

  lemma BoundaryTexts()
    ensures Text("--") + HTTP_BOUNDARY == BOUNDARY
    ensures Text("\r\n--") == CRLF + Text("--")
  {
  }

  /** The two plugins mean the same boundary. */
  lemma BoundaryAgrees()
    ensures PartEnd() == CRLF + BOUNDARY + CRLF
    ensures Preamble() == STATUS + FIELDS + CRLF + BOUNDARY + CRLF
  {
    CrlfText();
    BoundaryTexts();
    hide Text;
    assert PartEnd() == CRLF + (Text("--") + HTTP_BOUNDARY) + CRLF;
    assert Preamble() == STATUS + FIELDS + CRLF + (Text("--") + HTTP_BOUNDARY) + CRLF;
  }

  /** What the extractor reads between two resets for one frame. */
  function Unit(f: Frame): seq<Byte> {
    CRLF + PartHeader(f) + (f.bytes + CRLF + BOUNDARY)
  }

  /** One frame comes through alone and unchanged exactly if it is at most 262121 bytes
      long and the matcher does not fire inside it. */
  lemma FrameComesThroughIff(f: Frame, sc: bool)
    ensures Run(Init, Unit(f), sc) == Outcome(Init, [Image(f.bytes)]) <==> Deliverable(f.bytes)
  {
    PartHeaderEndsOnce(f, sc);
    hide Run, PartHeader, Clean, Text;
    var s := Run(Init, CRLF + PartHeader(f), sc).state;
    RunConcat(Init, CRLF + PartHeader(f), f.bytes + CRLF + BOUNDARY, sc);
    var o := Run(s, f.bytes + CRLF + BOUNDARY, sc);
    assert Run(Init, Unit(f), sc) == Outcome(o.state, [] + o.events);
    assert [] + o.events == o.events;
    if Deliverable(f.bytes) {
      ContentDelivered(s, f.bytes, sc);
    } else {
      ContentNotDelivered(s, f.bytes, sc);
    }
  }

  function Units(fs: seq<Frame>): seq<Byte> {
    if fs == [] then [] else Units(fs[..|fs| - 1]) + Unit(fs[|fs| - 1])
  }

  function Lead(): seq<Byte> {
    STATUS + (FIELDS + CRLF + BOUNDARY)
  }

  lemma {:induction false} PartsAreUnits(fs: seq<Frame>)
    ensures CRLF + Parts(fs) == Units(fs) + CRLF
  {
    BoundaryAgrees();
    hide Text, PartHeader, PartEnd;
    if fs == [] {
      assert CRLF + [] == [] + CRLF;
    } else {
      var front, f := fs[..|fs| - 1], fs[|fs| - 1];
      PartsAreUnits(front);
      calc {
        CRLF + Parts(fs);
        CRLF + (Parts(front) + PartBytes(f));
        (CRLF + Parts(front)) + PartBytes(f);
        (Units(front) + CRLF) + (PartHeader(f) + f.bytes + (CRLF + BOUNDARY + CRLF));
        Units(front) + (CRLF + PartHeader(f) + (f.bytes + CRLF + BOUNDARY)) + CRLF;
        Units(fs) + CRLF;
      }
    }
  }

  lemma WireShape(fs: seq<Frame>)
    ensures Wire(fs) == Lead() + Units(fs) + CRLF
  {
    BoundaryAgrees();
    PartsAreUnits(fs);
    hide Text, Preamble, Parts, Units;
    assert Wire(fs) == Lead() + (CRLF + Parts(fs));
  }

  lemma LeadRead(sc: bool)
    ensures Run(Init, Lead(), sc) == Outcome(Init, [Image(FIELDS)])
  {
    CrlfText();
    StatusText();
    FieldsDeliverable();
    hide Text, Run, Quiet, Plain7, Deliverable;
    PlainHeaderEnds(Text("HTTP/1.0 200 OK\r"), LF, sc);
    var s := Run(Init, STATUS, sc).state;
    ContentDelivered(s, FIELDS, sc);
    RunConcat(Init, STATUS, FIELDS + CRLF + BOUNDARY, sc);
    assert [] + [Image(FIELDS)] == [Image(FIELDS)];
  }

  function Images(fs: seq<Frame>): (es: seq<Event>)
    ensures |es| == |fs|
  {
    seq(|fs|, i requires 0 <= i < |fs| => Image(fs[i].bytes))
  }

  ghost predicate AllDeliverable(fs: seq<Frame>) {
    forall i :: 0 <= i < |fs| ==> Deliverable(fs[i].bytes)
  }

  lemma {:induction false} UnitsRead(fs: seq<Frame>, sc: bool)
    requires AllDeliverable(fs)
    ensures Run(Init, Units(fs), sc) == Outcome(Init, Images(fs))
  {
    hide Text, Unit, Deliverable;
    if fs != [] {
      var front, f := fs[..|fs| - 1], fs[|fs| - 1];
      UnitsRead(front, sc);
      FrameComesThroughIff(f, sc);
      RunConcat(Init, Units(front), Unit(f), sc);
      assert Images(fs) == Images(front) + [Image(f.bytes)];
    }
  }

  /** The parts around part number j. */
  lemma {:induction false} UnitsSplit(fs: seq<Frame>, j: nat) returns (rest: seq<Byte>)
    requires j < |fs|
    ensures Units(fs) == Units(fs[..j]) + (Unit(fs[j]) + rest)
  {
    hide Unit;
    var front, f := fs[..|fs| - 1], fs[|fs| - 1];
    if j == |fs| - 1 {
      rest := [];
    } else {
      var r := UnitsSplit(front, j);
      rest := r + Unit(f);
      assert front[..j] == fs[..j];
      assert Units(fs[..j]) + (Unit(fs[j]) + r) + Unit(f) == Units(fs[..j]) + (Unit(fs[j]) + rest);
    }
  }

  /** From the first undeliverable frame on something else comes out than the frames. */
  lemma UnitsNotRead(fs: seq<Frame>, j: nat, tail: seq<Byte>, sc: bool)
    requires j < |fs| && !Deliverable(fs[j].bytes) && AllDeliverable(fs[..j])
    ensures Run(Init, Units(fs) + tail, sc).events != Images(fs)
  {
    hide *;
    var front, f := fs[..j], fs[j];
    var rest := UnitsSplit(fs, j);
    UnitsRead(front, sc);
    UnitNotRead(f, rest + tail, sc);
    assert Units(fs) + tail == Units(front) + (Unit(f) + (rest + tail));
    RunConcat(Init, Units(front), Unit(f) + (rest + tail), sc);
    NotTheseImages(fs, j, Run(Init, Unit(f) + (rest + tail), sc).events);
  }

  lemma NotTheseImages(fs: seq<Frame>, j: nat, es: seq<Event>)
    requires j < |fs| && (es == [] || es[0] != Image(fs[j].bytes))
    ensures Images(fs[..j]) + es != Images(fs)
  {
    var all := Images(fs[..j]) + es;
    if es != [] {
      assert all[j] == es[0] && Images(fs)[j] == Image(fs[j].bytes);
    } else {
      assert |all| == j;
    }
  }

  lemma UnitNotRead(f: Frame, rest: seq<Byte>, sc: bool)
    requires !Deliverable(f.bytes)
    ensures var es := Run(Init, Unit(f) + rest, sc).events; es == [] || es[0] != Image(f.bytes)
  {
    var h := CRLF + PartHeader(f);
    assert Unit(f) + rest == h + (f.bytes + CRLF + BOUNDARY + rest) by { hide PartHeader, Text; }
    hide Run, PartHeader, Text, Deliverable, Unit;
    PartHeaderEndsOnce(f, sc);
    FirstEventWrong(Run(Init, h, sc).state, f.bytes, rest, sc);
    RunConcat(Init, h, f.bytes + CRLF + BOUNDARY + rest, sc);
  }

  lemma FirstUndeliverable(fs: seq<Frame>) returns (j: nat)
    requires !AllDeliverable(fs)
    ensures j < |fs| && !Deliverable(fs[j].bytes) && AllDeliverable(fs[..j])
  {
    hide Deliverable;
    j := 0;
    while Deliverable(fs[j].bytes)
      invariant j < |fs| && AllDeliverable(fs[..j])
      decreases |fs| - j
    {
      j := j + 1;
      assert AllDeliverable(fs[..j]);
    }
  }

  /** The whole stream: behind the response header the parts are read, and the line end of the last one
      produces nothing any more. */
  lemma WireRead(fs: seq<Frame>, sc: bool)
    ensures Run(Init, Wire(fs), sc).events == [Image(FIELDS)] + Run(Init, Units(fs) + CRLF, sc).events
  {
    WireShape(fs);
    LeadRead(sc);
    hide Text, Run, Wire, Lead, Units;
    assert Lead() + Units(fs) + CRLF == Lead() + (Units(fs) + CRLF);
    RunConcat(Init, Lead(), Units(fs) + CRLF, sc);
  }

  /** Transport round trip: what send_stream writes, extract_data turns into one callback with the
      response fields and then exactly the frames, in order, byte for byte, if and only if each of them
      is deliverable. */
  lemma TransportRoundTrip(fs: seq<Frame>, sc: bool)
    ensures Run(Init, Wire(fs), sc).events == [Image(FIELDS)] + Images(fs) <==> AllDeliverable(fs)
  {
    WireRead(fs, sc);
    CrlfText();
    RegisterIsLastFour(CRLF, sc);
    hide Text, Run, Wire, Lead, Units, Quiet, Images, AllDeliverable;
    if AllDeliverable(fs) {
      UnitsRead(fs, sc);
      RunConcat(Init, Units(fs), CRLF, sc);
      HeaderGoesOn(CRLF, sc);
      assert Images(fs) + [] == Images(fs);
    } else {
      var j := FirstUndeliverable(fs);
      UnitsNotRead(fs, j, CRLF, sc);
      var es := Run(Init, Units(fs) + CRLF, sc).events;
      assert ([Image(FIELDS)] + es)[1..] == es && ([Image(FIELDS)] + Images(fs))[1..] == Images(fs);
    }
  }

  // ----- the error response behind the stream

  /** Byte b cannot lead to a callback, nor can what follows it if that has no double dash. */
  predicate Mute(s: State, b: Byte) {
    || s.matched == 0
    || (s.part.Content? && (|s.content| >= BUFFER_SIZE - 1 || (s.matched == 1 && b != DASH)))
  }

  lemma MuteStep(s: State, b: Byte, c: Byte, sc: bool)
    requires s.Ok() && Mute(s, b) && (b != DASH || c != DASH)
    ensures var o := Step(s, b, sc); o.events == [] && Mute(o.state, c)
  {
    BoundaryText();
    hide IsCrlf, IsCrlfCrlf, PushByte, Received, Text;
  }

  /** Text without a double dash produces no callback. */
  lemma {:induction false} DashFreeIsMute(s: State, h: seq<Byte>, sc: bool)
    requires s.Ok() && DashFree(h) && (h != [] ==> Mute(s, h[0]))
    ensures Run(s, h, sc).events == []
    decreases |h|
  {
    if h != [] {
      var c: Byte := if |h| > 1 then h[1] else 0;
      assert |h| > 1 ==> !DashPair(h, 0);
      MuteStep(s, h[0], c, sc);
      hide Step, Mute;
      forall i | 0 <= i < |h[1..]| - 1 ensures !DashPair(h[1..], i) { assert !DashPair(h, i + 1); }
      DashFreeIsMute(Step(s, h[0], sc).state, h[1..], sc);
    }
  }

  lemma InitOk()
    ensures Init.Ok()
  {
  }

  lemma RefusalMute(sc: bool)
    ensures Run(Init, CRLF + REFUSAL, sc).events == []
  {
    RefusalDashFree();
    hide Text, STD_HEADER, REFUSAL, DashFree;
    DashFreeIsMute(Init, CRLF + REFUSAL, sc);
  }

  /** The error response behind the frames changes nothing for the callbacks. */
  lemma RefusalUnheard(fs: seq<Frame>, sc: bool)
    requires AllDeliverable(fs)
    ensures Run(Init, Wire(fs) + REFUSAL, sc).events == [Image(FIELDS)] + Images(fs)
  {
    hide *;
    InitOk();
    WireShape(fs);
    LeadRead(sc);
    UnitsRead(fs, sc);
    RefusalMute(sc);
    var rest := CRLF + REFUSAL;
    assert Wire(fs) + REFUSAL == Lead() + (Units(fs) + rest);
    RunConcat(Init, Lead(), Units(fs) + rest, sc);
    RunConcat(Init, Units(fs), rest, sc);
    assert Images(fs) + [] == Images(fs);
  }

  // ----- in chunks

  /** The receive loop: one call of extract_data for each chunk. */
  function RunChunks(s: State, chunks: seq<seq<Byte>>, sc: bool): (o: Outcome)
    requires s.Ok()
    ensures o.state.Ok()
    decreases |chunks|
  {
    if chunks == [] then Outcome(s, [])
    else
      var first := Run(s, chunks[0], sc);
      var rest := RunChunks(first.state, chunks[1..], sc);
      Outcome(rest.state, first.events + rest.events)
  }

  lemma {:induction false} ChunksDoNotMatter(s: State, chunks: seq<seq<Byte>>, sc: bool)
    requires s.Ok()
    ensures RunChunks(s, chunks, sc) == Run(s, Flatten(chunks), sc)
    decreases |chunks|
  {
    hide Step;
    if chunks != [] {
      var first := Run(s, chunks[0], sc);
      ChunksDoNotMatter(first.state, chunks[1..], sc);
      RunConcat(s, chunks[0], Flatten(chunks[1..]), sc);
    }
  }

  /** However much of the stream and of an error response behind it has arrived, and in whatever
      chunks: the callbacks so far are a prefix of that list. */
  lemma ReceivedSoFar(fs: seq<Frame>, chunks: seq<seq<Byte>>, sc: bool)
    requires AllDeliverable(fs) && Flatten(chunks) <= Wire(fs) + REFUSAL
    ensures RunChunks(Init, chunks, sc).events <= [Image(FIELDS)] + Images(fs)
  {
    hide *;
    InitOk();
    ChunksDoNotMatter(Init, chunks, sc);
    RefusalUnheard(fs, sc);
    var n, all := |Flatten(chunks)|, Wire(fs) + REFUSAL;
    assert all == Flatten(chunks) + all[n..];
    RunConcat(Init, Flatten(chunks), all[n..], sc);
  }
}
