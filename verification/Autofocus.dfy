// The focus search in the worker of the autofocus output plugin.
module Autofocus {

  const DELTA := 500.0
  const STEP := 10

  datatype State = State(focus: int, maxFocus: int, maxSv: real, searching: bool)

  const START := State(255, 100, 100.0, true)

  function Abs(x: real): real { if x < 0.0 then -x else x }

  /** MIN(MAX(f, 0), 255). */
  function Limit(f: int): int { if f < 0 then 0 else if f > 255 then 255 else f }

  /** The sharpness has moved away too far from the one the search settled on. */
  predicate Triggers(s: State, sv: real) {
    s.searching || Abs(sv - s.maxSv) > DELTA
  }

  /** One frame of this sharpness. */
  function Step(s: State, sv: real): State {
    if !Triggers(s, sv) then s
    else
      var t := if s.searching then s else State(255, 255, -1.0, true);
      if t.focus <= 0 then t.(focus := t.maxFocus, searching := false)
      else
        var u := if sv > t.maxSv then t.(maxFocus := t.focus, maxSv := sv) else t;
        u.(focus := Limit(u.focus - STEP))
  }

  class Worker {
    var focus: int
    var maxFocus: int
    var maxSv: real
    var searching: bool

    function Current(): State
      reads this
    {
      State(focus, maxFocus, maxSv, searching)
    }

    constructor ()
      ensures Current() == START
    {
      focus, maxFocus, maxSv, searching := 255, 100, 100.0, true;
    }

    /** The loop body behind the copy of the frame. */
    method Process(sv: real)
      modifies this
      ensures Current() == Step(old(Current()), sv)
    {
      if searching || Abs(sv - maxSv) > DELTA {
        if !searching {
          maxFocus, focus, maxSv, searching := 255, 255, -1.0, true;
        }
        if focus <= 0 {
          focus := maxFocus;
          searching := false;
        }
        if searching {
          if sv > maxSv {
            maxFocus, maxSv := focus, sv;
          }
          focus := Limit(focus - STEP);
        }
      }
    }
  }

  function Run(s: State, readings: seq<real>): State {
    if readings == [] then s else Step(Run(s, readings[..|readings| - 1]), readings[|readings| - 1])
  }

  // ----- one search

  /** The positions of a search: 255, 245, ..., 5, and 0, where it stops without measuring. */
  const MEASURED := 26

  function Position(k: nat): int { if k < MEASURED then 255 - 10 * k else 0 }

  datatype Best = Best(focus: int, sv: real)

  /** The best of the readings at the positions in turn, if better than what is known. */
  function BestOf(known: Best, readings: seq<real>): Best {
    if readings == [] then known
    else
      var n := |readings| - 1;
      var b := BestOf(known, readings[..n]);
      if readings[n] > b.sv then Best(Position(n), readings[n]) else b
  }

  /** It is the first position that attains the maximum, provided that lies above the known value. */
  lemma {:induction false} BestIsFirstMaximum(known: Best, readings: seq<real>)
    ensures var b := BestOf(known, readings);
      && b.sv >= known.sv
      && (forall i :: 0 <= i < |readings| ==> readings[i] <= b.sv)
      && (b == known || exists j :: 0 <= j < |readings| && FirstMaximum(known, readings, b, j))
  {
    if readings != [] {
      var n := |readings| - 1;
      BestIsFirstMaximum(known, readings[..n]);
      var a, b := BestOf(known, readings[..n]), BestOf(known, readings);
      if b != a {
        assert FirstMaximum(known, readings, b, n);
      } else if a != known {
        var j :| 0 <= j < n && FirstMaximum(known, readings[..n], a, j);
        assert FirstMaximum(known, readings, b, j);
      }
    }
  }

  ghost predicate FirstMaximum(known: Best, readings: seq<real>, b: Best, j: nat)
    requires j < |readings|
  {
    b.focus == Position(j) && b.sv == readings[j] > known.sv && forall i :: 0 <= i < j ==> readings[i] < b.sv
  }

  function Searching(k: nat, b: Best): State {
    State(Position(k), b.focus, b.sv, true)
  }

  /** During a search frame number k measures at position k. */
  lemma {:induction false} SearchRuns(known: Best, readings: seq<real>)
    requires |readings| <= MEASURED
    ensures Run(Searching(0, known), readings) == Searching(|readings|, BestOf(known, readings))
  {
    if readings != [] {
      var n := |readings| - 1;
      SearchRuns(known, readings[..n]);
    }
  }

  lemma {:induction false} RunSplit(s: State, a: seq<real>, b: seq<real>)
    ensures Run(s, a + b) == Run(Run(s, a), b)
  {
    if b == [] {
      assert a + b == a;
    } else {
      var n := |b| - 1;
      RunSplit(s, a, b[..n]);
      assert (a + b)[..|a + b| - 1] == a + b[..n];
    }
  }

  /** The first search: 27 frames, and the best of the 26 readings above 100, or position 100. */
  lemma FirstSearch(readings: seq<real>)
    requires |readings| == MEASURED + 1
    ensures var b := BestOf(Best(100, 100.0), readings[..MEASURED]);
      Run(START, readings) == State(b.focus, b.focus, b.sv, false)
    ensures forall k :: 0 <= k <= MEASURED ==> Run(START, readings[..k]).searching
  {
    SearchEnds(Best(100, 100.0), readings);
  }

  lemma SearchEnds(known: Best, readings: seq<real>)
    requires |readings| == MEASURED + 1
    ensures var b := BestOf(known, readings[..MEASURED]);
      Run(Searching(0, known), readings) == State(b.focus, b.focus, b.sv, false)
    ensures forall k :: 0 <= k <= MEASURED ==> Run(Searching(0, known), readings[..k]).searching
  {
    SearchRuns(known, readings[..MEASURED]);
    forall k | 0 <= k <= MEASURED ensures Run(Searching(0, known), readings[..k]).searching {
      SearchRuns(known, readings[..k]);
    }
  }

  /** A settled focus stays until a reading moves away too far. */
  lemma {:induction false} SettledStays(s: State, readings: seq<real>)
    requires !s.searching && forall i :: 0 <= i < |readings| ==> -500.0 <= readings[i] - s.maxSv <= 500.0
    ensures Run(s, readings) == s
  {
    if readings != [] { SettledStays(s, readings[..|readings| - 1]); }
  }

  /** A rescan: it begins with the frame whose reading triggers it, takes exactly 27 frames, and
      settles on the first of the 26 positions with the maximum reading above -1, or on 255. */
  lemma Rescan(s: State, readings: seq<real>)
    requires !s.searching && |readings| == MEASURED + 1
    requires readings[0] < s.maxSv - 500.0 || readings[0] > s.maxSv + 500.0
    ensures var b := BestOf(Best(255, -1.0), readings[..MEASURED]);
      Run(s, readings) == State(b.focus, b.focus, b.sv, false)
    ensures forall k :: 1 <= k <= MEASURED ==> Run(s, readings[..k]).searching
  {
    var begun := Searching(0, Best(255, -1.0));
    SearchEnds(Best(255, -1.0), readings);
    SameFirstStep(s, begun, readings);
    forall k | 1 <= k <= MEASURED ensures Run(s, readings[..k]).searching {
      SameFirstStep(s, begun, readings[..k]);
      assert Run(begun, readings[..k]).searching;
    }
  }

  lemma SameFirstStep(s: State, t: State, readings: seq<real>)
    requires readings != [] && Step(s, readings[0]) == Step(t, readings[0])
    ensures Run(s, readings) == Run(t, readings)
  {
    assert readings == readings[..1] + readings[1..];
    RunSplit(s, readings[..1], readings[1..]);
    RunSplit(t, readings[..1], readings[1..]);
    assert readings[..1][..0] == [];
    assert Run(s, readings[..1]) == Run(t, readings[..1]);
  }

  /** In any run the focus stays within 0..255, and so does the position it will settle on. */
  lemma {:induction false} FocusInRange(readings: seq<real>)
    ensures var s := Run(START, readings); 0 <= s.focus <= 255 && 0 <= s.maxFocus <= 255
  {
    if readings != [] { FocusInRange(readings[..|readings| - 1]); }
  }

  /** From any state of any run a search is over within 27 frames: every frame of a search lowers the
      focus by ten, until it is 0. */
  lemma {:induction false} SearchesEnd(s: State, readings: seq<real>)
    requires 0 <= s.focus <= 255 && s.searching && 10 * |readings| >= s.focus + 10
    ensures exists k :: 0 <= k <= |readings| && !Run(s, readings[..k]).searching
    decreases |readings|
  {
    var t := Step(s, readings[0]);
    if !t.searching {
      assert readings[..1][..0] == [];
      assert !Run(s, readings[..1]).searching;
    } else {
      SearchesEnd(t, readings[1..]);
      var k :| 0 <= k <= |readings[1..]| && !Run(t, readings[1..][..k]).searching;
      assert readings[..k + 1] == readings[..1] + readings[1..][..k];
      RunSplit(s, readings[..1], readings[1..][..k]);
      assert readings[..1][..0] == [];
      assert Run(s, readings[..1]) == t;
      assert !Run(s, readings[..k + 1]).searching;
    }
  }
}
