// A reader waits for every frame, is woken for it, and then gets it through to its client.
module Progress {
  import opened Bits
  import opened HttpStream
  import opened FrameBuffer
  import opened NoTornFrames
  import opened Producing

  // ----- it waits

  predicate WakesUnasked(a: Action, i: nat) {
    a.Step? && a.i == i && a.choice.Spurious?
  }

  /** Everything this reader has copied or is about to copy a broadcast has announced to it. */
  ghost predicate Waits(r: Reader) {
    && (Holding(r.phase) && !r.phase.Locked? ==> r.awaited)
    && forall j :: 0 <= j < |r.copies| ==> r.copies[j].awaited
  }

  lemma StepWaits(s: State, r: Reader, choice: Choice)
    requires Waits(r) && CanStep(s, r, choice) && !choice.Spurious?
    ensures Waits(Stepped(s, r, choice))
  {
    hide Mine, PartHeader, PartEnd, Sent;
  }

  lemma ActionWaits(s: State, a: Action, i: nat)
    requires i < |s.readers| && Waits(s.readers[i]) && Can(s, a) && !WakesUnasked(a, i)
    ensures i < |Do(s, a).readers| && Waits(Do(s, a).readers[i])
  {
    hide Stepped, CanStep, OwnerAfter;
    if a.Step? && a.i == i { StepWaits(s, s.readers[i], a.choice); }
  }

  lemma {:induction false} RunWaits(s: State, run: seq<Action>, t: State, i: nat)
    requires Reaches(s, run, t) && i < |s.readers| && Waits(s.readers[i])
    requires forall k :: 0 <= k < |run| ==> !WakesUnasked(run[k], i)
    ensures i < |t.readers| && Waits(t.readers[i])
    decreases |run|
  {
    if run != [] {
      assert !WakesUnasked(run[0], i);
      ActionWaits(s, run[0], i);
      hide Do, Can, Waits;
      forall k | 0 <= k < |run[1..]| ensures !WakesUnasked(run[1..][k], i) { assert !WakesUnasked(run[k + 1], i); }
      RunWaits(Do(s, run[0]), run[1..], t, i);
    }
  }

  /** A reader that never wakes up unasked copies a newer frame every time. */
  lemma NewEachTime(s: State, run: seq<Action>, t: State, i: nat, j: nat, k: nat)
    requires IsStart(s) && Reaches(s, run, t) && i < |s.readers| && i < |t.readers|
    requires forall n :: 0 <= n < |run| ==> !WakesUnasked(run[n], i)
    requires j < k < |t.readers[i].copies|
    ensures t.readers[i].copies[j].index < t.readers[i].copies[k].index
  {
    assert FreshReader(s.readers[i]);
    RunWaits(s, run, t, i);
    hide Reaches, IsStart;
    CopiesArePublished(s, run, t, i, k);
  }

  // ----- it is woken

  /** A broadcast and the unlock behind it let every sleeping reader go on. */
  lemma BroadcastWakes(s: State, i: nat)
    requires Can(s, Broadcast) && i < |s.readers| && s.readers[i].phase.Asleep?
    ensures var t := Do(s, Broadcast); Can(t, Unlock) && Can(Do(t, Unlock), Step(i, Proceed))
  {
  }

  // ----- it gets through

  /** Only reader i and the mutex have changed. */
  predicate Apart(s: State, t: State, i: nat) {
    i < |s.readers| == |t.readers| && t == s.(readers := s.readers[i := t.readers[i]], owner := t.owner)
  }

  /** Nobody else acts. */
  ghost predicate Alone(run: seq<Action>, i: nat) {
    forall k :: 0 <= k < |run| ==> run[k].Step? && run[k].i == i
  }

  /** The reader gets from s to t without anybody else. */
  ghost predicate Goes(s: State, t: State, i: nat) {
    Apart(s, t, i) && exists run :: Alone(run, i) && Reaches(s, run, t)
  }

  lemma GoesOne(s: State, i: nat, choice: Choice)
    requires Can(s, Step(i, choice))
    ensures Goes(s, Do(s, Step(i, choice)), i)
  {
    var t, run := Do(s, Step(i, choice)), [Step(i, choice)];
    assert run[1..] == [];
    assert Reaches(t, [], t);
    assert Alone(run, i) && Reaches(s, run, t);
  }

  lemma GoesOn(s: State, t: State, u: State, i: nat)
    requires Goes(s, t, i) && Goes(t, u, i)
    ensures Goes(s, u, i)
  {
    var a :| Alone(a, i) && Reaches(s, a, t);
    var b :| Alone(b, i) && Reaches(t, b, u);
    hide Reaches;
    ReachesConcat(s, a, t, b, u);
    assert Alone(a + b, i);
  }

  /** The state with reader i and the mutex like this. */
  function With(s: State, i: nat, r: Reader, owner: Owner): State
    requires i < |s.readers|
  {
    s.(readers := s.readers[i := r], owner := owner)
  }

  lemma WithAgain(s: State, i: nat, r: Reader, owner: Owner, r': Reader, owner': Owner)
    requires i < |s.readers|
    ensures With(With(s, i, r, owner), i, r', owner') == With(s, i, r', owner')
  {
  }

  /** A reader at the top of its loop takes the mutex and gives it back asleep. */
  lemma FallsAsleep(s: State, i: nat)
    requires i < |s.readers| && s.readers[i].phase == Away && s.owner.Free?
    ensures Goes(s, With(s, i, s.readers[i].(phase := Asleep(false)), Free), i)
  {
    var r := s.readers[i];
    GoesOne(s, i, Proceed);
    var t := With(s, i, r.(phase := Locked), ByReader(i));
    assert Do(s, Step(i, Proceed)) == t;
    GoesOne(t, i, Proceed);
    WithAgain(s, i, r.(phase := Locked), ByReader(i), r.(phase := Asleep(false)), Free);
    hide Goes;
    GoesOn(s, t, With(s, i, r.(phase := Asleep(false)), Free), i);
  }

  lemma WakesUp(s: State, i: nat)
    requires i < |s.readers| && s.readers[i].phase == Asleep(true) && s.owner.Free?
    ensures Goes(s, With(s, i, s.readers[i].(phase := Awake, awaited := true), ByReader(i)), i)
  {
    GoesOne(s, i, Proceed);
  }

  lemma ReadsSize(s: State, i: nat)
    requires i < |s.readers| && s.readers[i].phase == Awake
    ensures Goes(s, With(s, i, s.readers[i].(phase := Sized, size := s.size), ByReader(i)), i)
  {
    GoesOne(s, i, Proceed);
  }

  lemma MakesRoom(s: State, i: nat, room: seq<Byte>)
    requires i < |s.readers| && s.readers[i].phase == Sized && |room| == s.readers[i].size + TEN_K
    ensures var r := s.readers[i];
      Goes(s, With(s, i, r.(phase := Grown, memory := if r.size > |r.memory| then room else r.memory), ByReader(i)), i)
  {
    var r := s.readers[i];
    GoesOne(s, i, if r.size > |r.memory| then Grow(room) else Proceed);
  }

  lemma ReadsTime(s: State, i: nat)
    requires i < |s.readers| && s.readers[i].phase == Grown
    ensures Goes(s, With(s, i, s.readers[i].(phase := Copying(0), sec := s.sec, usec := s.usec), ByReader(i)), i)
  {
    GoesOne(s, i, Proceed);
  }

  lemma Stays(s: State, i: nat)
    requires i < |s.readers|
    ensures Goes(s, s, i)
  {
    assert Alone([], i) && Reaches(s, [], s);
  }

  /** The reader behind the copy of bytes k and up. */
  function Copied(s: State, r: Reader, k: nat): Reader
    requires k <= r.size <= |s.buf| && r.size <= |r.memory|
  {
    r.(phase := Copying(r.size), memory := r.memory[..k] + s.buf[k..r.size] + r.memory[r.size..])
  }

  lemma {:induction false} CopiesBytes(s: State, i: nat, k: nat)
    requires i < |s.readers| && s.readers[i].phase == Copying(k) && s.owner == ByReader(i)
    requires k <= s.readers[i].size <= |s.buf| && s.readers[i].size <= |s.readers[i].memory|
    ensures Goes(s, With(s, i, Copied(s, s.readers[i], k), ByReader(i)), i)
    decreases s.readers[i].size - k
  {
    hide Goes;
    var r := s.readers[i];
    var u := With(s, i, Copied(s, r, k), ByReader(i));
    if k == r.size {
      assert r.memory[..k] + s.buf[k..k] + r.memory[k..] == r.memory;
      assert u == s;
      Stays(s, i);
    } else {
      var t := With(s, i, r.(phase := Copying(k + 1), memory := r.memory[k := s.buf[k]]), ByReader(i));
      GoesOne(s, i, Proceed);
      assert Do(s, Step(i, Proceed)) == t;
      CopiesBytes(t, i, k + 1);
      CopiedNext(s, r, k);
      assert u == With(t, i, Copied(t, t.readers[i], k + 1), ByReader(i));
      GoesOn(s, t, u, i);
    }
  }

  lemma CopiedNext(s: State, r: Reader, k: nat)
    requires k < r.size <= |s.buf| && r.size <= |r.memory|
    ensures Copied(s, r.(phase := Copying(k + 1), memory := r.memory[k := s.buf[k]]), k + 1) == Copied(s, r, k)
  {
    var m := r.memory[k := s.buf[k]];
    assert m[..k + 1] + s.buf[k + 1..r.size] + m[r.size..] == r.memory[..k] + s.buf[k..r.size] + r.memory[r.size..];
  }

  lemma TakesCopy(s: State, i: nat)
    requires i < |s.readers| && s.published != []
    requires s.readers[i].phase == Copying(s.readers[i].size) && s.readers[i].size <= |s.readers[i].memory|
    ensures var r := s.readers[i];
      var copies := r.copies + [Copy(Mine(r), |s.published| - 1, r.awaited)];
      Goes(s, With(s, i, r.(phase := Header, copies := copies), Free), i)
  {
    hide Mine;
    GoesOne(s, i, Proceed);
  }

  lemma Sends(s: State, i: nat)
    requires i < |s.readers| && s.readers[i].phase in [Header, Content, End] && s.owner.Free?
    requires s.readers[i].size <= |s.readers[i].memory|
    ensures var r := s.readers[i];
      Goes(s, With(s, i, match r.phase
        case Header => r.(phase := Content, wire := r.wire + PartHeader(Mine(r)))
        case Content => r.(phase := End, wire := r.wire + Mine(r).bytes)
        case _ => r.(phase := Away, wire := r.wire + PartEnd()), Free), i)
  {
    hide Mine, PartHeader, PartEnd;
    GoesOne(s, i, Proceed);
  }

  /** A reader with the shared frame in its private variables, as large as its memory may be. */
  predicate HasShared(s: State, r: Reader, phase: Phase) {
    r.phase == phase && r.awaited && r.size == s.size <= |r.memory| && Mine(r) == Shared(s)
  }

  /** From waking up to the copy. */
  lemma GetsCopy(s: State, i: nat, room: seq<Byte>) returns (t: State)
    requires i < |s.readers| && s.readers[i].phase == Asleep(true) && s.owner.Free?
    requires s.size <= |s.buf| && |room| == s.size + TEN_K
    ensures Goes(s, t, i) && t.owner == ByReader(i)
    ensures var r, r' := s.readers[i], t.readers[i];
      HasShared(s, r', Copying(s.size)) && r'.copies == r.copies && r'.wire == r.wire && r'.whole == r.whole
  {
    hide Goes, Mine, Shared;
    var r := s.readers[i];
    var r1 := r.(phase := Awake, awaited := true);
    var r2 := r1.(phase := Sized, size := s.size);
    var r3 := r2.(phase := Grown, memory := if s.size > |r.memory| then room else r.memory);
    var r4 := r3.(phase := Copying(0), sec := s.sec, usec := s.usec);
    var s1, s2, s3, s4 := With(s, i, r1, ByReader(i)), With(s, i, r2, ByReader(i)), With(s, i, r3, ByReader(i)),
      With(s, i, r4, ByReader(i));
    t := With(s, i, Copied(s, r4, 0), ByReader(i));
    WithAgain(s, i, r1, ByReader(i), r2, ByReader(i));
    WithAgain(s, i, r2, ByReader(i), r3, ByReader(i));
    WithAgain(s, i, r3, ByReader(i), r4, ByReader(i));
    WithAgain(s, i, r4, ByReader(i), Copied(s, r4, 0), ByReader(i));
    WakesUp(s, i);
    ReadsSize(s1, i);
    GoesOn(s, s1, s2, i);
    MakesRoom(s2, i, room);
    GoesOn(s, s2, s3, i);
    ReadsTime(s3, i);
    GoesOn(s, s3, s4, i);
    CopiesBytes(s4, i, 0);
    GoesOn(s, s4, t, i);
    CopiedIsShared(s, r4);
  }

  lemma CopiedIsShared(s: State, r: Reader)
    requires r.size == s.size <= |s.buf| && r.size <= |r.memory| && r.sec == s.sec && r.usec == s.usec
    ensures Mine(Copied(s, r, 0)) == Shared(s)
  {
    assert Copied(s, r, 0).memory[..r.size] == s.buf[..r.size];
  }

  /** From the copy to the end of the part. */
  lemma GetsSent(s: State, i: nat, f: Frame) returns (t: State)
    requires i < |s.readers| && s.published != [] && HasShared(s, s.readers[i], Copying(s.size)) && f == Shared(s)
    ensures Goes(s, t, i) && t.owner.Free?
    ensures var r, r' := s.readers[i], t.readers[i];
      && r'.phase == Away && r'.copies == r.copies + [Copy(f, |s.published| - 1, true)]
      && r'.wire == r.wire + PartBytes(f) && r'.whole == r.whole
  {
    hide Goes, PartHeader, PartEnd;
    var r := s.readers[i];
    var r1 := r.(phase := Header, copies := r.copies + [Copy(f, |s.published| - 1, true)]);
    var r2 := r1.(phase := Content, wire := r.wire + PartHeader(f));
    var r3 := r2.(phase := End, wire := r.wire + PartHeader(f) + f.bytes);
    var r4 := r3.(phase := Away, wire := r.wire + PartHeader(f) + f.bytes + PartEnd());
    assert Mine(r1) == Mine(r2) == f;
    assert r.wire + PartHeader(f) + f.bytes + PartEnd() == r.wire + PartBytes(f);
    hide Mine, Shared, PartBytes;
    var s1, s2, s3 := With(s, i, r1, Free), With(s, i, r2, Free), With(s, i, r3, Free);
    t := With(s, i, r4, Free);
    WithAgain(s, i, r1, Free, r2, Free);
    WithAgain(s, i, r2, Free, r3, Free);
    WithAgain(s, i, r3, Free, r4, Free);
    TakesCopy(s, i);
    Sends(s1, i);
    GoesOn(s, s1, s2, i);
    Sends(s2, i);
    GoesOn(s, s2, s3, i);
    Sends(s3, i);
    GoesOn(s, s3, t, i);
  }

  /** A reader that has been woken, with the mutex free, can get through on its own: it copies the frame
      published last, and its client gets that frame as one more part. */
  lemma GetsThrough(s: State, i: nat) returns (t: State)
    requires Inv(s) && i < |s.readers| && s.readers[i].phase == Asleep(true) && s.owner.Free?
    ensures Goes(s, t, i) && t.owner.Free?
    ensures var f, r, r' := s.published[|s.published| - 1], s.readers[i], t.readers[i];
      && r'.phase == Away && r'.copies == r.copies + [Copy(f, |s.published| - 1, true)]
      && r'.wire == r.wire + PartBytes(f) && r'.whole == r.whole
  {
    hide *;
    PublishedLast(s);
    var u := GetsCopy(s, i, Blank(s.size + TEN_K));
    SharedStays(s, u, i);
    t := GetsSent(u, i, Shared(s));
    GoesOn(s, u, t, i);
  }

  lemma PublishedLast(s: State)
    requires Inv(s) && s.owner.Free?
    ensures s.published != [] && Shared(s) == s.published[|s.published| - 1] && s.size <= |s.buf|
  {
  }

  lemma SharedStays(s: State, t: State, i: nat)
    requires Goes(s, t, i)
    ensures Shared(t) == Shared(s) && t.size == s.size && t.published == s.published && i < |t.readers|
    ensures HasShared(s, t.readers[i], Copying(s.size)) ==> HasShared(t, t.readers[i], Copying(t.size))
  {
  }
}
