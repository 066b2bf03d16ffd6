// No reader ever sees a torn frame: the invariant of the shared frame protocol.
module NoTornFrames {
  import opened Bits
  import opened Ascii
  import opened HttpStream
  import opened FrameBuffer

  // ----- the invariant

  /** The mutex excludes, and while nobody writes the shared fields hold the last published frame. */
  ghost predicate SharedInv(s: State) {
    && s.size <= |s.buf| && s.published != []
    && (s.owner == ByProducer <==> s.pc != Idle)
    && (forall i :: 0 <= i < |s.readers| ==> (Holding(s.readers[i].phase) <==> s.owner == ByReader(i)))
    && (s.owner.ByReader? ==> s.owner.i < |s.readers|)
    && (s.pc != Writing ==> Shared(s) == s.published[|s.published| - 1])
  }

  /** The private buffer is large enough wherever it is used. */
  predicate Roomy(r: Reader) {
    match r.phase
    case Grown => r.size <= |r.memory|
    case Copying(k) => k <= r.size <= |r.memory|
    case Header => r.size <= |r.memory|
    case Content => r.size <= |r.memory|
    case End => r.size <= |r.memory|
    case Fault => false
    case _ => true
  }

  /** What the reader has read so far under the lock is what is there. */
  predicate Seen(s: State, r: Reader) {
    match r.phase
    case Sized => r.size == s.size
    case Grown => r.size == s.size
    case Copying(k) =>
      && r.size == s.size <= |s.buf| && r.sec == s.sec && r.usec == s.usec
      && k <= r.size <= |r.memory| && r.memory[..k] == s.buf[..k]
    case _ => true
  }

  /** The index of the newest copy; frame 0 is the one nobody published. */
  function Newest(copies: seq<Copy>): nat {
    if copies == [] then 0 else copies[|copies| - 1].index
  }

  /** Every copy is a published frame, whole; indices never go back, and they go forward whenever a
      broadcast had woken the reader. */
  ghost predicate Faithful(copies: seq<Copy>, published: seq<Frame>)
    decreases |copies|
  {
    copies == [] ||
    var c, front := copies[|copies| - 1], copies[..|copies| - 1];
    && c.index < |published| && c.frame == published[c.index]
    && Newest(front) <= c.index && (c.awaited ==> Newest(front) < c.index)
    && Faithful(front, published)
  }

  /** A reader that a broadcast has woken has something newer to read. */
  predicate Pending(s: State, r: Reader) {
    && Newest(r.copies) < |s.published|
    && (r.phase == Asleep(true) || (Holding(r.phase) && !r.phase.Locked? && r.awaited) ==>
      Newest(r.copies) + 1 < |s.published|)
  }

  function Frames(copies: seq<Copy>): (fs: seq<Frame>)
    ensures |fs| == |copies|
  {
    seq(|copies|, i requires 0 <= i < |copies| => copies[i].frame)
  }

  /** What has been written is the stream of the frames copied so far, or a part of it, unless a write
      was short. */
  ghost predicate Written(r: Reader) {
    r.whole ==>
    var n := |r.copies| - 1;
    match r.phase
    case Header => n >= 0 && r.copies[n].frame == Mine(r) && r.wire == Wire(Frames(r.copies[..n]))
    case Content =>
      && n >= 0 && r.copies[n].frame == Mine(r)
      && r.wire == Wire(Frames(r.copies[..n])) + PartHeader(Mine(r))
    case End =>
      && n >= 0 && r.copies[n].frame == Mine(r)
      && r.wire == Wire(Frames(r.copies[..n])) + PartHeader(Mine(r)) + Mine(r).bytes
    case Stopped => r.wire <= Wire(Frames(r.copies)) + REFUSAL
    case _ => r.wire == Wire(Frames(r.copies))
  }

  ghost predicate ReaderInv(s: State, r: Reader) {
    Roomy(r) && Seen(s, r) && Faithful(r.copies, s.published) && Pending(s, r) && Written(r)
  }

  ghost predicate Inv(s: State) {
    SharedInv(s) && forall i :: 0 <= i < |s.readers| ==> ReaderInv(s, s.readers[i])
  }

  // ----- it holds at the start

  lemma StartInv(s: State)
    requires IsStart(s)
    ensures Inv(s)
  {
    forall i | 0 <= i < |s.readers| ensures ReaderInv(s, s.readers[i]) {
      assert FreshReader(s.readers[i]);
      assert Frames([]) == [] && Preamble() + [] == Preamble();
    }
    forall i | 0 <= i < |s.readers| ensures !Holding(s.readers[i].phase) { assert FreshReader(s.readers[i]); }
  }

  // ----- the producer's steps keep it

  lemma {:induction false} FaithfulGrows(copies: seq<Copy>, published: seq<Frame>, f: Frame)
    requires Faithful(copies, published)
    ensures Faithful(copies, published + [f])
    decreases |copies|
  {
    if copies != [] { FaithfulGrows(copies[..|copies| - 1], published, f); }
  }

  /** While the producer holds the lock no reader looks at the shared fields. */
  lemma ProducerWrites(s: State, a: Action)
    requires Inv(s) && Can(s, a) && (a.WriteByte? || a.WriteSize? || a.WriteTime?)
    ensures Inv(Do(s, a))
  {
    hide Faithful, Written;
    var t := Do(s, a);
    forall i | 0 <= i < |t.readers| ensures ReaderInv(t, t.readers[i]) {
      assert ReaderInv(s, s.readers[i]) && !Holding(s.readers[i].phase);
    }
  }

  lemma ProducerLocks(s: State, a: Action)
    requires Inv(s) && Can(s, a) && (a.Lock? || a.Unlock?)
    ensures Inv(Do(s, a))
  {
    hide Faithful, Written;
    var t := Do(s, a);
    forall i | 0 <= i < |t.readers| ensures ReaderInv(t, t.readers[i]) {
      assert ReaderInv(s, s.readers[i]);
    }
  }

  /** Being signalled changes nothing else. */
  lemma SignalledReader(s: State, t: State, r: Reader)
    requires ReaderInv(s, r) && !Holding(r.phase) && t.published == s.published + [Shared(s)]
    ensures ReaderInv(t, if r.phase.Asleep? then r.(phase := Asleep(true)) else r)
  {
    FaithfulGrows(r.copies, s.published, Shared(s));
    hide Faithful, Shared, Wire;
  }

  lemma ProducerAnnounces(s: State)
    requires Inv(s) && Can(s, Broadcast)
    ensures Inv(Do(s, Broadcast))
  {
    var t := Do(s, Broadcast);
    forall i | 0 <= i < |t.readers| ensures ReaderInv(t, t.readers[i]) {
      hide ReaderInv;
      assert ReaderInv(s, s.readers[i]) && !Holding(s.readers[i].phase);
      SignalledReader(s, t, s.readers[i]);
    }
  }

  // ----- a reader's steps keep it

  /** What a reader that holds the mutex may rely on. */
  ghost predicate Quiescent(s: State, r: Reader) {
    && s.size <= |s.buf| && s.published != []
    && (Holding(r.phase) ==> Shared(s) == s.published[|s.published| - 1])
  }

  lemma StepSees(s: State, r: Reader, choice: Choice)
    requires Quiescent(s, r) && Roomy(r) && Seen(s, r) && CanStep(s, r, choice)
    ensures var r' := Stepped(s, r, choice); Roomy(r') && Seen(s, r')
  {
    hide PartHeader, PartEnd, Sent, Mine;
    if r.phase.Copying? && r.phase.k < r.size {
      var k, m := r.phase.k, r.memory[r.phase.k := s.buf[r.phase.k]];
      assert m[..k + 1] == m[..k] + [s.buf[k]] && s.buf[..k + 1] == s.buf[..k] + [s.buf[k]];
      assert m[..k] == r.memory[..k];
    }
  }

  /** When the copy is complete it is the frame in the shared fields. */
  lemma CopyIsShared(s: State, r: Reader)
    requires Quiescent(s, r) && Seen(s, r) && r.phase.Copying? && r.phase.k >= r.size
    ensures Mine(r) == Shared(s) == s.published[|s.published| - 1]
  {
  }

  lemma AppendedCopy(copies: seq<Copy>, published: seq<Frame>, c: Copy)
    requires Faithful(copies, published) && published != [] && c.index == |published| - 1
    requires c.frame == published[c.index] && Newest(copies) <= c.index
    requires c.awaited ==> Newest(copies) < c.index
    ensures Faithful(copies + [c], published) && Newest(copies + [c]) == c.index
  {
    assert (copies + [c])[..|copies|] == copies;
  }

  lemma NoCopyTaken(s: State, r: Reader, choice: Choice)
    requires CanStep(s, r, choice) && Pending(s, r)
    requires !(r.phase.Copying? && r.phase.k >= r.size)
    ensures var r' := Stepped(s, r, choice); r'.copies == r.copies && Pending(s, r')
  {
    hide Mine, PartHeader, PartEnd, Newest, Sent;
  }

  lemma CopyTaken(s: State, r: Reader, choice: Choice)
    requires Quiescent(s, r) && Seen(s, r) && Roomy(r) && CanStep(s, r, choice)
    requires Faithful(r.copies, s.published) && Pending(s, r)
    requires r.phase.Copying? && r.phase.k >= r.size
    ensures var r' := Stepped(s, r, choice); Faithful(r'.copies, s.published) && Pending(s, r')
  {
    CopyIsShared(s, r);
    var c := Copy(Mine(r), |s.published| - 1, r.awaited);
    assert Stepped(s, r, choice) == r.(phase := Header, copies := r.copies + [c]);
    hide Seen, Roomy, Quiescent, Mine, Shared, Stepped, Faithful, CanStep;
    AppendedCopy(r.copies, s.published, c);
  }

  lemma StepCopies(s: State, r: Reader, choice: Choice)
    requires Quiescent(s, r) && Seen(s, r) && Roomy(r) && CanStep(s, r, choice)
    requires Faithful(r.copies, s.published) && Pending(s, r)
    ensures var r' := Stepped(s, r, choice); Faithful(r'.copies, s.published) && Pending(s, r')
  {
    hide Quiescent, Seen, Roomy, CanStep, Faithful, Pending, Stepped;
    if r.phase.Copying? && r.phase.k >= r.size {
      CopyTaken(s, r, choice);
    } else {
      NoCopyTaken(s, r, choice);
    }
  }

  lemma FramesOfFront(copies: seq<Copy>)
    requires copies != []
    ensures var n := |copies| - 1;
      && Frames(copies)[..n] == Frames(copies[..n]) && Frames(copies)[n] == copies[n].frame
      && Wire(Frames(copies)) == Wire(Frames(copies[..n])) + PartBytes(copies[n].frame)
  {
    hide Preamble, PartBytes;
    var n := |copies| - 1;
    assert Frames(copies)[..n] == Frames(copies[..n]);
  }

  /** A failing write ends the loop, one that is not short moves on. */
  lemma SendsOn(s: State, r: Reader, choice: Choice)
    requires Roomy(r) && CanStep(s, r, choice) && r.phase in [Header, Content, End]
    ensures var r', w, f := Stepped(s, r, choice), r.wire, Mine(r);
      && Mine(r') == f && (r'.whole ==> r.whole)
      && (r'.whole && r'.phase != Stopped ==>
        (if r.phase.Header? then r' == r.(phase := Content, wire := w + PartHeader(f))
         else if r.phase.Content? then r' == r.(phase := End, wire := w + f.bytes)
         else r' == r.(phase := Away, wire := w + PartEnd())))
      && (r'.phase == Stopped ==> r' == r.(phase := Stopped))
  {
    hide PartHeader, PartEnd, Preamble, Text;
  }

  /** The three writes of a frame, one after the other. */
  lemma SendingStep(s: State, r: Reader, choice: Choice)
    requires Written(r) && Roomy(r) && CanStep(s, r, choice) && r.phase in [Header, Content, End]
    ensures Written(Stepped(s, r, choice))
  {
    hide Wire, PartHeader, PartEnd, Frames, Stepped, CanStep, Mine;
    SendsOn(s, r, choice);
    if r.whole {
      FramesOfFront(r.copies);
      var w, f := Wire(Frames(r.copies[..|r.copies| - 1])), Mine(r);
      assert PartBytes(f) == PartHeader(f) + f.bytes + PartEnd();
      assert w + PartBytes(f) == w + PartHeader(f) + f.bytes + PartEnd();
      assert w <= w + PartHeader(f) <= w + PartHeader(f) + f.bytes <= w + PartBytes(f);
    }
  }

  lemma StepWrites(s: State, r: Reader, choice: Choice)
    requires Quiescent(s, r) && Roomy(r) && Seen(s, r) && Written(r) && CanStep(s, r, choice)
    ensures Written(Stepped(s, r, choice))
  {
    hide Wire, PartHeader, PartEnd, Frames;
    if r.phase in [Header, Content, End] {
      SendingStep(s, r, choice);
    } else if r.phase.Copying? && r.phase.k >= r.size {
      var c := Copy(Mine(r), |s.published| - 1, r.awaited);
      assert Stepped(s, r, choice) == r.(phase := Header, copies := r.copies + [c]);
      assert (r.copies + [c])[..|r.copies|] == r.copies;
    }
  }

  lemma StepOwns(s: State, i: nat, choice: Choice)
    requires SharedInv(s) && Can(s, Step(i, choice))
    ensures SharedInv(Do(s, Step(i, choice)))
  {
    hide Mine, CopyByte, Sent, PartHeader, PartEnd;
    var t := Do(s, Step(i, choice));
    var r, r' := s.readers[i], t.readers[i];
    assert Holding(r.phase) <==> s.owner == ByReader(i);
    assert Holding(r'.phase) && !Holding(r.phase) ==> s.owner.Free?;
    assert Shared(t) == Shared(s);
    hide Stepped, Shared, CanStep;
    forall j | 0 <= j < |t.readers| ensures Holding(t.readers[j].phase) <==> t.owner == ByReader(j) {
      assert Holding(s.readers[j].phase) <==> s.owner == ByReader(j);
    }
  }

  lemma SameView(s: State, t: State, r: Reader)
    requires ReaderInv(s, r) && s.published == t.published
    requires s.buf == t.buf && s.size == t.size && s.sec == t.sec && s.usec == t.usec
    ensures ReaderInv(t, r)
  {
    hide Written, Faithful, Roomy;
  }

  lemma OwnStep(s: State, i: nat, choice: Choice)
    requires Inv(s) && Can(s, Step(i, choice))
    ensures ReaderInv(s, Stepped(s, s.readers[i], choice))
  {
    var r := s.readers[i];
    assert ReaderInv(s, r) && Quiescent(s, r);
    hide Written, Faithful, CanStep, Stepped, SharedInv, Quiescent, Seen, Roomy, Pending;
    StepSees(s, r, choice);
    StepCopies(s, r, choice);
    StepWrites(s, r, choice);
  }

  lemma ReaderSteps(s: State, i: nat, choice: Choice)
    requires Inv(s) && Can(s, Step(i, choice))
    ensures Inv(Do(s, Step(i, choice)))
  {
    hide SharedInv, ReaderInv, Stepped, CanStep, OwnerAfter;
    var t := Do(s, Step(i, choice));
    StepOwns(s, i, choice);
    OwnStep(s, i, choice);
    forall j | 0 <= j < |t.readers| ensures ReaderInv(t, t.readers[j]) {
      SameView(s, t, if j == i then Stepped(s, s.readers[i], choice) else s.readers[j]);
    }
  }

  // ----- and so it holds in every run

  lemma ActionKeeps(s: State, a: Action)
    requires Inv(s) && Can(s, a)
    ensures Inv(Do(s, a))
  {
    match a
    case Lock => ProducerLocks(s, a);
    case WriteByte(at, b) => ProducerWrites(s, a);
    case WriteSize(n) => ProducerWrites(s, a);
    case WriteTime(sec, usec) => ProducerWrites(s, a);
    case Broadcast => ProducerAnnounces(s);
    case Unlock => ProducerLocks(s, a);
    case Step(i, choice) => ReaderSteps(s, i, choice);
  }

  lemma {:induction false} RunKeeps(s: State, run: seq<Action>, t: State)
    requires Inv(s) && Reaches(s, run, t)
    ensures Inv(t)
    decreases |run|
  {
    hide Inv, Can, Do;
    if run != [] {
      ActionKeeps(s, run[0]);
      RunKeeps(Do(s, run[0]), run[1..], t);
    }
  }

  lemma {:induction false} FaithfulMeans(copies: seq<Copy>, published: seq<Frame>, j: nat)
    requires Faithful(copies, published) && j < |copies|
    ensures copies[j].index < |published| && copies[j].frame == published[copies[j].index]
    ensures forall i :: 0 <= i < j ==> copies[i].index <= copies[j].index
    ensures copies[j].awaited ==> 0 < copies[j].index
    ensures copies[j].awaited ==> forall i :: 0 <= i < j ==> copies[i].index < copies[j].index
    decreases |copies|
  {
    var n := |copies| - 1;
    var front := copies[..n];
    if j < n {
      FaithfulMeans(front, published, j);
    } else if n > 0 {
      FaithfulMeans(front, published, n - 1);
      assert Newest(front) == front[n - 1].index;
    }
  }

  /** No torn frames: in every run, with any number of readers, whatever a reader has copied is one
      published frame (or the initial empty one), bytes, size and time together; the frames it
      copies never go back, and each time a broadcast woke it they are strictly newer. */
  lemma CopiesArePublished(s: State, run: seq<Action>, t: State, i: nat, j: nat)
    requires IsStart(s) && Reaches(s, run, t) && i < |t.readers| && j < |t.readers[i].copies|
    ensures var copies := t.readers[i].copies;
      && copies[j].index < |t.published| && copies[j].frame == t.published[copies[j].index]
      && (forall k :: 0 <= k < j ==> copies[k].index <= copies[j].index)
      && (copies[j].awaited ==> forall k :: 0 <= k < j ==> copies[k].index < copies[j].index)
  {
    StartInv(s);
    RunKeeps(s, run, t);
    assert ReaderInv(t, t.readers[i]);
    FaithfulMeans(t.readers[i].copies, t.published, j);
  }

  /** Nobody reads or writes outside a buffer, and the private buffer holds the whole frame when the
      copying starts. */
  lemma NoFault(s: State, run: seq<Action>, t: State, i: nat)
    requires IsStart(s) && Reaches(s, run, t) && i < |t.readers|
    ensures t.readers[i].phase != Fault
    ensures t.readers[i].phase.Copying? ==> t.readers[i].size <= |t.readers[i].memory|
  {
    StartInv(s);
    RunKeeps(s, run, t);
    assert ReaderInv(t, t.readers[i]);
  }

  /** Mutual exclusion: while one thread is between lock and unlock, no other one is. */
  lemma MutualExclusion(s: State, run: seq<Action>, t: State, i: nat)
    requires IsStart(s) && Reaches(s, run, t) && i < |t.readers| && Holding(t.readers[i].phase)
    ensures t.pc == Idle && forall j :: 0 <= j < |t.readers| && j != i ==> !Holding(t.readers[j].phase)
  {
    StartInv(s);
    RunKeeps(s, run, t);
  }

  lemma WrittenIsPart(r: Reader)
    requires Written(r) && r.whole
    ensures r.wire <= Wire(Frames(r.copies)) + REFUSAL
    ensures r.phase != Stopped ==> r.wire <= Wire(Frames(r.copies))
  {
    hide Wire, Frames, PartHeader, PartEnd, Mine;
    if r.phase in [Header, Content, End] {
      FramesOfFront(r.copies);
      var w, f := Wire(Frames(r.copies[..|r.copies| - 1])), Mine(r);
      assert PartBytes(f) == PartHeader(f) + f.bytes + PartEnd();
      assert w <= w + PartHeader(f) <= w + PartHeader(f) + f.bytes <= w + PartBytes(f);
    }
  }

  /** As long as no write was short, what a reader has sent is a part of the stream of the frames it
      copied, or that stream and the error response behind it, once it has stopped. */
  lemma SentIsStream(s: State, run: seq<Action>, t: State, i: nat)
    requires IsStart(s) && Reaches(s, run, t) && i < |t.readers| && t.readers[i].whole
    ensures t.readers[i].wire <= Wire(Frames(t.readers[i].copies)) + REFUSAL
    ensures t.readers[i].phase != Stopped ==> t.readers[i].wire <= Wire(Frames(t.readers[i].copies))
  {
    hide Written, Wire;
    StartInv(s);
    RunKeeps(s, run, t);
    assert ReaderInv(t, t.readers[i]);
    WrittenIsPart(t.readers[i]);
  }

  /** Between two frames that is all of it. */
  lemma SentBetween(s: State, run: seq<Action>, t: State, i: nat)
    requires IsStart(s) && Reaches(s, run, t) && i < |t.readers| && t.readers[i].whole
    requires t.readers[i].phase !in [Header, Content, End, Stopped]
    ensures t.readers[i].wire == Wire(Frames(t.readers[i].copies))
  {
    hide Wire;
    StartInv(s);
    RunKeeps(s, run, t);
    assert ReaderInv(t, t.readers[i]);
  }

  // ----- short writes

  /** The environment decides on a short write of this reader. */
  predicate WritesShort(a: Action, i: nat) {
    a.Step? && a.i == i && a.choice.Short?
  }

  /** Without a short write every reader's wire is whole. */
  lemma {:induction false} WholeUnlessShort(s: State, run: seq<Action>, t: State, i: nat)
    requires Reaches(s, run, t) && i < |s.readers| && s.readers[i].whole
    requires forall k :: 0 <= k < |run| ==> !WritesShort(run[k], i)
    ensures i < |t.readers| && t.readers[i].whole
    decreases |run|
  {
    if run != [] {
      assert !WritesShort(run[0], i);
      var m := Do(s, run[0]);
      assert m.readers[i].whole by { hide Mine, PartHeader, PartEnd; }
      hide Do, Can;
      forall k | 0 <= k < |run[1..]| ensures !WritesShort(run[1..][k], i) { assert !WritesShort(run[k + 1], i); }
      WholeUnlessShort(m, run[1..], t, i);
    }
  }

  lemma {:induction false} PartsGrow(fs: seq<Frame>, k: nat)
    requires k <= |fs|
    ensures Parts(fs[..k]) <= Parts(fs)
    ensures k < |fs| ==> Parts(fs[..k]) + PartHeader(fs[k]) <= Parts(fs)
    decreases |fs|
  {
    hide PartHeader, PartEnd;
    if k == |fs| {
      assert fs[..k] == fs;
    } else {
      var front := fs[..|fs| - 1];
      assert front[..k] == fs[..k];
      PartsGrow(front, k);
      if k == |front| {
        assert PartBytes(fs[k]) == PartHeader(fs[k]) + (fs[k].bytes + PartEnd());
      }
    }
  }

  lemma HeaderStartsWithC(f: Frame)
    ensures |PartHeader(f)| > 0 && PartHeader(f)[0] == 67 && |REFUSAL| > 0 && REFUSAL[0] == 72
  {
    assert Text("Content-Type: image/jpeg\r\n")[0] == 67;
    assert Text("HTTP/1.0 500 Internal Server Error\r\n")[0] == 72;
  }

  lemma WireGrows(fs: seq<Frame>, k: nat)
    requires k < |fs|
    ensures Wire(fs[..k]) + PartHeader(fs[k]) <= Wire(fs)
  {
    hide *;
    PartsGrow(fs, k);
    WireIs(fs);
    WireIs(fs[..k]);
    Behind(Preamble(), Parts(fs[..k]), PartHeader(fs[k]), Parts(fs));
  }

  lemma WireIs(fs: seq<Frame>)
    ensures Wire(fs) == Preamble() + Parts(fs)
  {
  }

  lemma Behind(p: seq<Byte>, a: seq<Byte>, b: seq<Byte>, all: seq<Byte>)
    requires a + b <= all
    ensures p + a + b <= p + all
  {
    assert p + a + b == p + (a + b);
  }

  /** What comes behind the stream of some frames starts with C or H. */
  lemma BehindFrames(fs: seq<Frame>, k: nat)
    requires k <= |fs|
    ensures var w, all := Wire(fs[..k]), Wire(fs) + REFUSAL; |w| < |all| && all[|w|] in [67, 72]
  {
    hide PartHeader, Wire, Text;
    if k < |fs| {
      HeaderStartsWithC(fs[k]);
      WireGrows(fs, k);
    } else {
      HeaderStartsWithC(Frame([], 0, 0));
      assert fs[..k] == fs;
    }
  }

  /** The writes of a frame of whose header only n bytes are sent. */
  lemma HeaderCut(s: State, r: Reader, n: nat)
    requires Roomy(r) && r.phase == Header && n < |PartHeader(Mine(r))|
    ensures CanStep(s, r, Short(n)) && CanStep(s, Stepped(s, r, Short(n)), Proceed)
    ensures Stepped(s, r, Short(n)).wire == r.wire + PartHeader(Mine(r))[..n]
    ensures Stepped(s, Stepped(s, r, Short(n)), Proceed).wire == r.wire + PartHeader(Mine(r))[..n] + Mine(r).bytes
  {
    hide PartHeader;
  }

  lemma BeforeHeader(r: Reader)
    requires r.phase == Header && r.whole && Written(r)
    ensures r.copies != [] && r.wire == Wire(Frames(r.copies[..|r.copies| - 1]))
    ensures r.copies[|r.copies| - 1].frame == Mine(r)
  {
  }

  /** A short write tears the stream: if nothing of a part header is sent and then a JPEG picture, the
      wire holds no part of a stream any more, whatever frames are taken for what it carries. */
  lemma ShortTears(s: State, r: Reader, fs: seq<Frame>)
    requires Roomy(r) && r.phase == Header && Mine(r).bytes != [] && Mine(r).bytes[0] == 0xFF
    requires r.whole && Written(r) && r.copies != [] && Frames(r.copies[..|r.copies| - 1]) <= fs
    ensures CanStep(s, r, Short(0)) && CanStep(s, Stepped(s, r, Short(0)), Proceed)
    ensures !(Stepped(s, Stepped(s, r, Short(0)), Proceed).wire <= Wire(fs) + REFUSAL)
  {
    hide *;
    var k := |r.copies| - 1;
    assert fs[..k] == Frames(r.copies[..k]);
    HeaderStartsWithC(Mine(r));
    HeaderCut(s, r, 0);
    assert r.wire + PartHeader(Mine(r))[..0] == r.wire;
    BehindFrames(fs, k);
    BeforeHeader(r);
    assert (r.wire + Mine(r).bytes)[|r.wire|] == 0xFF;
  }
}
