// The shared frame of an input plugin: one producer, any number of readers, one mutex and one
// condition variable, as a state machine over the single steps of all threads.
module FrameBuffer {
  import opened Bits
  import opened HttpStream

  const TEN_K: nat := 10240

  datatype Owner = Free | ByProducer | ByReader(i: nat)

  /** Where the producer stands. Between lock and broadcast it changes the shared fields in any order
      and any number of steps; behind the broadcast it only unlocks. */
  datatype ProducerPc = Idle | Writing | Announced

  /** Where a reader stands in the loop of send_stream. Fault is an access outside a buffer. */
  datatype Phase =
    | Away
    | Locked
    | Asleep(signalled: bool)
    | Awake
    | Sized
    | Grown
    | Copying(k: nat)
    | Header
    | Content
    | End
    | Refusing
    | Stopped
    | Fault

  /** A frame as a reader copied it; index and awaited are kept for the proof only: how many frames
      were published before, and whether a broadcast had woken the reader. */
  datatype Copy = Copy(frame: Frame, index: nat, awaited: bool)

  /** The private variables of a reader and what it has written; whole is kept for the proof only: no
      write so far was short. */
  datatype Reader = Reader(phase: Phase, awaited: bool, size: nat, sec: int, usec: int,
                           memory: seq<Byte>, copies: seq<Copy>, wire: seq<Byte>, whole: bool)

  datatype State = State(owner: Owner, pc: ProducerPc, buf: seq<Byte>, size: nat, sec: int, usec: int,
                         readers: seq<Reader>, published: seq<Frame>)

  datatype Action =
    | Lock
    | WriteByte(at: nat, b: Byte)
    | WriteSize(n: nat)
    | WriteTime(s: int, u: int)
    | Broadcast
    | Unlock
    | Step(i: nat, choice: Choice)

  /** What the environment decides in a reader's step: a failing call, what newly allocated memory
      holds, a write of fewer bytes than it was given, and waking up without a broadcast. */
  datatype Choice = Proceed | Grow(memory: seq<Byte>) | Fail | Short(n: nat) | Spurious

  /** The thread owns the mutex in this phase. */
  predicate Holding(p: Phase) {
    p.Locked? || p.Awake? || p.Sized? || p.Grown? || p.Copying?
  }

  // ----- the reader's steps

  /** The step can be taken. Waking up needs the mutex, and a broadcast unless it is spurious. */
  predicate CanStep(s: State, r: Reader, choice: Choice) {
    match r.phase
    case Away => choice.Fail? || (choice.Proceed? && s.owner.Free?)
    case Asleep(signalled) => s.owner.Free? && (if signalled then choice.Proceed? else choice.Spurious?)
    case Sized =>
      if r.size > |r.memory| then choice.Fail? || (choice.Grow? && |choice.memory| == r.size + TEN_K)
      else choice.Proceed?
    case Header => WriteEnds(choice)
    case Content => WriteEnds(choice)
    case End => WriteEnds(choice)
    case Refusing => WriteEnds(choice)
    case Stopped => false
    case Fault => false
    case _ => choice.Proceed?
  }

  /** How a write can end. */
  predicate WriteEnds(choice: Choice) {
    choice.Proceed? || choice.Fail? || choice.Short?
  }

  function Stepped(s: State, r: Reader, choice: Choice): Reader {
    if choice.Fail? then r.(phase := if r.phase.Sized? then Refusing else Stopped)
    else
      match r.phase
      case Away => r.(phase := Locked)
      case Locked => r.(phase := Asleep(false))
      case Asleep(signalled) => r.(phase := Awake, awaited := signalled)
      case Awake => r.(phase := Sized, size := s.size)
      case Sized => if choice.Grow? then r.(phase := Grown, memory := choice.memory) else r.(phase := Grown)
      case Grown => r.(phase := Copying(0), sec := s.sec, usec := s.usec)
      case Copying(k) => if k < r.size then CopyByte(s, r, k) else TakeCopy(s, r)
      case Header => WithFrame(r, Sent(r, Content, PartHeader(Mine(r)), choice))
      case Content => WithFrame(r, Sent(r, End, Mine(r).bytes, choice))
      case End => Sent(r, Away, PartEnd(), choice)
      case Refusing => Sent(r, Stopped, REFUSAL, choice)
      case _ => r
  }

  /** write: the code goes on behind a short one as if it had sent everything. */
  function Sent(r: Reader, next: Phase, data: seq<Byte>, choice: Choice): (r': Reader)
    ensures r' == r.(phase := next, wire := r'.wire, whole := r'.whole)
  {
    if choice.Short? && choice.n < |data| then
      r.(phase := next, wire := r.wire + data[..choice.n], whole := false)
    else
      r.(phase := next, wire := r.wire + data)
  }

  /** The frame in the reader's private variables. */
  function Mine(r: Reader): Frame {
    Frame(if r.size <= |r.memory| then r.memory[..r.size] else [], r.sec, r.usec)
  }

  function WithFrame(r: Reader, next: Reader): Reader {
    if r.size <= |r.memory| then next else r.(phase := Fault)
  }

  function CopyByte(s: State, r: Reader, k: nat): Reader {
    if k < |s.buf| && k < |r.memory| then r.(phase := Copying(k + 1), memory := r.memory[k := s.buf[k]])
    else r.(phase := Fault)
  }

  function TakeCopy(s: State, r: Reader): Reader {
    if s.published == [] then r.(phase := Fault)
    else WithFrame(r, r.(phase := Header,
                         copies := r.copies + [Copy(Mine(r), |s.published| - 1, r.awaited)]))
  }

  // ----- all steps

  predicate Can(s: State, a: Action) {
    match a
    case Lock => s.owner.Free? && s.pc.Idle?
    case WriteByte(at, b) => s.pc.Writing? && at < |s.buf|
    case WriteSize(n) => s.pc.Writing? && n <= |s.buf|
    case WriteTime(sec, usec) => s.pc.Writing?
    case Broadcast => s.pc.Writing?
    case Unlock => s.pc.Announced?
    case Step(i, choice) => i < |s.readers| && CanStep(s, s.readers[i], choice)
  }

  function Do(s: State, a: Action): State
    requires Can(s, a)
  {
    match a
    case Lock => s.(owner := ByProducer, pc := Writing)
    case WriteByte(at, b) => s.(buf := s.buf[at := b])
    case WriteSize(n) => s.(size := n)
    case WriteTime(sec, usec) => s.(sec := sec, usec := usec)
    case Broadcast => s.(pc := Announced, published := s.published + [Shared(s)], readers := Woken(s.readers))
    case Unlock => s.(owner := Free, pc := Idle)
    case Step(i, choice) =>
      var r := Stepped(s, s.readers[i], choice);
      s.(readers := s.readers[i := r], owner := OwnerAfter(s.owner, s.readers[i].phase, r.phase, i))
  }

  function OwnerAfter(owner: Owner, before: Phase, after: Phase, i: nat): Owner {
    if Holding(after) then ByReader(i) else if Holding(before) then Free else owner
  }

  /** The frame in the shared fields. */
  function Shared(s: State): Frame {
    Frame(if s.size <= |s.buf| then s.buf[..s.size] else [], s.sec, s.usec)
  }

  /** pthread_cond_broadcast: every sleeping reader has been signalled. */
  function Woken(readers: seq<Reader>): (w: seq<Reader>)
    ensures |w| == |readers|
  {
    seq(|readers|, i requires 0 <= i < |readers| =>
      if readers[i].phase.Asleep? then readers[i].(phase := Asleep(true)) else readers[i])
  }

  /** Any number of readers, an unpublished frame of size 0, and any bytes in the buffer. */
  ghost predicate IsStart(s: State) {
    && s.owner == Free && s.pc == Idle && s.size == 0 && s.published == [Frame([], s.sec, s.usec)]
    && forall i :: 0 <= i < |s.readers| ==> FreshReader(s.readers[i])
  }

  predicate FreshReader(r: Reader) {
    r.phase == Away && r.size == 0 && r.memory == [] && r.copies == [] && r.wire == Preamble() && r.whole
  }

  /** The run of these actions from s ends in t. */
  ghost predicate Reaches(s: State, run: seq<Action>, t: State)
    decreases |run|
  {
    if run == [] then s == t else Can(s, run[0]) && Reaches(Do(s, run[0]), run[1..], t)
  }
}
