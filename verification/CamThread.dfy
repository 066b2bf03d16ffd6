// The capture loop of the UVC input plugin for cameras that deliver JPEG: which frames pass, and what
// is published of them.
module CamThread {
  import opened Bits
  import opened Division
  import opened HttpStream
  import opened StandardTables
  import opened DhtInsertion
  import opened Producing
  import FB = FrameBuffer

  const HEADERFRAME1: nat := 0xAF
  const ULONG: nat := 0x1_0000_0000_0000_0000

  datatype Config = Config(every: nat, minimumSize: nat, wantTimestamp: bool, softFramedrop: bool, period: nat)

  /** What a grab brings: the driver's buffer and its time stamp, and the clock when it is looked at. */
  datatype Grab = Grab(data: seq<Byte>, sec: int, usec: int, nowSec: int, nowUsec: int)

  /** The counter of skipped frames, the memory at the private copy of the last frame, and the shared
      fields. The two buffers are allocated with the same size; memory behind the private one can be
      read. overran says that bytes were written behind one of the buffers: the model stops there. */
  datatype Cam = Cam(everyCount: nat, tmp: seq<Byte>, tmpSize: nat, tmpSec: int, tmpUsec: int,
                     buf: seq<Byte>, size: nat, sec: int, usec: int, frames: seq<Frame>, overran: bool)

  predicate Sized(tmp: seq<Byte>, tmpSize: nat, buf: seq<Byte>) {
    tmpSize <= |buf| && |buf| + 2 <= |tmp| && 2051 <= |tmp|
  }

  predicate Fits(c: Cam) {
    Sized(c.tmp, c.tmpSize, c.buf)
  }

  function Millis(sec: int, usec: int): int {
    1000 * sec + usec / 1000
  }

  /** Full milliseconds of a time in microseconds. */
  lemma MillisIsFloor(sec: int, usec: int)
    ensures 1000 * Millis(sec, usec) <= 1000000 * sec + usec < 1000 * Millis(sec, usec) + 1000
  {
  }

  /** The difference of two times as unsigned long. */
  function Elapsed(current: int, last: int): int {
    (current - last) % ULONG
  }

  /** uvcGrab: an empty buffer is ignored, and the last frame stays. */
  function Grabbed(c: Cam, g: Grab): (d: Cam)
    requires Fits(c)
    ensures Fits(d) && |d.tmp| == |c.tmp| && d.frames == c.frames && d.buf == c.buf
  {
    if |g.data| <= HEADERFRAME1 then c
    else if |g.data| > |c.buf| then c.(overran := true)
    else c.(tmp := g.data + c.tmp[|g.data|..], tmpSize := |g.data|, tmpSec := g.sec, tmpUsec := g.usec)
  }

  predicate Dropped(cfg: Config, c: Cam) {
    cfg.softFramedrop && Elapsed(Millis(c.tmpSec, c.tmpUsec), Millis(c.sec, c.usec)) < cfg.period
  }

  ghost predicate HasRoom(c: Cam) {
    Room(c.tmp, c.tmpSize, |c.buf|)
  }

  ghost function Published(c: Cam): (d: Cam)
    requires Fits(c)
    ensures Fits(d) && |d.tmp| == |c.tmp| && |d.buf| == |c.buf|
  {
    RoomIff(c.tmp, c.tmpSize, |c.buf|);
    if !HasRoom(c) then c.(overran := true)
    else
      var p := Picture(c.tmp, c.tmpSize);
      c.(buf := p + c.buf[|p|..], size := |p|, sec := c.tmpSec, usec := c.tmpUsec,
        frames := c.frames + [Frame(p, c.tmpSec, c.tmpUsec)])
  }

  /** The time a frame is judged by. */
  function Timed(cfg: Config, c: Cam, g: Grab): Cam {
    if cfg.wantTimestamp then c.(tmpSec := g.nowSec, tmpUsec := g.nowUsec) else c
  }

  /** The loop body for a frame that has passed the counter. */
  ghost function Looked(cfg: Config, c: Cam, g: Grab): (d: Cam)
    requires Fits(c)
    ensures Fits(d) && |d.tmp| == |c.tmp| && |d.buf| == |c.buf|
  {
    if c.tmpSize < cfg.minimumSize then c
    else
      var d := Timed(cfg, c, g);
      if Dropped(cfg, d) then d else Published(d)
  }

  ghost function Next(cfg: Config, c: Cam, g: Grab): (d: Cam)
    requires Fits(c)
    ensures Fits(d) && |d.tmp| == |c.tmp| && |d.buf| == |c.buf|
  {
    if c.overran then c
    else
      var d := Grabbed(c, g);
      if d.overran then d
      else if d.everyCount < cfg.every - 1 then d.(everyCount := d.everyCount + 1)
      else Looked(cfg, d.(everyCount := 0), g)
  }

  class Camera {
    const cfg: Config
    const tmp: array<Byte>
    const buf: array<Byte>
    var everyCount: nat
    var tmpSize: nat
    var tmpSec: int
    var tmpUsec: int
    var size: nat
    var sec: int
    var usec: int
    var frames: seq<Frame>

    ghost predicate Valid()
      reads this, tmp, buf
    {
      tmp != buf && Sized(tmp[..], tmpSize, buf[..])
    }

    ghost function Current(): Cam
      reads this, tmp, buf
    {
      Cam(everyCount, tmp[..], tmpSize, tmpSec, tmpUsec, buf[..], size, sec, usec, frames, false)
    }

    /** framesize bytes for each buffer, and whatever lies behind the private one. */
    constructor (cfg: Config, framesize: nat, behind: nat)
      requires 2 <= behind && 2051 <= framesize + behind
      ensures this.cfg == cfg && Valid() && fresh(tmp) && fresh(buf)
      ensures buf.Length == framesize && tmp.Length == framesize + behind
      ensures everyCount == 0 && frames == []
    {
      this.cfg := cfg;
      tmp, buf := new Byte[framesize + behind](_ => 0), new Byte[framesize](_ => 0);
      everyCount, tmpSize, tmpSec, tmpUsec, size, sec, usec, frames := 0, 0, 0, 0, 0, 0, 0, [];
    }

    method UvcGrab(g: Grab)
      requires Valid() && !Grabbed(Current(), g).overran
      modifies this`tmpSize, this`tmpSec, this`tmpUsec, tmp
      ensures Valid() && Current() == Grabbed(old(Current()), g)
    {
      if |g.data| > HEADERFRAME1 {
        var n := Copy(tmp, 0, g.data);
        assert tmp[..] == g.data + old(tmp[|g.data|..]);
        tmpSize, tmpSec, tmpUsec := n, g.sec, g.usec;
      }
    }

    /** The publish step, all of it under the mutex. */
    method Publish()
      requires Valid() && HasRoom(Current())
      modifies this`size, this`sec, this`usec, this`frames, buf
      ensures Valid() && Current() == Published(old(Current()))
    {
      hide Picture, Room;
      size := MemcpyPicture(buf, tmp, tmpSize);
      sec, usec := tmpSec, tmpUsec;
      frames := frames + [Frame(buf[..size], sec, usec)];
    }

    /** One pass of the loop. */
    method OneFrame(g: Grab)
      requires Valid() && !Next(cfg, Current(), g).overran
      modifies this, tmp, buf
      ensures Valid() && Current() == Next(cfg, old(Current()), g)
    {
      hide Picture, Room, Millis, Elapsed;
      UvcGrab(g);
      if everyCount < cfg.every - 1 {
        everyCount := everyCount + 1;
        return;
      }
      everyCount := 0;
      if tmpSize < cfg.minimumSize {
        return;
      }
      if cfg.wantTimestamp {
        tmpSec, tmpUsec := g.nowSec, g.nowUsec;
      }
      if cfg.softFramedrop {
        var last, current := Millis(sec, usec), Millis(tmpSec, tmpUsec);
        if Elapsed(current, last) < cfg.period {
          return;
        }
      }
      Publish();
    }
  }

  /** What goes past a buffer in one pass: a grabbed frame longer than the frame size, or, if it gets
      as far as being published, one that has no table of its own but a start-of-frame marker, and less
      than 420 bytes to spare. */
  lemma OverrunIff(cfg: Config, c: Cam, g: Grab)
    requires Fits(c) && !c.overran
    ensures Next(cfg, c, g).overran <==>
      var d, n := Grabbed(c, g), |c.buf|;
      if |g.data| > HEADERFRAME1 && |g.data| > n then true
      else
        && d.everyCount >= cfg.every - 1 && d.tmpSize >= cfg.minimumSize && !Dropped(cfg, Timed(cfg, d, g))
        && !HasTable(d.tmp) && !NoneBefore(d.tmp, d.tmpSize, SOF0) && d.tmpSize + 420 > n
  {
    hide HasTable, NoneBefore, Picture, Millis, Elapsed;
  }

  // ----- whole runs

  ghost function Run(cfg: Config, c: Cam, grabs: seq<Grab>): (d: Cam)
    requires Fits(c)
    ensures Fits(d) && |d.tmp| == |c.tmp| && |d.buf| == |c.buf|
    decreases |grabs|
  {
    if grabs == [] then c
    else
      var n := |grabs| - 1;
      Next(cfg, Run(cfg, c, grabs[..n]), grabs[n])
  }

  lemma RunLast(cfg: Config, c: Cam, grabs: seq<Grab>) returns (d: Cam)
    requires Fits(c) && grabs != []
    ensures var n := |grabs| - 1;
      Run(cfg, c, grabs[..n]) == d && Fits(d) && |d.buf| == |c.buf| && Run(cfg, c, grabs) == Next(cfg, d, grabs[n])
  {
    d := Run(cfg, c, grabs[..|grabs| - 1]);
  }

  lemma RunNone(cfg: Config, c: Cam)
    requires Fits(c)
    ensures Run(cfg, c, []) == c
  {
  }

  /** Frames that leave 420 bytes free never overrun, whatever they contain. */
  lemma {:induction false} SmallFramesStay(cfg: Config, c: Cam, grabs: seq<Grab>)
    requires Fits(c) && !c.overran && c.tmpSize + 420 <= |c.buf|
    requires forall i :: 0 <= i < |grabs| ==> |grabs[i].data| + 420 <= |c.buf|
    ensures var d := Run(cfg, c, grabs); !d.overran && d.tmpSize + 420 <= |c.buf|
    decreases |grabs|
  {
    hide *;
    if grabs == [] {
      RunNone(cfg, c);
    } else {
      var d := RunLast(cfg, c, grabs);
      SmallFramesStay(cfg, c, grabs[..|grabs| - 1]);
      SmallFrameStays(cfg, d, grabs[|grabs| - 1]);
    }
  }

  lemma SmallFrameStays(cfg: Config, c: Cam, g: Grab)
    requires Fits(c) && !c.overran && c.tmpSize + 420 <= |c.buf| && |g.data| + 420 <= |c.buf|
    ensures var d := Next(cfg, c, g); !d.overran && d.tmpSize + 420 <= |c.buf|
  {
    OverrunIff(cfg, c, g);
    hide HasTable, NoneBefore, Picture, Millis, Elapsed, Room;
  }

  /** Every 0 counts like every 1. */
  function Max1(n: nat): (m: nat)
    ensures m >= 1
  {
    if n == 0 then 1 else n
  }

  /** The counter of the every-nth filter. */
  lemma NextCounts(cfg: Config, c: Cam, g: Grab)
    requires Fits(c) && c.everyCount < Max1(cfg.every)
    ensures c.overran ==> Next(cfg, c, g) == c
    ensures !Next(cfg, c, g).overran ==>
      Next(cfg, c, g).everyCount == if c.everyCount == Max1(cfg.every) - 1 then 0 else c.everyCount + 1
    ensures c.everyCount < Max1(cfg.every) - 1 ==> Next(cfg, c, g).frames == c.frames
    ensures |c.frames| <= |Next(cfg, c, g).frames| <= |c.frames| + 1
    ensures Next(cfg, c, g).everyCount < Max1(cfg.every)
    ensures !Next(cfg, c, g).overran && cfg.minimumSize == 0 && !cfg.softFramedrop
      && c.everyCount == Max1(cfg.every) - 1
      ==> |Next(cfg, c, g).frames| == |c.frames| + 1
  {
    hide Picture, Fits, Room;
  }

  /** The filter lets every nth frame through, counted over all frames whatever the later filters do:
      of n frames at most n / every are published, and exactly that many without other filters. */
  lemma {:induction false} EveryNth(cfg: Config, c: Cam, grabs: seq<Grab>)
    requires Fits(c) && c.everyCount == 0
    ensures var d := Run(cfg, c, grabs);
      && d.everyCount < Max1(cfg.every)
      && (!d.overran ==> d.everyCount == |grabs| % Max1(cfg.every))
      && |d.frames| <= |c.frames| + |grabs| / Max1(cfg.every)
      && (!d.overran && cfg.minimumSize == 0 && !cfg.softFramedrop
          ==> |d.frames| == |c.frames| + |grabs| / Max1(cfg.every))
    decreases |grabs|
  {
    hide *;
    if grabs == [] {
      RunNone(cfg, c);
      DivModIs(0, Max1(cfg.every), 0, 0);
    } else {
      var n := |grabs| - 1;
      var d := RunLast(cfg, c, grabs);
      EveryNth(cfg, c, grabs[..n]);
      CountUp(n, Max1(cfg.every));
      NextCounts(cfg, d, grabs[n]);
    }
  }

  // ----- soft frame dropping

  /** What the unsigned comparison means: a frame is dropped exactly if its time is not before the last
      one's and less than the period behind it. When the clock goes back no frame is dropped. */
  lemma DroppedIff(cfg: Config, c: Cam)
    requires cfg.period <= 0x8000_0000_0000_0000
    requires var d := Millis(c.tmpSec, c.tmpUsec) - Millis(c.sec, c.usec);
      -0x8000_0000_0000_0000 <= d < 0x8000_0000_0000_0000
    ensures Dropped(cfg, c) <==>
      cfg.softFramedrop && 0 <= Millis(c.tmpSec, c.tmpUsec) - Millis(c.sec, c.usec) < cfg.period
  {
    var d := Millis(c.tmpSec, c.tmpUsec) - Millis(c.sec, c.usec);
    if d >= 0 {
      assert d % ULONG == d;
    } else {
      assert d % ULONG == d + ULONG;
    }
  }

  function FrameTime(f: Frame): int { Millis(f.sec, f.usec) }

  /** The time a grabbed frame is judged by. */
  function GrabTime(cfg: Config, g: Grab): int {
    if cfg.wantTimestamp then Millis(g.nowSec, g.nowUsec) else Millis(g.sec, g.usec)
  }

  /** The last frame's time is the shared time stamp. */
  ghost predicate Stamped(c: Cam) {
    c.frames != [] && FrameTime(c.frames[|c.frames| - 1]) == Millis(c.sec, c.usec)
  }

  /** At time t the shared time stamp is not ahead, nor is that of the private copy where it counts. */
  ghost predicate Clocked(cfg: Config, c: Cam, t: int) {
    && Millis(c.sec, c.usec) <= t
    && (!cfg.wantTimestamp ==> Millis(c.sec, c.usec) <= Millis(c.tmpSec, c.tmpUsec) <= t)
  }

  /** From t on the grab times never go back. */
  ghost predicate Forward(cfg: Config, t: int, grabs: seq<Grab>)
    decreases |grabs|
  {
    grabs == [] || (Latest(cfg, t, grabs[..|grabs| - 1]) <= GrabTime(cfg, grabs[|grabs| - 1])
                    && Forward(cfg, t, grabs[..|grabs| - 1]))
  }

  function Latest(cfg: Config, t: int, grabs: seq<Grab>): int {
    if grabs == [] then t else GrabTime(cfg, grabs[|grabs| - 1])
  }

  /** Frame k comes at least a period behind the one before it. */
  ghost predicate Apart(frames: seq<Frame>, k: nat, period: nat)
    requires 0 < k < |frames|
  {
    FrameTime(frames[k]) - FrameTime(frames[k - 1]) >= period
  }

  ghost predicate Spaced(frames: seq<Frame>, period: nat) {
    forall k :: 0 < k < |frames| ==> Apart(frames, k, period)
  }

  /** A pass at a time that is not before the last one, nor 2^64 milliseconds behind the shared stamp. */
  lemma NextSpaced(cfg: Config, c: Cam, g: Grab, t: int)
    requires Fits(c) && cfg.softFramedrop && Stamped(c) && Spaced(c.frames, cfg.period)
    requires Clocked(cfg, c, t) && t <= GrabTime(cfg, g) < Millis(c.sec, c.usec) + ULONG
    ensures var d := Next(cfg, c, g);
      && Stamped(d) && Spaced(d.frames, cfg.period) && Clocked(cfg, d, GrabTime(cfg, g))
      && Millis(c.sec, c.usec) <= Millis(d.sec, d.usec)
  {
    hide Picture, Fits, Room, Millis;
    var d := Next(cfg, c, g);
    if d.frames != c.frames {
      var n := |c.frames|;
      var e := Timed(cfg, Grabbed(c, g), g);
      assert d.frames[n] == Frame(d.frames[n].bytes, e.tmpSec, e.tmpUsec);
      UnsignedApart(Millis(e.tmpSec, e.tmpUsec), Millis(c.sec, c.usec), cfg.period);
      assert Apart(d.frames, n, cfg.period);
      forall k | 0 < k < n ensures Apart(d.frames, k, cfg.period) { assert Apart(c.frames, k, cfg.period); }
    }
  }

  lemma UnsignedApart(current: int, last: int, period: nat)
    requires last <= current < last + ULONG && Elapsed(current, last) >= period
    ensures current - last >= period
  {
  }

  lemma {:induction false} RunIsSpaced(cfg: Config, c: Cam, grabs: seq<Grab>, t: int)
    requires Fits(c) && cfg.softFramedrop && Stamped(c) && |c.frames| == 1
    requires Clocked(cfg, c, t) && Forward(cfg, t, grabs)
    requires forall i :: 0 <= i < |grabs| ==> GrabTime(cfg, grabs[i]) < Millis(c.sec, c.usec) + ULONG
    ensures var d := Run(cfg, c, grabs);
      && Stamped(d) && Spaced(d.frames, cfg.period) && Clocked(cfg, d, Latest(cfg, t, grabs))
      && Millis(c.sec, c.usec) <= Millis(d.sec, d.usec)
    decreases |grabs|
  {
    if grabs == [] {
      RunNone(cfg, c);
    } else {
      hide Fits, Stamped, Spaced, Clocked, Millis, GrabTime, Run, Next;
      var n := |grabs| - 1;
      var d := RunLast(cfg, c, grabs);
      RunIsSpaced(cfg, c, grabs[..n], t);
      NextSpaced(cfg, d, grabs[n], Latest(cfg, t, grabs[..n]));
    }
  }

  lemma {:induction false} SpacedPairs(frames: seq<Frame>, period: nat, j: nat, k: nat)
    requires Spaced(frames, period) && j <= k < |frames|
    ensures FrameTime(frames[k]) - FrameTime(frames[j]) >= (k - j) * period
    decreases k
  {
    if j < k {
      SpacedPairs(frames, period, j, k - 1);
      assert Apart(frames, k, period);
      assert (k - j) * period == (k - 1 - j) * period + period;
    }
  }

  /** The frame rate: with soft frame dropping, and while the clock does not go back, n frames take at
      least n periods. */
  lemma RunSpaced(cfg: Config, c: Cam, grabs: seq<Grab>, t: int, j: nat, k: nat)
    requires Fits(c) && cfg.softFramedrop && Stamped(c) && |c.frames| == 1
    requires Clocked(cfg, c, t) && Forward(cfg, t, grabs)
    requires forall i :: 0 <= i < |grabs| ==> GrabTime(cfg, grabs[i]) < Millis(c.sec, c.usec) + ULONG
    requires j <= k < |Run(cfg, c, grabs).frames|
    ensures var frames := Run(cfg, c, grabs).frames;
      FrameTime(frames[k]) - FrameTime(frames[j]) >= (k - j) * cfg.period
  {
    RunIsSpaced(cfg, c, grabs, t);
    hide Run, Millis, GrabTime;
    SpacedPairs(Run(cfg, c, grabs).frames, cfg.period, j, k);
  }

  // ----- among the readers

  function Sight(c: Cam): View {
    View(c.buf, c.size, c.sec, c.usec, c.frames)
  }

  /** What publishing a frame does to mutex, condition variable and shared fields. */
  function PublishActions(f: Frame): seq<FB.Action> {
    [FB.Lock] + Writes(0, f.bytes) + EndActions(|f.bytes|, At(f.sec, f.usec))
  }

  /** One pass of the loop touches the shared fields only if it publishes a frame. */
  ghost function NextActions(cfg: Config, c: Cam, g: Grab): seq<FB.Action>
    requires Fits(c)
  {
    var frames := Next(cfg, c, g).frames;
    if |frames| <= |c.frames| then [] else PublishActions(frames[|frames| - 1])
  }

  ghost function RunActions(cfg: Config, c: Cam, grabs: seq<Grab>): seq<FB.Action>
    requires Fits(c)
    decreases |grabs|
  {
    if grabs == [] then []
    else
      var n := |grabs| - 1;
      RunActions(cfg, c, grabs[..n]) + NextActions(cfg, Run(cfg, c, grabs[..n]), grabs[n])
  }

  lemma AppliedPublish(v: View, f: Frame)
    requires |f.bytes| <= |v.buf|
    ensures Applied(v, PublishActions(f)) ==
      View(f.bytes + v.buf[|f.bytes|..], |f.bytes|, f.sec, f.usec, v.published + [f])
  {
    var w := v.(buf := f.bytes + v.buf[|f.bytes|..]);
    AppliedConcat(v, [FB.Lock] + Writes(0, f.bytes), EndActions(|f.bytes|, At(f.sec, f.usec)));
    AppliedConcat(v, [FB.Lock], Writes(0, f.bytes));
    AppliedWrites(v, 0, f.bytes);
    assert v.buf[..0] + f.bytes + v.buf[|f.bytes|..] == w.buf;
    assert Applied(v, [FB.Lock]) == v by { assert [FB.Lock][1..] == []; }
    hide Writes;
    AppliedEnd(w, |f.bytes|, At(f.sec, f.usec));
  }

  /** Where the mutex is free all these actions can be taken, and it is free again behind them. */
  lemma PublishFollowsProtocol(s: FB.State, f: Frame) returns (t: FB.State)
    requires s.owner.Free? && s.pc.Idle? && |f.bytes| <= |s.buf|
    ensures FB.Reaches(s, PublishActions(f), t) && t.owner.Free? && t.pc.Idle?
    ensures t.published == s.published + [f]
  {
    var s1 := FB.Do(s, FB.Lock);
    assert FB.Reaches(s, [FB.Lock], s1) by { assert [FB.Lock][1..] == []; }
    var s2 := WritesReach(s1, 0, f.bytes);
    ReachesView(s1, Writes(0, f.bytes), s2);
    AppliedWrites(ViewOf(s1), 0, f.bytes);
    t := EndReaches(s2, |f.bytes|, At(f.sec, f.usec));
    hide *;
    ReachesConcat(s, [FB.Lock], s1, Writes(0, f.bytes), s2);
    ReachesConcat(s, [FB.Lock] + Writes(0, f.bytes), s2, EndActions(|f.bytes|, At(f.sec, f.usec)), t);
    ReachesView(s, PublishActions(f), t);
    AppliedPublish(ViewOf(s), f);
  }

  lemma NextIsActions(cfg: Config, c: Cam, g: Grab)
    requires Fits(c)
    ensures Applied(Sight(c), NextActions(cfg, c, g)) == Sight(Next(cfg, c, g))
  {
    hide Picture, Applied, PublishActions, Millis, Elapsed;
    var d := Next(cfg, c, g);
    if |d.frames| <= |c.frames| {
      AppliedNothing(Sight(c));
    } else {
      AppliedPublish(Sight(c), d.frames[|d.frames| - 1]);
    }
  }

  lemma AppliedNothing(v: View)
    ensures Applied(v, []) == v
  {
  }

  lemma {:induction false} RunIsActions(cfg: Config, c: Cam, grabs: seq<Grab>)
    requires Fits(c)
    ensures Applied(Sight(c), RunActions(cfg, c, grabs)) == Sight(Run(cfg, c, grabs))
    decreases |grabs|
  {
    if grabs == [] {
      AppliedNothing(Sight(c));
    } else {
      var n := |grabs| - 1;
      var d := RunLast(cfg, c, grabs);
      assert RunActions(cfg, c, grabs) == RunActions(cfg, c, grabs[..n]) + NextActions(cfg, d, grabs[n]);
      hide *;
      RunIsActions(cfg, c, grabs[..n]);
      NextIsActions(cfg, d, grabs[n]);
      AppliedConcat(Sight(c), RunActions(cfg, c, grabs[..n]), NextActions(cfg, d, grabs[n]));
    }
  }

  /** The camera at the start of a run of all threads. */
  ghost function CameraAt(s: FB.State, tmp: seq<Byte>): Cam {
    Cam(0, tmp, 0, 0, 0, s.buf, s.size, s.sec, s.usec, s.published, false)
  }

  /** With the readers' steps anywhere between the producer's, every frame a reader has copied is a
      whole published one: the empty frame of the start, or one of those the capture loop let through. */
  lemma ReadersGetCameraFrames(s: FB.State, run: seq<FB.Action>, t: FB.State, rest: seq<FB.Action>,
                               cfg: Config, tmp: seq<Byte>, grabs: seq<Grab>, i: nat, j: nat)
    requires FB.IsStart(s) && FB.Reaches(s, run, t) && i < |t.readers| && j < |t.readers[i].copies|
    requires Sized(tmp, 0, s.buf)
    requires Producers(run) + rest == RunActions(cfg, CameraAt(s, tmp), grabs)
    ensures var copy, all := t.readers[i].copies[j], Run(cfg, CameraAt(s, tmp), grabs).frames;
      copy.index < |all| && copy.frame == all[copy.index]
  {
    var c := CameraAt(s, tmp);
    RunIsActions(cfg, c, grabs);
    CopiesArePublishedBy(s, run, t, RunActions(cfg, c, grabs), rest, i, j);
  }

  /** A published frame is empty or not smaller than the minimum size. */
  lemma {:induction false} NoSmallFrames(cfg: Config, c: Cam, grabs: seq<Grab>)
    requires Fits(c)
    requires forall f :: f in c.frames ==> Large(cfg, f)
    ensures forall f :: f in Run(cfg, c, grabs).frames ==> Large(cfg, f)
    decreases |grabs|
  {
    if grabs == [] {
      RunNone(cfg, c);
    } else {
      hide *;
      var d := RunLast(cfg, c, grabs);
      NoSmallFrames(cfg, c, grabs[..|grabs| - 1]);
      NextLarge(cfg, d, grabs[|grabs| - 1]);
    }
  }

  predicate Large(cfg: Config, f: Frame) {
    f.bytes == [] || |f.bytes| >= cfg.minimumSize
  }

  lemma NextLarge(cfg: Config, c: Cam, g: Grab)
    requires Fits(c) && forall f :: f in c.frames ==> Large(cfg, f)
    ensures forall f :: f in Next(cfg, c, g).frames ==> Large(cfg, f)
  {
    hide HasTable, FrameHeader, Millis, Elapsed;
  }

  // ----- what the camera delivered is what gets published

  /** The last grab of more than 175 bytes, which are not ignored; -1, if there is none. */
  function LastGrab(grabs: seq<Grab>): (i: int)
    ensures -1 <= i < |grabs|
  {
    var n := |grabs| - 1;
    if n < 0 || |grabs[n].data| > 175 then n else LastGrab(grabs[..n])
  }

  function Delivered(grabs: seq<Grab>): seq<Byte> {
    var i := LastGrab(grabs);
    if i < 0 then [] else grabs[i].data
  }

  /** The time that goes with it: the clock's, if wanted, or the grab's. */
  function TakenAt(cfg: Config, grabs: seq<Grab>): Stamp
    requires grabs != []
  {
    var i, now := LastGrab(grabs), grabs[|grabs| - 1];
    if cfg.wantTimestamp then At(now.nowSec, now.nowUsec)
    else if i < 0 then At(0, 0)
    else At(grabs[i].sec, grabs[i].usec)
  }

  /** The picture made of these bytes, whatever lies behind them in memory. */
  ghost predicate MadeFrom(bytes: seq<Byte>, data: seq<Byte>) {
    exists behind: seq<Byte> :: MadeWith(bytes, data, behind)
  }

  ghost predicate MadeWith(bytes: seq<Byte>, data: seq<Byte>, behind: seq<Byte>) {
    Readable(data + behind, |data|) && bytes == Picture(data + behind, |data|)
  }

  /** The frame shows what was delivered last. */
  ghost predicate Shows(cfg: Config, f: Frame, grabs: seq<Grab>)
    requires grabs != []
  {
    MadeFrom(f.bytes, Delivered(grabs)) && At(f.sec, f.usec) == TakenAt(cfg, grabs)
  }

  /** The last of these grabs passes the counter and the two filters, where `last` is the frame
      published last. */
  predicate Selected(cfg: Config, last: Frame, grabs: seq<Grab>)
    requires grabs != []
  {
    var at := TakenAt(cfg, grabs);
    && |grabs| % Max1(cfg.every) == 0
    && |Delivered(grabs)| >= cfg.minimumSize
    && (cfg.softFramedrop ==> Elapsed(Millis(at.sec, at.usec), FrameTime(last)) >= cfg.period)
  }

  /** At the start nothing has been grabbed. */
  predicate Fresh(c: Cam) {
    c.everyCount == 0 && c.tmpSize == 0 && c.tmpSec == 0 && c.tmpUsec == 0 && !c.overran && LastTimed(c)
  }

  predicate LastTimed(c: Cam) {
    c.frames != [] && var f := c.frames[|c.frames| - 1]; f.sec == c.sec && f.usec == c.usec
  }

  /** What is in the private copy behind these grabs. */
  predicate Holds(cfg: Config, c: Cam, grabs: seq<Grab>)
    requires Fits(c)
  {
    var i := LastGrab(grabs);
    && c.tmp[..c.tmpSize] == Delivered(grabs)
    && (!cfg.wantTimestamp ==>
        At(c.tmpSec, c.tmpUsec) == if i < 0 then At(0, 0) else At(grabs[i].sec, grabs[i].usec))
  }

  lemma GrabHolds(cfg: Config, c: Cam, grabs: seq<Grab>)
    requires grabs != [] && Fits(c) && Holds(cfg, c, grabs[..|grabs| - 1])
    requires !Grabbed(c, grabs[|grabs| - 1]).overran
    ensures Holds(cfg, Grabbed(c, grabs[|grabs| - 1]), grabs)
  {
    var g := grabs[|grabs| - 1];
    if |g.data| > HEADERFRAME1 { assert (g.data + c.tmp[|g.data|..])[..|g.data|] == g.data; }
  }

  lemma PublishedFrom(c: Cam) returns (b: seq<Byte>)
    requires Fits(c) && !Published(c).overran
    ensures Published(c).frames == c.frames + [Frame(b, c.tmpSec, c.tmpUsec)]
    ensures MadeFrom(b, c.tmp[..c.tmpSize])
  {
    hide HasTable, FrameHeader;
    b := Picture(c.tmp, c.tmpSize);
    assert c.tmp[..c.tmpSize] + c.tmp[c.tmpSize..] == c.tmp;
    assert MadeWith(b, c.tmp[..c.tmpSize], c.tmp[c.tmpSize..]);
  }

  /** The part of a pass behind the counter. */
  lemma LookedShows(cfg: Config, c: Cam, grabs: seq<Grab>)
    requires grabs != [] && Fits(c) && Holds(cfg, c, grabs) && LastTimed(c)
    requires |grabs| % Max1(cfg.every) == 0 && !Looked(cfg, c, grabs[|grabs| - 1]).overran
    ensures var d, n := Looked(cfg, c, grabs[|grabs| - 1]), |c.frames|;
      && Holds(cfg, d, grabs) && LastTimed(d)
      && if Selected(cfg, c.frames[n - 1], grabs) then
           |d.frames| == n + 1 && d.frames[..n] == c.frames && Shows(cfg, d.frames[n], grabs)
         else d.frames == c.frames
  {
    hide Picture, Millis, Elapsed, Room, Readable, MadeFrom, Max1;
    var e := Timed(cfg, c, grabs[|grabs| - 1]);
    if c.tmpSize >= cfg.minimumSize && !Dropped(cfg, e) {
      var b := PublishedFrom(e);
    }
  }

  /** One pass of the loop publishes a frame exactly if it is selected, and that shows what the camera
      delivered. As this holds behind any grabs it says what the whole list of frames is. */
  lemma PassPublishes(cfg: Config, c: Cam, grabs: seq<Grab>)
    requires Fits(c) && Fresh(c) && grabs != [] && !Run(cfg, c, grabs).overran
    ensures var n := |grabs| - 1;
      var before, after := Run(cfg, c, grabs[..n]).frames, Run(cfg, c, grabs).frames;
      && before != []
      && if Selected(cfg, before[|before| - 1], grabs) then
           |after| == |before| + 1 && after[..|before|] == before && Shows(cfg, after[|before|], grabs)
         else after == before
  {
    hide *;
    var n := |grabs| - 1;
    var d := RunLast(cfg, c, grabs);
    RunHolds(cfg, c, grabs[..n]);
    NextShows(cfg, d, grabs);
  }

  /** Behind any grabs the private copy holds what was delivered last. */
  lemma {:induction false} RunHolds(cfg: Config, c: Cam, grabs: seq<Grab>)
    requires Fits(c) && Fresh(c)
    ensures var d := Run(cfg, c, grabs); !d.overran ==>
      Holds(cfg, d, grabs) && LastTimed(d) && d.everyCount == |grabs| % Max1(cfg.every)
    decreases |grabs|
  {
    hide *;
    if grabs == [] {
      FreshHolds(cfg, c);
      RunNone(cfg, c);
      DivModIs(0, Max1(cfg.every), 0, 0);
    } else {
      var d := RunLast(cfg, c, grabs);
      RunHolds(cfg, c, grabs[..|grabs| - 1]);
      if !Run(cfg, c, grabs).overran { NextShows(cfg, d, grabs); }
    }
  }

  lemma FreshHolds(cfg: Config, c: Cam)
    requires Fits(c) && Fresh(c)
    ensures !c.overran && c.everyCount == 0 && Holds(cfg, c, []) && LastTimed(c)
  {
  }

  lemma NextParts(cfg: Config, c: Cam, g: Grab)
    requires Fits(c) && !Next(cfg, c, g).overran && c.everyCount < Max1(cfg.every)
    ensures !c.overran && !Grabbed(c, g).overran && Grabbed(c, g).everyCount == c.everyCount
    ensures Next(cfg, c, g) ==
      var d := Grabbed(c, g);
      if c.everyCount < Max1(cfg.every) - 1 then d.(everyCount := d.everyCount + 1)
      else Looked(cfg, d.(everyCount := 0), g)
    ensures Grabbed(c, g).frames == c.frames && Grabbed(c, g).sec == c.sec && Grabbed(c, g).usec == c.usec
  {
    hide Looked;
  }

  lemma NextShows(cfg: Config, c: Cam, grabs: seq<Grab>)
    requires grabs != [] && Fits(c) && !Next(cfg, c, grabs[|grabs| - 1]).overran
    requires !c.overran ==>
      Holds(cfg, c, grabs[..|grabs| - 1]) && LastTimed(c) && c.everyCount == (|grabs| - 1) % Max1(cfg.every)
    ensures !c.overran && c.frames != []
    ensures var d, n := Next(cfg, c, grabs[|grabs| - 1]), |c.frames|;
      && Holds(cfg, d, grabs) && LastTimed(c) && LastTimed(d) && d.everyCount == |grabs| % Max1(cfg.every)
      && if Selected(cfg, c.frames[n - 1], grabs) then
           |d.frames| == n + 1 && d.frames[..n] == c.frames && Shows(cfg, d.frames[n], grabs)
         else d.frames == c.frames
  {
    var g := grabs[|grabs| - 1];
    CountUp(|grabs| - 1, Max1(cfg.every));
    NextCounts(cfg, c, g);
    NextParts(cfg, c, g);
    hide Holds, Shows, Grabbed, Looked, Next, TakenAt, Delivered, Millis, Elapsed;
    GrabHolds(cfg, c, grabs);
    var d := Grabbed(c, g).(everyCount := 0);
    if |grabs| % Max1(cfg.every) == 0 { LookedShows(cfg, d, grabs); }
  }

  /** A frame published in the run shows what had been delivered when the pass for it was made; it was
      selected, behind the frame before it. */
  ghost predicate MadeIn(cfg: Config, frames: seq<Frame>, k: nat, grabs: seq<Grab>, m: nat)
    requires 0 < k < |frames| && 0 < m <= |grabs|
  {
    Selected(cfg, frames[k - 1], grabs[..m]) && Shows(cfg, frames[k], grabs[..m])
  }

  lemma {:induction false} FrameShows(cfg: Config, c: Cam, grabs: seq<Grab>, k: nat) returns (m: nat)
    requires Fits(c) && Fresh(c) && !Run(cfg, c, grabs).overran
    requires |c.frames| <= k < |Run(cfg, c, grabs).frames|
    ensures 0 < m <= |grabs| && k > 0 && MadeIn(cfg, Run(cfg, c, grabs).frames, k, grabs, m)
    decreases |grabs|
  {
    hide *;
    m := |grabs|;
    if grabs == [] {
      RunNone(cfg, c);
    } else {
      var n := |grabs| - 1;
      RunOn(cfg, c, grabs);
      PassPublishes(cfg, c, grabs);
      var before, after := Run(cfg, c, grabs[..n]).frames, Run(cfg, c, grabs).frames;
      if k < |before| {
        m := FrameShows(cfg, c, grabs[..n], k);
        assert grabs[..n][..m] == grabs[..m];
        SameMade(cfg, before, after, k, grabs[..n], grabs, m);
      } else {
        assert grabs[..m] == grabs;
        assert before[k - 1] == after[k - 1];
        MadeHere(cfg, after, k, grabs);
      }
    }
  }

  lemma MadeHere(cfg: Config, frames: seq<Frame>, k: nat, grabs: seq<Grab>)
    requires 0 < k < |frames| && grabs != []
    requires Selected(cfg, frames[k - 1], grabs) && Shows(cfg, frames[k], grabs)
    ensures MadeIn(cfg, frames, k, grabs, |grabs|)
  {
    assert grabs[..|grabs|] == grabs;
  }

  lemma SameMade(cfg: Config, frames: seq<Frame>, more: seq<Frame>, k: nat, grabs: seq<Grab>, all: seq<Grab>, m: nat)
    requires 0 < k < |frames| && frames <= more && 0 < m <= |grabs| && grabs <= all
    requires MadeIn(cfg, frames, k, grabs, m)
    ensures MadeIn(cfg, more, k, all, m)
  {
    assert grabs[..m] == all[..m];
  }

  lemma RunOn(cfg: Config, c: Cam, grabs: seq<Grab>)
    requires Fits(c) && Fresh(c) && grabs != [] && !Run(cfg, c, grabs).overran
    ensures !Run(cfg, c, grabs[..|grabs| - 1]).overran && |c.frames| > 0
  {
    hide Grabbed, Looked;
  }

  lemma {:induction false} FramesKept(cfg: Config, c: Cam, grabs: seq<Grab>)
    requires Fits(c) && Fresh(c) && !Run(cfg, c, grabs).overran
    ensures c.frames <= Run(cfg, c, grabs).frames
    decreases |grabs|
  {
    hide *;
    if grabs == [] {
      RunNone(cfg, c);
    } else {
      RunOn(cfg, c, grabs);
      FramesKept(cfg, c, grabs[..|grabs| - 1]);
      PassPublishes(cfg, c, grabs);
    }
  }

  /** With its own table among the first 2049 positions of the delivered bytes and before any SOS marker,
      the picture is exactly these bytes. */
  lemma OwnTableDelivered(bytes: seq<Byte>, data: seq<Byte>, p: nat)
    requires MadeFrom(bytes, data)
    requires p <= 2048 && p + 2 <= |data| && Marker(data, p, DHT) && NoneBefore(data, p, SOS)
    ensures bytes == data
  {
    var behind :| MadeWith(bytes, data, behind);
    var mem := data + behind;
    assert Marker(mem, p, DHT);
    forall q | 0 <= q < p ensures !Marker(mem, q, SOS) { assert !Marker(data, q, SOS); }
    hide Marker;
    OwnTableKept(mem, |data|, p, []);
    assert mem[..|data|] == data;
  }

  /** With an SOS marker and no table before it, the picture is the delivered bytes with the table in
      front of their first start-of-frame marker, and nothing without one. */
  lemma TableAdded(bytes: seq<Byte>, data: seq<Byte>, p: nat, f: nat)
    requires MadeFrom(bytes, data)
    requires p <= 2048 && p + 2 <= |data| && Marker(data, p, SOS) && NoneBefore(data, p, DHT)
    requires f + 2 <= |data| && Marker(data, f, SOF0) && NoneBefore(data, f, SOF0)
    ensures bytes == data[..f] + Dht() + data[f..]
  {
    hide HasTable, FrameHeader, Dht, Marker, Readable;
    var behind :| MadeWith(bytes, data, behind);
    var mem := data + behind;
    NoTableBehind(data, behind, p);
    FirstHeaderBehind(data, behind, f);
    assert mem[..f] == data[..f] && mem[f..|data|] == data[f..];
  }

  lemma NoTableBehind(data: seq<Byte>, behind: seq<Byte>, p: nat)
    requires p <= 2048 && p + 2 <= |data| && Marker(data, p, SOS) && NoneBefore(data, p, DHT)
    ensures !HasTable(data + behind)
  {
    var mem := data + behind;
    assert Marker(mem, p, SOS);
    forall q | 0 <= q < p ensures !Marker(mem, q, DHT) { assert !Marker(data, q, DHT); }
    assert !Marker(mem, p, DHT);
    hide Marker;
  }

  lemma FirstHeaderBehind(data: seq<Byte>, behind: seq<Byte>, f: nat)
    requires f + 2 <= |data| && Marker(data, f, SOF0) && NoneBefore(data, f, SOF0)
    ensures FrameHeader(data + behind, |data|, 0) == f
  {
    var mem := data + behind;
    assert Marker(mem, f, SOF0);
    forall q | 0 <= q < f ensures !Marker(mem, q, SOF0) { assert !Marker(data, q, SOF0); }
    FrameHeaderIsFirst(mem, |data|, 0);
    hide Marker, FrameHeader;
  }

  /** Whatever a reader copies behind the start is a picture made of one frame the camera delivered. */
  lemma ReadersGetDelivered(s: FB.State, run: seq<FB.Action>, t: FB.State, rest: seq<FB.Action>,
                            cfg: Config, tmp: seq<Byte>, grabs: seq<Grab>, i: nat, j: nat) returns (m: nat)
    requires FB.IsStart(s) && FB.Reaches(s, run, t) && i < |t.readers| && j < |t.readers[i].copies|
    requires Sized(tmp, 0, s.buf) && !Run(cfg, CameraAt(s, tmp), grabs).overran
    requires Producers(run) + rest == RunActions(cfg, CameraAt(s, tmp), grabs)
    ensures var copy := t.readers[i].copies[j];
      if copy.index == 0 then copy.frame == Frame([], s.sec, s.usec)
      else 0 < m <= |grabs| && Shows(cfg, copy.frame, grabs[..m])
  {
    var c := CameraAt(s, tmp);
    ReadersGetCameraFrames(s, run, t, rest, cfg, tmp, grabs, i, j);
    FramesKept(cfg, c, grabs);
    m := 1;
    if t.readers[i].copies[j].index > 0 {
      m := FrameShows(cfg, c, grabs, t.readers[i].copies[j].index);
    }
  }
}
