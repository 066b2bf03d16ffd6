// The encoder callback of the Raspberry Pi camera input: it assembles a frame over several callbacks
// and keeps the mutex in between.
module Raspicam {
  import opened Bits
  import opened HttpStream
  import FB = FrameBuffer
  import opened Producing

  /** One callback: the bytes of the MMAL buffer, and whether its flags end the frame. */
  datatype Chunk = Chunk(data: seq<Byte>, last: bool)

  /** The shared fields, the position in the frame, and the mutex as this thread sees it. overUnlocks
      counts unlocks of a mutex that was not held. */
  datatype Camera = Camera(buf: seq<Byte>, offset: nat, size: nat, sec: int, usec: int,
                           held: bool, overUnlocks: nat, frames: seq<Frame>)

  function Appended(c: Camera, data: seq<Byte>): Camera
    requires c.offset + |data| <= |c.buf|
  {
    if data == [] then c
    else c.(buf := c.buf[..c.offset] + data + c.buf[c.offset + |data|..], offset := c.offset + |data|, held := true)
  }

  function Ended(c: Camera, stamp: Stamp): Camera
    requires c.offset <= |c.buf|
  {
    var sec := if stamp.At? then stamp.sec else c.sec;
    var usec := if stamp.At? then stamp.usec else c.usec;
    c.(size := c.offset, sec := sec, usec := usec, offset := 0, held := false,
      overUnlocks := if c.held then c.overUnlocks else c.overUnlocks + 1,
      frames := c.frames + [Frame(c.buf[..c.offset], sec, usec)])
  }

  function AfterChunk(c: Camera, chunk: Chunk, stamp: Stamp): Camera
    requires c.offset + |chunk.data| <= |c.buf|
  {
    var d := Appended(c, chunk.data);
    if chunk.last then Ended(d, stamp) else d
  }

  /** One more byte of a copy. */
  lemma CopyStep(was: seq<Byte>, data: seq<Byte>, pos: nat, i: nat)
    requires i < |data| && pos + |data| <= |was|
    ensures (was[..pos] + data[..i] + was[pos + i..])[pos + i := data[i]] ==
      was[..pos] + data[..i + 1] + was[pos + i + 1..]
  {
  }

  class Encoder {
    const buf: array<Byte>
    var offset: nat
    var size: nat
    var sec: int
    var usec: int
    var held: bool
    var overUnlocks: nat
    var frames: seq<Frame>
    /** Buffer headers in the pool's queue and at the encoder's port. */
    var inQueue: nat
    var atPort: nat

    ghost predicate Valid()
      reads this
    {
      offset <= buf.Length && (held <==> offset > 0)
    }

    ghost function Abstract(): Camera
      reads this, buf
    {
      Camera(buf[..], offset, size, sec, usec, held, overUnlocks, frames)
    }

    constructor (capacity: nat, queued: nat, sent: nat)
      ensures Valid() && fresh(buf) && buf.Length == capacity && frames == [] && overUnlocks == 0
      ensures !held && offset == 0 && inQueue == queued && atPort == sent
    {
      buf := new Byte[capacity];
      offset, size, sec, usec, held, overUnlocks := 0, 0, 0, 0, false, 0;
      frames := [];
      inQueue, atPort := queued, sent;
    }

    /** encoder_buffer_callback. Between callbacks the mutex is held exactly if a frame is begun, and
        while the port is open and takes the buffers their number at both places stays the same. */
    method Callback(chunk: Chunk, stamp: Stamp, enabled: bool, accepted: bool)
      requires Valid() && offset + |chunk.data| <= buf.Length && atPort > 0
      modifies this, buf
      ensures Valid() && Abstract() == AfterChunk(old(Abstract()), chunk, stamp)
      ensures enabled && accepted ==> inQueue == old(inQueue) && atPort == old(atPort)
      ensures enabled && !accepted ==> inQueue == old(inQueue) && atPort == old(atPort) - 1
      ensures !enabled ==> inQueue == old(inQueue) + 1 && atPort == old(atPort) - 1
    {
      if |chunk.data| > 0 {
        Append(chunk.data);
      }
      if chunk.last {
        EndFrame(stamp);
      }
      inQueue, atPort := inQueue + 1, atPort - 1;
      if enabled && inQueue > 0 {
        inQueue := inQueue - 1;
        if accepted {
          atPort := atPort + 1;
        }
      }
    }

    method Append(data: seq<Byte>)
      requires Valid() && offset + |data| <= buf.Length && data != []
      modifies this`offset, this`held, buf
      ensures Valid() && Abstract() == Appended(old(Abstract()), data)
    {
      if offset == 0 {
        held := true;
      }
      CopyIn(data);
    }

    method EndFrame(stamp: Stamp)
      requires Valid()
      modifies this`offset, this`held, this`size, this`sec, this`usec, this`frames, this`overUnlocks
      ensures Valid() && Abstract() == Ended(old(Abstract()), stamp)
    {
      size := offset;
      if stamp.At? {
        sec, usec := stamp.sec, stamp.usec;
      }
      frames := frames + [Frame(buf[..offset], sec, usec)];
      offset := 0;
      overUnlocks := if held then overUnlocks else overUnlocks + 1;
      held := false;
    }

    method CopyIn(data: seq<Byte>)
      requires offset + |data| <= buf.Length
      modifies this`offset, buf
      ensures offset == old(offset) + |data|
      ensures buf[..] == old(buf[..offset]) + data + old(buf[offset + |data|..])
    {
      var at := offset;
      ghost var was := buf[..];
      for i := 0 to |data|
        modifies buf
        invariant buf[..] == was[..at] + data[..i] + was[at + i..]
      {
        CopyStep(was, data, at, i);
        buf[at + i] := data[i];
      }
      offset := at + |data|;
    }
  }

  // ----- whole sequences of callbacks

  /** The chunks of a run joined up to each end flag, and the bytes of the frame begun last. */
  datatype Assembly = Assembly(frames: seq<seq<Byte>>, begun: seq<Byte>)

  function Assemble(chunks: seq<Chunk>): Assembly {
    if chunks == [] then Assembly([], [])
    else
      var n := |chunks| - 1;
      var a := Assemble(chunks[..n]);
      var begun := a.begun + chunks[n].data;
      if chunks[n].last then Assembly(a.frames + [begun], []) else Assembly(a.frames, begun)
  }

  /** Every frame fits the buffer. */
  ghost predicate Fitting(chunks: seq<Chunk>, capacity: nat)
    decreases |chunks|
  {
    chunks == [] ||
    var n := |chunks| - 1;
    Fitting(chunks[..n], capacity) && |Assemble(chunks[..n]).begun| + |chunks[n].data| <= capacity
  }

  /** The camera after a sequence of callbacks, one time stamp for each. */
  ghost function Run(c: Camera, chunks: seq<Chunk>, stamps: seq<Stamp>): (d: Camera)
    requires |stamps| == |chunks| && Fitting(chunks, |c.buf|) && c.offset == 0 && !c.held
    ensures |d.buf| == |c.buf| && d.offset == |Assemble(chunks).begun| <= |c.buf|
    decreases |chunks|
  {
    if chunks == [] then c
    else
      var n := |chunks| - 1;
      AfterChunk(Run(c, chunks[..n], stamps[..n]), chunks[n], stamps[n])
  }

  function Bytes(frames: seq<Frame>): (b: seq<seq<Byte>>)
    ensures |b| == |frames|
  {
    seq(|frames|, i requires 0 <= i < |frames| => frames[i].bytes)
  }

  /** The frames announced are exactly the chunks joined up to each end flag; a begun frame stands at
      the front of the buffer, and the mutex is held exactly then. */
  lemma {:induction false} RunAssembles(c: Camera, chunks: seq<Chunk>, stamps: seq<Stamp>)
    requires |stamps| == |chunks| && Fitting(chunks, |c.buf|) && c.offset == 0 && !c.held
    ensures var d, a := Run(c, chunks, stamps), Assemble(chunks);
      && Bytes(d.frames) == Bytes(c.frames) + a.frames
      && d.buf[..d.offset] == a.begun
      && (d.held <==> a.begun != [])
    decreases |chunks|
  {
    if chunks != [] {
      var n := |chunks| - 1;
      RunAssembles(c, chunks[..n], stamps[..n]);
      var d, a := Run(c, chunks[..n], stamps[..n]), Assemble(chunks[..n]);
      ChunkAssembles(d, chunks[n], stamps[n], a.begun);
    }
  }

  lemma ChunkAssembles(c: Camera, chunk: Chunk, stamp: Stamp, begun: seq<Byte>)
    requires c.offset + |chunk.data| <= |c.buf| && c.buf[..c.offset] == begun && (c.held <==> begun != [])
    ensures var d, now := AfterChunk(c, chunk, stamp), begun + chunk.data;
      && Bytes(d.frames) == Bytes(c.frames) + (if chunk.last then [now] else [])
      && d.buf[..d.offset] == (if chunk.last then [] else now)
      && (d.held <==> !chunk.last && now != [])
      && d.overUnlocks == c.overUnlocks + (if chunk.last && now == [] then 1 else 0)
  {
    var d := Appended(c, chunk.data);
    assert d.buf[..d.offset] == begun + chunk.data;
    assert d.held <==> begun + chunk.data != [];
  }

  /** The callbacks that end a frame. */
  function Ends(chunks: seq<Chunk>): (e: seq<nat>)
    ensures forall k :: 0 <= k < |e| ==> e[k] < |chunks|
  {
    if chunks == [] then []
    else
      var n := |chunks| - 1;
      Ends(chunks[..n]) + if chunks[n].last then [n] else []
  }

  /** Each announced frame bears the time of the callback that ended it, or, without time stamps, the
      one that was there. */
  lemma {:induction false} FramesAreStamped(c: Camera, chunks: seq<Chunk>, stamps: seq<Stamp>, k: nat)
    requires |stamps| == |chunks| && Fitting(chunks, |c.buf|) && c.offset == 0 && !c.held
    requires k < |Ends(chunks)|
    ensures var d, stamp := Run(c, chunks, stamps), stamps[Ends(chunks)[k]];
      && |d.frames| == |c.frames| + |Ends(chunks)|
      && (stamp.At? ==> At(d.frames[|c.frames| + k].sec, d.frames[|c.frames| + k].usec) == stamp)
      && ((forall i :: 0 <= i < |stamps| ==> stamps[i].Unstamped?) ==>
          d.frames[|c.frames| + k].sec == c.sec && d.frames[|c.frames| + k].usec == c.usec)
    decreases |chunks|
  {
    var n := |chunks| - 1;
    TimeStays(c, chunks[..n], stamps[..n]);
    if k < |Ends(chunks[..n])| { FramesAreStamped(c, chunks[..n], stamps[..n], k); }
  }

  lemma {:induction false} TimeStays(c: Camera, chunks: seq<Chunk>, stamps: seq<Stamp>)
    requires |stamps| == |chunks| && Fitting(chunks, |c.buf|) && c.offset == 0 && !c.held
    ensures var d := Run(c, chunks, stamps);
      && |d.frames| == |c.frames| + |Ends(chunks)|
      && ((forall i :: 0 <= i < |stamps| ==> stamps[i].Unstamped?) ==> d.sec == c.sec && d.usec == c.usec)
    decreases |chunks|
  {
    if chunks != [] {
      var n := |chunks| - 1;
      TimeStays(c, chunks[..n], stamps[..n]);
    }
  }

  /** Only a held mutex is ever released, if and only if no frame ends without a byte. */
  lemma {:induction false} UnlocksHeldIff(c: Camera, chunks: seq<Chunk>, stamps: seq<Stamp>)
    requires |stamps| == |chunks| && Fitting(chunks, |c.buf|) && c.offset == 0 && !c.held
    ensures Run(c, chunks, stamps).overUnlocks >= c.overUnlocks
    ensures Run(c, chunks, stamps).overUnlocks == c.overUnlocks <==> [] !in Assemble(chunks).frames
    decreases |chunks|
  {
    if chunks != [] {
      var n := |chunks| - 1;
      UnlocksHeldIff(c, chunks[..n], stamps[..n]);
      RunAssembles(c, chunks[..n], stamps[..n]);
      ChunkAssembles(Run(c, chunks[..n], stamps[..n]), chunks[n], stamps[n], Assemble(chunks[..n]).begun);
    }
  }

  // ----- the callbacks as actions of the frame buffer's producer

  function Sight(c: Camera): View {
    View(c.buf, c.size, c.sec, c.usec, c.frames)
  }

  /** What one callback does to mutex, condition variable and shared fields. */
  function CallbackActions(offset: nat, chunk: Chunk, stamp: Stamp): seq<FB.Action> {
    (if offset == 0 && chunk.data != [] then [FB.Lock] else [])
    + Writes(offset, chunk.data)
    + (if chunk.last then EndActions(offset + |chunk.data|, stamp) else [])
  }

  function RunActions(chunks: seq<Chunk>, stamps: seq<Stamp>): seq<FB.Action>
    requires |stamps| == |chunks|
    decreases |chunks|
  {
    if chunks == [] then []
    else
      var n := |chunks| - 1;
      RunActions(chunks[..n], stamps[..n]) + CallbackActions(|Assemble(chunks[..n]).begun|, chunks[n], stamps[n])
  }

  lemma LockAlone(v: View, lock: seq<FB.Action>)
    requires lock == [] || lock == [FB.Lock]
    ensures Applied(v, lock) == v
  {
    assert lock == [] || lock[1..] == [];
  }

  lemma AppliedCallback(c: Camera, chunk: Chunk, stamp: Stamp)
    requires c.offset + |chunk.data| <= |c.buf|
    ensures Applied(Sight(c), CallbackActions(c.offset, chunk, stamp)) == Sight(AfterChunk(c, chunk, stamp))
  {
    hide Writes, Applied, EndActions;
    var lock := if c.offset == 0 && chunk.data != [] then [FB.Lock] else [];
    var writes := Writes(c.offset, chunk.data);
    var end := if chunk.last then EndActions(c.offset + |chunk.data|, stamp) else [];
    var v, d := Sight(c), Appended(c, chunk.data);
    LockAlone(v, lock);
    LockAlone(Sight(d), []);
    AppliedConcat(v, lock + writes, end);
    AppliedConcat(v, lock, writes);
    AppliedWrites(v, c.offset, chunk.data);
    assert c.buf[..c.offset] + [] + c.buf[c.offset..] == c.buf;
    assert Applied(v, lock + writes) == Sight(d);
    AppliedEnd(Sight(d), d.offset, stamp);
  }

  lemma {:induction false} RunIsActions(c: Camera, chunks: seq<Chunk>, stamps: seq<Stamp>)
    requires |stamps| == |chunks| && Fitting(chunks, |c.buf|) && c.offset == 0 && !c.held
    ensures Applied(Sight(c), RunActions(chunks, stamps)) == Sight(Run(c, chunks, stamps))
    decreases |chunks|
  {
    if chunks != [] {
      var n := |chunks| - 1;
      var d := Run(c, chunks[..n], stamps[..n]);
      RunIsActions(c, chunks[..n], stamps[..n]);
      AppliedConcat(Sight(c), RunActions(chunks[..n], stamps[..n]), CallbackActions(d.offset, chunks[n], stamps[n]));
      AppliedCallback(d, chunks[n], stamps[n]);
    }
  }

  // ----- among the steps of the readers

  /** The callbacks with the readers' steps anywhere between their single actions, cut off at any
      point: whatever a reader has copied is the empty frame of the start or the joined chunks of one
      frame of the encoder, whole. Up to the first frame that ends without a byte, that is: its
      unlocked actions no run can take (EmptyFrameBlocked), and nothing is said behind them. */
  lemma ReadersGetAssembledFrames(s: FB.State, run: seq<FB.Action>, t: FB.State, rest: seq<FB.Action>,
                                  chunks: seq<Chunk>, stamps: seq<Stamp>, i: nat, j: nat)
    requires FB.IsStart(s) && FB.Reaches(s, run, t) && i < |t.readers| && j < |t.readers[i].copies|
    requires |stamps| == |chunks| && Fitting(chunks, |s.buf|)
    requires Producers(run) + rest == RunActions(chunks, stamps)
    ensures var copy := t.readers[i].copies[j];
      copy.index < 1 + |Assemble(chunks).frames|
      && copy.frame.bytes == ([[]] + Assemble(chunks).frames)[copy.index]
  {
    var c := Camera(s.buf, 0, s.size, s.sec, s.usec, false, 0, s.published);
    RunIsActions(c, chunks, stamps);
    RunAssembles(c, chunks, stamps);
    assert Bytes(c.frames) == [[]];
    CopiesArePublishedBy(s, run, t, RunActions(chunks, stamps), rest, i, j);
    var all, k := Run(c, chunks, stamps).frames, t.readers[i].copies[j].index;
    assert Bytes(all)[k] == all[k].bytes;
  }

  /** The state shows the camera: fields, and the mutex owned exactly while a frame is begun. */
  ghost predicate Shows(s: FB.State, c: Camera) {
    && ViewOf(s) == Sight(c) && (c.held <==> c.offset > 0)
    && if c.held then s.owner.ByProducer? && s.pc.Writing? else s.owner.Free? && s.pc.Idle?
  }

  /** A callback that does not end an empty frame follows the locking protocol: where the mutex is
      free or already its own, all its actions can be taken, and they lead to the camera's next state. */
  lemma CallbackFollowsProtocol(s: FB.State, c: Camera, chunk: Chunk, stamp: Stamp) returns (t: FB.State)
    requires Shows(s, c) && c.offset + |chunk.data| <= |c.buf|
    requires chunk.last ==> c.offset > 0 || chunk.data != []
    ensures FB.Reaches(s, CallbackActions(c.offset, chunk, stamp), t) && Shows(t, AfterChunk(c, chunk, stamp))
  {
    var lock := if c.offset == 0 && chunk.data != [] then [FB.Lock] else [];
    var writes := Writes(c.offset, chunk.data);
    var size := c.offset + |chunk.data|;
    var end := if chunk.last then EndActions(size, stamp) else [];
    var s1 := if lock != [] then FB.Do(s, FB.Lock) else s;
    assert FB.Reaches(s, lock, s1) by { if lock != [] { assert lock[1..] == []; } }
    var s2 := WritesReach(s1, c.offset, chunk.data);
    ReachesView(s1, writes, s2);
    AppliedWrites(ViewOf(s1), c.offset, chunk.data);
    if chunk.last {
      t := EndReaches(s2, size, stamp);
    } else {
      t := s2;
    }
    hide *;
    ReachesConcat(s, lock, s1, writes, s2);
    ReachesConcat(s, lock + writes, s2, end, t);
    ReachesView(s, lock + writes + end, t);
    AppliedCallback(c, chunk, stamp);
  }

  /** The only callback that cannot: one that ends a frame without a byte would write and unlock without
      the mutex. */
  lemma EmptyFrameBlocked(s: FB.State, c: Camera, chunk: Chunk, stamp: Stamp, t: FB.State)
    requires Shows(s, c) && c.offset == 0 && chunk == Chunk([], true)
    ensures !FB.Reaches(s, CallbackActions(c.offset, chunk, stamp), t)
  {
    assert CallbackActions(c.offset, chunk, stamp)[0] == FB.WriteSize(0);
  }
}
