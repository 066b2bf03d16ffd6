// What any producer does to the shared frame buffer, apart from the readers' steps among it.
module Producing {
  import opened Bits
  import opened HttpStream
  import FB = FrameBuffer
  import opened NoTornFrames

  /** What the producer has written, without owner and readers. */
  datatype View = View(buf: seq<Byte>, size: nat, sec: int, usec: int, published: seq<Frame>)

  function ViewOf(s: FB.State): View {
    View(s.buf, s.size, s.sec, s.usec, s.published)
  }

  function Applied1(v: View, a: FB.Action): View {
    match a
    case WriteByte(at, b) => if at < |v.buf| then v.(buf := v.buf[at := b]) else v
    case WriteSize(n) => v.(size := n)
    case WriteTime(s, u) => v.(sec := s, usec := u)
    case Broadcast =>
      var bytes := if v.size <= |v.buf| then v.buf[..v.size] else [];
      v.(published := v.published + [Frame(bytes, v.sec, v.usec)])
    case _ => v
  }

  function Applied(v: View, actions: seq<FB.Action>): View
    decreases |actions|
  {
    if actions == [] then v else Applied(Applied1(v, actions[0]), actions[1..])
  }

  function Writes(at: nat, data: seq<Byte>): seq<FB.Action>
    decreases |data|
  {
    if data == [] then [] else [FB.WriteByte(at, data[0])] + Writes(at + 1, data[1..])
  }

  /** The clock, where the option asks for time stamps. */
  datatype Stamp = Unstamped | At(sec: int, usec: int)

  function StampActions(stamp: Stamp): seq<FB.Action> {
    if stamp.At? then [FB.WriteTime(stamp.sec, stamp.usec)] else []
  }

  /** How a frame is finished: its size, its time, the broadcast, and the mutex is given back. */
  function EndActions(size: nat, stamp: Stamp): seq<FB.Action> {
    [FB.WriteSize(size)] + StampActions(stamp) + [FB.Broadcast, FB.Unlock]
  }

  lemma {:induction false} AppliedConcat(v: View, a: seq<FB.Action>, b: seq<FB.Action>)
    ensures Applied(v, a + b) == Applied(Applied(v, a), b)
    decreases |a|
  {
    if a == [] {
      assert a + b == b;
    } else {
      assert (a + b)[1..] == a[1..] + b;
      AppliedConcat(Applied1(v, a[0]), a[1..], b);
    }
  }

  lemma {:induction false} AppliedGrows(v: View, a: seq<FB.Action>)
    ensures v.published <= Applied(v, a).published
    decreases |a|
  {
    if a != [] { AppliedGrows(Applied1(v, a[0]), a[1..]); }
  }

  lemma {:induction false} AppliedWrites(v: View, at: nat, data: seq<Byte>)
    requires at + |data| <= |v.buf|
    ensures Applied(v, Writes(at, data)) == v.(buf := v.buf[..at] + data + v.buf[at + |data|..])
    decreases |data|
  {
    if data == [] {
      assert v.buf[..at] + data + v.buf[at..] == v.buf;
    } else {
      var w := v.(buf := v.buf[at := data[0]]);
      AppliedWrites(w, at + 1, data[1..]);
      assert Writes(at, data)[1..] == Writes(at + 1, data[1..]);
      assert w.buf[..at + 1] + data[1..] + w.buf[at + |data|..] == v.buf[..at] + data + v.buf[at + |data|..];
    }
  }

  lemma AppliedEnd(v: View, offset: nat, stamp: Stamp)
    requires offset <= |v.buf|
    ensures var s := if stamp.At? then v.(sec := stamp.sec, usec := stamp.usec) else v;
      Applied(v, EndActions(offset, stamp))
      == s.(size := offset, published := v.published + [Frame(v.buf[..offset], s.sec, s.usec)])
  {
    var w := v.(size := offset);
    var x := Applied(w, StampActions(stamp));
    AppliedConcat(v, [FB.WriteSize(offset)] + StampActions(stamp), [FB.Broadcast, FB.Unlock]);
    AppliedConcat(v, [FB.WriteSize(offset)], StampActions(stamp));
    assert Applied(v, [FB.WriteSize(offset)]) == w by { assert [FB.WriteSize(offset)][1..] == []; }
    assert Applied(x, [FB.Broadcast, FB.Unlock]) == Applied1(x, FB.Broadcast) by {
      assert [FB.Broadcast, FB.Unlock][1..] == [FB.Unlock];
      assert [FB.Unlock][1..] == [];
    }
    if stamp.At? {
      assert StampActions(stamp)[1..] == [];
    }
  }

  /** The producer's part of a run of all threads. */
  function Producers(run: seq<FB.Action>): seq<FB.Action>
    decreases |run|
  {
    if run == [] then []
    else (if run[0].Step? then [] else [run[0]]) + Producers(run[1..])
  }

  lemma {:induction false} ReachesView(s: FB.State, run: seq<FB.Action>, t: FB.State)
    requires FB.Reaches(s, run, t)
    ensures ViewOf(t) == Applied(ViewOf(s), run)
    decreases |run|
  {
    if run != [] {
      assert ViewOf(FB.Do(s, run[0])) == Applied1(ViewOf(s), run[0]);
      ReachesView(FB.Do(s, run[0]), run[1..], t);
    }
  }

  /** The readers change nothing the producer has written. */
  lemma {:induction false} ReadersOnlyRead(v: View, run: seq<FB.Action>)
    ensures Applied(v, run) == Applied(v, Producers(run))
    decreases |run|
  {
    if run != [] {
      ReadersOnlyRead(Applied1(v, run[0]), run[1..]);
      if run[0].Step? {
        assert Producers(run) == Producers(run[1..]);
      } else {
        assert Producers(run)[1..] == Producers(run[1..]);
      }
    }
  }

  lemma {:induction false} ReachesConcat(s: FB.State, a: seq<FB.Action>, t: FB.State, b: seq<FB.Action>, u: FB.State)
    requires FB.Reaches(s, a, t) && FB.Reaches(t, b, u)
    ensures FB.Reaches(s, a + b, u)
    decreases |a|
  {
    if a == [] {
      assert a + b == b;
    } else {
      assert (a + b)[1..] == a[1..] + b;
      ReachesConcat(FB.Do(s, a[0]), a[1..], t, b, u);
    }
  }

  lemma {:induction false} WritesReach(s: FB.State, at: nat, data: seq<Byte>) returns (t: FB.State)
    requires at + |data| <= |s.buf| && (data == [] || s.pc.Writing?)
    ensures FB.Reaches(s, Writes(at, data), t) && t.pc == s.pc && t.owner == s.owner
    decreases |data|
  {
    if data == [] {
      t := s;
    } else {
      t := WritesReach(FB.Do(s, FB.WriteByte(at, data[0])), at + 1, data[1..]);
      assert Writes(at, data)[1..] == Writes(at + 1, data[1..]);
    }
  }

  lemma EndReaches(s: FB.State, size: nat, stamp: Stamp) returns (t: FB.State)
    requires s.pc.Writing? && size <= |s.buf|
    ensures FB.Reaches(s, EndActions(size, stamp), t)
    ensures t.pc.Idle? && t.owner.Free?
  {
    var s1 := FB.Do(s, FB.WriteSize(size));
    var s2 := if stamp.At? then FB.Do(s1, FB.WriteTime(stamp.sec, stamp.usec)) else s1;
    var s3 := FB.Do(s2, FB.Broadcast);
    t := FB.Do(s3, FB.Unlock);
    assert FB.Reaches(s3, [FB.Unlock], t) by { assert [FB.Unlock][1..] == []; }
    assert FB.Reaches(s2, [FB.Broadcast, FB.Unlock], t) by { assert [FB.Broadcast, FB.Unlock][1..] == [FB.Unlock]; }
    assert FB.Reaches(s1, StampActions(stamp), s2) by { if stamp.At? { assert StampActions(stamp)[1..] == []; } }
    assert FB.Reaches(s, [FB.WriteSize(size)], s1) by { assert [FB.WriteSize(size)][1..] == []; }
    hide *;
    ReachesConcat(s, [FB.WriteSize(size)], s1, StampActions(stamp), s2);
    ReachesConcat(s, [FB.WriteSize(size)] + StampActions(stamp), s2, [FB.Broadcast, FB.Unlock], t);
  }

  /** With the readers' steps anywhere between the producer's actions, and these cut off at any point:
      whatever a reader has copied is one of the frames the actions publish, whole. */
  lemma CopiesArePublishedBy(s: FB.State, run: seq<FB.Action>, t: FB.State,
                             actions: seq<FB.Action>, rest: seq<FB.Action>, i: nat, j: nat)
    requires FB.IsStart(s) && FB.Reaches(s, run, t) && i < |t.readers| && j < |t.readers[i].copies|
    requires Producers(run) + rest == actions
    ensures var copy, all := t.readers[i].copies[j], Applied(ViewOf(s), actions).published;
      copy.index < |all| && copy.frame == all[copy.index]
  {
    ReachesView(s, run, t);
    ReadersOnlyRead(ViewOf(s), run);
    AppliedConcat(ViewOf(s), Producers(run), rest);
    AppliedGrows(Applied(ViewOf(s), Producers(run)), rest);
    CopiesArePublished(s, run, t, i, j);
    hide *;
    var k := t.readers[i].copies[j].index;
    assert t.published[k] == Applied(ViewOf(s), actions).published[k];
  }
}
