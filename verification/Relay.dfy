// Two streamers in a row: what the HTTP input plugin receives from the first one it publishes in its
// own shared buffer, from which its own output plugins serve.
module Relay {
  import opened Bits
  import opened HttpStream
  import opened MjpgProxy
  import Transport
  import opened Producing
  import opened NoTornFrames
  import opened EndToEnd
  import FB = FrameBuffer

  // ----- every received picture fits

  ghost predicate Fits(e: Event) {
    e.Image? ==> |e.data| <= BUFFER_SIZE
  }

  ghost predicate AllFit(es: seq<Event>) {
    forall i :: 0 <= i < |es| ==> Fits(es[i])
  }

  /** Whatever arrives, a picture handed to the callback is never longer than the shared buffer. */
  lemma {:induction false} ReceivedFits(s: State, data: seq<Byte>, sc: bool)
    requires s.Ok()
    ensures AllFit(Run(s, data, sc).events)
    decreases |data|
  {
    if data != [] {
      ReceivedFits(Step(s, data[0], sc).state, data[1..], sc);
      StepFits(s, data[0], sc);
    }
  }

  lemma StepFits(s: State, b: Byte, sc: bool)
    requires s.Ok()
    ensures AllFit(Step(s, b, sc).events)
  {
    hide PushByte, IsCrlfCrlf, IsCrlf, Compare;
  }

  // ----- the callback on_image_received

  /** It sets the size, copies, and leaves the time stamp alone. */
  function ReceivedActions(data: seq<Byte>): seq<FB.Action> {
    [FB.Lock, FB.WriteSize(|data|)] + Writes(0, data) + [FB.Broadcast, FB.Unlock]
  }

  function RelayActions(es: seq<Event>): seq<FB.Action> {
    if es == [] then []
    else
      var n := |es| - 1;
      RelayActions(es[..n]) + if es[n].Image? then ReceivedActions(es[n].data) else []
  }

  lemma AppliedReceived(v: View, data: seq<Byte>)
    requires |data| <= |v.buf|
    ensures Applied(v, ReceivedActions(data)) ==
      View(data + v.buf[|data|..], |data|, v.sec, v.usec, v.published + [Frame(data, v.sec, v.usec)])
  {
    var w := v.(size := |data|);
    var x := w.(buf := data + v.buf[|data|..]);
    AppliedConcat(v, [FB.Lock, FB.WriteSize(|data|)] + Writes(0, data), [FB.Broadcast, FB.Unlock]);
    AppliedConcat(v, [FB.Lock, FB.WriteSize(|data|)], Writes(0, data));
    AppliedWrites(w, 0, data);
    assert v.buf[..0] + data + v.buf[|data|..] == x.buf;
    assert Applied(v, [FB.Lock, FB.WriteSize(|data|)]) == w by {
      assert [FB.Lock, FB.WriteSize(|data|)][1..] == [FB.WriteSize(|data|)];
      assert [FB.WriteSize(|data|)][1..] == [];
      assert Applied(v, [FB.WriteSize(|data|)]) == w;
    }
    hide Writes;
    assert Applied(x, [FB.Broadcast, FB.Unlock]) == Applied1(x, FB.Broadcast) by {
      assert [FB.Broadcast, FB.Unlock][1..] == [FB.Unlock];
      assert [FB.Unlock][1..] == [];
    }
  }

  ghost predicate AllImages(es: seq<Event>) {
    forall i :: 0 <= i < |es| ==> es[i].Image?
  }

  /** The published frame number k behind the earlier ones carries the picture of callback k, and the
      time stamp that was there before: the callback does not set it. */
  lemma {:induction false} RelayPublishes(v: View, es: seq<Event>)
    requires AllImages(es) && AllFit(es) && |v.buf| == BUFFER_SIZE
    ensures var w := Applied(v, RelayActions(es));
      && |w.buf| == BUFFER_SIZE && |w.published| == |v.published| + |es| && v.published <= w.published
      && w.sec == v.sec && w.usec == v.usec
      && forall k :: 0 <= k < |es| ==> w.published[|v.published| + k] == Frame(es[k].data, v.sec, v.usec)
  {
    hide *;
    if es == [] {
      RelayNothing(v);
    } else {
      var n := |es| - 1;
      RelayLast(es);
      RelayPublishes(v, es[..n]);
      var w := Applied(v, RelayActions(es[..n]));
      AppliedConcat(v, RelayActions(es[..n]), ReceivedActions(es[n].data));
      AppliedReceived(w, es[n].data);
    }
  }

  lemma RelayNothing(v: View)
    ensures Applied(v, RelayActions([])) == v
  {
  }

  lemma RelayLast(es: seq<Event>)
    requires es != [] && AllImages(es) && AllFit(es)
    ensures var n := |es| - 1;
      && AllImages(es[..n]) && AllFit(es[..n]) && es[n].Image? && |es[n].data| <= BUFFER_SIZE
      && RelayActions(es) == RelayActions(es[..n]) + ReceivedActions(es[n].data)
  {
    hide ReceivedActions;
    assert Fits(es[|es| - 1]);
  }

  /** What the receive loop hands to the callback. */
  function Callbacks(chunks: seq<seq<Byte>>, sc: bool): seq<Event> {
    Transport.RunChunks(Init, chunks, sc).events
  }

  lemma CallbacksFit(chunks: seq<seq<Byte>>, sc: bool)
    ensures AllFit(Callbacks(chunks, sc))
  {
    Transport.ChunksDoNotMatter(Init, chunks, sc);
    ReceivedFits(Init, Flatten(chunks), sc);
  }

  /** The bytes a client of the second streamer may see as its frame number n. */
  ghost predicate Upstream(bytes: seq<Byte>, n: nat, first: FB.State, i: nat)
    requires i < |first.readers|
  {
    var copies := first.readers[i].copies;
    if n == 0 then bytes == []
    else if n == 1 then bytes == FIELDS
    else
      n - 2 < |copies| && copies[n - 2].index < |first.published|
      && bytes == first.published[copies[n - 2].index].bytes
  }

  /** In every pair of runs of the two streamers, where the first one's writes are not short, however the
      network between them cuts the stream and wherever the second one's readers step in: each frame
      that one of them has copied is the empty frame of the start, the header fields delivered as the
      first picture, or one whole frame published by the first streamer's input. */
  lemma RelayedFramesArePublished(s: FB.State, run: seq<FB.Action>, t: FB.State, i: nat,
                                  chunks: seq<seq<Byte>>, sc: bool,
                                  s2: FB.State, run2: seq<FB.Action>, t2: FB.State, rest: seq<FB.Action>,
                                  i2: nat, j: nat)
    requires FB.IsStart(s) && FB.Reaches(s, run, t) && i < |t.readers| && Streamable(t.published)
    requires t.readers[i].whole && Flatten(chunks) <= t.readers[i].wire
    requires FB.IsStart(s2) && FB.Reaches(s2, run2, t2) && |s2.buf| == BUFFER_SIZE
    requires Producers(run2) + rest == RelayActions(Callbacks(chunks, sc))
    requires i2 < |t2.readers| && j < |t2.readers[i2].copies|
    ensures var copy := t2.readers[i2].copies[j]; Upstream(copy.frame.bytes, copy.index, t, i)
  {
    hide *;
    var es, n := Callbacks(chunks, sc), t2.readers[i2].copies[j].index;
    StartsEmpty(s2);
    CallbacksFit(chunks, sc);
    CallbacksAreImages(s, run, t, i, chunks, sc);
    RelayPublishes(ViewOf(s2), es);
    CopiesArePublishedBy(s2, run2, t2, RelayActions(es), rest, i2, j);
    UpstreamStart(t, i);
    if n > 0 {
      CallbackIsUpstream(s, run, t, i, chunks, sc, n - 1);
    }
  }

  /** And they keep their order: of two frames copied by the same client the later one was never
      published before the earlier one by the first streamer. */
  lemma RelayedInOrder(s: FB.State, run: seq<FB.Action>, t: FB.State, i: nat,
                       chunks: seq<seq<Byte>>, sc: bool,
                       s2: FB.State, run2: seq<FB.Action>, t2: FB.State, rest: seq<FB.Action>,
                       i2: nat, j: nat, k: nat)
    requires FB.IsStart(s) && FB.Reaches(s, run, t) && i < |t.readers| && Streamable(t.published)
    requires t.readers[i].whole && Flatten(chunks) <= t.readers[i].wire
    requires FB.IsStart(s2) && FB.Reaches(s2, run2, t2) && |s2.buf| == BUFFER_SIZE
    requires Producers(run2) + rest == RelayActions(Callbacks(chunks, sc))
    requires i2 < |t2.readers| && j <= k < |t2.readers[i2].copies|
    ensures var first, m, n := t.readers[i].copies, t2.readers[i2].copies[j].index, t2.readers[i2].copies[k].index;
      m <= n && (2 <= m ==> n - 2 < |first| && first[m - 2].index <= first[n - 2].index)
  {
    hide FB.IsStart, FB.Reaches, Streamable, Flatten, RelayActions, Callbacks, Producers;
    RelayedFramesArePublished(s, run, t, i, chunks, sc, s2, run2, t2, rest, i2, k);
    CopiesArePublished(s2, run2, t2, i2, k);
    var n := t2.readers[i2].copies[k].index;
    if n >= 2 {
      CopiesArePublished(s, run, t, i, n - 2);
    }
  }

  lemma StartsEmpty(s: FB.State)
    requires FB.IsStart(s)
    ensures s.published == [Frame([], s.sec, s.usec)] && ViewOf(s).published == s.published && ViewOf(s).buf == s.buf
  {
  }

  lemma UpstreamStart(t: FB.State, i: nat)
    requires i < |t.readers|
    ensures Upstream([], 0, t, i) && Upstream(FIELDS, 1, t, i)
  {
  }

  lemma CallbacksSoFar(s: FB.State, run: seq<FB.Action>, t: FB.State, i: nat, chunks: seq<seq<Byte>>, sc: bool)
    requires FB.IsStart(s) && FB.Reaches(s, run, t) && i < |t.readers| && Streamable(t.published)
    requires t.readers[i].whole && Flatten(chunks) <= t.readers[i].wire
    ensures Callbacks(chunks, sc) <= [Image(FIELDS)] + Transport.Images(Frames(t.readers[i].copies))
  {
    CopiesDeliverable(s, run, t, i);
    SentIsStream(s, run, t, i);
    hide *;
    Transport.ReceivedSoFar(Frames(t.readers[i].copies), chunks, sc);
    assert Callbacks(chunks, sc) == Transport.RunChunks(Init, chunks, sc).events by { CallbacksAre(chunks, sc); }
  }

  lemma CallbacksAre(chunks: seq<seq<Byte>>, sc: bool)
    ensures Callbacks(chunks, sc) == Transport.RunChunks(Init, chunks, sc).events
  {
  }

  lemma CallbacksAreImages(s: FB.State, run: seq<FB.Action>, t: FB.State, i: nat,
                           chunks: seq<seq<Byte>>, sc: bool)
    requires FB.IsStart(s) && FB.Reaches(s, run, t) && i < |t.readers| && Streamable(t.published)
    requires t.readers[i].whole && Flatten(chunks) <= t.readers[i].wire
    ensures AllImages(Callbacks(chunks, sc))
  {
    CallbacksSoFar(s, run, t, i, chunks, sc);
    hide Callbacks, Transport.RunChunks, FB.Reaches, FB.IsStart, Flatten;
    var es, all := Callbacks(chunks, sc), [Image(FIELDS)] + Transport.Images(Frames(t.readers[i].copies));
    forall k | 0 <= k < |es| ensures es[k].Image? { assert es[k] == all[k]; }
  }

  /** Callback number 0 is the first picture of the second streamer behind the empty one. */
  lemma CallbackIsUpstream(s: FB.State, run: seq<FB.Action>, t: FB.State, i: nat,
                           chunks: seq<seq<Byte>>, sc: bool, k: nat)
    requires FB.IsStart(s) && FB.Reaches(s, run, t) && i < |t.readers| && Streamable(t.published)
    requires t.readers[i].whole && Flatten(chunks) <= t.readers[i].wire && k < |Callbacks(chunks, sc)|
    ensures Callbacks(chunks, sc)[k].Image? && Upstream(Callbacks(chunks, sc)[k].data, k + 1, t, i)
  {
    CallbacksSoFar(s, run, t, i, chunks, sc);
    if k > 0 {
      DeliveredFramesArePublished(s, run, t, i, chunks, sc, k - 1);
    }
    hide Transport.RunChunks, FB.Reaches, FB.IsStart, Flatten;
    assert Callbacks(chunks, sc)[0] == Image(FIELDS);
  }
}
