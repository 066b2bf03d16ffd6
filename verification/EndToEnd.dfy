// From the upstream input buffer, through an HTTP output plugin and the network, to the callbacks of
// the HTTP input plugin of another streamer.
module EndToEnd {
  import opened Bits
  import opened HttpStream
  import MjpgProxy
  import Transport
  import StreamClient
  import opened FrameBuffer
  import opened NoTornFrames

  /** Every frame the producer publishes is short enough and does not look like a boundary inside. */
  ghost predicate Streamable(published: seq<Frame>) {
    forall i :: 0 <= i < |published| ==> Transport.Deliverable(published[i].bytes)
  }

  lemma CopiesDeliverable(s: State, run: seq<Action>, t: State, i: nat)
    requires IsStart(s) && Reaches(s, run, t) && i < |t.readers| && Streamable(t.published)
    ensures Transport.AllDeliverable(Frames(t.readers[i].copies))
  {
    var copies := t.readers[i].copies;
    forall j | 0 <= j < |copies| ensures Transport.Deliverable(Frames(copies)[j].bytes) {
      CopiesArePublished(s, run, t, i, j);
      assert Frames(copies)[j] == t.published[copies[j].index];
    }
  }

  /** In every run without a short write, with any number of readers and however the network cuts the
      stream: behind the callback for the response header, callback number k + 1 carries exactly the
      bytes of one published frame, and the numbers of these frames never go back. */
  lemma DeliveredFramesArePublished(s: State, run: seq<Action>, t: State, i: nat,
                                    chunks: seq<seq<Byte>>, signedChar: bool, k: nat)
    requires IsStart(s) && Reaches(s, run, t) && i < |t.readers| && Streamable(t.published)
    requires t.readers[i].whole && Flatten(chunks) <= t.readers[i].wire
    requires k + 1 < |Transport.RunChunks(MjpgProxy.Init, chunks, signedChar).events|
    ensures var events, copies :=
        Transport.RunChunks(MjpgProxy.Init, chunks, signedChar).events, t.readers[i].copies;
      && k < |copies| && copies[k].index < |t.published|
      && events[0] == MjpgProxy.Image(FIELDS)
      && events[k + 1] == MjpgProxy.Image(t.published[copies[k].index].bytes)
      && (k > 0 ==> copies[k - 1].index <= copies[k].index)
  {
    hide Reaches, IsStart, Streamable, Transport.RunChunks, Flatten, Wire, Transport.AllDeliverable;
    var fs := Frames(t.readers[i].copies);
    CopiesDeliverable(s, run, t, i);
    SentIsStream(s, run, t, i);
    Transport.ReceivedSoFar(fs, chunks, signedChar);
    assert ([MjpgProxy.Image(FIELDS)] + Transport.Images(fs))[k + 1] == MjpgProxy.Image(fs[k].bytes);
    CopiesArePublished(s, run, t, i, k);
  }

  /** And a client that goes by the header fields instead gets, between two writes of a frame, exactly
      the frames its reader has copied, with their time stamps and whatever they contain; each of them
      is a published one. */
  lemma ClientGetsCopies(s: State, run: seq<Action>, t: State, i: nat, k: nat)
    requires IsStart(s) && Reaches(s, run, t) && i < |t.readers| && t.readers[i].whole
    requires t.readers[i].phase !in [Header, Content, End, Stopped]
    ensures var got, copies := StreamClient.Received(t.readers[i].wire), t.readers[i].copies;
      && |got| == |copies|
      && (k < |got| ==> copies[k].index < |t.published| && got[k] == t.published[copies[k].index])
  {
    hide StreamClient.Received, Wire, Reaches, IsStart;
    var copies := t.readers[i].copies;
    SentBetween(s, run, t, i);
    StreamClient.ClientGetsAll(Frames(copies));
    if k < |copies| { CopiesArePublished(s, run, t, i, k); }
  }

  lemma HeaderIsPlain(f: Frame, n: nat)
    requires n < |PartHeader(f)|
    ensures PartHeader(f)[n] < 128
  {
    Transport.BeforeFrameIsHeader(f);
    Transport.BeforeFrameIsCalm(f);
    hide PartHeader, Transport.BeforeFrame, Transport.Quiet;
    var h := Transport.BeforeFrame(f);
    assert PartHeader(f)[n] == (Transport.CRLF + PartHeader(f))[n + 2] == (h + [10])[n + 2];
    if n + 2 < |h| { assert h[n + 2] < 128; }
  }

  /** Wherever a part header is cut off by a short write: with the JPEG picture that follows the client
      has no part of the stream any more that its reader means to send. */
  lemma CutHeaderTears(s: State, r: Reader, n: nat, fs: seq<Frame>)
    requires Roomy(r) && r.phase == Header && Mine(r).bytes != [] && Mine(r).bytes[0] == 0xFF
    requires r.whole && Written(r) && Frames(r.copies) <= fs && n < |PartHeader(Mine(r))|
    ensures CanStep(s, r, Short(n)) && CanStep(s, Stepped(s, r, Short(n)), Proceed)
    ensures Stepped(s, r, Short(n)).wire <= Wire(fs)
    ensures !(Stepped(s, Stepped(s, r, Short(n)), Proceed).wire <= Wire(fs) + REFUSAL)
  {
    hide *;
    BeforeHeader(r);
    var k, f := |r.copies| - 1, Mine(r);
    HeaderCut(s, r, n);
    HeaderIsPlain(f, n);
    FramesOfFront(r.copies);
    assert Frames(r.copies)[..k] == fs[..k] && fs[k] == f;
    WireGrows(fs, k);
    CutBehind(r.wire, PartHeader(f), n, f.bytes, Wire(fs), REFUSAL);
  }

  lemma CutBehind(w: seq<Byte>, h: seq<Byte>, n: nat, bytes: seq<Byte>, all: seq<Byte>, more: seq<Byte>)
    requires w + h <= all && n < |h| && h[n] < 128 && bytes != [] && bytes[0] == 0xFF
    ensures w + h[..n] <= all && !(w + h[..n] + bytes <= all + more)
  {
    assert (w + h)[|w| + n] == h[n];
    assert (w + h[..n] + bytes)[|w| + n] == bytes[0];
    assert (w + h)[..|w| + n] == w + h[..n];
  }
}
