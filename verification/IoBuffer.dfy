// Buffered reading from an HTTP client: _read and _readline of the HTTP output plugin, over whatever
// portions the socket delivers.
module IoBuffer {
  import opened Bits

  const IO_BUFFER := 256
  const NEWLINE: Byte := 10

  /** What select and read bring next. */
  datatype Event = Data(bytes: seq<Byte>) | Timeout | Closed | Broken

  /** A read brings at least one byte and at most a full buffer. */
  ghost predicate Portioned(events: seq<Event>) {
    forall i :: 0 <= i < |events| && events[i].Data? ==> 1 <= |events[i].bytes| <= IO_BUFFER
  }

  /** The bytes received but not handed out, and what is still to come. */
  datatype Link = Link(pending: seq<Byte>, events: seq<Event>)

  /** A call's answer: all that was asked for, or what there was before the timeout or the error. */
  datatype Answer = Done(bytes: seq<Byte>) | TimedOut(bytes: seq<Byte>) | Failed(bytes: seq<Byte>)

  datatype Result = Result(answer: Answer, rest: Link)

  function After(front: seq<Byte>, r: Result): Result {
    r.(answer := r.answer.(bytes := front + r.answer.bytes))
  }

  /** _read of n bytes. */
  function Fetch(l: Link, n: nat): (r: Result)
    ensures |r.answer.bytes| <= n
    decreases |l.events|
  {
    if n <= |l.pending| then Result(Done(l.pending[..n]), Link(l.pending[n..], l.events))
    else if l.events == [] then Result(TimedOut(l.pending), Link([], []))
    else
      var later := l.events[1..];
      match l.events[0]
      case Data(bytes) => After(l.pending, Fetch(Link(bytes, later), n - |l.pending|))
      case Timeout => Result(TimedOut(l.pending), Link([], later))
      case _ => Result(Failed(l.pending), Link([], later))
  }

  /** _readline of at most n bytes. */
  function FetchLine(l: Link, n: nat): (r: Result)
    ensures |r.answer.bytes| <= n
    decreases n
  {
    if n == 0 then Result(Done([]), l)
    else
      var r := Fetch(l, 1);
      if !r.answer.Done? || r.answer.bytes == [NEWLINE] then r
      else After(r.answer.bytes, FetchLine(r.rest, n - 1))
  }

  /** The bytes with zeros behind them up to length n. */
  function Padded(bytes: seq<Byte>, n: nat): (p: seq<Byte>)
    requires |bytes| <= n
    ensures |p| == n && (|bytes| == n ==> p == bytes)
  {
    bytes + Blank(n - |bytes|)
  }

  /** What is left to fetch once all pending bytes are handed out. */
  lemma FetchOn(got: seq<Byte>, l: Link, n: nat)
    requires n > |l.pending| && l.events != []
    ensures var e, later := l.events[0], l.events[1..];
      After(got, Fetch(l, n)) ==
        if e.Data? then After(got + l.pending, Fetch(Link(e.bytes, later), n - |l.pending|))
        else Result(if e.Timeout? then TimedOut(got + l.pending) else Failed(got + l.pending), Link([], later))
  {
    var e, later := l.events[0], l.events[1..];
    if e.Data? {
      var r := Fetch(Link(e.bytes, later), n - |l.pending|);
      assert got + (l.pending + r.answer.bytes) == got + l.pending + r.answer.bytes;
    }
  }

  lemma FetchEnds(got: seq<Byte>, l: Link, n: nat)
    requires n <= |l.pending| || l.events == []
    ensures After(got, Fetch(l, n)) ==
      if n <= |l.pending| then Result(Done(got + l.pending[..n]), Link(l.pending[n..], l.events))
      else Result(TimedOut(got + l.pending), Link([], []))
  {
  }

  class Connection {
    const buffer: array<Byte>
    var level: int
    var events: seq<Event>

    ghost predicate Valid()
      reads this
    {
      buffer.Length == IO_BUFFER && 0 <= level <= IO_BUFFER && Portioned(events)
    }

    /** The buffered bytes are aligned to the right end. */
    ghost function Contents(): Link
      reads this, buffer
      requires Valid()
    {
      Link(buffer[IO_BUFFER - level..], events)
    }

    constructor (script: seq<Event>)
      requires Portioned(script)
      ensures Valid() && fresh(buffer) && Contents() == Link([], script)
    {
      buffer := new Byte[IO_BUFFER](_ => 0);
      level := 0;
      events := script;
    }

    /** init_iobuffer. */
    method Init()
      requires Valid()
      modifies this`level, buffer
      ensures Valid() && level == 0 && buffer[..] == Blank(IO_BUFFER)
    {
      for i := 0 to IO_BUFFER
        modifies buffer
        invariant forall k :: 0 <= k < i ==> buffer[k] == 0
      {
        buffer[i] := 0;
      }
      level := 0;
    }

    /** read: the bytes go to the start of the buffer. */
    method Receive(data: seq<Byte>)
      requires Valid() && |data| <= IO_BUFFER
      modifies buffer
      ensures buffer[..|data|] == data
    {
      for i := 0 to |data|
        invariant buffer[..i] == data[..i]
      {
        buffer[i] := data[i];
      }
    }

    /** memmove within the buffer: its first n bytes to its end, from the last byte down. */
    method AlignRight(n: nat)
      requires Valid() && n <= IO_BUFFER
      modifies buffer
      ensures buffer[IO_BUFFER - n..] == old(buffer[..n])
    {
      var i := n;
      while i > 0
        invariant 0 <= i <= n
        invariant forall k :: 0 <= k < i ==> buffer[k] == old(buffer[k])
        invariant forall k :: i <= k < n ==> buffer[IO_BUFFER - n + k] == old(buffer[k])
      {
        i := i - 1;
        buffer[IO_BUFFER - n + i] := buffer[i];
      }
      assert forall k :: 0 <= k < n ==> buffer[IO_BUFFER - n..][k] == old(buffer[..n])[k];
    }

    /** memcpy of the first i pending bytes behind what the caller's buffer holds already. */
    method HandOut(out: array<Byte>, copied: nat, i: nat, ghost got: seq<Byte>)
      requires Valid() && out != buffer && i <= level && copied == |got| && copied + i <= out.Length
      requires out[..] == Padded(got, out.Length)
      modifies this`level, out
      ensures Valid() && Contents() == Link(old(Contents()).pending[i..], events)
      ensures out[..] == Padded(got + old(Contents()).pending[..i], out.Length)
    {
      var from := IO_BUFFER - level;
      for k := 0 to i
        modifies out
        invariant out[..] == Padded(got + buffer[from..from + k], out.Length)
      {
        out[copied + k] := buffer[from + k];
      }
      level := level - i;
    }

    /** The bytes of one read become the pending ones. */
    method Refill(data: seq<Byte>)
      requires Valid() && 1 <= |data| <= IO_BUFFER
      modifies this`level, buffer
      ensures Valid() && Contents() == Link(data, events)
    {
      Init();
      Receive(data);
      level := |data|;
      AlignRight(|data|);
    }

    /** _read. The number of bytes, or -1; what was read stands at the start of out, zeros behind it. */
    method Read(out: array<Byte>) returns (rc: int)
      requires Valid() && out != buffer
      modifies this`level, this`events, buffer, out
      ensures var r := Fetch(old(Contents()), out.Length);
        && out[..] == Padded(r.answer.bytes, out.Length)
        && rc == (if r.answer.Failed? then -1 else |r.answer.bytes|)
        && events == r.rest.events
        && (!r.answer.Failed? ==> Valid() && Contents() == r.rest)
    {
      hide Fetch, Padded;
      Clear(out);
      var copied := 0;
      ghost var got: seq<Byte> := [];
      while copied < out.Length
        invariant Valid() && 0 <= copied == |got| <= out.Length && (copied == out.Length ==> copied == 0)
        invariant out[..] == Padded(got, out.Length)
        invariant Fetch(old(Contents()), out.Length) == After(got, Fetch(Contents(), out.Length - copied))
        decreases |events|
      {
        ghost var l, n := Contents(), out.Length - copied;
        var i := if level < out.Length - copied then level else out.Length - copied;
        HandOut(out, copied, i, got);
        copied := copied + i;
        if copied >= out.Length {
          FetchEnds(got, l, n);
          return copied;
        }
        assert l.pending[..i] == l.pending;
        if events == [] {
          FetchEnds(got, l, n);
          return copied;
        }
        FetchOn(got, l, n);
        got := got + l.pending;
        var event := events[0];
        events := events[1..];
        if event.Timeout? {
          return copied;
        }
        if event.Data? {
          Refill(event.bytes);
        } else {
          Init();
          level := if event.Closed? then 0 else -1;
          return -1;
        }
      }
      FetchEnds(got, Contents(), 0);
      return 0;
    }

    method Clear(out: array<Byte>)
      modifies out
      ensures out[..] == Padded([], out.Length)
    {
      for i := 0 to out.Length
        invariant out[..i] == Blank(i)
      {
        out[i] := 0;
      }
    }

    /** _readline. The length of the line, or -1 after a timeout or an error. */
    method ReadLine(out: array<Byte>) returns (rc: int)
      requires Valid() && out != buffer
      modifies this`level, this`events, buffer, out
      ensures var r := FetchLine(old(Contents()), out.Length);
        && out[..] == Padded(r.answer.bytes, out.Length)
        && rc == (if r.answer.Done? then |r.answer.bytes| else -1)
        && events == r.rest.events
        && (!r.answer.Failed? ==> Valid() && Contents() == r.rest)
    {
      hide Fetch, FetchLine, Padded;
      var c := new Byte[1](_ => 0);
      Clear(out);
      var i := 0;
      ghost var got: seq<Byte> := [];
      while i < out.Length && c[0] != NEWLINE
        invariant Valid() && 0 <= i == |got| <= out.Length && out[..] == Padded(got, out.Length)
        invariant FetchLine(old(Contents()), out.Length) ==
          if i > 0 && c[0] == NEWLINE then Result(Done(got), Contents())
          else After(got, FetchLine(Contents(), out.Length - i))
        invariant i == 0 ==> c[0] == 0
      {
        FetchLineOn(got, Contents(), out.Length - i);
        var rc := Read(c);
        if rc <= 0 {
          return -1;
        }
        assert c[..] == [c[0]];
        out[i] := c[0];
        PaddedGrows(got, c[0], out.Length);
        got := got + [c[0]];
        i := i + 1;
      }
      FetchLineOn(got, Contents(), 0);
      return i;
    }
  }

  lemma PaddedGrows(got: seq<Byte>, b: Byte, n: nat)
    requires |got| < n
    ensures Padded(got, n)[|got| := b] == Padded(got + [b], n)
  {
  }

  /** One pass of the loop of _readline. */
  lemma FetchLineOn(got: seq<Byte>, l: Link, n: nat)
    ensures n == 0 ==> After(got, FetchLine(l, n)) == Result(Done(got), l)
    ensures n > 0 ==>
      var r := Fetch(l, 1);
      After(got, FetchLine(l, n)) ==
        if !r.answer.Done? then Result(r.answer.(bytes := got), r.rest)
        else if r.answer.bytes == [NEWLINE] then Result(Done(got + r.answer.bytes), r.rest)
        else After(got + r.answer.bytes, FetchLine(r.rest, n - 1))
    ensures Fetch(l, 1).answer.Done? <==> |Fetch(l, 1).answer.bytes| == 1
  {
    FetchesWhole(l, 1);
    assert got + [] == got;
    if n > 0 {
      var r := Fetch(l, 1);
      if r.answer.Done? && r.answer.bytes != [NEWLINE] {
        var bytes := FetchLine(r.rest, n - 1).answer.bytes;
        assert got + (r.answer.bytes + bytes) == got + r.answer.bytes + bytes;
      }
    }
  }

  /** All that was asked for, or less. */
  lemma {:induction false} FetchesWhole(l: Link, n: nat)
    ensures Fetch(l, n).answer.Done? <==> |Fetch(l, n).answer.bytes| == n
    decreases |l.events|
  {
    if n > |l.pending| && l.events != [] && l.events[0].Data? {
      FetchesWhole(Link(l.events[0].bytes, l.events[1..]), n - |l.pending|);
    }
  }

  // ----- the stream, independent of its portions

  /** All bytes the socket brings until it is closed. */
  function Stream(events: seq<Event>): seq<Byte> {
    if events == [] then []
    else
      match events[0]
      case Data(bytes) => bytes + Stream(events[1..])
      case Timeout => Stream(events[1..])
      case _ => []
  }

  /** The bytes it brings without a timeout in between. */
  function Ready(events: seq<Event>): seq<Byte> {
    if events == [] || !events[0].Data? then [] else events[0].bytes + Ready(events[1..])
  }

  /** The bytes not handed out yet. */
  function Ahead(l: Link): seq<Byte> {
    l.pending + Stream(l.events)
  }

  function ReadyAhead(l: Link): seq<Byte> {
    l.pending + Ready(l.events)
  }

  /** No byte is lost or repeated: what a read returns, before a timeout too, and what is ahead
      afterwards make up what was ahead before. */
  lemma {:induction false} FetchConserves(l: Link, n: nat)
    ensures var r := Fetch(l, n);
      Ahead(l) == r.answer.bytes + (if r.answer.Failed? then [] else Ahead(r.rest))
    decreases |l.events|
  {
    if n <= |l.pending| {
      assert l.pending[..n] + (l.pending[n..] + Stream(l.events)) == Ahead(l);
    } else if l.events != [] && l.events[0].Data? {
      var next := Link(l.events[0].bytes, l.events[1..]);
      FetchConserves(next, n - |l.pending|);
      var r := Fetch(next, n - |l.pending|);
      var rest := if r.answer.Failed? then [] else Ahead(r.rest);
      assert Ahead(l) == l.pending + (r.answer.bytes + rest);
      assert l.pending + (r.answer.bytes + rest) == (l.pending + r.answer.bytes) + rest;
    }
  }

  /** A read gets all it asked for iff that many bytes come without a timeout; what it gets then
      depends on the stream alone. */
  lemma {:induction false} FetchDoneIff(l: Link, n: nat)
    ensures Fetch(l, n).answer.Done? <==> n <= |ReadyAhead(l)|
    decreases |l.events|
  {
    if n > |l.pending| && l.events != [] && l.events[0].Data? {
      FetchDoneIff(Link(l.events[0].bytes, l.events[1..]), n - |l.pending|);
    }
  }

  /** Behind the portions that come without a pause. */
  function Paused(events: seq<Event>): seq<Event> {
    if events == [] || !events[0].Data? then events else Paused(events[1..])
  }

  /** A read that gets less returns all there is before the pause, and fails exactly if that is an error
      or the end of the connection. */
  lemma {:induction false} FetchShort(l: Link, n: nat)
    requires !Fetch(l, n).answer.Done?
    ensures var r, p := Fetch(l, n), Paused(l.events);
      && r.answer.bytes == ReadyAhead(l)
      && r.rest == Link([], if p == [] then [] else p[1..])
      && (r.answer.TimedOut? <==> p == [] || p[0].Timeout?)
    decreases |l.events|
  {
    if l.events != [] && l.events[0].Data? {
      FetchShort(Link(l.events[0].bytes, l.events[1..]), n - |l.pending|);
    } else {
      assert l.pending + [] == l.pending;
    }
  }

  /** A successful read uses up ready bytes only. */
  lemma {:induction false} FetchKeepsReady(l: Link, n: nat)
    requires Fetch(l, n).answer.Done?
    ensures ReadyAhead(l) == Fetch(l, n).answer.bytes + ReadyAhead(Fetch(l, n).rest)
    decreases |l.events|
  {
    if n <= |l.pending| {
      assert l.pending[..n] + (l.pending[n..] + Ready(l.events)) == ReadyAhead(l);
    } else {
      var next := Link(l.events[0].bytes, l.events[1..]);
      FetchKeepsReady(next, n - |l.pending|);
      var r := Fetch(next, n - |l.pending|);
      assert ReadyAhead(l) == l.pending + (r.answer.bytes + ReadyAhead(r.rest));
      assert l.pending + (r.answer.bytes + ReadyAhead(r.rest)) == (l.pending + r.answer.bytes) + ReadyAhead(r.rest);
    }
  }

  /** The first line of s, its newline included, cut off at n bytes. */
  function Line(s: seq<Byte>, n: nat): (line: seq<Byte>)
    ensures line <= s && |line| <= n
    decreases n
  {
    if n == 0 || s == [] then []
    else if s[0] == NEWLINE then s[..1]
    else [s[0]] + Line(s[1..], n - 1)
  }

  /** The line is there: it ends with a newline or has reached the limit. */
  predicate Complete(s: seq<Byte>, n: nat) {
    |Line(s, n)| == n || NEWLINE in Line(s, n)
  }

  /** A line has its newline, if any, at the end only. */
  lemma {:induction false} LineEnds(s: seq<Byte>, n: nat, k: nat)
    requires k < |Line(s, n)| && Line(s, n)[k] == NEWLINE
    ensures k == |Line(s, n)| - 1
    decreases n
  {
    if s[0] != NEWLINE { LineEnds(s[1..], n - 1, k - 1); }
  }

  lemma FirstByte(s: seq<Byte>, b: Byte, rest: seq<Byte>, n: nat)
    requires s == [b] + rest && n > 0
    ensures Line(s, n) == if b == NEWLINE then [b] else [b] + Line(rest, n - 1)
    ensures Complete(s, n) <==> b == NEWLINE || Complete(rest, n - 1)
  {
    assert s[1..] == rest;
  }

  /** _readline succeeds iff the line comes without a timeout, and returns exactly the first line of
      what is ahead; the rest stays ahead. */
  lemma {:induction false} FetchLineIff(l: Link, n: nat)
    ensures var r := FetchLine(l, n);
      && (r.answer.Done? <==> Complete(ReadyAhead(l), n))
      && (r.answer.Done? ==> r.answer.bytes == Line(Ahead(l), n))
      && (!r.answer.Failed? ==> Ahead(l) == r.answer.bytes + Ahead(r.rest))
    decreases n
  {
    if n == 0 {
      assert [] + Ahead(l) == Ahead(l);
    } else {
      FetchDoneIff(l, 1);
      FetchConserves(l, 1);
      if n > |ReadyAhead(l)| == 0 { NothingReady(ReadyAhead(l), n); }
      hide Fetch, Stream, Ready, Line, Complete, Ahead, ReadyAhead;
      var r := Fetch(l, 1);
      if r.answer.Done? {
        var b := FetchByte(l);
        FetchLineIff(r.rest, n - 1);
        FirstByte(Ahead(l), b, Ahead(r.rest), n);
        FirstByte(ReadyAhead(l), b, ReadyAhead(r.rest), n);
        var line := FetchLine(r.rest, n - 1);
        assert [b] + (line.answer.bytes + Ahead(line.rest)) == [b] + line.answer.bytes + Ahead(line.rest);
      }
    }
  }

  /** A line that does not come whole returns all there is before the pause. */
  lemma {:induction false} LineShort(l: Link, n: nat)
    requires !FetchLine(l, n).answer.Done?
    ensures FetchLine(l, n).answer.bytes == ReadyAhead(l)
    decreases n
  {
    hide Fetch, ReadyAhead;
    if Fetch(l, 1).answer.Done? {
      var b := FetchByte(l);
      LineShort(Fetch(l, 1).rest, n - 1);
    } else {
      FetchShort(l, 1);
    }
  }

  lemma NothingReady(s: seq<Byte>, n: nat)
    requires s == [] && n > 0
    ensures !Complete(s, n)
  {
  }

  lemma FetchByte(l: Link) returns (b: Byte)
    requires Fetch(l, 1).answer.Done?
    ensures var r := Fetch(l, 1);
      r.answer.bytes == [b] && Ahead(l) == [b] + Ahead(r.rest) && ReadyAhead(l) == [b] + ReadyAhead(r.rest)
  {
    FetchConserves(l, 1);
    FetchesWhole(l, 1);
    FetchKeepsReady(l, 1);
    hide *;
    b := Fetch(l, 1).answer.bytes[0];
    assert Fetch(l, 1).answer.bytes == [b];
  }

  // ----- a whole session

  datatype Request = Exactly(n: nat) | LineOf(n: nat)

  function Reply(l: Link, q: Request): Result {
    match q
    case Exactly(n) => Fetch(l, n)
    case LineOf(n) => FetchLine(l, n)
  }

  datatype Session = Session(replies: seq<seq<Byte>>, complete: bool, rest: Link)

  /** The requests one after another, up to the first that fails. */
  function Serve(l: Link, requests: seq<Request>): Session
    decreases |requests|
  {
    if requests == [] then Session([], true, l)
    else
      var r := Reply(l, requests[0]);
      if !r.answer.Done? then Session([], false, r.rest)
      else
        var s := Serve(r.rest, requests[1..]);
        s.(replies := [r.answer.bytes] + s.replies)
  }

  /** The same requests to a plain byte string. */
  function Cut(s: seq<Byte>, q: Request): (part: seq<Byte>)
    ensures part <= s
  {
    match q
    case Exactly(n) => if n <= |s| then s[..n] else s
    case LineOf(n) => Line(s, n)
  }

  function CutAll(s: seq<Byte>, requests: seq<Request>): seq<seq<Byte>>
    decreases |requests|
  {
    if requests == [] then [] else
      var part := Cut(s, requests[0]);
      [part] + CutAll(s[|part|..], requests[1..])
  }

  lemma ReplyIsCut(l: Link, q: Request)
    requires Reply(l, q).answer.Done?
    ensures var r := Reply(l, q);
      r.answer.bytes == Cut(Ahead(l), q) && Ahead(r.rest) == Ahead(l)[|r.answer.bytes|..]
      && Ahead(l) == r.answer.bytes + Ahead(r.rest)
  {
    match q
    case Exactly(n) =>
      FetchConserves(l, n);
      FetchesWhole(l, n);
    case LineOf(n) =>
      FetchLineIff(l, n);
  }

  /** However the socket splits its bytes and wherever it pauses: a session that completes gets exactly
      what the same requests cut from the plain stream, so the replies joined up are a prefix of it. */
  lemma {:induction false} SessionIsPortionFree(l: Link, requests: seq<Request>)
    requires Serve(l, requests).complete
    ensures var s := Serve(l, requests);
      s.replies == CutAll(Ahead(l), requests) && Flatten(s.replies) + Ahead(s.rest) == Ahead(l)
    decreases |requests|
  {
    if requests == [] {
      assert [] + Ahead(l) == Ahead(l);
    } else {
      ReplyIsCut(l, requests[0]);
      var r := Reply(l, requests[0]);
      var s := Serve(r.rest, requests[1..]);
      SessionIsPortionFree(r.rest, requests[1..]);
      assert Serve(l, requests).replies == [r.answer.bytes] + s.replies;
      CutAllFirst(Ahead(l), requests);
      hide *;
      FlattenFirst(r.answer.bytes, s.replies, Ahead(s.rest));
    }
  }

  lemma CutAllFirst(s: seq<Byte>, requests: seq<Request>)
    requires requests != []
    ensures var part := Cut(s, requests[0]);
      CutAll(s, requests) == [part] + CutAll(s[|part|..], requests[1..])
  {
  }

  lemma FlattenFirst(first: seq<Byte>, parts: seq<seq<Byte>>, rest: seq<Byte>)
    ensures Flatten([first] + parts) + rest == first + (Flatten(parts) + rest)
  {
    assert ([first] + parts)[1..] == parts;
  }

  /** Two sockets that bring the same bytes give the same replies. */
  lemma SameStreamSameReplies(l: Link, m: Link, requests: seq<Request>)
    requires Ahead(l) == Ahead(m) && Serve(l, requests).complete && Serve(m, requests).complete
    ensures Serve(l, requests).replies == Serve(m, requests).replies
    ensures Ahead(Serve(l, requests).rest) == Ahead(Serve(m, requests).rest)
  {
    SessionIsPortionFree(l, requests);
    SessionIsPortionFree(m, requests);
    var a, b, f := Ahead(Serve(l, requests).rest), Ahead(Serve(m, requests).rest), Flatten(CutAll(Ahead(l), requests));
    assert a == (f + a)[|f|..] && b == (f + b)[|f|..];
  }
}
