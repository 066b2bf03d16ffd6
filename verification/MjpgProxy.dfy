// The byte-by-byte extractor of the HTTP input plugin (mjpg-proxy.c and misc.c).
module MjpgProxy {
  import opened Bits
  import opened Ascii

  const BUFFER_SIZE: nat := 262144
  const BOUNDARY: seq<Byte> := Text("--boundarydonotcross")
  const CONTENT_LENGTH: seq<Byte> := Text("Content-Length:")

  datatype Part = Header | Content

  /** A call of on_image_received. The length can come out negative, and then the callback copies
      from a negative length. */
  datatype Event = Image(data: seq<Byte>) | BadLength(n: int)

  // ----- misc.c

  /** The bits of 13 (8 + 4 + 1) are set in b. */
  predicate HasCrBits(b: Byte) { b / 8 % 2 == 1 && b / 4 % 2 == 1 && b % 2 == 1 }

  /** The bits of 10 (8 + 2) are set in b. */
  predicate HasLfBits(b: Byte) { b / 8 % 2 == 1 && b / 2 % 2 == 1 }

  /** A 32-bit int as its four bytes, most significant first. */
  type Four = w: seq<Byte> | |w| == 4 witness [0, 0, 0, 0]

  /** is_crlf: a subset test on the two low bytes, not an equality. */
  predicate IsCrlf(w: Four) { HasCrBits(w[2]) && HasLfBits(w[3]) }

  /** is_crlfcrlf: the same for the two high bytes too. */
  predicate IsCrlfCrlf(w: Four) { IsCrlf(w) && HasCrBits(w[0]) && HasLfBits(w[1]) }

  /** push_byte: where plain char is signed, a byte from 128 on sets all bits above it. */
  function PushByte(w: Four, b: Byte, signedChar: bool): Four {
    if signedChar && b >= 128 then [255, 255, 255, b] else w[1..] + [b]
  }

  /** search_pattern_compare: on a mismatch the match starts over behind the character. */
  function Compare(pattern: seq<Byte>, matched: nat, b: Byte): nat
    requires matched < |pattern|
  {
    if pattern[matched] == b then matched + 1 else 0
  }

  // ----- the state machine

  datatype State = State(part: Part, content: seq<Byte>, last: Four, contentLength: nat, matched: nat) {
    predicate Ok() {
      contentLength < |CONTENT_LENGTH| && matched < |BOUNDARY| && |content| < BUFFER_SIZE
    }
  }

  const Init: State := State(Header, [], [0, 0, 0, 0], 0, 0)

  datatype Outcome = Outcome(state: State, events: seq<Event>)

  function Step(s: State, b: Byte, signedChar: bool): (o: Outcome)
    requires s.Ok()
    ensures o.state.Ok()
  {
    match s.part
    case Header =>
      var last := PushByte(s.last, b, signedChar);
      if IsCrlfCrlf(last) then Outcome(s.(last := last, part := Content), [])
      else if IsCrlf(last) then Outcome(s.(last := last, contentLength := 0), [])
      else
        var n := Compare(CONTENT_LENGTH, s.contentLength, b);
        Outcome(s.(last := last, contentLength := if n == |CONTENT_LENGTH| then 0 else n), [])
    case Content =>
      if |s.content| >= BUFFER_SIZE - 1 then Outcome(s, [])
      else
        var content, n := s.content + [b], Compare(BOUNDARY, s.matched, b);
        if n == |BOUNDARY| then Outcome(Init, [Received(content)])
        else Outcome(s.(content := content, matched := n), [])
  }

  /** The callback at the end of a part: the boundary and two more bytes are cut off. */
  function Received(content: seq<Byte>): Event {
    var n := |content| - (|BOUNDARY| + 2);
    if n >= 0 then Image(content[..n]) else BadLength(n)
  }

  function Run(s: State, data: seq<Byte>, signedChar: bool): (o: Outcome)
    requires s.Ok()
    ensures o.state.Ok()
    decreases |data|
  {
    if data == [] then Outcome(s, [])
    else
      var first := Step(s, data[0], signedChar);
      var rest := Run(first.state, data[1..], signedChar);
      Outcome(rest.state, first.events + rest.events)
  }

  /** Feeding two pieces one after the other is feeding them joined. */
  lemma {:induction false} RunConcat(s: State, a: seq<Byte>, b: seq<Byte>, signedChar: bool)
    requires s.Ok()
    ensures var o := Run(s, a, signedChar);
      var o' := Run(o.state, b, signedChar);
      Run(s, a + b, signedChar) == Outcome(o'.state, o.events + o'.events)
    decreases |a|
  {
    hide Step;
    if a == [] {
      assert a + b == b;
    } else {
      var first := Step(s, a[0], signedChar);
      RunConcat(first.state, a[1..], b, signedChar);
      assert (a + b)[1..] == a[1..] + b;
    }
  }

  /** The search for a Content-Length field comes to nothing: no callback and nothing else depends on
      how much of it has matched. */
  lemma {:induction false} LengthFieldUnused(s: State, n: nat, data: seq<Byte>, signedChar: bool)
    requires s.Ok() && n < |CONTENT_LENGTH|
    ensures var o, o' := Run(s, data, signedChar), Run(s.(contentLength := n), data, signedChar);
      o'.events == o.events && o'.state == o.state.(contentLength := o'.state.contentLength)
    decreases |data|
  {
    hide IsCrlf, IsCrlfCrlf, PushByte, Received, Text;
    if data != [] {
      var t, t' := Step(s, data[0], signedChar), Step(s.(contentLength := n), data[0], signedChar);
      assert t'.events == t.events && t'.state == t.state.(contentLength := t'.state.contentLength);
      hide Step;
      LengthFieldUnused(t.state, t'.state.contentLength, data[1..], signedChar);
    }
  }

  // ----- the extractor itself

  class Extractor {
    const buffer: array<Byte>
    const signedChar: bool
    var length: nat
    var part: Part
    var last: Four
    var contentLength: nat
    var boundary: nat
    /** The callbacks so far. */
    var received: seq<Event>

    ghost predicate Valid()
      reads this, buffer
    {
      buffer.Length == BUFFER_SIZE && length <= BUFFER_SIZE && Abstract().Ok()
    }

    ghost function Abstract(): State
      reads this, buffer
      requires length <= buffer.Length
    {
      State(part, buffer[..length], last, contentLength, boundary)
    }

    constructor (signedChar: bool)
      ensures Valid() && Abstract() == Init && received == []
      ensures this.signedChar == signedChar && fresh(buffer)
    {
      buffer := new Byte[BUFFER_SIZE];
      this.signedChar := signedChar;
      length, part, last, contentLength, boundary := 0, Header, [0, 0, 0, 0], 0, 0;
      received := [];
    }

    /** init_extractor_state; the buffer keeps its old bytes. */
    method Reset()
      modifies this
      ensures length == 0 && Abstract() == Init && received == old(received)
    {
      length, part, last, contentLength, boundary := 0, Header, [0, 0, 0, 0], 0, 0;
    }

    method Feed(b: Byte)
      requires Valid()
      modifies this, buffer
      ensures Valid()
      ensures var o := Step(old(Abstract()), b, signedChar);
        Abstract() == o.state && received == old(received) + o.events
    {
      match part
      case Header =>
        last := PushByte(last, b, signedChar);
        if IsCrlfCrlf(last) {
          part := Content;
        } else if IsCrlf(last) {
          contentLength := 0;
        } else {
          contentLength := Compare(CONTENT_LENGTH, contentLength, b);
          if contentLength == |CONTENT_LENGTH| {
            contentLength := 0;
          }
        }
      case Content =>
        if length < BUFFER_SIZE - 1 {
          buffer[length] := b;
          length := length + 1;
          assert buffer[..length] == old(buffer[..length]) + [b];
          boundary := Compare(BOUNDARY, boundary, b);
          if boundary == |BOUNDARY| {
            var n := length - (|BOUNDARY| + 2);
            assert n >= 0 ==> buffer[..n] == buffer[..length][..n];
            received := received + [if n >= 0 then Image(buffer[..n]) else BadLength(n)];
            Reset();
          }
        }
    }

    /** extract_data. stopAfter is the number of bytes after which should_stop is seen set. */
    method ExtractData(chunk: array<Byte>, n: nat, stopAfter: nat)
      requires Valid() && n <= chunk.Length && chunk != buffer
      modifies this, buffer
      ensures Valid()
      ensures var data := chunk[..if stopAfter < n then stopAfter else n];
        var o := Run(old(Abstract()), data, signedChar);
        Abstract() == o.state && received == old(received) + o.events
    {
      var i := 0;
      while i < n && i < stopAfter
        invariant Valid() && i <= n && i <= stopAfter
        invariant var o := Run(old(Abstract()), chunk[..i], signedChar);
          Abstract() == o.state && received == old(received) + o.events
      {
        RunConcat(old(Abstract()), chunk[..i], [chunk[i]], signedChar);
        assert chunk[..i + 1] == chunk[..i] + [chunk[i]];
        Feed(chunk[i]);
        i := i + 1;
      }
    }
  }
}
