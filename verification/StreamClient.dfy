// A client that reads the stream of the HTTP output plugin the way browsers do: the header fields tell
// the length and the time of each frame, and the content is not searched for anything.
module StreamClient {
  import opened Bits
  import opened Ascii
  import opened HttpStream

  const DOT: Byte := 46

  // ----- reading lines

  /** What comes before the first b. */
  function Upto(s: seq<Byte>, b: Byte): seq<Byte> {
    if s == [] || s[0] == b then [] else [s[0]] + Upto(s[1..], b)
  }

  /** What comes behind it. */
  function Behind(s: seq<Byte>, b: Byte): seq<Byte> {
    if s == [] then [] else if s[0] == b then s[1..] else Behind(s[1..], b)
  }

  /** The rest of the first line that starts with this name. */
  function Field(s: seq<Byte>, name: seq<Byte>, atStart: bool): seq<Byte> {
    if s == [] then []
    else if atStart && name <= s then Upto(s[|name|..], CR)
    else Field(s[1..], name, s[0] == LF)
  }

  /** What comes behind the first empty line. */
  function Body(s: seq<Byte>, atStart: bool): (rest: seq<Byte>)
    ensures |rest| <= |s|
  {
    if s == [] then []
    else if atStart && [CR, LF] <= s then s[2..]
    else Body(s[1..], s[0] == LF)
  }

  // ----- the client

  datatype Part = Broken | Part(frame: Frame, rest: seq<Byte>)

  /** One part: its fields, as many bytes as they say, and a boundary. */
  function ReadPart(s: seq<Byte>): (p: Part)
    ensures p.Part? ==> |p.rest| < |s|
  {
    var n, time := Parse(Field(s, Text("Content-Length: "), true)), Field(s, Text("X-Timestamp: "), true);
    var body := Body(s, true);
    if 0 <= n <= |body| && PartEnd() <= body[n..] then
      Part(Frame(body[..n], Parse(Upto(time, DOT)), Parse(Behind(time, DOT))), body[n + |PartEnd()|..])
    else Broken
  }

  function ReadParts(s: seq<Byte>): seq<Frame>
    decreases |s|
  {
    match ReadPart(s)
    case Broken => []
    case Part(f, rest) => [f] + ReadParts(rest)
  }

  /** Everything the client gets: behind the response header and the line of the first boundary. */
  function Received(s: seq<Byte>): seq<Frame> {
    ReadParts(Behind(Body(s, true), LF))
  }

  // ----- lines as they are written

  lemma {:induction false} BeforeAndBehind(a: seq<Byte>, b: Byte, rest: seq<Byte>)
    requires b !in a
    ensures Upto(a + [b] + rest, b) == a && Behind(a + [b] + rest, b) == rest
  {
    var s := a + [b] + rest;
    if a == [] {
      assert s[1..] == rest;
    } else {
      assert s[1..] == a[1..] + [b] + rest;
      BeforeAndBehind(a[1..], b, rest);
    }
  }

  /** Ends a line. */
  predicate Line(h: seq<Byte>) {
    h != [] && h[|h| - 1] == LF && LF !in h[..|h| - 1]
  }

  lemma {:induction false} FieldBehindLine(h: seq<Byte>, rest: seq<Byte>, name: seq<Byte>, atStart: bool)
    requires Line(h) && (atStart ==> !(name <= h + rest))
    ensures Field(h + rest, name, atStart) == Field(rest, name, true)
  {
    var s := h + rest;
    if |h| == 1 {
      assert s[1..] == rest;
    } else {
      assert s[1..] == h[1..] + rest;
      assert h[1..][..|h| - 2] == h[..|h| - 1][1..];
      assert h[0] == h[..|h| - 1][0];
      FieldBehindLine(h[1..], rest, name, false);
    }
  }

  lemma FieldHere(name: seq<Byte>, value: seq<Byte>, rest: seq<Byte>)
    requires CR !in value && name != []
    ensures Field(name + value + [CR] + rest, name, true) == value
  {
    var s := name + value + [CR] + rest;
    assert s[|name|..] == value + [CR] + rest;
    BeforeAndBehind(value, CR, rest);
  }

  /** Whole lines, none of them empty. */
  ghost predicate NoBlank(h: seq<Byte>) {
    && h != [] && h[0] != CR
    && forall i :: 0 <= i < |h| - 1 ==> !BlankAt(h, i)
  }

  predicate BlankAt(h: seq<Byte>, i: nat)
    requires i + 1 < |h|
  {
    h[i] == LF && h[i + 1] == CR
  }

  lemma NoBlankJoin(a: seq<Byte>, b: seq<Byte>)
    requires NoBlank(a) && (NoBlank(b) || (b == [CR, LF] && a[|a| - 1] != LF))
    ensures NoBlank(a + b)
  {
    var h := a + b;
    forall i | 0 <= i < |h| - 1 ensures !BlankAt(h, i) {
      if i < |a| - 1 {
        assert !BlankAt(a, i);
      } else if i >= |a| && NoBlank(b) {
        assert !BlankAt(b, i - |a|);
      }
    }
  }

  lemma {:induction false} BodyBehindLines(h: seq<Byte>, rest: seq<Byte>, atStart: bool)
    requires h != [] && h[|h| - 1] == LF && (atStart ==> h[0] != CR)
    requires forall i :: 0 <= i < |h| - 1 ==> !BlankAt(h, i)
    ensures Body(h + [CR, LF] + rest, atStart) == rest
  {
    var s := h + [CR, LF] + rest;
    assert s[0] == h[0];
    if |h| == 1 {
      assert s[1..] == [CR, LF] + rest;
      assert ([CR, LF] + rest)[2..] == rest;
    } else {
      assert s[1..] == h[1..] + [CR, LF] + rest;
      assert !BlankAt(h, 0);
      forall i | 0 <= i < |h[1..]| - 1 ensures !BlankAt(h[1..], i) { assert !BlankAt(h, i + 1); }
      BodyBehindLines(h[1..], rest, h[0] == LF);
    }
  }

  // ----- the lines of a part header

  /** A piece of one line. */
  ghost predicate Piece(t: seq<Byte>) {
    t != [] && CR !in t && LF !in t
  }

  lemma PieceJoin(a: seq<Byte>, b: seq<Byte>)
    requires Piece(a) && Piece(b)
    ensures Piece(a + b)
  {
  }

  lemma PieceLine(t: seq<Byte>)
    requires Piece(t)
    ensures Line(t + [CR, LF]) && NoBlank(t + [CR, LF])
  {
    var h := t + [CR, LF];
    assert h[..|h| - 1] == t + [CR];
  }

  lemma NumeralPiece(n: int)
    ensures Piece(Decimal(n)) && DOT !in Decimal(n)
    ensures Piece(Decimal06(n)) && DOT !in Decimal06(n)
  {
    DecimalIsNumeral(n);
    hide Decimal, Decimal06;
    NumeralIsPiece(Decimal(n));
    NumeralIsPiece(Decimal06(n));
  }

  lemma NumeralIsPiece(s: seq<Byte>)
    requires IsNumeral(s)
    ensures Piece(s) && DOT !in s
  {
    forall i | 0 <= i < |s| ensures s[i] != CR && s[i] != LF && s[i] != DOT {
      if i > 0 { assert IsDigit(s[i]); }
    }
  }

  lemma TypeText()
    ensures Text("Content-Type: image/jpeg\r\n") == Text("Content-Type: image/jpeg") + [CR, LF]
    ensures Piece(Text("Content-Type: image/jpeg"))
  {
  }

  lemma LengthText()
    ensures Piece(Text("Content-Length: ")) && Text("\r\n") == [CR, LF]
  {
  }

  lemma TimeText()
    ensures Piece(Text("X-Timestamp: ")) && Text(".") == [DOT]
  {
  }

  function TypeLine(): seq<Byte> { Text("Content-Type: image/jpeg") + [CR, LF] }

  function LengthLine(f: Frame): seq<Byte> { Text("Content-Length: ") + Decimal(|f.bytes|) + [CR, LF] }

  function TimeLine(f: Frame): seq<Byte> { Text("X-Timestamp: ") + Time(f) + [CR, LF] }

  function Time(f: Frame): seq<Byte> { Decimal(f.sec) + [DOT] + Decimal06(f.usec) }

  lemma HeaderIsLines(f: Frame)
    ensures PartHeader(f) == TypeLine() + LengthLine(f) + TimeLine(f) + [CR, LF]
  {
    TypeText();
    LengthText();
    TimeText();
    hide Text, Decimal, Decimal06;
    assert TypeLine() == Text("Content-Type: image/jpeg\r\n");
  }

  lemma LinesOf(f: Frame)
    ensures Line(TypeLine()) && Line(LengthLine(f)) && Line(TimeLine(f))
    ensures NoBlank(TypeLine()) && NoBlank(LengthLine(f)) && NoBlank(TimeLine(f)) && Piece(Time(f))
  {
    TypeText();
    LengthText();
    TimeText();
    NumeralPiece(|f.bytes|);
    NumeralPiece(f.sec);
    NumeralPiece(f.usec);
    hide Text, Decimal, Decimal06, Line, NoBlank;
    PieceLine(Text("Content-Type: image/jpeg"));
    PieceJoin(Text("Content-Length: "), Decimal(|f.bytes|));
    PieceLine(Text("Content-Length: ") + Decimal(|f.bytes|));
    PieceJoin(Decimal(f.sec), [DOT]);
    PieceJoin(Decimal(f.sec) + [DOT], Decimal06(f.usec));
    PieceJoin(Text("X-Timestamp: "), Time(f));
    PieceLine(Text("X-Timestamp: ") + Time(f));
  }

  lemma NamesDiffer(rest: seq<Byte>, f: Frame)
    ensures !(Text("Content-Length: ") <= TypeLine() + rest)
    ensures !(Text("X-Timestamp: ") <= TypeLine() + rest)
    ensures !(Text("X-Timestamp: ") <= LengthLine(f) + rest)
  {
    FirstLetters();
    hide Text, Decimal;
    assert (TypeLine() + rest)[8] == Text("Content-Type: image/jpeg")[8];
    assert (TypeLine() + rest)[0] == Text("Content-Type: image/jpeg")[0];
    assert (LengthLine(f) + rest)[0] == Text("Content-Length: ")[0];
  }

  lemma FirstLetters()
    ensures Text("Content-Type: image/jpeg")[0] == Text("Content-Length: ")[0] == 67
    ensures Text("X-Timestamp: ")[0] == 88
    ensures Text("Content-Type: image/jpeg")[8] == 84 && Text("Content-Length: ")[8] == 76
  {
  }

  /** The fields of a part header, and where the header ends. */
  lemma HeaderRead(f: Frame, rest: seq<Byte>)
    ensures Field(PartHeader(f) + rest, Text("Content-Length: "), true) == Decimal(|f.bytes|)
    ensures Field(PartHeader(f) + rest, Text("X-Timestamp: "), true) == Time(f)
    ensures Body(PartHeader(f) + rest, true) == rest
  {
    hide *;
    HeaderIsLines(f);
    LinesOf(f);
    BodyRead(f, rest);
    var h := PartHeader(f) + rest;
    var afterTime := [CR, LF] + rest;
    var afterLength := TimeLine(f) + afterTime;
    var afterType := LengthLine(f) + afterLength;
    assert h == TypeLine() + afterType;
    NamesDiffer(afterType, f);
    NamesDiffer(afterLength, f);
    FieldBehindLine(TypeLine(), afterType, Text("Content-Length: "), true);
    FieldBehindLine(TypeLine(), afterType, Text("X-Timestamp: "), true);
    FieldBehindLine(LengthLine(f), afterLength, Text("X-Timestamp: "), true);
    LengthFound(f, afterLength);
    TimeFound(f, afterTime);
  }

  lemma LengthFound(f: Frame, rest: seq<Byte>)
    ensures Field(LengthLine(f) + rest, Text("Content-Length: "), true) == Decimal(|f.bytes|)
  {
    NumeralPiece(|f.bytes|);
    LengthText();
    hide Text, Decimal, Field;
    FieldHere(Text("Content-Length: "), Decimal(|f.bytes|), [LF] + rest);
    assert LengthLine(f) + rest == Text("Content-Length: ") + Decimal(|f.bytes|) + [CR] + ([LF] + rest);
  }

  lemma TimeFound(f: Frame, rest: seq<Byte>)
    ensures Field(TimeLine(f) + rest, Text("X-Timestamp: "), true) == Time(f)
  {
    LinesOf(f);
    TimeText();
    hide Text, Time, Field, Line, NoBlank;
    FieldHere(Text("X-Timestamp: "), Time(f), [LF] + rest);
    assert TimeLine(f) + rest == Text("X-Timestamp: ") + Time(f) + [CR] + ([LF] + rest);
  }

  lemma BodyRead(f: Frame, rest: seq<Byte>)
    ensures Body(PartHeader(f) + rest, true) == rest
  {
    hide *;
    HeaderIsLines(f);
    LinesOf(f);
    NoBlankJoin(TypeLine(), LengthLine(f));
    NoBlankJoin(TypeLine() + LengthLine(f), TimeLine(f));
    LastByte(TypeLine() + LengthLine(f), TimeLine(f));
    LinesBody(TypeLine() + LengthLine(f) + TimeLine(f), rest);
  }

  lemma LastByte(h: seq<Byte>, line: seq<Byte>)
    requires Line(line)
    ensures (h + line)[|h + line| - 1] == LF
  {
  }

  /** An empty line behind lines. */
  lemma LinesBody(h: seq<Byte>, rest: seq<Byte>)
    requires NoBlank(h) && h[|h| - 1] == LF
    ensures Body(h + [CR, LF] + rest, true) == rest
  {
    BodyBehindLines(h, rest, true);
  }

  // ----- the whole stream

  /** A part of which everything is known that counts. */
  lemma PartIs(s: seq<Byte>, f: Frame, time: seq<Byte>, rest: seq<Byte>)
    requires Parse(Field(s, Text("Content-Length: "), true)) == |f.bytes|
    requires Field(s, Text("X-Timestamp: "), true) == time && Body(s, true) == f.bytes + (PartEnd() + rest)
    requires Parse(Upto(time, DOT)) == f.sec && Parse(Behind(time, DOT)) == f.usec
    ensures ReadPart(s) == Part(f, rest)
  {
    hide Field, Parse, Text, PartEnd, Upto, Behind, Body;
    var body := f.bytes + (PartEnd() + rest);
    Apart(f.bytes, PartEnd(), rest);
  }

  lemma Apart(a: seq<Byte>, b: seq<Byte>, c: seq<Byte>)
    ensures var s := a + (b + c);
      s[..|a|] == a && b <= s[|a|..] && s[|a| + |b|..] == c
  {
  }

  lemma TimeRead(f: Frame)
    ensures Parse(Upto(Time(f), DOT)) == f.sec && Parse(Behind(Time(f), DOT)) == f.usec
  {
    DecimalReadBack(f.sec);
    Decimal06ReadBack(f.usec);
    NumeralPiece(f.sec);
    hide Decimal, Decimal06, Parse, Upto, Behind;
    BeforeAndBehind(Decimal(f.sec), DOT, Decimal06(f.usec));
  }

  /** One part is read back: frame, time and all. */
  lemma PartRead(f: Frame, rest: seq<Byte>)
    ensures ReadPart(PartBytes(f) + rest) == Part(f, rest)
  {
    var behind := f.bytes + (PartEnd() + rest);
    assert PartBytes(f) + rest == PartHeader(f) + behind by { hide PartHeader, PartEnd; }
    hide *;
    HeaderRead(f, behind);
    DecimalReadBack(|f.bytes|);
    TimeRead(f);
    PartIs(PartBytes(f) + rest, f, Time(f), rest);
  }

  lemma PartsLast(fs: seq<Frame>)
    requires fs != []
    ensures Parts(fs) == Parts(fs[..|fs| - 1]) + PartBytes(fs[|fs| - 1])
  {
  }

  lemma NoParts(rest: seq<Byte>)
    ensures Parts([]) + rest == rest
  {
  }

  lemma PartFirst(s: seq<Byte>, f: Frame, rest: seq<Byte>)
    requires ReadPart(s) == Part(f, rest)
    ensures ReadParts(s) == [f] + ReadParts(rest)
  {
  }

  lemma {:induction false} PartsRead(fs: seq<Frame>, rest: seq<Byte>)
    ensures ReadParts(Parts(fs) + rest) == fs + ReadParts(rest)
  {
    hide *;
    if fs == [] {
      NoParts(rest);
      assert fs + ReadParts(rest) == ReadParts(rest);
    } else {
      var n := |fs| - 1;
      var last := PartBytes(fs[n]) + rest;
      PartsLast(fs);
      PartsRead(fs[..n], last);
      PartRead(fs[n], rest);
      PartFirst(last, fs[n], rest);
      assert Parts(fs) + rest == Parts(fs[..n]) + last;
      assert fs[..n] + ([fs[n]] + ReadParts(rest)) == fs + ReadParts(rest);
    }
  }

  // ----- the response header

  lemma OriginText()
    ensures NoBlank(Text("Access-Control-Allow-Origin: *\r\n"))
  {
  }

  lemma StatusText()
    ensures NoBlank(Text("HTTP/1.0 200 OK\r\n"))
  {
  }

  lemma ConnectionText()
    ensures NoBlank(Text("Connection: close\r\n")) && NoBlank(Text("Server: MJPG-Streamer/0.2\r\n"))
  {
  }

  lemma CacheText()
    ensures NoBlank(Text("Cache-Control: no-store, no-cache, "))
  {
  }

  lemma CheckText()
    ensures NoBlank(Text("must-revalidate, pre-check=0, ")) && NoBlank(Text("post-check=0, max-age=0\r\n"))
  {
  }

  lemma PragmaText()
    ensures NoBlank(Text("Pragma: no-cache\r\n")) && NoBlank(Text("Content-Type: "))
  {
  }

  lemma ExpiresText()
    ensures Text("Expires: Mon, 3 Jan 2000 12:34:56 GMT\r\n") ==
      Text("Expires: Mon, 3 Jan 2000 12:34:56 GMT") + [CR, LF]
    ensures Piece(Text("Expires: Mon, 3 Jan 2000 12:34:56 GMT"))
  {
  }

  lemma MixedText()
    ensures NoBlank(Text("multipart/x-mixed-replace;boundary="))
  {
  }

  lemma BoundaryName()
    ensures Piece(HTTP_BOUNDARY) && Piece(Text("--")) && Text("\r\n") == [CR, LF]
    ensures NoBlank(HTTP_BOUNDARY) && HTTP_BOUNDARY[|HTTP_BOUNDARY| - 1] != LF
  {
  }

  lemma StdHeaderLines()
    ensures NoBlank(STD_HEADER)
  {
    ConnectionText();
    CacheText();
    CheckText();
    PragmaText();
    ExpiresText();
    hide Text, NoBlank, Piece;
    var c := Text("Connection: close\r\n");
    NoBlankJoin(c, Text("Server: MJPG-Streamer/0.2\r\n"));
    c := c + Text("Server: MJPG-Streamer/0.2\r\n");
    NoBlankJoin(c, Text("Cache-Control: no-store, no-cache, "));
    c := c + Text("Cache-Control: no-store, no-cache, ");
    NoBlankJoin(c, Text("must-revalidate, pre-check=0, "));
    c := c + Text("must-revalidate, pre-check=0, ");
    NoBlankJoin(c, Text("post-check=0, max-age=0\r\n"));
    c := c + Text("post-check=0, max-age=0\r\n");
    NoBlankJoin(c, Text("Pragma: no-cache\r\n"));
    c := c + Text("Pragma: no-cache\r\n");
    PieceLine(Text("Expires: Mon, 3 Jan 2000 12:34:56 GMT"));
    NoBlankJoin(c, Text("Expires: Mon, 3 Jan 2000 12:34:56 GMT\r\n"));
  }

  /** The lines of the response header up to the boundary's name. */
  function HeadFront(): seq<Byte> {
    STATUS + Text("Access-Control-Allow-Origin: *\r\n") + STD_HEADER
    + Text("Content-Type: ") + Text("multipart/x-mixed-replace;boundary=") + HTTP_BOUNDARY
  }

  lemma HeadLines()
    ensures NoBlank(HeadFront() + [CR, LF])
    ensures STATUS + FIELDS == HeadFront() + [CR, LF]
  {
    StatusText();
    OriginText();
    StdHeaderLines();
    PragmaText();
    MixedText();
    BoundaryName();
    hide Text, NoBlank, STD_HEADER, HTTP_BOUNDARY;
    var c := STATUS;
    NoBlankJoin(c, Text("Access-Control-Allow-Origin: *\r\n"));
    c := c + Text("Access-Control-Allow-Origin: *\r\n");
    NoBlankJoin(c, STD_HEADER);
    c := c + STD_HEADER;
    NoBlankJoin(c, Text("Content-Type: "));
    c := c + Text("Content-Type: ");
    NoBlankJoin(c, Text("multipart/x-mixed-replace;boundary="));
    c := c + Text("multipart/x-mixed-replace;boundary=");
    NoBlankJoin(c, HTTP_BOUNDARY);
    c := c + HTTP_BOUNDARY;
    NoBlankJoin(c, [CR, LF]);
  }

  /** A client that goes by the header fields gets all frames of the stream with their time stamps, one
      for one, whatever the frames contain. */
  lemma ClientGetsAll(fs: seq<Frame>)
    ensures Received(Wire(fs)) == fs
  {
    HeadRead(Parts(fs));
    PartsRead(fs, []);
    BrokenEnd();
    hide *;
    assert Parts(fs) + [] == Parts(fs);
    assert fs + [] == fs;
    WireIs(fs);
  }

  lemma WireIs(fs: seq<Frame>)
    ensures Received(Wire(fs)) == ReadParts(Behind(Body(Preamble() + Parts(fs), true), LF))
  {
  }

  lemma BrokenEnd()
    ensures ReadParts([]) == []
  {
  }

  lemma HeadRead(rest: seq<Byte>)
    ensures Behind(Body(Preamble() + rest, true), LF) == rest
  {
    HeadLines();
    BoundaryName();
    hide Text, HeadFront, HTTP_BOUNDARY, NoBlank, FIELDS, STATUS, Body, Behind, Piece;
    var name := Text("--") + HTTP_BOUNDARY;
    var behind := name + [CR] + [LF] + rest;
    assert Preamble() + rest == HeadFront() + [CR, LF] + [CR, LF] + behind;
    LinesBody(HeadFront() + [CR, LF], behind);
    PieceBehind(Text("--"), HTTP_BOUNDARY, rest);
  }

  lemma PieceBehind(a: seq<Byte>, b: seq<Byte>, rest: seq<Byte>)
    requires Piece(a) && Piece(b)
    ensures Behind(a + b + [CR] + [LF] + rest, LF) == rest
  {
    BeforeAndBehind(a + b + [CR], LF, rest);
  }
}
