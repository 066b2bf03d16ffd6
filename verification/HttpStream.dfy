// What send_stream of the HTTP output plugin writes to a client (httpd.c and httpd.h).
module HttpStream {
  import opened Bits
  import opened Ascii

  datatype Frame = Frame(bytes: seq<Byte>, sec: int, usec: int)

  const HTTP_BOUNDARY: seq<Byte> := Text("boundarydonotcross")

  const STATUS: seq<Byte> := Text("HTTP/1.0 200 OK\r\n")

  const STD_HEADER: seq<Byte> :=
    Text("Connection: close\r\n")
    + Text("Server: MJPG-Streamer/0.2\r\n")
    + Text("Cache-Control: no-store, no-cache, ")
    + Text("must-revalidate, pre-check=0, ")
    + Text("post-check=0, max-age=0\r\n")
    + Text("Pragma: no-cache\r\n")
    + Text("Expires: Mon, 3 Jan 2000 12:34:56 GMT\r\n")

  const FIELDS: seq<Byte> :=
    Text("Access-Control-Allow-Origin: *\r\n") + STD_HEADER
    + Text("Content-Type: ") + Text("multipart/x-mixed-replace;boundary=") + HTTP_BOUNDARY + Text("\r\n")

  /** The error response behind a failing realloc, which comes in the middle of the stream. */
  const REFUSAL: seq<Byte> :=
    Text("HTTP/1.0 500 Internal Server Error\r\n") + Text("Content-type: text/plain\r\n") + STD_HEADER
    + Text("\r\n") + Text("500: Internal Server Error!\r\n") + Text("not enough memory")

  /** The response header, an empty line and the first boundary. */
  function Preamble(): seq<Byte> {
    STATUS + FIELDS + Text("\r\n") + Text("--") + HTTP_BOUNDARY + Text("\r\n")
  }

  /** The header of one part. */
  function PartHeader(f: Frame): seq<Byte> {
    Text("Content-Type: image/jpeg\r\n")
    + Text("Content-Length: ") + Decimal(|f.bytes|) + Text("\r\n")
    + Text("X-Timestamp: ") + Decimal(f.sec) + Text(".") + Decimal06(f.usec) + Text("\r\n")
    + Text("\r\n")
  }

  function PartEnd(): seq<Byte> {
    Text("\r\n--") + HTTP_BOUNDARY + Text("\r\n")
  }

  /** The three writes of one pass of the loop. */
  function PartBytes(f: Frame): seq<Byte> {
    PartHeader(f) + f.bytes + PartEnd()
  }

  function Parts(fs: seq<Frame>): seq<Byte> {
    if fs == [] then [] else Parts(fs[..|fs| - 1]) + PartBytes(fs[|fs| - 1])
  }

  /** Everything written for these frames. */
  function Wire(fs: seq<Frame>): seq<Byte> {
    Preamble() + Parts(fs)
  }
}
