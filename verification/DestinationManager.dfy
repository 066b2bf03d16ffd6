// The libjpeg destination manager of the UVC input plugin: compressed bytes go through a staging
// buffer into the caller's memory.
module DestinationManager {
  import opened Bits

  const OUTPUT_BUF_SIZE: nat := 4096

  class Destination {
    const buffer: array<Byte>
    const outbuffer: array<Byte>
    /** next_output_byte and outbuffer_cursor as positions. */
    var next: nat
    var free: nat
    var cursor: nat
    var written: nat
    /** Everything the compressor has emitted since the picture began. */
    ghost var emitted: seq<Byte>

    ghost predicate Valid()
      reads this, buffer, outbuffer
    {
      && buffer != outbuffer && buffer.Length == OUTPUT_BUF_SIZE
      && next + free == OUTPUT_BUF_SIZE && free > 0
      && cursor == written <= outbuffer.Length
      && outbuffer[..written] + buffer[..next] == emitted
    }

    /** dest_buffer: the staging buffer is allocated with it here. */
    constructor (outbuffer: array<Byte>)
      ensures this.outbuffer == outbuffer && fresh(buffer) && buffer.Length == OUTPUT_BUF_SIZE && cursor == 0
    {
      this.outbuffer := outbuffer;
      buffer := new Byte[OUTPUT_BUF_SIZE];
      cursor := 0;
    }

    /** init_destination: the count left over from the last picture is dropped. */
    method InitDestination()
      requires buffer != outbuffer && buffer.Length == OUTPUT_BUF_SIZE && cursor == 0
      modifies this`written, this`next, this`free, this`emitted
      ensures Valid() && emitted == []
    {
      written := 0;
      next, free := 0, OUTPUT_BUF_SIZE;
      emitted := [];
    }

    method Flush(count: nat)
      requires buffer != outbuffer && count <= buffer.Length && cursor + count <= outbuffer.Length
      modifies this`cursor, outbuffer
      ensures cursor == old(cursor) + count
      ensures outbuffer[..] == old(outbuffer[..cursor]) + buffer[..count] + old(outbuffer[cursor + count..])
    {
      for i := 0 to count
        modifies outbuffer
        invariant outbuffer[..] == old(outbuffer[..cursor]) + buffer[..i] + old(outbuffer[cursor + i..])
      {
        outbuffer[cursor + i] := buffer[i];
      }
      cursor := cursor + count;
    }

    /** empty_output_buffer, called with the staging buffer full. */
    method EmptyOutputBuffer()
      requires buffer != outbuffer && buffer.Length == OUTPUT_BUF_SIZE == next && cursor == written
      requires written + OUTPUT_BUF_SIZE <= outbuffer.Length
      requires outbuffer[..written] + buffer[..] == emitted
      modifies this`cursor, this`written, this`next, this`free, outbuffer
      ensures Valid() && next == 0 && outbuffer[|emitted|..] == old(outbuffer[|emitted|..])
    {
      Flush(OUTPUT_BUF_SIZE);
      written := written + OUTPUT_BUF_SIZE;
      next, free := 0, OUTPUT_BUF_SIZE;
      assert buffer[..OUTPUT_BUF_SIZE] == buffer[..];
      assert buffer[..0] == [];
    }

    /** The compressor's side of the protocol: store, count down, and flush when nothing is free. */
    method Emit(b: Byte)
      requires Valid() && |emitted| < outbuffer.Length
      modifies this`cursor, this`written, this`next, this`free, this`emitted, buffer, outbuffer
      ensures Valid() && emitted == old(emitted) + [b]
      ensures outbuffer[|emitted|..] == old(outbuffer[..])[|emitted|..]
    {
      buffer[next] := b;
      next, free := next + 1, free - 1;
      emitted := emitted + [b];
      assert outbuffer[..written] + buffer[..next] == emitted;
      if free == 0 {
        assert buffer[..next] == buffer[..];
        EmptyOutputBuffer();
      }
    }

    /** term_destination. */
    method TermDestination()
      requires Valid() && |emitted| <= outbuffer.Length
      modifies this`cursor, this`written, outbuffer
      ensures written == |emitted| && outbuffer[..] == emitted + old(outbuffer[|emitted|..])
    {
      var datacount := OUTPUT_BUF_SIZE - free;
      Flush(datacount);
      written := written + datacount;
    }

    /** A whole picture: in the caller's memory lie exactly the emitted bytes, and what lies behind them
        is as before. */
    method Write(data: seq<Byte>)
      requires buffer != outbuffer && buffer.Length == OUTPUT_BUF_SIZE && cursor == 0
      requires |data| <= outbuffer.Length
      modifies this`cursor, this`written, this`next, this`free, this`emitted, buffer, outbuffer
      ensures written == |data| && outbuffer[..] == data + old(outbuffer[|data|..])
    {
      InitDestination();
      for i := 0 to |data|
        invariant Valid() && emitted == data[..i]
        invariant outbuffer[i..] == old(outbuffer[i..])
      {
        Emit(data[i]);
      }
      TermDestination();
    }
  }
}
