/** The staging buffer between the JPEG compressor and the picture in memory (jpeg_utils.c). */
module Destination {
  import opened Words
  import Memory

  const OUTPUT_BUF_SIZE: nat := 4096

  class Manager {
    const buffer: array<Byte>
    const outbuffer: array<Byte>
    var cursor: nat
    var written: nat
    var next: nat
    var free: nat
    ghost var emitted: seq<Byte>

    /** Bytes flushed and bytes staged, in this order, are the bytes emitted. */
    ghost predicate Valid()
      reads this, buffer, outbuffer
    {
      && buffer != outbuffer && buffer.Length == OUTPUT_BUF_SIZE
      && next + free == OUTPUT_BUF_SIZE
      && cursor == written <= outbuffer.Length
      && emitted == outbuffer[..written] + buffer[..next]
    }

    /** dest_buffer, then init_destination, which allocates the staging buffer. */
    constructor (out: array<Byte>)
      ensures Valid() && fresh(buffer) && outbuffer == out && emitted == [] && written == 0 && free > 0
    {
      outbuffer := out;
      cursor := 0;
      buffer := new Byte[OUTPUT_BUF_SIZE];
      written := 0;
      next := 0;
      free := OUTPUT_BUF_SIZE;
      emitted := [];
    }

    method EmptyOutputBuffer() returns (ok: bool)
      requires Valid() && free == 0 && cursor + OUTPUT_BUF_SIZE <= outbuffer.Length
      modifies this, outbuffer
      ensures Valid() && ok && free == OUTPUT_BUF_SIZE && emitted == old(emitted)
      ensures written == old(written) + OUTPUT_BUF_SIZE && outbuffer[written..] == old(outbuffer[..])[written..]
    {
      hide Memory.Overwrite;
      Memory.Copy(outbuffer, cursor, buffer[..]);
      cursor := cursor + OUTPUT_BUF_SIZE;
      written := written + OUTPUT_BUF_SIZE;
      next := 0;
      free := OUTPUT_BUF_SIZE;
      assert emitted == outbuffer[..written];
      return true;
    }

    method TermDestination()
      requires Valid() && |emitted| <= outbuffer.Length
      modifies this, outbuffer
      ensures emitted == old(emitted) && written == |emitted| && outbuffer[..written] == emitted
      ensures outbuffer[written..] == old(outbuffer[..])[written..]
    {
      var datacount := OUTPUT_BUF_SIZE - free;
      hide Memory.Overwrite;
      Memory.Copy(outbuffer, cursor, buffer[..datacount]);
      cursor := cursor + datacount;
      written := written + datacount;
    }

    /** How libjpeg puts out one byte: into the staging buffer, which it has emptied once it is full. */
    method Emit(b: Byte)
      requires Valid() && free > 0 && |emitted| < outbuffer.Length
      modifies this, buffer, outbuffer
      ensures Valid() && free > 0 && emitted == old(emitted) + [b]
      ensures outbuffer[|emitted|..] == old(outbuffer[..])[|emitted|..]
    {
      buffer[next] := b;
      next := next + 1;
      free := free - 1;
      emitted := emitted + [b];
      assert emitted == outbuffer[..written] + buffer[..next];
      if free == 0 {
        var ok := EmptyOutputBuffer();
      }
    }
  }

  /** Whatever sequence a compressor emits ends up at the start of the output buffer, which needs room for
      no more than that sequence and stays as it was behind it. */
  method CompressInto(out: array<Byte>, picture: seq<Byte>) returns (written: nat)
    requires |picture| <= out.Length
    modifies out
    ensures written == |picture| && out[..] == picture + old(out[..])[written..]
  {
    ghost var was := out[..];
    var dest := new Manager(out);
    var i := 0;
    while i < |picture|
      invariant i <= |picture| && dest.Valid() && dest.free > 0 && fresh(dest) && fresh(dest.buffer)
      invariant dest.outbuffer == out && dest.emitted == picture[..i]
      invariant out[i..] == was[i..]
    {
      dest.Emit(picture[i]);
      i := i + 1;
    }
    dest.TermDestination();
    written := dest.written;
    assert out[..] == out[..written] + out[written..];
  }
}
