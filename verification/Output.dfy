/** The encoder's output path: `memory_stream`, the chunked buffer of `emit_byte` and the bit
    accumulator of `put_bits`. */
module Output {
  import opened Basics
  import opened Bits
  import opened Stuffing

  function FirstBytes(s: seq<Byte>, n: nat): seq<Byte> {
    s[..Min(|s|, n)]
  }

  function Word(i: nat): seq<Byte> {
    [i / 256 % 256, i % 256]
  }

  function Marker(marker: Byte): seq<Byte> {
    [0xFF, marker]
  }

  /** `memory_stream`: keeps the bytes that fit, silently drops the rest. */
  class MemoryStream {
    const outBuf: array<Byte>
    var index: nat
    ghost var offered: seq<Byte>

    ghost predicate Valid()
      reads this, outBuf
    {
      && index == Min(|offered|, outBuf.Length)
      && outBuf[..index] == offered[..index]
    }

    constructor (buffer: array<Byte>)
      ensures outBuf == buffer && Valid() && offered == []
    {
      outBuf, index, offered := buffer, 0, [];
    }

    method PutBuf(data: array?<Byte>, len: nat) returns (ok: bool)
      requires Valid() && (data != null ==> len <= data.Length && data != outBuf)
      modifies this, outBuf
      ensures Valid() && ok
      ensures offered == old(offered) + if data == null then [] else old(data[..len])
    {
      if data == null {
        return true;
      }
      var n := len;
      if n > outBuf.Length - index {
        n := outBuf.Length - index;
      }
      ghost var before := outBuf[..index];
      if n > 0 {
        forall i | 0 <= i < n {
          outBuf[index + i] := data[i];
        }
        assert outBuf[..index] == before;
        assert outBuf[..index + n] == before + data[..n];
        index := index + n;
      }
      offered := offered + data[..len];
      return true;
    }

    method GetSize() returns (n: nat)
      requires Valid()
      ensures n == Min(|offered|, outBuf.Length)
    {
      n := index;
    }
  }

  /** The output fields of `jpeg_encoder`. */
  class Writer {
    const stream: MemoryStream
    const outBuf: array<Byte>
    var outBufLeft: nat
    var allWritesSucceeded: bool
    var bitBuffer: nat
    var bitsIn: nat
    /** Everything passed to `EmitByte`. */
    ghost var emitted: seq<Byte>
    /** The bytes emitted before the scan, and the bits put since. */
    ghost var head: seq<Byte>
    ghost var bits: seq<bool>

    ghost function Footprint(): set<object> {
      {this, outBuf, stream, stream.outBuf}
    }

    /** The chunk buffer and the stream together hold what was emitted. */
    ghost predicate Valid()
      reads this`outBufLeft, this`allWritesSucceeded, this`emitted, outBuf, stream, stream.outBuf
    {
      && outBuf != stream.outBuf && stream.Valid() && allWritesSucceeded
      && 1 <= outBufLeft <= outBuf.Length
      && emitted == stream.offered + outBuf[..outBuf.Length - outBufLeft]
    }

    /** Inside a scan: complete bytes are out, stuffed; the rest is in the register. */
    ghost predicate InScan()
      reads Footprint()
    {
      && Valid()
      && emitted == head + Stuff(Pack(bits))
      && bitsIn == |bits| % 8
      && Holds(bitBuffer, ValueOf(Pending(bits)), bitsIn)
    }

    constructor (s: MemoryStream, bufferSize: nat)
      requires bufferSize > 0 && s.Valid() && s.offered == []
      ensures Valid() && emitted == [] && stream == s && fresh(outBuf)
    {
      stream, outBuf := s, new Byte[bufferSize];
      outBufLeft, allWritesSucceeded := bufferSize, true;
      bitBuffer, bitsIn := 0, 0;
      emitted, head, bits := [], [], [];
    }

    method FlushOutputBuffer()
      requires outBuf != stream.outBuf && stream.Valid() && allWritesSucceeded
      requires outBufLeft <= outBuf.Length && outBuf.Length > 0
      requires emitted == stream.offered + outBuf[..outBuf.Length - outBufLeft]
      modifies this`outBufLeft, this`allWritesSucceeded, stream, stream.outBuf
      ensures Valid() && outBufLeft == outBuf.Length && stream.offered == emitted
    {
      if outBufLeft != outBuf.Length {
        var ok := stream.PutBuf(outBuf, outBuf.Length - outBufLeft);
        allWritesSucceeded := allWritesSucceeded && ok;
      }
      outBufLeft := outBuf.Length;
    }

    method EmitByte(b: Byte)
      requires Valid()
      modifies this`outBufLeft, this`allWritesSucceeded, this`emitted, outBuf, stream, stream.outBuf
      ensures Valid() && emitted == old(emitted) + [b]
    {
      var at := outBuf.Length - outBufLeft;
      outBuf[at] := b;
      outBufLeft := outBufLeft - 1;
      emitted := emitted + [b];
      assert outBuf[..at + 1] == old(outBuf[..at]) + [b];
      if outBufLeft == 0 {
        FlushOutputBuffer();
      }
    }

    method EmitWord(i: nat)
      requires Valid()
      modifies this`outBufLeft, this`allWritesSucceeded, this`emitted, outBuf, stream, stream.outBuf
      ensures Valid() && emitted == old(emitted) + Word(i)
    {
      EmitByte(i / 256 % 256);
      EmitByte(i % 256);
    }

    method EmitMarker(marker: Byte)
      requires Valid()
      modifies this`outBufLeft, this`allWritesSucceeded, this`emitted, outBuf, stream, stream.outBuf
      ensures Valid() && emitted == old(emitted) + Marker(marker)
    {
      EmitByte(0xFF);
      EmitByte(marker);
    }

    /** The end of `process_end_of_image`: everything emitted goes to the stream. */
    method EndStream()
      requires Valid()
      modifies this`outBufLeft, this`allWritesSucceeded, stream, stream.outBuf
      ensures Valid() && stream.offered == emitted
    {
      FlushOutputBuffer();
      var ok := stream.PutBuf(null, 0);
      allWritesSucceeded := allWritesSucceeded && ok;
    }

    /** The register and the bits are reset before the scan. */
    method StartScan()
      requires Valid()
      modifies this`bitBuffer, this`bitsIn, this`head, this`bits
      ensures InScan() && bits == [] && head == emitted
    {
      hide Valid, Holds, Stuff, Pack, Pending, ValueOf;
      bitBuffer, bitsIn := 0, 0;
      head, bits := emitted, [];
      NothingPending();
    }

    /** The loop of `put_bits`: complete bytes leave the register. */
    method TakeBytes(ghost emittedBytes: nat)
      requires Valid() && 8 * emittedBytes <= |bits| && bitsIn == |bits| - 8 * emittedBytes <= 24
      requires emitted == head + Stuff(Pack(bits[..8 * emittedBytes]))
      requires Holds(bitBuffer, ValueOf(bits[8 * emittedBytes..]), bitsIn)
      modifies this`outBufLeft, this`allWritesSucceeded, this`emitted, this`bitBuffer, this`bitsIn
      modifies outBuf, stream, stream.outBuf
      ensures InScan()
    {
      hide Stuff, Pack, PackByte, Holds, Shl, Shr, Low, Or, ValueOf, BitsOf, Pow2, Valid;
      ghost var n := emittedBytes;
      while bitsIn >= 8
        invariant Valid() && 8 * n <= |bits| && bitsIn == |bits| - 8 * n <= 24
        invariant emitted == head + Stuff(Pack(bits[..8 * n]))
        invariant Holds(bitBuffer, ValueOf(bits[8 * n..]), bitsIn)
        decreases bitsIn
      {
        TakeByte(bitBuffer, bits, n);
        var c := Low(Shr(bitBuffer, 16), 8);
        EmitByte(c);
        if c == 0xFF {
          EmitByte(0);
        }
        bitBuffer := Low(Shl(bitBuffer, 8), 32);
        bitsIn := bitsIn - 8;
        n := n + 1;
      }
      PackWhole(bits);
    }

    method PutBits(v: nat, len: nat)
      requires InScan() && len <= 16 && v < Pow2(len)
      modifies Footprint()
      ensures InScan() && head == old(head) && bits == old(bits) + BitsOf(v, len)
    {
      hide Stuff, Pack, PackByte, Holds, Shl, Shr, Low, Or, ValueOf, BitsOf, Pow2, Valid;
      ghost var was := bits;
      PutIntoRegister(bitBuffer, ValueOf(Pending(bits)), bitsIn, v, len);
      bitsIn := bitsIn + len;
      bitBuffer := Or(bitBuffer, Shl(v, 24 - bitsIn));
      bits := bits + BitsOf(v, len);
      PendingGrows(was, v, len);
      TakeBytes(|was| / 8);
    }
  }
}
