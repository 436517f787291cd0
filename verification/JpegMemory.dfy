/** The JPEG memory source, which never runs dry, and the memory destination, which grows. */
module JpegMemory {
  import opened Bits

  const JPEG_EOI: byte := 0xD9
  const OUTPUT_BUF_SIZE := 32768

  // ----- Source -----

  /** The stream a decompressor sees: the buffer, then end-of-image markers forever. */
  function StreamAt(input: seq<byte>, k: nat): byte {
    if k < |input| then input[k] else if (k - |input|) % 2 == 0 then 0xFF else JPEG_EOI
  }

  class MemorySource {
    ghost const input: seq<byte>
    /** Stream position of the next byte. */
    ghost var pos: nat

    /** The memory `next` points into, the caller's buffer or the two bytes of a fake marker. */
    var data: seq<byte>
    var next: nat
    var bytesInBuffer: nat

    ghost predicate Valid()
      reads this
    {
      && next + bytesInBuffer <= |data|
      && (forall i | next <= i < next + bytesInBuffer :: data[i] == StreamAt(input, pos + (i - next)))
      && pos + bytesInBuffer >= |input| && (pos + bytesInBuffer - |input|) % 2 == 0
    }

    constructor (buffer: seq<byte>)
      ensures Valid() && input == buffer && pos == 0 && bytesInBuffer == |buffer|
    {
      input, pos := buffer, 0;
      data, next, bytesInBuffer := buffer, 0, |buffer|;
    }

    /** Supplies a fake marker; whatever was left in the buffer is dropped from the stream. */
    method FillInputBuffer()
      requires Valid()
      modifies this
      ensures Valid() && pos == old(pos) + old(bytesInBuffer) && bytesInBuffer == 2
    {
      pos := pos + bytesInBuffer;
      data := [0xFF, JPEG_EOI];
      next := 0;
      bytesInBuffer := 2;
    }

    /** Drops exactly `numBytes` of the stream, across any number of refills. */
    method SkipInputData(numBytes: int)
      requires Valid()
      modifies this
      ensures Valid() && pos == old(pos) + (if numBytes > 0 then numBytes else 0)
    {
      var n := numBytes;
      if n > 0 {
        while n > bytesInBuffer
          invariant Valid() && 0 < n && pos + n == old(pos) + numBytes
          decreases n - bytesInBuffer, if bytesInBuffer < 2 then 1 else 0
        {
          n := n - bytesInBuffer;
          FillInputBuffer();
        }
        next := next + n;
        bytesInBuffer := bytesInBuffer - n;
        pos := pos + n;
      }
    }

    /** How the decompressor reads: it asks for a refill when the buffer is empty. */
    method ReadByte() returns (b: byte)
      requires Valid()
      modifies this
      ensures Valid() && b == StreamAt(input, old(pos)) && pos == old(pos) + 1
    {
      if bytesInBuffer == 0 {
        FillInputBuffer();
      }
      b := data[next];
      next := next + 1;
      bytesInBuffer := bytesInBuffer - 1;
      pos := pos + 1;
    }
  }

  /** Requests of a decompressor, and the bytes it is to get for them. */
  datatype Request = Read | Skip(n: int)

  function Width(r: Request): nat {
    match r case Read => 1 case Skip(n) => if n > 0 then n else 0
  }

  function Answers(input: seq<byte>, pos: nat, requests: seq<Request>): seq<byte>
    decreases |requests|
  {
    if requests == [] then []
    else
      var rest := Answers(input, pos + Width(requests[0]), requests[1..]);
      if requests[0].Read? then [StreamAt(input, pos)] + rest else rest
  }

  function Advance(requests: seq<Request>): nat
    decreases |requests|
  {
    if requests == [] then 0 else Width(requests[0]) + Advance(requests[1..])
  }

  /** What is read after any requests is the stream with as many bytes dropped as they read and skipped. */
  lemma {:induction false} AnswersCompose(input: seq<byte>, pos: nat, before: seq<Request>, after: seq<Request>)
    ensures Answers(input, pos, before + after) ==
            Answers(input, pos, before) + Answers(input, pos + Advance(before), after)
    decreases |before|
  {
    hide StreamAt;
    Append(Answers(input, pos, after), [], []);
    Append(after, [], []);
    if before != [] {
      var next := pos + Width(before[0]);
      AnswersCompose(input, next, before[1..], after);
      ConsAppend(before, after);
      Append([StreamAt(input, pos)], Answers(input, next, before[1..]),
             Answers(input, next + Advance(before[1..]), after));
    }
  }

  /** Any mix of requests a decompressor may make is answered by the stream. */
  method Serve(source: MemorySource, requests: seq<Request>) returns (bytes: seq<byte>)
    requires source.Valid()
    modifies source
    ensures source.Valid() && bytes == Answers(source.input, old(source.pos), requests)
    ensures source.pos == old(source.pos) + Advance(requests)
    decreases |requests|
  {
    hide StreamAt;
    if requests == [] {
      bytes := [];
    } else if requests[0].Read? {
      var b := source.ReadByte();
      bytes := Serve(source, requests[1..]);
      bytes := [b] + bytes;
    } else {
      source.SkipInputData(requests[0].n);
      bytes := Serve(source, requests[1..]);
    }
  }

  /** Behind the buffer a marker is never further than one byte away: a reader always meets an end of image. */
  lemma EndOfImageAhead(input: seq<byte>, k: nat)
    requires k >= |input|
    ensures exists m | k <= m <= k + 1 :: StreamAt(input, m) == 0xFF && StreamAt(input, m + 1) == 0xD9
    ensures StreamAt(input, |input|) == 0xFF
  {
    var m := if (k - |input|) % 2 == 0 then k else k + 1;
    assert StreamAt(input, m) == 0xFF && StreamAt(input, m + 1) == JPEG_EOI;
  }

  // ----- Destination -----

  class MemoryDestination {
    var buffer: array<byte>
    var bufSize: nat
    var next: nat
    var freeInBuffer: nat
    /** The caller's size variable. */
    var outSize: nat

    ghost predicate Valid()
      reads this, buffer
    {
      bufSize <= buffer.Length && 0 < freeInBuffer <= bufSize && next == bufSize - freeInBuffer
    }

    /** The bytes emitted so far. */
    ghost function Contents(): seq<byte>
      requires Valid()
      reads this, buffer
    {
      buffer[..next]
    }

    /** Starts at the front of the caller's buffer, or of a new one if there is none. */
    constructor (outBuffer: array?<byte>, size: nat)
      requires outBuffer != null ==> size <= outBuffer.Length
      ensures Valid() && Contents() == []
      ensures buffer == outBuffer || fresh(buffer)
    {
      outSize := size;
      if outBuffer == null || size == 0 {
        buffer := new byte[OUTPUT_BUF_SIZE];
        bufSize, freeInBuffer := OUTPUT_BUF_SIZE, OUTPUT_BUF_SIZE;
      } else {
        buffer := outBuffer;
        bufSize, freeInBuffer := size, size;
      }
      next := 0;
    }

    /** Grows a full buffer; reallocation keeps the bytes in it. */
    method EmptyOutputBuffer()
      requires bufSize <= buffer.Length && freeInBuffer == 0 && next == bufSize
      modifies this
      ensures Valid() && Contents() == old(buffer[..bufSize]) && fresh(buffer) && outSize == old(outSize)
    {
      var grown := new byte[bufSize + OUTPUT_BUF_SIZE];
      forall k | 0 <= k < bufSize {
        grown[k] := buffer[k];
      }
      assert grown[..bufSize] == buffer[..bufSize];
      buffer := grown;
      next := bufSize;
      freeInBuffer := OUTPUT_BUF_SIZE;
      bufSize := bufSize + OUTPUT_BUF_SIZE;
    }

    /** How the compressor writes: it asks for room as soon as the buffer is full. */
    method EmitByte(b: byte)
      requires Valid()
      modifies this, buffer
      ensures Valid() && Contents() == old(Contents()) + [b] && outSize == old(outSize)
      ensures buffer == old(buffer) || fresh(buffer)
    {
      buffer[next] := b;
      assert buffer[..next + 1] == old(buffer[..next]) + [b];
      next := next + 1;
      freeInBuffer := freeInBuffer - 1;
      if freeInBuffer == 0 {
        EmptyOutputBuffer();
      }
    }

    /** The size reported is the number of bytes emitted. */
    method TermDestination()
      requires Valid()
      modifies this`outSize
      ensures Valid() && outSize == |Contents()| && Contents() == old(Contents())
    {
      outSize := bufSize - freeInBuffer;
    }
  }

  /** A whole compression: every byte is kept in order across any number of growths, and counted. */
  method EmitAll(dest: MemoryDestination, bytes: seq<byte>)
    requires dest.Valid()
    modifies dest, dest.buffer
    ensures dest.Valid() && dest.Contents() == old(dest.Contents()) + bytes
    ensures dest.outSize == |old(dest.Contents())| + |bytes|
  {
    var k := 0;
    while k < |bytes|
      invariant k <= |bytes| && dest.Valid() && dest.Contents() == old(dest.Contents()) + bytes[..k]
      invariant dest.buffer == old(dest.buffer) || fresh(dest.buffer)
    {
      dest.EmitByte(bytes[k]);
      k := k + 1;
    }
    dest.TermDestination();
  }
}
