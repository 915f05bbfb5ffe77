/** The `Generator` device: a byte buffer and a cursor that together form an
    endless, read-only byte stream (src/lightplayer.cpp:31-56, 103-123).

    The QIODevice object is modelled as an immutable state value; each
    operation returns the state it leaves behind. */
module LoopingSource {
  import opened Arith
  import opened Bytes
  import PcmLayout

  /** `m_buffer`, `m_pos`, and whether the device was opened for reading. */
  datatype Generator = Generator(buffer: seq<byte>, pos: int, isOpen: bool)

  /** The cursor invariant: inside a non-empty buffer, and zero while the
      buffer is empty. */
  predicate Valid(g: Generator)
  {
    if |g.buffer| == 0 then g.pos == 0 else 0 <= g.pos < |g.buffer|
  }

  /** The stream's contents from offset `start`: `buffer` repeated without end,
      cut to `n` bytes. */
  function Tile(buffer: seq<byte>, start: int, n: nat): (r: seq<byte>)
    requires |buffer| > 0 && 0 <= start
    ensures |r| == n
  {
    seq(n, k => buffer[(start + k) % |buffer|])
  }

  /** What one `readData(data, len)` call delivers and where it leaves the
      cursor: nothing at all for an empty buffer or a non-positive `len`,
      otherwise exactly `len` bytes of the tiled buffer. */
  function Read(g: Generator, len: int): (r: (Generator, seq<byte>))
    requires Valid(g)
    ensures Valid(r.0) && r.0.buffer == g.buffer && r.0.isOpen == g.isOpen
    ensures |r.1| == if |g.buffer| == 0 || len <= 0 then 0 else len
  {
    if |g.buffer| == 0 || len <= 0 then (g, [])
    else (g.(pos := (g.pos + len) % |g.buffer|), Tile(g.buffer, g.pos, len))
  }

  /** A chunk copied from the cursor to the end of the buffer or less extends
      the tiled prefix by exactly the bytes it copies. */
  lemma TileExtend(buffer: seq<byte>, start: int, total: nat, chunk: nat)
    requires |buffer| > 0 && 0 <= start
    requires (start + total) % |buffer| + chunk <= |buffer|
    ensures Tile(buffer, start, total + chunk)
            == Tile(buffer, start, total)
               + buffer[(start + total) % |buffer| .. (start + total) % |buffer| + chunk]
  {
    var p := (start + total) % |buffer|;
    var lhs := Tile(buffer, start, total + chunk);
    var rhs := Tile(buffer, start, total) + buffer[p .. p + chunk];
    forall k | total <= k < total + chunk
      ensures lhs[k] == rhs[k]
    {
      ModAddSmall(start + total, k - total, |buffer|);
    }
  }

  /** One pass of the copy loop: a chunk that does not run past the end of the
      buffer continues the tiling and moves the cursor by its length. */
  lemma ReadStep(buffer: seq<byte>, start: int, total: nat, pos: int, chunk: nat)
    requires |buffer| > 0 && 0 <= start && pos == (start + total) % |buffer|
    requires pos + chunk <= |buffer|
    ensures Tile(buffer, start, total) + buffer[pos .. pos + chunk] == Tile(buffer, start, total + chunk)
    ensures (pos + chunk) % |buffer| == (start + total + chunk) % |buffer|
  {
    TileExtend(buffer, start, total, chunk);
    ModAddMod(start + total, chunk, |buffer|);
  }

  /** The copy loop of `Generator::readData` over a non-empty buffer: chunks
      run from the cursor to the end of the buffer at most, and the loop stops
      once `len` bytes are copied (at once when `len <= 0`). */
  method CopyChunks(buffer: seq<byte>, start: int, len: int) returns (data: seq<byte>, pos: int)
    requires 0 <= start < |buffer|
    ensures data == Tile(buffer, start, if len > 0 then len else 0)
    ensures pos == (start + (if len > 0 then len else 0)) % |buffer|
    ensures len <= 0 ==> data == [] && pos == start
  {
    var size := |buffer|;
    var total := 0;
    pos := start;
    data := [];
    while len - total > 0
      invariant 0 <= total <= if len > 0 then len else 0
      invariant 0 <= pos < size
      invariant pos == (start + total) % size
      invariant data == Tile(buffer, start, total)
      decreases len - total
    {
      var chunk := if size - pos < len - total then size - pos else len - total;
      assert 0 < chunk <= size - pos;
      ReadStep(buffer, start, total, pos, chunk);
      data := data + buffer[pos .. pos + chunk];
      pos := (pos + chunk) % size;
      total := total + chunk;
    }
    if len <= 0 {
      DivModUnique(start, size, 0, start);
    }
  }

  /** `Generator::readData`: copies wrapped chunks until exactly `len` bytes
      are delivered. Returns the new state, the bytes written to `data` and
      the count the source returns. */
  method ReadData(g: Generator, len: int) returns (g': Generator, data: seq<byte>, total: int)
    requires Valid(g)
    ensures g' == Read(g, len).0 && data == Read(g, len).1
    ensures total == |data|
    ensures total == if |g.buffer| == 0 || len <= 0 then 0 else len
    ensures Valid(g')
    ensures |g.buffer| > 0 && len > 0 ==> g'.pos == (g.pos + len) % |g.buffer|
    ensures forall k :: 0 <= k < |data| ==> data[k] == g.buffer[(g.pos + k) % |g.buffer|]
  {
    var pos := g.pos;
    data := [];
    if !(|g.buffer| == 0) {
      data, pos := CopyChunks(g.buffer, g.pos, len);
    }
    total := |data|;
    g' := g.(pos := pos);
    assert Read(g, len) == (g', data);
    assert forall k :: 0 <= k < |data| ==> data[k] == g.buffer[(g.pos + k) % |g.buffer|] by {
      if 0 < |g.buffer| && 0 < len {
        assert data == Tile(g.buffer, g.pos, len);
      }
    }
  }

  /** `Generator::writeData`: the device is read-only; the call returns 0. */
  function WriteData(g: Generator, data: seq<byte>, len: int): (r: (Generator, int))
    ensures r.1 == 0
    ensures r.0 == g
  {
    (g, 0)
  }

  /** `Generator::start`: opens the device for reading; the cursor is not touched. */
  function Start(g: Generator): (r: Generator)
    requires Valid(g)
    ensures Valid(r) && r.isOpen
    ensures r.buffer == g.buffer && r.pos == g.pos
  {
    g.(isOpen := true)
  }

  /** `Generator::stop`: rewinds the cursor and closes the device. */
  function Stop(g: Generator): (r: Generator)
    ensures Valid(r) && !r.isOpen
    ensures r.buffer == g.buffer && r.pos == 0
  {
    g.(pos := 0, isOpen := false)
  }

  /** The constructor: cursor at 0, and the buffer laid out only for a valid
      format. `uninit` is the unspecified contents the new buffer starts with. */
  method NewGenerator(f: PcmLayout.AudioFormat, durationUs: int, code: nat -> int, uninit: seq<byte>)
    returns (g: Generator)
    requires PcmLayout.IsValid(f) ==> PcmLayout.CanLayOut(f, durationUs)
    requires PcmLayout.IsValid(f) ==> |uninit| == PcmLayout.BufferLength(f, durationUs)
    ensures Valid(g) && g.pos == 0 && !g.isOpen
    ensures !PcmLayout.IsValid(f) ==> g.buffer == []
    ensures PcmLayout.IsValid(f) ==> |g.buffer| == PcmLayout.BufferLength(f, durationUs)
    ensures PcmLayout.IsValid(f) && PcmLayout.Supported(f) ==>
              exists n: nat :: (n == 0 || f.sampleRate > 0) && g.buffer == PcmLayout.Frames(f, code, n)
    ensures PcmLayout.IsValid(f) && !PcmLayout.Supported(f) ==> g.buffer == uninit
  {
    var buffer: seq<byte> := [];
    if PcmLayout.IsValid(f) {
      var frames;
      buffer, frames := PcmLayout.GenerateData(f, durationUs, code, uninit);
    }
    g := Generator(buffer, 0, false);
  }

  /** Byte `j` of the tiling from the cursor `a` bytes on is byte `a + j` of
      the tiling from the original cursor. */
  lemma TileShiftAt(buffer: seq<byte>, start: int, a: nat, b: nat, j: nat)
    requires |buffer| > 0 && 0 <= start && j < b
    ensures Tile(buffer, (start + a) % |buffer|, b)[j] == Tile(buffer, start, a + b)[a + j]
  {
    ModAddMod(start + a, j, |buffer|);
  }

  /** Tiling from the cursor a read leaves behind continues the earlier tiling. */
  lemma TileConcat(buffer: seq<byte>, start: int, a: nat, b: nat)
    requires |buffer| > 0 && 0 <= start
    ensures Tile(buffer, start, a) + Tile(buffer, (start + a) % |buffer|, b) == Tile(buffer, start, a + b)
  {
    var n := |buffer|;
    var p := (start + a) % n;
    var first, second := Tile(buffer, start, a), Tile(buffer, p, b);
    var rhs := Tile(buffer, start, a + b);
    forall k | 0 <= k < a + b
      ensures (first + second)[k] == rhs[k]
    {
      if k < a {
        assert (first + second)[k] == first[k];
      } else {
        assert (first + second)[k] == second[k - a];
        TileShiftAt(buffer, start, a, b, k - a);
      }
    }
    assert first + second == rhs;
  }

  /** Two consecutive reads deliver the same bytes, and leave the same cursor,
      as one read of the combined length. */
  lemma ReadConcat(g: Generator, a: nat, b: nat)
    requires Valid(g)
    ensures Read(g, a).1 + Read(Read(g, a).0, b).1 == Read(g, a + b).1
    ensures Read(Read(g, a).0, b).0 == Read(g, a + b).0
  {
    if |g.buffer| > 0 && a > 0 && b > 0 {
      assert Read(g, a).1 + Read(Read(g, a).0, b).1 == Read(g, a + b).1 by {
        TileConcat(g.buffer, g.pos, a, b);
      }
      assert Read(Read(g, a).0, b).0.pos == Read(g, a + b).0.pos by {
        ModAddMod(g.pos + a, b, |g.buffer|);
      }
    }
  }

  /** A read of exactly one buffer length returns the buffer rotated to the
      cursor and leaves the cursor where it was. */
  lemma ReadWholeBuffer(g: Generator)
    requires Valid(g) && |g.buffer| > 0
    ensures Read(g, |g.buffer|).0 == g
    ensures Read(g, |g.buffer|).1 == g.buffer[g.pos..] + g.buffer[..g.pos]
  {
    var n := |g.buffer|;
    var rotated := g.buffer[g.pos..] + g.buffer[..g.pos];
    forall k | 0 <= k < n
      ensures Read(g, n).1[k] == rotated[k]
    {
      if k < n - g.pos {
        DivModUnique(g.pos + k, n, 0, g.pos + k);
      } else {
        DivModUnique(g.pos + k, n, 1, g.pos + k - n);
      }
    }
    DivModUnique(g.pos + n, n, 1, g.pos);
  }

  /** From the start of the buffer, a read of `m` buffer lengths returns `m`
      copies of the buffer: the stream tiles its content. */
  lemma {:induction false} ReadTiles(g: Generator, m: nat)
    requires Valid(g) && g.pos == 0
    ensures Read(g, m * |g.buffer|).1 == Repeat(g.buffer, m)
    ensures Read(g, m * |g.buffer|).0 == g
  {
    if |g.buffer| > 0 && m > 0 {
      var n := |g.buffer|;
      assert m * n == (m - 1) * n + n;
      ReadTiles(g, m - 1);
      MulLe(0, m - 1, n);
      ReadConcat(g, (m - 1) * n, n);
      ReadWholeBuffer(g);
    }
  }

  /** `stop()` rewinds and `start()` does not move the cursor, so after a
      stop/start cycle a read replays the buffer from its first byte, however
      far earlier reads had advanced. */
  lemma RestartReplays(g: Generator, len: nat)
    requires Valid(g) && len <= |g.buffer|
    ensures Read(Start(Stop(g)), len).1 == g.buffer[..len]
  {
    if len > 0 {
      forall k | 0 <= k < len
        ensures Read(Start(Stop(g)), len).1[k] == g.buffer[k]
      {
        DivModUnique(k, |g.buffer|, 0, k);
      }
    }
  }

  /** A second `start()` with no read in between changes nothing the stream
      delivers. */
  lemma StartTwice(g: Generator, len: int)
    requires Valid(g)
    ensures Start(Start(g)) == Start(g)
    ensures Read(Start(Start(g)), len).1 == Read(Start(g), len).1
  {
  }

  /** A `writeData` call between reads does not change what they deliver. */
  lemma WriteLeavesStream(g: Generator, data: seq<byte>, wlen: int, len: int)
    requires Valid(g)
    ensures Valid(WriteData(g, data, wlen).0)
    ensures Read(WriteData(g, data, wlen).0, len) == Read(g, len)
  {
  }

  /** Byte `pos + k` of the looped repetition is byte `pos % |b| + k` of the
      looped original. */
  lemma RepeatedByte(b: seq<byte>, m: nat, pos: int, k: nat)
    requires |b| > 0 && 0 < m && 0 <= pos
    ensures 0 < m * |b| && |Repeat(b, m)| == m * |b|
    ensures Repeat(b, m)[(pos + k) % (m * |b|)] == b[(pos % |b| + k) % |b|]
  {
    var n := |b|;
    MulLe(1, m, n);
    RepeatIndex(b, m, (pos + k) % (m * n));
    ModMod(pos + k, m, n);
    ModAddMod(pos, k, n);
  }

  /** Looping over `m` copies of a buffer delivers the same stream as looping
      over the buffer itself, from the corresponding cursor. */
  lemma RepeatedBufferStreamsAlike(b: seq<byte>, m: nat, pos: int, isOpen: bool, len: int)
    requires |b| > 0 && 0 < m && 0 <= pos < m * |b|
    ensures |Repeat(b, m)| == m * |b|
    ensures Valid(Generator(Repeat(b, m), pos, isOpen))
    ensures Valid(Generator(b, pos % |b|, isOpen))
    ensures Read(Generator(Repeat(b, m), pos, isOpen), len).1
            == Read(Generator(b, pos % |b|, isOpen), len).1
  {
    if len > 0 {
      var lhs := Read(Generator(Repeat(b, m), pos, isOpen), len).1;
      var rhs := Read(Generator(b, pos % |b|, isOpen), len).1;
      forall k | 0 <= k < len
        ensures lhs[k] == rhs[k]
      {
        RepeatedByte(b, m, pos, k);
      }
    }
  }
}
