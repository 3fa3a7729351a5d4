// The compressor that the patch code uses, as far as the patch code can see
// it: a codec for whole blocks, and the two classes that feed it.
module Compressor {
  import opened Bytes
  import opened Options

  // Sizes and totals are 32 unsigned bits wide.
  const MAX_SIZE: int := 0x1_0000_0000

  // bzip2 is not modelled; any codec may stand for it.
  datatype Codec = Codec(compress: seq<byte> -> seq<byte>, decompress: seq<byte> -> Option<seq<byte>>)

  ghost predicate Lossless(codec: Codec) {
    forall s :: codec.decompress(codec.compress(s)) == Some(s)
  }

  // bzip2 promises a little over the input size plus 600 bytes, and never
  // leaves a block empty.
  ghost predicate Bounded(codec: Codec) {
    forall s :: 0 < |codec.compress(s)| <= 2 * |s| + 600
  }

  // There are such codecs: one that stores blocks behind one byte, for instance.
  function StoredCodec(): Codec {
    Codec((s: seq<byte>) => [0] + s, (s: seq<byte>) => if |s| == 0 then None else Some(s[1..]))
  }

  lemma {:induction false} CodecsExist()
    ensures Lossless(StoredCodec()) && Bounded(StoredCodec())
  {
    forall s: seq<byte>
      ensures StoredCodec().decompress(StoredCodec().compress(s)) == Some(s)
    {
      assert ([0] + s)[1..] == s;
    }
  }

  // BZ_MAX_UNUSED
  const FIRST: nat := 5000

  // The size of an output buffer that is doubled until the total is less.
  function Doubled(size: nat, total: nat): (r: nat)
    requires size > 0
    ensures total < r && (r == size || r <= 2 * total)
    decreases if total < size then 0 else total - size + 1
  {
    if total < size then size else Doubled(2 * size, total)
  }

  // The size of the compressor's buffer after a call with len bytes of input,
  // during which the total grows to after.
  function CompressRoom(size: nat, total: nat, len: nat, after: nat): (r: nat)
    ensures after < r
  {
    var first := if size > 0 then size else if len < FIRST then FIRST else len;
    Doubled(if total == first then first + len else first, after)
  }

  // The size of an output buffer that is widened until it holds the total; at
  // the end of the last block it may not be full.  With no input it is never widened.
  function Widened(size: nat, total: nat, step: nat, last: bool): (r: nat)
    ensures total <= r && (last ==> total < r) && (r == size || step == 0 || r <= total + step)
    decreases if total < size then 0 else total - size + 1
  {
    if total < size || (total == size && !last) then size
    else if step == 0 then MAX_SIZE + total
    else Widened(size + step, total, step, last)
  }

  // The size of the decompressor's buffer after a call with len bytes of input,
  // during which the total grows to after.
  function DecompressRoom(size: nat, total: nat, len: nat, after: nat, last: bool): (r: nat)
    ensures after <= r && (last ==> after < r)
  {
    var first := if size > 0 then size else if 2 * len < FIRST then FIRST else 2 * len;
    Widened(if total == first then first + 4 * len else first, after, 4 * len, last)
  }

  // The first buffers, and how a full one grows, in numbers.
  lemma {:induction false} RoomIs(size: nat, len: nat, after: nat, last: bool)
    ensures var r := if len < 5000 then 5000 else len; after < r ==> CompressRoom(0, 0, len, after) == r
    ensures var r := if 2 * len < 5000 then 5000 else 2 * len; after < r ==> DecompressRoom(0, 0, len, after, last) == r
    ensures 0 < size && after < size + len ==> CompressRoom(size, size, len, after) == size + len
    ensures 0 < size && after < size + 4 * len ==> DecompressRoom(size, size, len, after, last) == size + 4 * len
    ensures 1 < size <= after < 2 * size ==> CompressRoom(size, 1, len, after) == 2 * size
    ensures 1 < size < after < size + 4 * len ==> DecompressRoom(size, 1, len, after, last) == size + 4 * len
    ensures 1 < size == after && len > 0 ==>
      DecompressRoom(size, 1, len, after, last) == if last then size + 4 * len else size
  {
    if 0 < size && after < 2 * size {
      assert Doubled(2 * size, after) == 2 * size;
    }
  }

  // Blocks are handed over in pieces; each finish ends one block.
  class MemoryCompressor {
    const codec: Codec
    var pending: seq<byte>
    var output: seq<byte>
    var allocatedSize: nat
    // The 32-bit size of the buffer has wrapped around.
    var wrapped: bool

    constructor (codec: Codec)
      ensures this.codec == codec && pending == [] && Collecting()
    {
      this.codec := codec;
      pending, output := [], [];
      allocatedSize, wrapped := 0, false;
    }

    // Nothing has been finished, so that there is no output yet.
    ghost predicate Collecting()
      reads this
    {
      output == [] && !wrapped && (allocatedSize == 0 || allocatedSize == FIRST)
    }

    method Compress(input: seq<byte>, finish: bool)
      modifies this
      ensures pending == if finish then [] else old(pending) + input
      ensures output == if finish then old(output) + codec.compress(old(pending) + input) else old(output)
      ensures var room := CompressRoom(old(allocatedSize), |old(output)|, |input|, |output|);
        && wrapped == (old(wrapped) || room >= MAX_SIZE)
        && allocatedSize == if finish then |output| else room
    {
      if allocatedSize == 0 {
        allocatedSize := if |input| < FIRST then FIRST else |input|;
      }
      if |output| == allocatedSize {
        allocatedSize := allocatedSize + |input|;
      }
      pending := pending + input;
      if finish {
        output := output + codec.compress(pending);
        pending := [];
      }
      allocatedSize := Double(allocatedSize, |output|);
      if allocatedSize >= MAX_SIZE {
        wrapped := true;
      }
      if finish {
        allocatedSize := |output|;
      }
    }

    method Double(size0: nat, total: nat) returns (size: nat)
      requires size0 > 0
      ensures size == Doubled(size0, total)
    {
      size := size0;
      while total >= size
        invariant size > 0 && Doubled(size, total) == Doubled(size0, total)
        decreases if total < size then 0 else total - size + 1
      {
        size := size * 2;
      }
    }
  }

  // The decompressor's output, the size of its buffer, and whether that has
  // wrapped around.
  datatype Inflated = Inflated(output: seq<byte>, size: nat, wrapped: bool)

  const EMPTY := Inflated([], 0, false)

  // One block more.  last lets a stream go on behind its end.
  function Inflate(codec: Codec, s: Inflated, input: seq<byte>, last: bool): (r: Option<Inflated>)
    ensures r.Some? && last && !r.value.wrapped ==> |r.value.output| < MAX_SIZE
    ensures r.Some? ==> |s.output| <= |r.value.output|
  {
    match codec.decompress(input)
    case None => None
    case Some(block) =>
      var room := DecompressRoom(s.size, |s.output|, |input|, |s.output| + |block|, last);
      Some(Inflated(s.output + block, if last then |s.output| + |block| else room, s.wrapped || room >= MAX_SIZE))
  }

  // Decompressed blocks accumulate in one buffer, which an error clears.
  class MemoryDecompressor {
    const codec: Codec
    var output: seq<byte>
    var allocatedSize: nat
    var wrapped: bool

    constructor (codec: Codec)
      ensures this.codec == codec && State() == EMPTY
    {
      this.codec := codec;
      output := [];
      allocatedSize, wrapped := 0, false;
    }

    ghost function State(): Inflated
      reads this
    {
      Inflated(output, allocatedSize, wrapped)
    }

    method Decompress(input: seq<byte>, last: bool) returns (ok: bool)
      modifies this
      ensures ok == Inflate(codec, old(State()), input, last).Some?
      ensures ok ==> State() == Inflate(codec, old(State()), input, last).value
      ensures !ok ==> output == []
    {
      match codec.decompress(input)
      case None =>
        output := [];
        ok := false;
      case Some(block) =>
        var room := MakeRoom(|input|, |output| + |block|, last);
        output := output + block;
        allocatedSize := if last then |output| else room;
        if room >= MAX_SIZE {
          wrapped := true;
        }
        ok := true;
    }

    // The size of the buffer when the total has grown to after.
    method MakeRoom(len: nat, after: nat, last: bool) returns (room: nat)
      ensures room == DecompressRoom(allocatedSize, |output|, len, after, last)
    {
      room := allocatedSize;
      if room == 0 {
        room := if 2 * len < FIRST then FIRST else 2 * len;
      }
      if |output| == room {
        room := room + 4 * len;
      }
      room := Widen(room, after, 4 * len, last);
    }

    method Widen(size0: nat, total: nat, step: nat, last: bool) returns (size: nat)
      ensures size == Widened(size0, total, step, last)
    {
      size := size0;
      while total > size || (total == size && last)
        invariant Widened(size, total, step, last) == Widened(size0, total, step, last)
        decreases if total < size then 0 else total - size + 1
      {
        if step == 0 {
          return MAX_SIZE + total;
        }
        size := size + step;
      }
    }
  }
}
