// The patch file: a 32-byte header and three compressed blocks, and
// CreatePatchInternal as a whole.
module CreatePatch {
  import opened Bytes
  import opened Options
  import opened Qsufsort
  import opened MatchSearch
  import opened ScanLoop
  import opened OffT
  import opened DiffTrace
  import opened Compressor
  import opened DiffLoop

  // "BSDIFF40"
  const MAGIC: seq<byte> := [66, 83, 68, 73, 70, 70, 52, 48]

  function Header(ctrllen: int, datalen: int, newsize: int): (h: seq<byte>)
    ensures |h| == 32
  {
    MAGIC + Encode(ctrllen) + Encode(datalen) + Encode(newsize)
  }

  // The patch for three streams and the size of the new file.
  function PatchFile(codec: Codec, control: seq<byte>, diff: seq<byte>, extra: seq<byte>, newsize: int): seq<byte> {
    var c, d, e := codec.compress(control), codec.compress(diff), codec.compress(extra);
    Header(|c|, |d|, newsize) + (c + d + e)
  }

  // Compressing d and e bytes of diff and extra data, after the control data,
  // to blocks of x, y and z bytes keeps the 32-bit sizes from wrapping around.
  predicate SizesFit(x: nat, y: nat, z: nat, d: nat, e: nat) {
    && Doubled(FIRST, x) < MAX_SIZE
    && CompressRoom(x, x, d, x + y) < MAX_SIZE
    && CompressRoom(x + y, x + y, e, x + y + z) < MAX_SIZE
    && 32 + x + y + z < MAX_SIZE
  }

  predicate PatchFits(codec: Codec, control: seq<byte>, diff: seq<byte>, extra: seq<byte>) {
    SizesFit(|codec.compress(control)|, |codec.compress(diff)|, |codec.compress(extra)|, |diff|, |extra|)
  }

  // The header is written with zero lengths first; the lengths are filled in
  // once the blocks are compressed.
  method StartHeader(newsize: int) returns (header: array<byte>)
    requires 0 <= newsize < LIMIT
    ensures fresh(header) && header[..] == Header(0, 0, newsize)
  {
    header := new byte[32];
    for i := 0 to 8
      invariant header[..i] == MAGIC[..i]
    {
      header[i] := MAGIC[i];
    }
    assert header[..8] == MAGIC;
    OffTOut(0, header, 8);
    assert header[..16] == MAGIC + Encode(0);
    OffTOut(0, header, 16);
    assert header[..24] == MAGIC + Encode(0) + Encode(0);
    OffTOut(newsize, header, 24);
  }

  // Overwrite the eight bytes b after a.
  method PutAt(header: array<byte>, at: nat, x: int, ghost a: seq<byte>, ghost b: seq<byte>, ghost c: seq<byte>)
    requires header[..] == a + b + c && |a| == at && |b| == 8 && -LIMIT < x < LIMIT
    modifies header
    ensures header[..] == a + Encode(x) + c
  {
    OffTOut(x, header, at);
  }

  method SetLengths(header: array<byte>, ctrllen: int, datalen: int, ghost newsize: int)
    requires header[..] == Header(0, 0, newsize) && 0 <= ctrllen < LIMIT && 0 <= datalen < LIMIT
    modifies header
    ensures header[..] == Header(ctrllen, datalen, newsize)
  {
    ghost var x, y, z, w := Encode(0), Encode(newsize), Encode(ctrllen), Encode(datalen);
    assert MAGIC + x + x + y == MAGIC + x + (x + y);
    PutAt(header, 8, ctrllen, MAGIC, x, x + y);
    assert MAGIC + z + (x + y) == (MAGIC + z) + x + y;
    PutAt(header, 16, datalen, MAGIC + z, x, y);
  }

  // Compress the three streams one after the other, and join header and blocks.
  // If a size outgrows 32 bits the source writes outside its buffers: None.
  method Assemble(patch: MemoryCompressor, header: array<byte>, db: array<byte>, dblen: nat, eb: array<byte>,
                  eblen: nat, ghost control: seq<byte>, ghost newsize: int)
    returns (out: Option<seq<byte>>)
    requires patch.pending == control && patch.Collecting()
    requires dblen <= db.Length && eblen <= eb.Length && header != db && header != eb
    requires header[..] == Header(0, 0, newsize)
    modifies patch, header
    ensures out == if PatchFits(patch.codec, control, db[..dblen], eb[..eblen])
                   then Some(PatchFile(patch.codec, control, db[..dblen], eb[..eblen], newsize))
                   else None
  {
    ghost var x, y := db[..dblen], eb[..eblen];
    ghost var c, d, e := patch.codec.compress(control), patch.codec.compress(x), patch.codec.compress(y);
    ghost var fits := SizesFit(|c|, |d|, |e|, |x|, |y|);
    EndControl(patch, control);
    if patch.wrapped {
      assert !fits;
      return None;
    }
    var len := |patch.output|;
    EndBlock(patch, db[..dblen], c, |c|, |d|);
    if patch.wrapped {
      assert !fits;
      return None;
    }
    var both := |patch.output|;
    SetLengths(header, len, both - len, newsize);
    EndBlock(patch, eb[..eblen], c + d, |c| + |d|, |e|);
    if patch.wrapped || 32 + |patch.output| >= MAX_SIZE {
      assert !fits;
      return None;
    }
    assert fits;
    out := Some(header[..] + patch.output);
  }

  // The end of the control block.
  method EndControl(patch: MemoryCompressor, ghost control: seq<byte>)
    requires patch.pending == control && patch.Collecting()
    modifies patch
    ensures patch.pending == [] && patch.output == patch.codec.compress(control)
    ensures patch.allocatedSize == |patch.output| && patch.wrapped == (Doubled(FIRST, |patch.output|) >= MAX_SIZE)
  {
    assert control + [] == control;
    patch.Compress([], true);
    assert [] + patch.codec.compress(control) == patch.codec.compress(control);
  }

  // One more block, behind the output so far.
  method EndBlock(patch: MemoryCompressor, data: seq<byte>, ghost output: seq<byte>, ghost before: nat,
                  ghost after: nat)
    requires patch.pending == [] && patch.output == output && patch.allocatedSize == |output| && !patch.wrapped
    requires before == |output| && after == |patch.codec.compress(data)|
    modifies patch
    ensures patch.pending == [] && patch.output == output + patch.codec.compress(data)
    ensures patch.allocatedSize == |patch.output|
    ensures patch.wrapped == (CompressRoom(before, before, |data|, before + after) >= MAX_SIZE)
  {
    assert [] + data == data;
    patch.Compress(data, true);
  }

  // The steps es and the matches ms they rest on are what Trace describes.
  method CreateStreams(base: seq<byte>, target: seq<byte>, patch: MemoryCompressor)
    returns (db: array<byte>, dblen: nat, eb: array<byte>, eblen: nat, ghost s: seq<int>, ghost es: Steps)
    requires |base| < MAX_SIZE && |target| < MAX_SIZE && patch.pending == [] && patch.Collecting()
    modifies patch
    ensures fresh(db) && fresh(eb) && dblen <= db.Length && eblen <= eb.Length
    ensures SuffixArray(base, s) && Positions(base, s)
    ensures Trace(base, target, Matches(base, s, target), es) && Complete(target, es)
    ensures AllTile(base, target, es)
    ensures db[..dblen] == Diffs(base, target, es) && eb[..eblen] == Extras(base, target, es)
    ensures patch.pending == Controls(es) && patch.Collecting()
  {
    var I, V := new int[|base| + 1], new int[|base| + 1];
    ghost var passes := QSufSort(I, V, base);
    s := I[..];
    MatchesUsable(base, s, target);
    db, eb := new byte[|target| + 1], new byte[|target| + 1];
    assert I[..] == s;
    dblen, eblen, es := EmitAll(I, base, target, db, eb, patch, Matches(base, s, target));
  }

  // CreatePatchInternal.
  method CreatePatch(base: seq<byte>, target: seq<byte>, codec: Codec)
    returns (out: Option<seq<byte>>, ghost s: seq<int>, ghost es: Steps)
    requires |base| < MAX_SIZE && |target| < MAX_SIZE
    ensures SuffixArray(base, s) && Positions(base, s)
    ensures Trace(base, target, Matches(base, s, target), es) && Complete(target, es) && AllTile(base, target, es)
    ensures out == if PatchFits(codec, Controls(es), Diffs(base, target, es), Extras(base, target, es))
                   then Some(PatchFile(codec, Controls(es), Diffs(base, target, es), Extras(base, target, es),
                                       |target|))
                   else None
  {
    var patch := new MemoryCompressor(codec);
    var db, dblen, eb, eblen;
    db, dblen, eb, eblen, s, es := CreateStreams(base, target, patch);
    var header := StartHeader(|target|);
    out := Assemble(patch, header, db, dblen, eb, eblen, Controls(es), |target|);
  }
}
