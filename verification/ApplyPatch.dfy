// ApplyPatch: header, three blocks in one buffer, and the replay loop.
module ApplyPatch {
  import opened Bytes
  import opened OffT
  import opened Compressor
  import opened Options
  import opened CreatePatch
  import opened DiffLoop

  // The result of a call.  Corrupt is the source's return of false; Undefined
  // is an input on which the source reads or writes outside its buffers.
  datatype Outcome = Patched(data: seq<byte>) | Corrupt | Undefined

  // The replay loop's variables: the three read offsets, the position in the
  // old file, and the new file so far.
  datatype Reader = Reader(coff: int, doff: int, eoff: int, oldpos: int, done: seq<byte>)

  // One round of the loop, and the loop as a whole.
  datatype Replayed = Read(reader: Reader) | Failed | OutOfBounds

  // Add the old bytes from position oldpos on, where there are any.
  function AddOld(diff: seq<byte>, base: seq<byte>, oldpos: int): (r: seq<byte>)
    ensures |r| == |diff|
  {
    seq<byte>(|diff|, i requires 0 <= i < |diff| =>
      if 0 <= oldpos + i < |base| then AddByte(diff[i], base[oldpos + i]) else diff[i])
  }

  predicate InRange(out: seq<byte>, r: Reader) {
    0 <= r.coff <= |out| && 0 <= r.doff <= |out| && 0 <= r.eoff <= |out|
  }

  // The size of the array for a new file, in 32 unsigned bits.
  function Room(newsize: nat): (r: nat)
    ensures newsize + 1 < MAX_SIZE ==> r == newsize + 1
  {
    (newsize + 1) % MAX_SIZE
  }

  // Read a triple (x, y, z): add x diff bytes to old bytes, copy y extra bytes,
  // and move the old position by z.
  function ReadOn(base: seq<byte>, out: seq<byte>, newsize: nat, r: Reader): (n: Replayed)
    requires InRange(out, r)
    ensures n.Read? ==> InRange(out, n.reader) && n.reader.coff == r.coff + 24
  {
    if r.coff + 24 > |out| then OutOfBounds
    else
      var x := Decode(out[r.coff..r.coff + 8]);
      var y := Decode(out[r.coff + 8..r.coff + 16]);
      var z := Decode(out[r.coff + 16..r.coff + 24]);
      if |r.done| + x > newsize then Failed
      else if x < 0 || r.doff + x > |out| || |r.done| + x > Room(newsize) then OutOfBounds
      else
        var added := r.done + AddOld(out[r.doff..r.doff + x], base, r.oldpos);
        if |added| + y > newsize then Failed
        else if y < 0 || r.eoff + y > |out| || |added| + y > Room(newsize) then OutOfBounds
        else Read(Reader(r.coff + 24, r.doff + x, r.eoff + y, r.oldpos + x + z, added + out[r.eoff..r.eoff + y]))
  }

  // A round that takes no early exit.
  lemma {:induction false} ReadsOn(base: seq<byte>, out: seq<byte>, newsize: nat, r: Reader, n: Reader,
                                   diff: seq<byte>, extra: seq<byte>, z: int)
    requires InRange(out, r) && r.coff + 24 <= |out| && r.doff + |diff| <= |out| && r.eoff + |extra| <= |out|
    requires Decode(out[r.coff..r.coff + 8]) == |diff| && Decode(out[r.coff + 8..r.coff + 16]) == |extra|
    requires Decode(out[r.coff + 16..r.coff + 24]) == z
    requires out[r.doff..r.doff + |diff|] == diff && out[r.eoff..r.eoff + |extra|] == extra
    requires n == Reader(r.coff + 24, r.doff + |diff|, r.eoff + |extra|, r.oldpos + |diff| + z,
                         r.done + AddOld(diff, base, r.oldpos) + extra)
    requires |n.done| <= newsize && |n.done| <= Room(newsize)
    ensures ReadOn(base, out, newsize, r) == Read(n)
  {
  }

  // The replay loop from r on: it reads on until the new file has its size.
  function Replay(base: seq<byte>, out: seq<byte>, newsize: nat, r: Reader): Replayed
    requires InRange(out, r)
    decreases |out| - r.coff
  {
    if |r.done| >= newsize then Read(r)
    else
      var n := ReadOn(base, out, newsize, r);
      if n.Read? then Replay(base, out, newsize, n.reader) else n
  }

  // The sizes in the header; the size of the new file is kept in 32 unsigned bits.
  function NewSize(patch: seq<byte>): nat
    requires |patch| >= 32
  {
    Decode(patch[24..32]) % MAX_SIZE
  }

  // What the header and the decompressor make of a patch: one buffer holding
  // the three blocks, and where the second and the third begin.
  datatype Unpacked = Blocks(out: seq<byte>, doff: nat, eoff: nat) | Rejected | Overrun

  // The blocks behind the header are decompressed one after the other.  Overrun
  // is a length that points past the patch, or a buffer that outgrows 32 bits.
  function UnpackBody(codec: Codec, body: seq<byte>, x: nat, y: nat): (r: Unpacked)
    ensures r.Blocks? ==> r.doff <= r.eoff <= |r.out| < MAX_SIZE
  {
    if x > |body| then Overrun
    else
      match Inflate(codec, EMPTY, body[..x], false)
      case None => Rejected
      case Some(s) =>
        if s.wrapped || x + y > |body| then Overrun
        else
          match Inflate(codec, s, body[x..x + y], false)
          case None => Rejected
          case Some(t) =>
            if t.wrapped then Overrun
            else
              match Inflate(codec, t, body[x + y..], true)
              case None => Rejected
              case Some(u) => if u.wrapped then Overrun else Blocks(u.output, |s.output|, |t.output|)
  }

  function Unpack(codec: Codec, patch: seq<byte>): (r: Unpacked)
    ensures r.Blocks? ==> |patch| >= 32 && r.doff <= r.eoff <= |r.out| < MAX_SIZE
  {
    if |patch| < 8 then Overrun
    else if patch[..8] != MAGIC then Rejected
    else if |patch| < 32 then Overrun
    else
      var x, y := Decode(patch[8..16]), Decode(patch[16..24]);
      if x < 0 || y < 0 then Rejected else UnpackBody(codec, patch[32..], x, y)
  }

  // The size of the new file has no part in this: of the header only the magic
  // and the two lengths can reject a patch, and a negative size is not rejected.
  lemma {:induction false} SizeNeverRejects(codec: Codec, p: seq<byte>, q: seq<byte>)
    requires |p| == |q| >= 32 && p[..24] == q[..24] && p[32..] == q[32..]
    ensures Unpack(codec, p) == Unpack(codec, q)
  {
    assert p[..8] == p[..24][..8] == q[..24][..8] == q[..8];
    assert p[8..16] == p[..24][8..16] == q[..24][8..16] == q[8..16];
    assert p[16..24] == p[..24][16..24] == q[..24][16..24] == q[16..24];
  }

  // What comes of the blocks, for a new file of newsize bytes.
  function Finish(base: seq<byte>, u: Unpacked, newsize: nat): Outcome
    requires u.Blocks? ==> u.doff <= |u.out| && u.eoff <= |u.out|
  {
    match u
    case Rejected => Corrupt
    case Overrun => Undefined
    case Blocks(out, doff, eoff) =>
      match Replay(base, out, newsize, Reader(0, doff, eoff, 0, []))
      case Read(reader) => Patched(reader.done)
      case Failed => Corrupt
      case OutOfBounds => Undefined
  }

  function Apply(codec: Codec, base: seq<byte>, patch: seq<byte>): Outcome {
    Finish(base, Unpack(codec, patch), if |patch| < 32 then 0 else NewSize(patch))
  }

  // For a size of 2^32 - 1 the array is empty, so that no patch succeeds.
  lemma {:induction false} NothingReplayed(base: seq<byte>, out: seq<byte>, r: Reader)
    requires InRange(out, r) && r.done == []
    ensures !Replay(base, out, MAX_SIZE - 1, r).Read?
    decreases |out| - r.coff
  {
    var n := ReadOn(base, out, MAX_SIZE - 1, r);
    if n.Read? {
      NothingReplayed(base, out, n.reader);
    }
  }

  lemma {:induction false} LargestNeverPatched(codec: Codec, base: seq<byte>, patch: seq<byte>)
    requires |patch| >= 32 && NewSize(patch) == MAX_SIZE - 1
    ensures !Apply(codec, base, patch).Patched?
  {
    match Unpack(codec, patch)
    case Blocks(out, doff, eoff) => NothingReplayed(base, out, Reader(0, doff, eoff, 0, []));
    case _ =>
  }

  // Copy the diff bytes to newFile[newpos..], and add the old bytes to them in place.
  method AddDiff(newFile: array<byte>, newpos: nat, out: seq<byte>, doff: nat, x: nat, base: seq<byte>, oldpos: int,
                 ghost done: seq<byte>, ghost diff: seq<byte>)
    requires newpos + x <= newFile.Length && doff + x <= |out| && newFile[..newpos] == done
    requires out[doff..doff + x] == diff
    modifies newFile
    ensures newFile[..newpos + x] == done + AddOld(diff, base, oldpos)
  {
    CopyBytes(newFile, newpos, out, doff, x, done, diff);
    for i := 0 to x
      invariant newFile[..newpos] == done
      invariant forall j :: newpos <= j < newpos + i ==> newFile[j] == AddOld(diff, base, oldpos)[j - newpos]
      invariant forall j :: newpos + i <= j < newpos + x ==> newFile[j] == diff[j - newpos]
    {
      if oldpos + i >= 0 && oldpos + i < |base| {
        newFile[newpos + i] := AddByte(newFile[newpos + i], base[oldpos + i]);
      }
    }
  }

  // memcpy from the decompressed data.
  method CopyBytes(newFile: array<byte>, newpos: nat, out: seq<byte>, off: nat, n: nat,
                   ghost done: seq<byte>, ghost piece: seq<byte>)
    requires newpos + n <= newFile.Length && off + n <= |out| && newFile[..newpos] == done && out[off..off + n] == piece
    modifies newFile
    ensures newFile[..newpos + n] == done + piece
  {
    for i := 0 to n
      invariant newFile[..newpos] == done
      invariant forall j :: newpos <= j < newpos + i ==> newFile[j] == piece[j - newpos]
    {
      newFile[newpos + i] := out[off + i];
    }
  }

  // The offsets are 32 bits wide.
  function Add32(a: nat, b: nat): (r: nat)
    ensures a + b < MAX_SIZE ==> r == a + b
  {
    (a + b) % MAX_SIZE
  }

  method ReadTriple(out: seq<byte>, coff: nat) returns (x: int, y: int, z: int)
    requires coff + 24 <= |out|
    ensures x == Decode(out[coff..coff + 8]) && y == Decode(out[coff + 8..coff + 16])
    ensures z == Decode(out[coff + 16..coff + 24])
  {
    x := OffTIn(out[coff..coff + 8]);
    y := OffTIn(out[coff + 8..coff + 16]);
    z := OffTIn(out[coff + 16..coff + 24]);
  }

  // One round of the loop.  If it ends the loop, end says how.
  method ReplayRound(newFile: array<byte>, base: seq<byte>, out: seq<byte>, newsize: nat, coff0: nat, doff0: nat,
                     eoff0: nat, oldpos0: int, newpos0: nat, ghost was: Reader)
    returns (end: Option<Replayed>, coff: nat, doff: nat, eoff: nat, oldpos: int, newpos: nat, ghost now: Reader)
    requires newsize < MAX_SIZE && newFile.Length == Room(newsize) && |out| < MAX_SIZE && InRange(out, was)
    requires newpos0 <= newFile.Length && was == Reader(coff0, doff0, eoff0, oldpos0, newFile[..newpos0])
    modifies newFile
    ensures end.Some? ==> ReadOn(base, out, newsize, was) == end.value && !end.value.Read?
    ensures end.None? ==> ReadOn(base, out, newsize, was) == Read(now) && newpos <= newFile.Length && newpos <= newsize
    ensures end.None? ==> now == Reader(coff, doff, eoff, oldpos, newFile[..newpos])
  {
    coff, doff, eoff, oldpos, newpos, now := coff0, doff0, eoff0, oldpos0, newpos0, was;
    if coff + 24 > |out| {
      return Some(OutOfBounds), coff, doff, eoff, oldpos, newpos, now;
    }
    var x, y, z := ReadTriple(out, coff);
    coff := Add32(coff, 24);
    if newpos + x > newsize {
      return Some(Failed), coff, doff, eoff, oldpos, newpos, now;
    }
    if x < 0 || doff + x > |out| || newpos + x > newFile.Length {
      return Some(OutOfBounds), coff, doff, eoff, oldpos, newpos, now;
    }
    ghost var diff := out[doff..doff + x];
    AddDiff(newFile, newpos, out, doff, x, base, oldpos, was.done, diff);
    ghost var added := was.done + AddOld(diff, base, oldpos);
    doff := Add32(doff, x);
    newpos := newpos + x;
    oldpos := oldpos + x;
    if newpos + y > newsize {
      return Some(Failed), coff, doff, eoff, oldpos, newpos, now;
    }
    if y < 0 || eoff + y > |out| || newpos + y > newFile.Length {
      return Some(OutOfBounds), coff, doff, eoff, oldpos, newpos, now;
    }
    ghost var extra := out[eoff..eoff + y];
    CopyBytes(newFile, newpos, out, eoff, y, added, extra);
    eoff := Add32(eoff, y);
    newpos := newpos + y;
    oldpos := oldpos + z;
    now := Reader(coff, doff, eoff, oldpos, newFile[..newpos]);
    ReadsOn(base, out, newsize, was, now, diff, extra, z);
    end := None;
  }

  method ReplayLoop(base: seq<byte>, out: seq<byte>, newsize: nat, doff0: nat, eoff0: nat) returns (r: Replayed)
    requires doff0 <= |out| && eoff0 <= |out| < MAX_SIZE && newsize < MAX_SIZE
    ensures r == Replay(base, out, newsize, Reader(0, doff0, eoff0, 0, []))
  {
    var newFile := new byte[(newsize + 1) % MAX_SIZE];
    var coff, doff, eoff := 0, doff0, eoff0;
    var oldpos, newpos := 0, 0;
    ghost var now := Reader(0, doff0, eoff0, 0, []);
    ghost var result := Replay(base, out, newsize, now);
    while newpos < newsize
      invariant 0 <= newpos <= newsize && newpos <= newFile.Length && InRange(out, now)
      invariant now == Reader(coff, doff, eoff, oldpos, newFile[..newpos])
      invariant Replay(base, out, newsize, now) == result
      decreases |out| - coff
    {
      var end;
      end, coff, doff, eoff, oldpos, newpos, now :=
        ReplayRound(newFile, base, out, newsize, coff, doff, eoff, oldpos, newpos, now);
      if end.Some? {
        return end.value;
      }
    }
    r := Read(Reader(coff, doff, eoff, oldpos, newFile[..newpos]));
  }

  method UnpackPatch(patch: seq<byte>, codec: Codec) returns (r: Unpacked)
    ensures r == Unpack(codec, patch)
  {
    if |patch| < 8 {
      return Overrun;
    }
    if patch[..8] != MAGIC {
      return Rejected;
    }
    if |patch| < 32 {
      return Overrun;
    }
    var bzctrllen := OffTIn(patch[8..16]);
    var bzdatalen := OffTIn(patch[16..24]);
    if bzctrllen < 0 || bzdatalen < 0 {
      return Rejected;
    }
    r := UnpackBlocks(patch[32..], bzctrllen, bzdatalen, codec);
  }

  method UnpackBlocks(body: seq<byte>, bzctrllen: nat, bzdatalen: nat, codec: Codec) returns (r: Unpacked)
    ensures r == UnpackBody(codec, body, bzctrllen, bzdatalen)
  {
    if bzctrllen > |body| {
      return Overrun;
    }
    var decompress := new MemoryDecompressor(codec);
    var ok := decompress.Decompress(body[..bzctrllen], false);
    if !ok {
      return Rejected;
    }
    var doff := |decompress.output|;
    if decompress.wrapped || bzctrllen + bzdatalen > |body| {
      return Overrun;
    }
    ok := decompress.Decompress(body[bzctrllen..bzctrllen + bzdatalen], false);
    if !ok {
      return Rejected;
    }
    var eoff := |decompress.output|;
    if decompress.wrapped {
      return Overrun;
    }
    ok := decompress.Decompress(body[bzctrllen + bzdatalen..], true);
    if !ok {
      return Rejected;
    }
    if decompress.wrapped {
      return Overrun;
    }
    r := Blocks(decompress.output, doff, eoff);
  }

  method ApplyPatch(base: seq<byte>, patch: seq<byte>, codec: Codec) returns (r: Outcome)
    ensures r == Apply(codec, base, patch)
  {
    var unpacked := UnpackPatch(patch, codec);
    match unpacked
    case Rejected => r := Corrupt;
    case Overrun => r := Undefined;
    case Blocks(out, doff, eoff) =>
      var size := OffTIn(patch[24..32]);
      var replayed := ReplayLoop(base, out, size % MAX_SIZE, doff, eoff);
      match replayed {
        case Read(reader) => r := Patched(reader.done);
        case Failed => r := Corrupt;
        case OutOfBounds => r := Undefined;
      }
  }
}
