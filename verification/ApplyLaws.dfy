// What ApplyPatch makes of any patch, in terms of the patch's bytes and the
// triples they hold: when it is patched, to what, and when it is corrupt.
module ApplyLaws {
  import opened Bytes
  import opened OffT
  import opened Compressor
  import opened Options
  import opened ApplyPatch
  import opened RoundTrip

  // Bytes to add, bytes to copy, and the distance to seek.
  datatype Triple = Triple(x: int, y: int, z: int)

  // The k-th triple of the decompressed data.
  function TripleAt(out: seq<byte>, k: nat): Triple
    requires 24 * k + 24 <= |out|
  {
    Triple(Decode(out[24 * k..24 * k + 8]), Decode(out[24 * k + 8..24 * k + 16]),
           Decode(out[24 * k + 16..24 * k + 24]))
  }

  // Some triples, in their order: how many, the bytes they add and copy, and
  // where they leave the old file.
  datatype Triples = NoTriples | And(init: Triples, last: Triple) {
    function Size(): nat {
      if NoTriples? then 0 else init.Size() + 1
    }

    function Added(): int {
      if NoTriples? then 0 else init.Added() + last.x
    }

    function Copied(): int {
      if NoTriples? then 0 else init.Copied() + last.y
    }

    function Moved(): int {
      if NoTriples? then 0 else init.Moved() + last.x + last.z
    }
  }

  // The decompressed data: triples from 0 on, diff bytes from d on and extra
  // bytes from e on; and the size n of the new file.
  datatype Data = Data(out: seq<byte>, d: nat, e: nat, n: nat)

  // With a bytes added and c copied so far, the triple w goes past the end of the new file.
  predicate TooLong(t: Data, a: int, c: int, w: Triple) {
    || a + c + w.x > t.n
    || (0 <= w.x && t.d + a + w.x <= |t.out| && a + c + w.x <= (t.n + 1) % 0x1_0000_0000 && a + c + w.x + w.y > t.n)
  }

  // It can be done: there are enough bytes, and enough room.
  predicate Fine(t: Data, a: int, c: int, w: Triple) {
    && 0 <= w.x && t.d + a + w.x <= |t.out| && 0 <= w.y && t.e + c + w.y <= |t.out|
    && a + c + w.x + w.y <= t.n && a + c + w.x + w.y <= (t.n + 1) % 0x1_0000_0000
  }

  // The data begin with the triples ts.
  ghost predicate Holds(out: seq<byte>, ts: Triples) {
    ts.And? ==> Holds(out, ts.init) && 24 * ts.Size() <= |out| && ts.last == TripleAt(out, ts.init.Size())
  }

  // Each of them can be done and is needed.
  ghost predicate AllFine(t: Data, ts: Triples) {
    ts.And? ==>
      && AllFine(t, ts.init) && ts.init.Added() + ts.init.Copied() < t.n
      && Fine(t, ts.init.Added(), ts.init.Copied(), ts.last)
  }

  lemma {:induction false} SumsKept(t: Data, ts: Triples)
    requires AllFine(t, ts) && t.d <= |t.out| && t.e <= |t.out|
    ensures 0 <= ts.Added() && t.d + ts.Added() <= |t.out| && 0 <= ts.Copied() && t.e + ts.Copied() <= |t.out|
    ensures ts.Added() + ts.Copied() <= t.n && ts.Added() + ts.Copied() <= (t.n + 1) % 0x1_0000_0000
  {
    if ts.And? {
      SumsKept(t, ts.init);
    }
  }

  // Diff bytes, to which the old bytes from position from on are added modulo
  // 256, where there are any.
  ghost function Patch(diff: seq<byte>, base: seq<byte>, from: int): (r: seq<byte>)
    ensures |r| == |diff|
    ensures forall i :: 0 <= i < |diff| ==>
              r[i] as int == if 0 <= from + i < |base| then (diff[i] as int + base[from + i] as int) % 256 else diff[i]
  {
    seq<byte>(|diff|, i requires 0 <= i < |diff| =>
      if 0 <= from + i < |base| then (diff[i] as int + base[from + i] as int) % 256 else diff[i])
  }

  // What the triples make of the old file.
  ghost function NewFile(t: Data, base: seq<byte>, ts: Triples): (r: seq<byte>)
    requires AllFine(t, ts) && t.d <= |t.out| && t.e <= |t.out|
    ensures |r| == ts.Added() + ts.Copied()
  {
    if ts.NoTriples? then []
    else
      SumsKept(t, ts.init);
      NewFile(t, base, ts.init)
        + Patch(t.out[t.d + ts.init.Added()..t.d + ts.init.Added() + ts.last.x], base, ts.init.Moved())
        + t.out[t.e + ts.init.Copied()..t.e + ts.init.Copied() + ts.last.y]
  }

  // ------------------------------------------------------- the replay loop

  // A reader behind the triples.
  ghost predicate Behind(t: Data, ts: Triples, r: Reader) {
    && 24 * ts.Size() <= |t.out| && InRange(t.out, r) && r.coff == 24 * ts.Size()
    && r.doff == t.d + ts.Added() && r.eoff == t.e + ts.Copied()
    && r.oldpos == ts.Moved() && |r.done| == ts.Added() + ts.Copied()
  }

  ghost function ReaderBehind(t: Data, base: seq<byte>, ts: Triples): (r: Reader)
    requires AllFine(t, ts) && t.d <= |t.out| && t.e <= |t.out| && 24 * ts.Size() <= |t.out|
    ensures Behind(t, ts, r) && r.done == NewFile(t, base, ts)
  {
    SumsKept(t, ts);
    Reader(24 * ts.Size(), t.d + ts.Added(), t.e + ts.Copied(), ts.Moved(), NewFile(t, base, ts))
  }

  lemma {:induction false} PatchIsAddOld(diff: seq<byte>, base: seq<byte>, from: int)
    ensures Patch(diff, base, from) == AddOld(diff, base, from)
  {
  }

  // One more triple, that can be done.
  lemma {:induction false} ReadsTriple(base: seq<byte>, out: seq<byte>, n: nat, k: nat, w: Triple, r: Reader, s: Reader)
    requires InRange(out, r) && r.coff == 24 * k && 24 * k + 24 <= |out| && w == TripleAt(out, k)
    requires 0 <= w.x && r.doff + w.x <= |out| && 0 <= w.y && r.eoff + w.y <= |out|
    requires |r.done| + w.x + w.y <= n && |r.done| + w.x + w.y <= (n + 1) % 0x1_0000_0000
    requires s == Reader(r.coff + 24, r.doff + w.x, r.eoff + w.y, r.oldpos + w.x + w.z,
                         r.done + Patch(out[r.doff..r.doff + w.x], base, r.oldpos) + out[r.eoff..r.eoff + w.y])
    ensures ReadOn(base, out, n, r) == Read(s)
  {
    var diff, extra := out[r.doff..r.doff + w.x], out[r.eoff..r.eoff + w.y];
    PatchIsAddOld(diff, base, r.oldpos);
    ReadsOn(base, out, n, r, s, diff, extra, w.z);
  }

  // One that stops the loop.
  lemma {:induction false} StopsAtTriple(t: Data, base: seq<byte>, k: nat, a: int, c: int, w: Triple, r: Reader)
    requires InRange(t.out, r) && r.coff == 24 * k && 24 * k + 24 <= |t.out| && w == TripleAt(t.out, k)
    requires r.doff == t.d + a && r.eoff == t.e + c && |r.done| == a + c
    ensures TooLong(t, a, c, w) ==> ReadOn(base, t.out, t.n, r) == Failed
    ensures !TooLong(t, a, c, w) && !Fine(t, a, c, w) ==> ReadOn(base, t.out, t.n, r) == OutOfBounds
  {
    if 0 <= w.x && r.doff + w.x <= |t.out| {
      assert |r.done + AddOld(t.out[r.doff..r.doff + w.x], base, r.oldpos)| == |r.done| + w.x;
    }
  }

  lemma {:induction false} NextFile(t: Data, base: seq<byte>, ts: Triples, w: Triple, a: int, c: int, from: int)
    requires AllFine(t, ts) && ts.And? && w == ts.last && t.d <= |t.out| && t.e <= |t.out|
    requires a == t.d + ts.init.Added() && c == t.e + ts.init.Copied() && from == ts.init.Moved()
    ensures 0 <= a <= a + w.x <= |t.out| && 0 <= c <= c + w.y <= |t.out|
    ensures NewFile(t, base, ts)
         == NewFile(t, base, ts.init) + Patch(t.out[a..a + w.x], base, from) + t.out[c..c + w.y]
  {
    SumsKept(t, ts.init);
  }

  // The reader behind one more triple.
  lemma {:induction false} NextBehind(t: Data, base: seq<byte>, ts: Triples, w: Triple, r: Reader, s: Reader)
    requires AllFine(t, ts) && ts.And? && w == ts.last && t.d <= |t.out| && t.e <= |t.out|
    requires 24 * ts.Size() <= |t.out| && r == ReaderBehind(t, base, ts.init) && s == ReaderBehind(t, base, ts)
    ensures 0 <= w.x && r.doff + w.x <= |t.out| && 0 <= w.y && r.eoff + w.y <= |t.out|
    ensures |r.done| + w.x + w.y <= t.n && |r.done| + w.x + w.y <= (t.n + 1) % 0x1_0000_0000
    ensures |r.done| < t.n && InRange(t.out, r) && r.coff == 24 * ts.init.Size()
    ensures s == Reader(r.coff + 24, r.doff + w.x, r.eoff + w.y, r.oldpos + w.x + w.z,
                        r.done + Patch(t.out[r.doff..r.doff + w.x], base, r.oldpos) + t.out[r.eoff..r.eoff + w.y])
  {
    NextFile(t, base, ts, w, r.doff, r.eoff, r.oldpos);
  }

  lemma {:induction false} Onward(base: seq<byte>, out: seq<byte>, n: nat, k: nat, w: Triple, r: Reader, s: Reader)
    requires InRange(out, r) && r.coff == 24 * k && 24 * k + 24 <= |out| && w == TripleAt(out, k)
    requires 0 <= w.x && r.doff + w.x <= |out| && 0 <= w.y && r.eoff + w.y <= |out|
    requires |r.done| < n && |r.done| + w.x + w.y <= n && |r.done| + w.x + w.y <= (n + 1) % 0x1_0000_0000
    requires s == Reader(r.coff + 24, r.doff + w.x, r.eoff + w.y, r.oldpos + w.x + w.z,
                         r.done + Patch(out[r.doff..r.doff + w.x], base, r.oldpos) + out[r.eoff..r.eoff + w.y])
    ensures InRange(out, s) && Replay(base, out, n, r) == Replay(base, out, n, s)
  {
    ReadsTriple(base, out, n, k, w, r, s);
    ReplayUnfolds(base, out, n, r, s);
  }

  lemma {:induction false} ReplaysOne(t: Data, base: seq<byte>, ts: Triples, w: Triple, r: Reader, s: Reader)
    requires AllFine(t, ts) && ts.And? && w == ts.last && t.d <= |t.out| && t.e <= |t.out|
    requires 24 * ts.Size() <= |t.out| && r == ReaderBehind(t, base, ts.init) && s == ReaderBehind(t, base, ts)
    requires w == TripleAt(t.out, ts.init.Size())
    ensures Replay(base, t.out, t.n, r) == Replay(base, t.out, t.n, s)
  {
    NextBehind(t, base, ts, w, r, s);
    Onward(base, t.out, t.n, ts.init.Size(), w, r, s);
  }

  // The loop goes through all triples that can be done.
  lemma {:induction false} ReplaysAll(t: Data, base: seq<byte>, ts: Triples)
    requires Holds(t.out, ts) && AllFine(t, ts) && t.d <= |t.out| && t.e <= |t.out|
    ensures 24 * ts.Size() <= |t.out|
    ensures Replay(base, t.out, t.n, ReaderBehind(t, base, NoTriples))
         == Replay(base, t.out, t.n, ReaderBehind(t, base, ts))
  {
    if ts.And? {
      ReplaysAll(t, base, ts.init);
      ReplaysOne(t, base, ts, ts.last, ReaderBehind(t, base, ts.init), ReaderBehind(t, base, ts));
    }
  }

  // The triples ts are all that can be done.
  ghost predicate Stuck(t: Data, ts: Triples) {
    && Holds(t.out, ts) && AllFine(t, ts)
    && (ts.Added() + ts.Copied() >= t.n || 24 * ts.Size() + 24 > |t.out|
        || !Fine(t, ts.Added(), ts.Copied(), TripleAt(t.out, ts.Size())))
  }

  lemma {:induction false} GetsStuck(t: Data, ts: Triples) returns (us: Triples)
    requires Holds(t.out, ts) && AllFine(t, ts)
    ensures Stuck(t, us)
    decreases |t.out| - 24 * ts.Size()
  {
    us := ts;
    if !Stuck(t, ts) {
      us := GetsStuck(t, And(ts, TripleAt(t.out, ts.Size())));
    }
  }

  // The triples ts are all there is to do ...
  ghost predicate Finishes(t: Data, ts: Triples) {
    Holds(t.out, ts) && AllFine(t, ts) && ts.Added() + ts.Copied() == t.n
  }

  // ... or the next goes past the end of the new file.
  ghost predicate Fails(t: Data, ts: Triples) {
    && Holds(t.out, ts) && AllFine(t, ts) && ts.Added() + ts.Copied() < t.n
    && 24 * ts.Size() + 24 <= |t.out| && TooLong(t, ts.Added(), ts.Copied(), TripleAt(t.out, ts.Size()))
  }

  lemma {:induction false} ReplayStops(base: seq<byte>, out: seq<byte>, n: nat, r: Reader)
    requires InRange(out, r)
    ensures |r.done| >= n ==> Replay(base, out, n, r) == Read(r)
    ensures |r.done| < n && !ReadOn(base, out, n, r).Read? ==>
      Replay(base, out, n, r) == ReadOn(base, out, n, r)
    ensures r.coff + 24 > |out| ==> ReadOn(base, out, n, r) == OutOfBounds
  {
  }

  lemma {:induction false} StuckAt(t: Data, base: seq<byte>, ts: Triples, r: Reader)
    requires Stuck(t, ts) && Behind(t, ts, r) && |r.done| <= t.n
    ensures Replay(base, t.out, t.n, r)
         == if Finishes(t, ts) then Read(r) else if Fails(t, ts) then Failed else OutOfBounds
  {
    ReplayStops(base, t.out, t.n, r);
    if r.coff + 24 <= |t.out| {
      StopsAtTriple(t, base, ts.Size(), ts.Added(), ts.Copied(), TripleAt(t.out, ts.Size()), r);
    }
  }

  lemma {:induction false} StuckResult(t: Data, base: seq<byte>, ts: Triples)
    requires t.d <= |t.out| && t.e <= |t.out| && Stuck(t, ts)
    ensures 24 * ts.Size() <= |t.out|
    ensures Replay(base, t.out, t.n, ReaderBehind(t, base, NoTriples))
         == if Finishes(t, ts) then Read(ReaderBehind(t, base, ts))
            else if Fails(t, ts) then Failed
            else OutOfBounds
  {
    ReplaysAll(t, base, ts);
    SumsKept(t, ts);
    StuckAt(t, base, ts, ReaderBehind(t, base, ts));
  }

  // How the loop ends, for any data.
  lemma {:induction false} FailsIff(t: Data, base: seq<byte>, first: Reader)
    requires t.d <= |t.out| && t.e <= |t.out| && first == Reader(0, t.d, t.e, 0, [])
    ensures Replay(base, t.out, t.n, first) == Failed <==> exists ts :: Fails(t, ts)
  {
    assert first == ReaderBehind(t, base, NoTriples);
    if ts :| Fails(t, ts) {
      StuckResult(t, base, ts);
    } else {
      var us := GetsStuck(t, NoTriples);
      StuckResult(t, base, us);
    }
  }

  lemma {:induction false} FinishesIff(t: Data, base: seq<byte>, first: Reader, data: seq<byte>)
    requires t.d <= |t.out| && t.e <= |t.out| && first == Reader(0, t.d, t.e, 0, [])
    ensures (Replay(base, t.out, t.n, first).Read? && Replay(base, t.out, t.n, first).reader.done == data)
       <==> exists ts :: Finishes(t, ts) && NewFile(t, base, ts) == data
  {
    assert first == ReaderBehind(t, base, NoTriples);
    if ts :| Finishes(t, ts) && NewFile(t, base, ts) == data {
      StuckResult(t, base, ts);
    } else {
      var us := GetsStuck(t, NoTriples);
      StuckResult(t, base, us);
    }
  }

  // -------------------------------------------------------------- the blocks

  // Of the blocks of x and y bytes and the rest, one is corrupt, and those
  // before it are there and leave their data in a buffer of 32-bit size.
  predicate CorruptBlock(codec: Codec, body: seq<byte>, x: nat, y: nat) {
    x <= |body| &&
    match codec.decompress(body[..x])
    case None => true
    case Some(c) =>
      var a := DecompressRoom(0, 0, x, |c|, false);
      a < 0x1_0000_0000 && x + y <= |body| &&
      match codec.decompress(body[x..x + y])
      case None => true
      case Some(d) =>
        DecompressRoom(a, |c|, y, |c| + |d|, false) < 0x1_0000_0000 && codec.decompress(body[x + y..]).None?
  }

  // The three blocks hold c, d and e, which fit in a buffer of 32-bit size.
  predicate Unpacks(codec: Codec, body: seq<byte>, x: nat, y: nat, c: seq<byte>, d: seq<byte>, e: seq<byte>) {
    && x + y <= |body| && codec.decompress(body[..x]) == Some(c) && codec.decompress(body[x..x + y]) == Some(d)
    && codec.decompress(body[x + y..]) == Some(e) && RoomFor(x, y, |body| - x - y, |c|, |d|, |e|)
  }

  lemma {:induction false} CorruptBlockIff(codec: Codec, body: seq<byte>, x: nat, y: nat)
    ensures UnpackBody(codec, body, x, y) == Rejected <==> CorruptBlock(codec, body, x, y)
  {
  }

  lemma {:induction false} UnpackedParts(codec: Codec, body: seq<byte>, x: nat, y: nat)
    returns (c: seq<byte>, d: seq<byte>, e: seq<byte>)
    requires UnpackBody(codec, body, x, y).Blocks?
    ensures Unpacks(codec, body, x, y, c, d, e)
  {
    c, d, e := codec.decompress(body[..x]).value, codec.decompress(body[x..x + y]).value,
               codec.decompress(body[x + y..]).value;
  }

  lemma {:induction false} PartsUnpacked(codec: Codec, body: seq<byte>, x: nat, y: nat, c: seq<byte>, d: seq<byte>,
                                         e: seq<byte>)
    requires Unpacks(codec, body, x, y, c, d, e)
    ensures UnpackBody(codec, body, x, y) == Blocks(c + d + e, |c|, |c| + |d|)
  {
    assert body == body[..x] + body[x..x + y] + body[x + y..];
    RoundTrip.UnpackBlocks(codec, body[..x], body[x..x + y], body[x + y..], c, d, e, body,
                           Blocks(c + d + e, |c|, |c| + |d|));
  }

  // ------------------------------------------------------------ whole patches

  // The first eight bytes are those of BSDIFF40.
  predicate Signed(patch: seq<byte>) {
    |patch| >= 8 && patch[..8] == [66, 83, 68, 73, 70, 70, 52, 48]
  }

  // The data of a patch, once its three blocks are unpacked to c, d and e.
  function DataOf(patch: seq<byte>, c: seq<byte>, d: seq<byte>, e: seq<byte>): Data
    requires |patch| >= 32
  {
    Data(c + d + e, |c|, |c| + |d|, Decode(patch[24..32]) % 0x1_0000_0000)
  }

  // The patch is well-formed up to its triples, and holds these data.
  ghost predicate Opens(codec: Codec, patch: seq<byte>, c: seq<byte>, d: seq<byte>, e: seq<byte>) {
    && Signed(patch) && |patch| >= 32 && 0 <= Decode(patch[8..16]) && 0 <= Decode(patch[16..24])
    && Unpacks(codec, patch[32..], Decode(patch[8..16]), Decode(patch[16..24]), c, d, e)
  }

  // For every old file and every patch, the call reports corruption exactly if
  // the signature is wrong, or a length is negative, or a block is corrupt, or
  // all this is well and a triple goes past the end of the new file.
  lemma {:induction false} CorruptIff(codec: Codec, base: seq<byte>, patch: seq<byte>)
    ensures Apply(codec, base, patch) == Corrupt
       <==> |patch| >= 8
            && (!Signed(patch)
                || (|patch| >= 32
                    && (Decode(patch[8..16]) < 0 || Decode(patch[16..24]) < 0
                        || CorruptBlock(codec, patch[32..], Decode(patch[8..16]), Decode(patch[16..24]))
                        || exists c, d, e, ts ::
                             Opens(codec, patch, c, d, e) && Fails(DataOf(patch, c, d, e), ts))))
  {
    if Signed(patch) && |patch| >= 32 && 0 <= Decode(patch[8..16]) && 0 <= Decode(patch[16..24]) {
      var x, y := Decode(patch[8..16]), Decode(patch[16..24]);
      CorruptBlockIff(codec, patch[32..], x, y);
      if !CorruptBlock(codec, patch[32..], x, y) {
        OpenedCorrupt(codec, base, patch);
      }
    }
  }

  // It gives a new file exactly if all this is well and the triples, done one
  // after the other, end at its size.
  lemma {:induction false} PatchedIff(codec: Codec, base: seq<byte>, patch: seq<byte>, data: seq<byte>)
    ensures Apply(codec, base, patch) == Patched(data)
       <==> exists c, d, e, ts ::
              && Opens(codec, patch, c, d, e) && Finishes(DataOf(patch, c, d, e), ts)
              && NewFile(DataOf(patch, c, d, e), base, ts) == data
  {
    if c, d, e, ts :| Opens(codec, patch, c, d, e) && Finishes(DataOf(patch, c, d, e), ts)
                      && NewFile(DataOf(patch, c, d, e), base, ts) == data {
      OpenedResult(codec, base, patch, c, d, e, data);
    } else if Apply(codec, base, patch) == Patched(data) {
      var c, d, e := UnpackedParts(codec, patch[32..], Decode(patch[8..16]), Decode(patch[16..24]));
      OpenedResult(codec, base, patch, c, d, e, data);
    }
  }

  // What a replay comes to.
  function Outcome(r: Replayed): ApplyPatch.Outcome {
    match r
    case Read(reader) => Patched(reader.done)
    case Failed => Corrupt
    case OutOfBounds => Undefined
  }

  lemma {:induction false} FinishOutcome(base: seq<byte>, u: Unpacked, n: nat, first: Reader)
    requires u.Blocks? && u.doff <= |u.out| && u.eoff <= |u.out| && first == Reader(0, u.doff, u.eoff, 0, [])
    ensures Finish(base, u, n) == Outcome(Replay(base, u.out, n, first))
  {
  }

  lemma {:induction false} OpenedUnpacks(codec: Codec, patch: seq<byte>, c: seq<byte>, d: seq<byte>, e: seq<byte>,
                                         u: Unpacked)
    requires Opens(codec, patch, c, d, e) && u == Blocks(c + d + e, |c|, |c| + |d|)
    ensures Unpack(codec, patch) == u
  {
    PartsUnpacked(codec, patch[32..], Decode(patch[8..16]), Decode(patch[16..24]), c, d, e);
  }

  lemma {:induction false} OpenedIs(codec: Codec, base: seq<byte>, patch: seq<byte>, c: seq<byte>, d: seq<byte>,
                                    e: seq<byte>, t: Data, first: Reader)
    requires Opens(codec, patch, c, d, e) && t == DataOf(patch, c, d, e) && first == Reader(0, t.d, t.e, 0, [])
    ensures t.d <= |t.out| && t.e <= |t.out|
    ensures Apply(codec, base, patch) == Outcome(Replay(base, t.out, t.n, first))
  {
    var u := Blocks(t.out, t.d, t.e);
    OpenedUnpacks(codec, patch, c, d, e, u);
    ApplyFinishes(codec, base, patch, u, t.n, Finish(base, u, t.n));
    FinishOutcome(base, u, t.n, first);
  }

  lemma {:induction false} OpenedResult(codec: Codec, base: seq<byte>, patch: seq<byte>, c: seq<byte>, d: seq<byte>,
                                        e: seq<byte>, data: seq<byte>)
    requires Opens(codec, patch, c, d, e)
    ensures Apply(codec, base, patch) == Corrupt <==> exists ts :: Fails(DataOf(patch, c, d, e), ts)
    ensures Apply(codec, base, patch) == Patched(data)
       <==> exists ts :: Finishes(DataOf(patch, c, d, e), ts) && NewFile(DataOf(patch, c, d, e), base, ts) == data
  {
    var t := DataOf(patch, c, d, e);
    var first := Reader(0, t.d, t.e, 0, []);
    OpenedIs(codec, base, patch, c, d, e, t, first);
    FailsIff(t, base, first);
    FinishesIff(t, base, first, data);
  }

  lemma {:induction false} OpenedCorrupt(codec: Codec, base: seq<byte>, patch: seq<byte>)
    requires Signed(patch) && |patch| >= 32 && 0 <= Decode(patch[8..16]) && 0 <= Decode(patch[16..24])
    requires UnpackBody(codec, patch[32..], Decode(patch[8..16]), Decode(patch[16..24])) != Rejected
    ensures Apply(codec, base, patch) == Corrupt
       <==> exists c, d, e, ts :: Opens(codec, patch, c, d, e) && Fails(DataOf(patch, c, d, e), ts)
  {
    if c, d, e, ts :| Opens(codec, patch, c, d, e) && Fails(DataOf(patch, c, d, e), ts) {
      OpenedResult(codec, base, patch, c, d, e, []);
    } else if Apply(codec, base, patch) == Corrupt {
      var c, d, e := UnpackedParts(codec, patch[32..], Decode(patch[8..16]), Decode(patch[16..24]));
      OpenedResult(codec, base, patch, c, d, e, []);
    }
  }

  // So a new file comes only of a patch that has none of these faults.
  lemma {:induction false} PatchedHasNoFault(codec: Codec, base: seq<byte>, patch: seq<byte>)
    requires Apply(codec, base, patch).Patched?
    ensures Signed(patch) && |patch| >= 32 && 0 <= Decode(patch[8..16]) && 0 <= Decode(patch[16..24])
    ensures !CorruptBlock(codec, patch[32..], Decode(patch[8..16]), Decode(patch[16..24]))
    ensures forall c, d, e, ts :: Opens(codec, patch, c, d, e) ==> !Fails(DataOf(patch, c, d, e), ts)
    ensures |Apply(codec, base, patch).data| == Decode(patch[24..32]) % 0x1_0000_0000
  {
    CorruptIff(codec, base, patch);
    PatchedIff(codec, base, patch, Apply(codec, base, patch).data);
  }
}
