// Applying a created patch gives back the new file.
module RoundTrip {
  import opened Bytes
  import opened OffT
  import opened ScanLoop
  import opened DiffTrace
  import opened DiffLoop
  import opened Compressor
  import opened Qsufsort
  import opened MatchSearch
  import opened Options
  import CreatePatch
  import ApplyPatch

  // Each stream begins with the stream of any prefix of the steps.
  lemma {:induction false} StreamsPrefix(base: seq<byte>, target: seq<byte>, p: Steps, all: Steps)
    requires AllTile(base, target, all) && IsPrefix(p, all)
    ensures AllTile(base, target, p)
    ensures Controls(p) <= Controls(all)
    ensures Diffs(base, target, p) <= Diffs(base, target, all)
    ensures Extras(base, target, p) <= Extras(base, target, all)
  {
    if p != all {
      StreamsPrefix(base, target, p, all.init);
    }
  }

  // What is known of a step in the middle of a complete trace.
  lemma {:induction false} StepInTrace(base: seq<byte>, target: seq<byte>, ms: seq<Match>, q: Steps, e: Step,
                                       all: Steps)
    requires Trace(base, target, ms, all) && IsPrefix(Then(q, e), all)
    ensures Trace(base, target, ms, q) && Joined(Then(q, e)) && Tiles(base, target, e) && IsPrefix(q, all)
  {
    if Then(q, e) == all {
      TraceJoined(base, target, ms, all);
    } else {
      StepInTrace(base, target, ms, q, e, all.init);
    }
  }

  lemma {:induction false} NotYetCovered(target: seq<byte>, q: Steps, e: Step, all: Steps)
    requires Unfinished(target, all) && IsPrefix(Then(q, e), all) && |target| > 0
    requires q.Then? ==> 0 <= q.last.Lenb()
    ensures Covered(q) < |target|
  {
    if Then(q, e) != all {
      NotYetCovered(target, q, e, all.init);
    }
  }

  lemma {:induction false} NotYetComplete(target: seq<byte>, q: Steps, e: Step, all: Steps)
    requires Complete(target, all) && IsPrefix(Then(q, e), all)
    requires q.Then? ==> 0 <= q.last.Lenb()
    ensures Covered(q) < |target|
  {
    if Then(q, e) != all {
      NotYetCovered(target, q, e, all.init);
    }
  }

  // Adding the old bytes to the differences gives the new bytes.
  lemma {:induction false} AddDiffBytes(base: seq<byte>, target: seq<byte>, e: Step)
    requires Tiles(base, target, e)
    ensures ApplyPatch.AddOld(DiffBytes(base, target, e), base, e.lastpos) == target[e.lastscan..e.lastscan + e.Lenf()]
  {
    var d, r := DiffBytes(base, target, e), target[e.lastscan..e.lastscan + e.Lenf()];
    forall i | 0 <= i < |d|
      ensures ApplyPatch.AddOld(d, base, e.lastpos)[i] == r[i]
    {
      AddUndoesSub(target[e.lastscan + i], base[e.lastpos + i]);
    }
  }

  lemma {:induction false} SliceOfSlice(s: seq<byte>, lo: int, hi: int, a: int, b: int)
    requires 0 <= lo <= hi <= |s| && 0 <= a <= b <= hi - lo
    ensures s[lo..hi][a..b] == s[lo + a..lo + b]
  {
    var t, u := s[lo..hi][a..b], s[lo + a..lo + b];
    forall i | 0 <= i < b - a
      ensures t[i] == u[i]
    {
    }
  }

  lemma {:induction false} ThreeEights(out: seq<byte>, k: int, a: seq<byte>, b: seq<byte>, c: seq<byte>)
    requires 0 <= k && k + 24 <= |out| && |a| == |b| == |c| == 8 && out[k..k + 24] == a + b + c
    ensures out[k..k + 8] == a && out[k + 8..k + 16] == b && out[k + 16..k + 24] == c
  {
    var t := out[k..k + 24];
    assert t[0..8] == a && t[8..16] == b && t[16..24] == c;
    SliceOfSlice(out, k, k + 24, 0, 8);
    SliceOfSlice(out, k, k + 24, 8, 16);
    SliceOfSlice(out, k, k + 24, 16, 24);
  }

  // The three numbers of a control triple are read back.
  lemma {:induction false} ReadControl(out: seq<byte>, k: int, x: int, y: int, z: int)
    requires 0 <= k && k + 24 <= |out| && out[k..k + 24] == Encode(x) + Encode(y) + Encode(z)
    requires -LIMIT < x < LIMIT && -LIMIT < y < LIMIT && -LIMIT < z < LIMIT
    ensures Decode(out[k..k + 8]) == x && Decode(out[k + 8..k + 16]) == y && Decode(out[k + 16..k + 24]) == z
  {
    ThreeEights(out, k, Encode(x), Encode(y), Encode(z));
    DecodeEncode(x);
    DecodeEncode(y);
    DecodeEncode(z);
  }

  // A piece of one of three joined streams.
  lemma {:induction false} PieceOf(a: seq<byte>, b: seq<byte>, all: seq<byte>)
    requires a + b <= all
    ensures |a| + |b| <= |all| && all[|a|..|a| + |b|] == b
  {
    assert all[|a|..|a| + |b|] == (a + b)[|a|..] == b;
  }

  lemma {:induction false} Shifted(left: seq<byte>, all: seq<byte>, right: seq<byte>, a: int, b: int)
    requires 0 <= a <= b <= |all|
    ensures (left + all + right)[|left| + a..|left| + b] == all[a..b]
  {
  }

  lemma {:induction false} FirstPiece(c: seq<byte>, d: seq<byte>, x: seq<byte>, a: seq<byte>, b: seq<byte>)
    requires a + b <= c
    ensures |a| + |b| <= |c| && (c + d + x)[|a|..|a| + |b|] == b
  {
    PieceOf(a, b, c);
    assert [] + c + (d + x) == c + d + x;
    Shifted([], c, d + x, |a|, |a| + |b|);
  }

  lemma {:induction false} SecondPiece(c: seq<byte>, d: seq<byte>, x: seq<byte>, a: seq<byte>, b: seq<byte>)
    requires a + b <= d
    ensures |a| + |b| <= |d| && (c + d + x)[|c| + |a|..|c| + |a| + |b|] == b
  {
    PieceOf(a, b, d);
    Shifted(c, d, x, |a|, |a| + |b|);
  }

  lemma {:induction false} ThirdPiece(c: seq<byte>, d: seq<byte>, x: seq<byte>, a: seq<byte>, b: seq<byte>)
    requires a + b <= x
    ensures |a| + |b| <= |x| && (c + d + x)[|c| + |d| + |a|..|c| + |d| + |a| + |b|] == b
  {
    PieceOf(a, b, x);
    assert c + d + x + [] == c + d + x;
    Shifted(c + d, x, [], |a|, |a| + |b|);
  }

  // Where the reader finds a piece of each stream.
  lemma {:induction false} PiecesAt(c: seq<byte>, d: seq<byte>, x: seq<byte>, ca: seq<byte>, cb: seq<byte>,
                                    da: seq<byte>, db: seq<byte>, xa: seq<byte>, xb: seq<byte>,
                                    r: ApplyPatch.Reader, out: seq<byte>)
    requires out == c + d + x && ca + cb <= c && da + db <= d && xa + xb <= x
    requires r.coff == |ca| && r.doff == |c| + |da| && r.eoff == |c| + |d| + |xa|
    ensures r.coff + |cb| <= |out| && r.doff + |db| <= |out| && r.eoff + |xb| <= |out|
    ensures out[r.coff..r.coff + |cb|] == cb
    ensures out[r.doff..r.doff + |db|] == db && out[r.eoff..r.eoff + |xb|] == xb
  {
    FirstPiece(c, d, x, ca, cb);
    SecondPiece(c, d, x, da, db);
    ThirdPiece(c, d, x, xa, xb);
  }

  // The round that reads the control triple cb, the differences db and the extra bytes xb.
  lemma {:induction false} RoundAt(base: seq<byte>, c: seq<byte>, d: seq<byte>, x: seq<byte>, newsize: nat,
                                   ca: seq<byte>, cb: seq<byte>, da: seq<byte>, db: seq<byte>, xa: seq<byte>,
                                   xb: seq<byte>, z: int, r: ApplyPatch.Reader, n: ApplyPatch.Reader, out: seq<byte>)
    requires out == c + d + x && |db| < LIMIT && |xb| < LIMIT && -LIMIT < z < LIMIT
    requires cb == Encode(|db|) + Encode(|xb|) + Encode(z)
    requires ca + cb <= c && da + db <= d && xa + xb <= x
    requires r.coff == |ca| && r.doff == |c| + |da| && r.eoff == |c| + |d| + |xa|
    requires n == ApplyPatch.Reader(r.coff + 24, r.doff + |db|, r.eoff + |xb|, r.oldpos + |db| + z,
                                    r.done + ApplyPatch.AddOld(db, base, r.oldpos) + xb)
    requires |n.done| <= newsize && newsize + 1 < MAX_SIZE
    ensures ApplyPatch.InRange(out, r)
    ensures ApplyPatch.ReadOn(base, out, newsize, r) == ApplyPatch.Read(n)
  {
    PiecesAt(c, d, x, ca, cb, da, db, xa, xb, r, out);
    ReadControl(out, r.coff, |db|, |xb|, z);
    ApplyPatch.ReadsOn(base, out, newsize, r, n, db, xb, z);
  }

  // The three streams, one after the other, as the decompressor leaves them.
  ghost function Out(base: seq<byte>, target: seq<byte>, all: Steps): seq<byte>
    requires AllTile(base, target, all)
  {
    Controls(all) + Diffs(base, target, all) + Extras(base, target, all)
  }

  // The reader that has replayed the steps of p.
  ghost function ReaderAt(base: seq<byte>, target: seq<byte>, p: Steps, all: Steps): ApplyPatch.Reader
    requires AllTile(base, target, p) && AllTile(base, target, all) && 0 <= Covered(p) <= |target|
  {
    var c, d := |Controls(all)|, |Diffs(base, target, all)|;
    ApplyPatch.Reader(|Controls(p)|, c + |Diffs(base, target, p)|, c + d + |Extras(base, target, p)|,
                      OldPosition(p), target[..Covered(p)])
  }

  lemma {:induction false} ReaderInRange(base: seq<byte>, target: seq<byte>, p: Steps, all: Steps)
    requires AllTile(base, target, p) && AllTile(base, target, all) && IsPrefix(p, all) && 0 <= Covered(p) <= |target|
    ensures ApplyPatch.InRange(Out(base, target, all), ReaderAt(base, target, p, all))
  {
    StreamsPrefix(base, target, p, all);
  }

  lemma {:induction false} TargetGrows(target: seq<byte>, a: int, b: int, c: int)
    requires 0 <= a <= b <= c <= |target|
    ensures target[..a] + target[a..b] + target[b..c] == target[..c]
  {
    assert target[..a] + target[a..b] == target[..b];
  }

  // The bytes that one more step adds to the new file, which is done up to a.
  lemma {:induction false} NextDone(base: seq<byte>, target: seq<byte>, e: Step, a: int, b: int, oldpos: int)
    requires Tiles(base, target, e) && a == e.lastscan && b == e.scan - e.Lenb() && oldpos == e.lastpos
    ensures target[..a] + ApplyPatch.AddOld(DiffBytes(base, target, e), base, oldpos) + ExtraBytes(target, e)
         == target[..b]
  {
    AddDiffBytes(base, target, e);
    TargetGrows(target, e.lastscan, e.lastscan + e.Lenf(), e.scan - e.Lenb());
  }

  // What the triple of a step says.
  lemma {:induction false} TripleOf(base: seq<byte>, target: seq<byte>, e: Step)
    requires Tiles(base, target, e)
    ensures e.Control() == Encode(|DiffBytes(base, target, e)|) + Encode(|ExtraBytes(target, e)|) + Encode(e.Seek())
  {
    assert |DiffBytes(base, target, e)| == e.Add() && |ExtraBytes(target, e)| == e.Copy();
  }

  lemma {:induction false} NextLengths(base: seq<byte>, target: seq<byte>, q: Steps, e: Step)
    requires AllTile(base, target, Then(q, e))
    ensures |Controls(Then(q, e))| == |Controls(q)| + 24
    ensures |Diffs(base, target, Then(q, e))| == |Diffs(base, target, q)| + |DiffBytes(base, target, e)|
    ensures |Extras(base, target, Then(q, e))| == |Extras(base, target, q)| + |ExtraBytes(target, e)|
  {
  }

  // What one more step adds to the reader.
  lemma {:induction false} NextReader(base: seq<byte>, target: seq<byte>, q: Steps, e: Step, all: Steps,
                                      r: ApplyPatch.Reader, n: ApplyPatch.Reader, db: seq<byte>, xb: seq<byte>)
    requires AllTile(base, target, all) && AllTile(base, target, Then(q, e)) && Joined(Then(q, e))
    requires 0 <= Covered(q) <= |target| && 0 <= Covered(Then(q, e)) <= |target|
    requires r == ReaderAt(base, target, q, all) && n == ReaderAt(base, target, Then(q, e), all)
    requires db == DiffBytes(base, target, e) && xb == ExtraBytes(target, e)
    ensures n == ApplyPatch.Reader(r.coff + 24, r.doff + |db|, r.eoff + |xb|, r.oldpos + |db| + e.Seek(),
                                   r.done + ApplyPatch.AddOld(db, base, r.oldpos) + xb)
  {
    NextDone(base, target, e, Covered(q), Covered(Then(q, e)), OldPosition(q));
    NextOffsets(base, target, q, e, all, r, n, db, xb);
  }

  lemma {:induction false} NextOffsets(base: seq<byte>, target: seq<byte>, q: Steps, e: Step, all: Steps,
                                       r: ApplyPatch.Reader, n: ApplyPatch.Reader, db: seq<byte>, xb: seq<byte>)
    requires AllTile(base, target, all) && AllTile(base, target, Then(q, e)) && Joined(Then(q, e))
    requires 0 <= Covered(q) <= |target| && 0 <= Covered(Then(q, e)) <= |target|
    requires r == ReaderAt(base, target, q, all) && n == ReaderAt(base, target, Then(q, e), all)
    requires db == DiffBytes(base, target, e) && xb == ExtraBytes(target, e)
    ensures n.coff == r.coff + 24 && n.doff == r.doff + |db| && n.eoff == r.eoff + |xb|
    ensures n.oldpos == r.oldpos + |db| + e.Seek()
  {
    NextLengths(base, target, q, e);
    assert |db| == e.Lenf();
  }

  lemma {:induction false} StepStreams(base: seq<byte>, target: seq<byte>, q: Steps, e: Step, all: Steps)
    requires AllTile(base, target, all) && IsPrefix(Then(q, e), all) && Tiles(base, target, e)
    ensures AllTile(base, target, q) && Controls(q) + e.Control() <= Controls(all)
    ensures Diffs(base, target, q) + DiffBytes(base, target, e) <= Diffs(base, target, all)
    ensures Extras(base, target, q) + ExtraBytes(target, e) <= Extras(base, target, all)
  {
    StreamsPrefix(base, target, Then(q, e), all);
  }

  // The streams and their parts, as RoundAt needs them.
  lemma {:induction false} PartsOf(base: seq<byte>, target: seq<byte>, q: Steps, e: Step, all: Steps)
    returns (ca: seq<byte>, cb: seq<byte>, da: seq<byte>, db: seq<byte>, xa: seq<byte>, xb: seq<byte>)
    requires |base| < MAX_SIZE && |target| < MAX_SIZE
    requires AllTile(base, target, all) && AllTile(base, target, Then(q, e)) && IsPrefix(Then(q, e), all)
    ensures |db| < LIMIT && |xb| < LIMIT && -LIMIT < e.Seek() < LIMIT
    ensures cb == Encode(|db|) + Encode(|xb|) + Encode(e.Seek())
    ensures ca + cb <= Controls(all) && da + db <= Diffs(base, target, all) && xa + xb <= Extras(base, target, all)
    ensures |ca| == |Controls(q)| && |da| == |Diffs(base, target, q)| && |xa| == |Extras(base, target, q)|
    ensures db == DiffBytes(base, target, e) && xb == ExtraBytes(target, e)
  {
    ca, cb := Controls(q), e.Control();
    da, db := Diffs(base, target, q), DiffBytes(base, target, e);
    xa, xb := Extras(base, target, q), ExtraBytes(target, e);
    StepStreams(base, target, q, e, all);
    TripleOf(base, target, e);
    TripleFits(base, target, e);
  }

  // One round of the replay undoes one emission.
  lemma {:induction false} ReplayStep(base: seq<byte>, target: seq<byte>, q: Steps, e: Step, all: Steps,
                                      out: seq<byte>, r: ApplyPatch.Reader, n: ApplyPatch.Reader)
    requires |base| < MAX_SIZE && |target| + 1 < MAX_SIZE
    requires AllTile(base, target, all) && AllTile(base, target, Then(q, e)) && IsPrefix(Then(q, e), all)
    requires Joined(Then(q, e))
    requires 0 <= Covered(q) <= |target| && 0 <= Covered(Then(q, e)) <= |target|
    requires out == Out(base, target, all) && r == ReaderAt(base, target, q, all)
    requires n == ReaderAt(base, target, Then(q, e), all)
    ensures ApplyPatch.InRange(out, r)
    ensures ApplyPatch.ReadOn(base, out, |target|, r) == ApplyPatch.Read(n)
  {
    var ca, cb, da, db, xa, xb := PartsOf(base, target, q, e, all);
    NextReader(base, target, q, e, all, r, n, db, xb);
    RoundAt(base, Controls(all), Diffs(base, target, all), Extras(base, target, all), |target|, ca, cb, da, db, xa,
            xb, e.Seek(), r, n, out);
  }

  lemma {:induction false} NextCovered(base: seq<byte>, target: seq<byte>, q: Steps, e: Step)
    requires Tiles(base, target, e)
    ensures 0 <= Covered(Then(q, e)) <= |target|
  {
  }

  lemma {:induction false} ReplayUnfolds(base: seq<byte>, out: seq<byte>, newsize: nat, r: ApplyPatch.Reader,
                                         n: ApplyPatch.Reader)
    requires ApplyPatch.InRange(out, r) && |r.done| < newsize
    requires ApplyPatch.ReadOn(base, out, newsize, r) == ApplyPatch.Read(n)
    ensures ApplyPatch.Replay(base, out, newsize, r) == ApplyPatch.Replay(base, out, newsize, n)
  {
  }

  // The replay passes through every prefix of the steps.
  lemma {:induction false} ReplayTo(base: seq<byte>, target: seq<byte>, ms: seq<Match>, p: Steps, all: Steps)
    requires |base| < MAX_SIZE && |target| + 1 < MAX_SIZE
    requires Trace(base, target, ms, all) && Complete(target, all) && AllTile(base, target, all) && IsPrefix(p, all)
    ensures AllTile(base, target, p) && 0 <= Covered(p) <= |target|
    ensures var out, r := Out(base, target, all), ReaderAt(base, target, NoSteps, all);
      var s := ReaderAt(base, target, p, all);
      && ApplyPatch.InRange(out, r) && ApplyPatch.InRange(out, s)
      && ApplyPatch.Replay(base, out, |target|, r) == ApplyPatch.Replay(base, out, |target|, s)
  {
    StreamsPrefix(base, target, p, all);
    if p.Then? {
      StepInTrace(base, target, ms, p.init, p.last, all);
      TraceJoined(base, target, ms, p.init);
      ReplayTo(base, target, ms, p.init, all);
      NotYetComplete(target, p.init, p.last, all);
      NextCovered(base, target, p.init, p.last);
      var out, r, n := Out(base, target, all), ReaderAt(base, target, p.init, all), ReaderAt(base, target, p, all);
      ReplayStep(base, target, p.init, p.last, all, out, r, n);
      ReplayUnfolds(base, out, |target|, r, n);
    } else {
      ReaderInRange(base, target, p, all);
    }
  }

  // Where the replay starts and ends.
  lemma {:induction false} ReaderEnds(base: seq<byte>, target: seq<byte>, ms: seq<Match>, all: Steps)
    requires Trace(base, target, ms, all) && Complete(target, all)
    ensures AllTile(base, target, all) && Covered(all) == |target|
    ensures var c, d, e := |Controls(all)|, |Diffs(base, target, all)|, |Extras(base, target, all)|;
      && ReaderAt(base, target, NoSteps, all) == ApplyPatch.Reader(0, c, c + d, 0, [])
      && ReaderAt(base, target, all, all) == ApplyPatch.Reader(c, c + d, c + d + e, OldPosition(all), target)
  {
    Tiling(base, target, ms, all);
    assert target[..0] == [] && target[..|target|] == target;
  }

  lemma {:induction false} ReplayEnds(base: seq<byte>, out: seq<byte>, newsize: nat, r: ApplyPatch.Reader)
    requires ApplyPatch.InRange(out, r) && |r.done| >= newsize
    ensures ApplyPatch.Replay(base, out, newsize, r) == ApplyPatch.Read(r)
  {
  }

  // The replay of a complete trace rebuilds the new file, and uses up all three
  // streams.
  lemma {:induction false} ReplayAll(base: seq<byte>, target: seq<byte>, ms: seq<Match>, all: Steps,
                                     r: ApplyPatch.Reader)
    requires |base| < MAX_SIZE && |target| + 1 < MAX_SIZE
    requires Trace(base, target, ms, all) && Complete(target, all) && AllTile(base, target, all)
    requires var c, d := |Controls(all)|, |Diffs(base, target, all)|; r == ApplyPatch.Reader(0, c, c + d, 0, [])
    ensures ApplyPatch.InRange(Out(base, target, all), r)
    ensures var c, d, e := |Controls(all)|, |Diffs(base, target, all)|, |Extras(base, target, all)|;
      ApplyPatch.Replay(base, Out(base, target, all), |target|, r)
        == ApplyPatch.Read(ApplyPatch.Reader(c, c + d, c + d + e, OldPosition(all), target))
  {
    ReaderEnds(base, target, ms, all);
    ReplayTo(base, target, ms, all, all);
    ReplayEnds(base, Out(base, target, all), |target|, ReaderAt(base, target, all, all));
  }

  // Where the parts of a patch file lie.
  lemma {:induction false} FileParts(m: seq<byte>, p: seq<byte>, q: seq<byte>, r: seq<byte>, x: seq<byte>,
                                     y: seq<byte>, z: seq<byte>)
    requires |m| == |p| == |q| == |r| == 8
    ensures var file := (m + p + q + r) + (x + y + z);
      && file[..8] == m && file[8..16] == p && file[16..24] == q && file[24..32] == r
      && file[32..] == x + y + z
  {
    var h := m + p + q + r;
    assert h[..8] == m && h[8..16] == p && h[16..24] == q && h[24..32] == r;
  }

  // Blocks of x, y and z bytes that hold c, d and e bytes of data are
  // decompressed without the 32-bit size of the buffer wrapping around.
  predicate RoomFor(x: nat, y: nat, z: nat, c: nat, d: nat, e: nat) {
    var a := DecompressRoom(0, 0, x, c, false);
    var b := DecompressRoom(a, c, y, c + d, false);
    a < MAX_SIZE && b < MAX_SIZE && DecompressRoom(b, c + d, z, c + d + e, true) < MAX_SIZE
  }

  predicate DataFits(codec: Codec, c: seq<byte>, d: seq<byte>, e: seq<byte>) {
    RoomFor(|codec.compress(c)|, |codec.compress(d)|, |codec.compress(e)|, |c|, |d|, |e|)
  }

  // What the decompressor makes of three blocks.
  lemma {:induction false} UnpackBlocks(codec: Codec, x: seq<byte>, y: seq<byte>, z: seq<byte>, c: seq<byte>,
                                        d: seq<byte>, e: seq<byte>, body: seq<byte>, u: ApplyPatch.Unpacked)
    requires codec.decompress(x) == Some(c) && codec.decompress(y) == Some(d) && codec.decompress(z) == Some(e)
    requires body == x + y + z
    requires u == if RoomFor(|x|, |y|, |z|, |c|, |d|, |e|) then ApplyPatch.Blocks(c + d + e, |c|, |c| + |d|)
                  else ApplyPatch.Overrun
    ensures u == ApplyPatch.UnpackBody(codec, body, |x|, |y|)
  {
    assert body[..|x|] == x && body[|x|..|x| + |y|] == y && body[|x| + |y|..] == z;
    var a := DecompressRoom(0, 0, |x|, |c|, false);
    var s := Inflated(c, a, a >= MAX_SIZE);
    assert [] + c == c;
    assert Inflate(codec, EMPTY, x, false) == Some(s);
    var b := DecompressRoom(a, |c|, |y|, |c| + |d|, false);
    var t := Inflated(c + d, b, s.wrapped || b >= MAX_SIZE);
    assert Inflate(codec, s, y, false) == Some(t);
  }

  // The header lengths make the reader cut the body into the same three blocks,
  // unless the buffer outgrows 32 bits; the size is read modulo 2^32, whatever its sign.
  lemma {:induction false} UnpackFile(codec: Codec, c: seq<byte>, d: seq<byte>, e: seq<byte>, newsize: int,
                                      patch: seq<byte>, u: ApplyPatch.Unpacked, size: nat)
    requires Lossless(codec) && -LIMIT < newsize < LIMIT && size == newsize % MAX_SIZE
    requires |codec.compress(c)| < LIMIT && |codec.compress(d)| < LIMIT
    requires patch == CreatePatch.PatchFile(codec, c, d, e, newsize)
    requires u == if DataFits(codec, c, d, e) then ApplyPatch.Blocks(c + d + e, |c|, |c| + |d|) else ApplyPatch.Overrun
    ensures |patch| >= 32 && u == ApplyPatch.Unpack(codec, patch) && size == ApplyPatch.NewSize(patch)
  {
    var x, y, z := codec.compress(c), codec.compress(d), codec.compress(e);
    FileParts(CreatePatch.MAGIC, Encode(|x|), Encode(|y|), Encode(newsize), x, y, z);
    DecodeEncode(|x|);
    DecodeEncode(|y|);
    DecodeEncode(newsize);
    UnpackBlocks(codec, x, y, z, c, d, e, patch[32..], u);
  }

  // The file, byte by byte: the signature BSDIFF40, the lengths of the first two
  // blocks and the size of the new file, and the three blocks.
  lemma {:induction false} FileLayout(codec: Codec, c: seq<byte>, d: seq<byte>, e: seq<byte>, newsize: nat,
                                      patch: seq<byte>)
    requires newsize < LIMIT && |codec.compress(c)| < LIMIT && |codec.compress(d)| < LIMIT
    requires patch == CreatePatch.PatchFile(codec, c, d, e, newsize)
    ensures |patch| >= 32 && patch[..8] == [66, 83, 68, 73, 70, 70, 52, 48]
    ensures Decode(patch[8..16]) == |codec.compress(c)| && Decode(patch[16..24]) == |codec.compress(d)|
    ensures Decode(patch[24..32]) == newsize
    ensures patch[32..] == codec.compress(c) + codec.compress(d) + codec.compress(e)
  {
    var x, y, z := codec.compress(c), codec.compress(d), codec.compress(e);
    FileParts(CreatePatch.MAGIC, Encode(|x|), Encode(|y|), Encode(newsize), x, y, z);
    DecodeEncode(|x|);
    DecodeEncode(|y|);
    DecodeEncode(newsize);
  }

  lemma {:induction false} FinishIs(base: seq<byte>, u: ApplyPatch.Unpacked, newsize: nat, out: seq<byte>,
                                    first: ApplyPatch.Reader, last: ApplyPatch.Reader)
    requires ApplyPatch.InRange(out, first) && first.coff == first.oldpos == 0 && first.done == []
    requires u == ApplyPatch.Blocks(out, first.doff, first.eoff)
    requires ApplyPatch.Replay(base, out, newsize, first) == ApplyPatch.Read(last)
    ensures ApplyPatch.Finish(base, u, newsize) == ApplyPatch.Patched(last.done)
  {
  }

  lemma {:induction false} ApplyFinishes(codec: Codec, base: seq<byte>, patch: seq<byte>, u: ApplyPatch.Unpacked,
                                         newsize: nat, result: ApplyPatch.Outcome)
    requires |patch| >= 32 && u == ApplyPatch.Unpack(codec, patch) && newsize == ApplyPatch.NewSize(patch)
    requires (u.Blocks? ==> u.doff <= |u.out| && u.eoff <= |u.out|) && result == ApplyPatch.Finish(base, u, newsize)
    ensures ApplyPatch.Apply(codec, base, patch) == result
  {
  }

  // What comes of the streams that a patch is unpacked to.
  lemma {:induction false} UnpackedResult(base: seq<byte>, c: seq<byte>, d: seq<byte>, x: seq<byte>, fits: bool,
                                          newsize: nat, u: ApplyPatch.Unpacked, first: ApplyPatch.Reader,
                                          last: ApplyPatch.Reader)
    requires u == if fits then ApplyPatch.Blocks(c + d + x, |c|, |c| + |d|) else ApplyPatch.Overrun
    requires first == ApplyPatch.Reader(0, |c|, |c| + |d|, 0, [])
    requires fits ==> ApplyPatch.Replay(base, c + d + x, newsize, first) == ApplyPatch.Read(last)
    ensures u.Blocks? ==> u.doff <= |u.out| && u.eoff <= |u.out|
    ensures ApplyPatch.Finish(base, u, newsize) == if fits then ApplyPatch.Patched(last.done) else ApplyPatch.Undefined
  {
    if fits {
      FinishIs(base, u, newsize, c + d + x, first, last);
    }
  }

  lemma {:induction false} SizeKept(n: nat)
    requires n < MAX_SIZE
    ensures n == n % MAX_SIZE
  {
  }

  // Three streams that replay to the new file, unless they outgrow 32 bits.
  lemma {:induction false} AppliedStreams(codec: Codec, base: seq<byte>, target: seq<byte>, patch: seq<byte>,
                                          c: seq<byte>, d: seq<byte>, x: seq<byte>, first: ApplyPatch.Reader,
                                          last: ApplyPatch.Reader)
    requires |target| < MAX_SIZE && Lossless(codec) && |codec.compress(c)| < LIMIT && |codec.compress(d)| < LIMIT
    requires patch == CreatePatch.PatchFile(codec, c, d, x, |target|)
    requires first == ApplyPatch.Reader(0, |c|, |c| + |d|, 0, []) && last.done == target
    requires DataFits(codec, c, d, x) ==>
      ApplyPatch.Replay(base, c + d + x, |target|, first) == ApplyPatch.Read(last)
    ensures ApplyPatch.Apply(codec, base, patch)
         == if DataFits(codec, c, d, x) then ApplyPatch.Patched(target) else ApplyPatch.Undefined
  {
    var fits := DataFits(codec, c, d, x);
    var u := if fits then ApplyPatch.Blocks(c + d + x, |c|, |c| + |d|) else ApplyPatch.Overrun;
    SizeKept(|target|);
    UnpackFile(codec, c, d, x, |target|, patch, u, |target|);
    UnpackedResult(base, c, d, x, fits, |target|, u, first, last);
    ApplyFinishes(codec, base, patch, u, |target|, ApplyPatch.Finish(base, u, |target|));
  }

  lemma {:induction false} ReplayOf(base: seq<byte>, target: seq<byte>, ms: seq<Match>, es: Steps,
                                    c: seq<byte>, d: seq<byte>, x: seq<byte>, first: ApplyPatch.Reader)
    returns (last: ApplyPatch.Reader)
    requires |base| < MAX_SIZE && |target| + 1 < MAX_SIZE
    requires Trace(base, target, ms, es) && Complete(target, es) && AllTile(base, target, es)
    requires c == Controls(es) && d == Diffs(base, target, es) && x == Extras(base, target, es)
    requires first == ApplyPatch.Reader(0, |c|, |c| + |d|, 0, [])
    ensures last.done == target
    ensures ApplyPatch.Replay(base, c + d + x, |target|, first) == ApplyPatch.Read(last)
  {
    Tiling(base, target, ms, es);
    ReplayAll(base, target, ms, es, first);
    last := ApplyPatch.Reader(|c|, |c| + |d|, |c| + |d| + |x|, OldPosition(es), target);
  }

  // If the data fit, with a triple for every emission, the new file does, and
  // the one byte more that is allocated for it.
  lemma {:induction false} RoomForTarget(base: seq<byte>, target: seq<byte>, ms: seq<Match>, es: Steps, codec: Codec)
    requires Trace(base, target, ms, es) && Complete(target, es) && AllTile(base, target, es)
    requires DataFits(codec, Controls(es), Diffs(base, target, es), Extras(base, target, es))
    ensures 24 * es.Size() + |target| < MAX_SIZE && |target| + 1 < MAX_SIZE
  {
    Tiling(base, target, ms, es);
  }

  // What the reader makes of the patch for a complete trace.
  lemma {:induction false} AppliedFile(base: seq<byte>, target: seq<byte>, ms: seq<Match>, es: Steps, codec: Codec,
                                       patch: seq<byte>)
    requires |base| < MAX_SIZE && |target| < MAX_SIZE && Lossless(codec)
    requires Trace(base, target, ms, es) && Complete(target, es) && AllTile(base, target, es)
    requires |codec.compress(Controls(es))| < LIMIT && |codec.compress(Diffs(base, target, es))| < LIMIT
    requires patch
         == CreatePatch.PatchFile(codec, Controls(es), Diffs(base, target, es), Extras(base, target, es), |target|)
    ensures ApplyPatch.Apply(codec, base, patch)
         == if DataFits(codec, Controls(es), Diffs(base, target, es), Extras(base, target, es))
            then ApplyPatch.Patched(target) else ApplyPatch.Undefined
  {
    var c, d, x := Controls(es), Diffs(base, target, es), Extras(base, target, es);
    var first := ApplyPatch.Reader(0, |c|, |c| + |d|, 0, []);
    var last := first.(done := target);
    if DataFits(codec, c, d, x) {
      RoomForTarget(base, target, ms, es, codec);
      last := ReplayOf(base, target, ms, es, c, d, x, first);
    }
    AppliedStreams(codec, base, target, patch, c, d, x, first, last);
  }

  // The buffers for the patch and for the decompressed data both fit in 32 bits.
  ghost predicate Fits(codec: Codec, base: seq<byte>, target: seq<byte>, es: Steps)
    requires AllTile(base, target, es)
  {
    && CreatePatch.PatchFits(codec, Controls(es), Diffs(base, target, es), Extras(base, target, es))
    && DataFits(codec, Controls(es), Diffs(base, target, es), Extras(base, target, es))
  }

  // In numbers, for streams of c, d and e bytes and blocks of x, y and z bytes.
  lemma {:induction false} FitsIs(x: nat, y: nat, z: nat, c: nat, d: nat, e: nat)
    ensures CreatePatch.SizesFit(x, y, z, d, e)
       <==> && Doubled(5000, x) < 0x1_0000_0000 && CompressRoom(x, x, d, x + y) < 0x1_0000_0000
            && CompressRoom(x + y, x + y, e, x + y + z) < 0x1_0000_0000 && 32 + x + y + z < 0x1_0000_0000
    ensures var a := DecompressRoom(0, 0, x, c, false);
      var b := DecompressRoom(a, c, y, c + d, false);
      RoomFor(x, y, z, c, d, e)
      <==> a < 0x1_0000_0000 && b < 0x1_0000_0000 && DecompressRoom(b, c + d, z, c + d + e, true) < 0x1_0000_0000
  {
  }

  // They do only if the data themselves do, with a triple for every emission ...
  lemma {:induction false} FitsOnly(base: seq<byte>, target: seq<byte>, ms: seq<Match>, es: Steps, codec: Codec)
    requires Trace(base, target, ms, es) && Complete(target, es)
    ensures AllTile(base, target, es)
    ensures Fits(codec, base, target, es) ==> 24 * es.Size() + |target| < MAX_SIZE
  {
    Tiling(base, target, ms, es);
    if Fits(codec, base, target, es) {
      RoomForTarget(base, target, ms, es, codec);
    }
  }

  // ... and they do for every new file that is small enough.
  lemma {:induction false} SmallPatch(n: nat, x: nat, y: nat, z: nat, c: nat, d: nat, e: nat)
    requires 33 * n + 20000 < MAX_SIZE && 9 * c <= 24 * (n + 9) && d + e <= n
    requires x <= 2 * c + 600 && y <= 2 * d + 600 && z <= 2 * e + 600
    ensures CreatePatch.SizesFit(x, y, z, d, e)
  {
  }

  lemma {:induction false} SmallRoom(n: nat, x: nat, y: nat, z: nat, c: nat, d: nat, e: nat)
    requires 33 * n + 20000 < MAX_SIZE && 9 * c <= 24 * (n + 9) && d + e <= n
    requires 0 < x <= 2 * c + 600 && 0 < y <= 2 * d + 600 && 0 < z <= 2 * e + 600
    ensures RoomFor(x, y, z, c, d, e)
  {
    var a := DecompressRoom(0, 0, x, c, false);
    assert 0 < a <= 5000 + c + 4 * x;
    var b := DecompressRoom(a, c, y, c + d, false);
    assert 0 < b <= a + d + 4 * y;
    assert DecompressRoom(b, c + d, z, c + d + e, true) <= b + e + 4 * z;
  }

  lemma {:induction false} SmallFits(base: seq<byte>, target: seq<byte>, ms: seq<Match>, es: Steps, codec: Codec)
    requires Bounded(codec) && 33 * |target| + 20000 < MAX_SIZE
    requires Trace(base, target, ms, es) && Complete(target, es)
    ensures AllTile(base, target, es) && Fits(codec, base, target, es)
  {
    Tiling(base, target, ms, es);
    FewEmissions(base, target, ms, es);
    var c, d, e := Controls(es), Diffs(base, target, es), Extras(base, target, es);
    SmallPatch(|target|, |codec.compress(c)|, |codec.compress(d)|, |codec.compress(e)|, |c|, |d|, |e|);
    SmallRoom(|target|, |codec.compress(c)|, |codec.compress(d)|, |codec.compress(e)|, |c|, |d|, |e|);
  }

  // The round trip, for every old and new file and every lossless codec: it
  // gives the new file exactly when no 32-bit size wraps around on the way, so
  // for every small enough new file if the codec is bounded.
  method CreateAndApply(base: seq<byte>, target: seq<byte>, codec: Codec)
    returns (r: ApplyPatch.Outcome, ghost s: seq<int>, ghost es: Steps)
    requires |base| < MAX_SIZE && |target| < MAX_SIZE && Lossless(codec)
    ensures SuffixArray(base, s) && Positions(base, s)
    ensures Trace(base, target, Matches(base, s, target), es) && Complete(target, es) && AllTile(base, target, es)
    ensures r == if Fits(codec, base, target, es) then ApplyPatch.Patched(target) else ApplyPatch.Undefined
    ensures Bounded(codec) && 33 * |target| + 20000 < MAX_SIZE ==> r == ApplyPatch.Patched(target)
  {
    var patch;
    patch, s, es := CreatePatch.CreatePatch(base, target, codec);
    if Bounded(codec) && 33 * |target| + 20000 < MAX_SIZE {
      SmallFits(base, target, Matches(base, s, target), es, codec);
    }
    match patch
    case None =>
      r := ApplyPatch.Undefined;
    case Some(file) =>
      AppliedFile(base, target, Matches(base, s, target), es, codec, file);
      r := ApplyPatch.ApplyPatch(base, file, codec);
  }
}
