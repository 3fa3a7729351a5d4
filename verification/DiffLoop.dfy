// The loop of CreatePatchInternal over the new file, which emits the diff and
// extra data and the control triples.
module DiffLoop {
  import opened Bytes
  import opened Qsufsort
  import opened MatchSearch
  import opened Extend
  import opened ScanLoop
  import opened OffT
  import opened DiffTrace
  import opened Compressor

  // Grow the match both ways.
  method ExtendBoth(base: seq<byte>, target: seq<byte>, lastscan: int, lastpos: int, scan: int, pos: int)
    returns (lenf: int, lenb: int)
    requires 0 <= lastscan <= scan <= |target| && 0 <= lastpos <= |base| && 0 <= pos <= |base|
    ensures Extended(base, target, Step(lastscan, lastpos, scan, pos, lenf, lenb, 0))
  {
    lenf := ExtendForward(base, target, lastscan, lastpos, scan);
    lenb := 0;
    if scan < |target| {
      lenb := ExtendBackward(base, target, lastscan, scan, pos);
    }
  }

  lemma {:induction false} ExtendedRange(base: seq<byte>, target: seq<byte>, e: Step)
    requires Extended(base, target, e)
    ensures 0 <= e.rawf <= e.scan - e.lastscan && e.lastpos + e.rawf <= |base|
    ensures 0 <= e.rawb <= e.scan - e.lastscan && e.rawb <= e.pos
  {
  }

  lemma {:induction false} Divided(base: seq<byte>, target: seq<byte>, e: Step, lens: int)
    requires Extended(base, target, e)
    requires e.Overlap() > 0 ==>
      SmallestMax(base, target, Divide(e.lastpos - e.lastscan, e.pos - e.scan, e.scan - e.rawb, e.lastscan + e.rawf),
                  lens, e.Overlap())
    ensures Chosen(base, target, e.(lens := lens)) && Tiles(base, target, e.(lens := lens))
  {
    var f := e.(lens := lens);
    assert Extended(base, target, f);
    assert Chosen(base, target, f);
    ChosenTiles(base, target, f);
  }

  // Grow the match both ways and divide the overlap.
  method ChooseStep(base: seq<byte>, target: seq<byte>, lastscan: int, lastpos: int, scan: int, pos: int)
    returns (lenf: int, lenb: int, ghost e: Step)
    requires 0 <= lastscan <= scan <= |target| && 0 <= lastpos <= |base| && 0 <= pos <= |base|
    ensures Chosen(base, target, e) && Tiles(base, target, e)
    ensures e.lastscan == lastscan && e.lastpos == lastpos && e.scan == scan && e.pos == pos
    ensures lenf == e.Lenf() && lenb == e.Lenb()
  {
    lenf, lenb := ExtendBoth(base, target, lastscan, lastpos, scan, pos);
    ghost var e0 := Step(lastscan, lastpos, scan, pos, lenf, lenb, 0);
    ExtendedRange(base, target, e0);
    var lens := 0;
    if lastscan + lenf > scan - lenb {
      var overlap := (lastscan + lenf) - (scan - lenb);
      lens := DivideOverlap(base, target, lastpos - lastscan, pos - scan, scan - lenb, overlap);
      lenf := lenf + lens - overlap;
      lenb := lenb - lens;
    }
    Divided(base, target, e0, lens);
    e := e0.(lens := lens);
  }

  // Append the differences to db.
  method PutDiff(base: seq<byte>, target: seq<byte>, db: array<byte>, dblen: int, lastscan: int, lastpos: int,
                 lenf: int, ghost e: Step)
    requires Tiles(base, target, e) && lenf == e.Lenf() && lastscan == e.lastscan && lastpos == e.lastpos
    requires 0 <= dblen && dblen + lenf <= db.Length
    modifies db
    ensures db[..dblen + lenf] == old(db[..dblen]) + DiffBytes(base, target, e)
  {
    for i := 0 to lenf
      invariant db[..dblen] == old(db[..dblen])
      invariant forall j :: 0 <= j < i ==> db[dblen + j] == DiffBytes(base, target, e)[j]
    {
      db[dblen + i] := SubByte(target[lastscan + i], base[lastpos + i]);
    }
  }

  // Append the bytes that neither extension covers to eb.
  method PutExtra(target: seq<byte>, eb: array<byte>, eblen: int, from: int, to: int)
    requires 0 <= from <= to <= |target| && 0 <= eblen && eblen + (to - from) <= eb.Length
    modifies eb
    ensures eb[..eblen + (to - from)] == old(eb[..eblen]) + target[from..to]
  {
    for i := 0 to to - from
      invariant eb[..eblen] == old(eb[..eblen])
      invariant forall j :: 0 <= j < i ==> eb[eblen + j] == target[from..to][j]
    {
      eb[eblen + i] := target[from + i];
    }
  }

  // Append one number to the control block.
  method PutNumber(x: int, buf: array<byte>, patch: MemoryCompressor)
    requires buf.Length == 8 && -LIMIT < x < LIMIT && patch.Collecting()
    modifies buf, patch
    ensures patch.pending == old(patch.pending) + Encode(x) && patch.Collecting()
  {
    OffTOut(x, buf, 0);
    assert buf[..] == Encode(x);
    patch.Compress(buf[..], false);
  }

  // Append one triple to the control block.
  method PutTriple(x: int, y: int, z: int, patch: MemoryCompressor)
    requires -LIMIT < x < LIMIT && -LIMIT < y < LIMIT && -LIMIT < z < LIMIT && patch.Collecting()
    modifies patch
    ensures patch.pending == old(patch.pending) + (Encode(x) + Encode(y) + Encode(z))
    ensures patch.Collecting()
  {
    Associate(patch.pending, Encode(x), Encode(y), Encode(z));
    var buf := new byte[8];
    PutNumber(x, buf, patch);
    PutNumber(y, buf, patch);
    PutNumber(z, buf, patch);
  }

  lemma {:induction false} Associate(p: seq<byte>, a: seq<byte>, b: seq<byte>, c: seq<byte>)
    ensures ((p + a) + b) + c == p + (a + b + c)
  {
  }

  // The numbers of a triple fit in 64 bits, and the bytes in the buffers.
  lemma {:induction false} TripleFits(base: seq<byte>, target: seq<byte>, e: Step)
    requires Tiles(base, target, e) && |base| < MAX_SIZE && |target| < MAX_SIZE
    ensures 0 <= e.Add() < LIMIT && 0 <= e.Copy() < LIMIT && -LIMIT < e.Seek() < LIMIT
    ensures e.lastscan + e.Add() + e.Copy() <= |target|
  {
  }

  // The bytes of both streams.
  method PutStreams(base: seq<byte>, target: seq<byte>, lastscan: int, lastpos: int, scan: int, lenf: int, lenb: int,
                    db: array<byte>, dblen: int, eb: array<byte>, eblen: int, ghost e: Step)
    requires Tiles(base, target, e) && e.lastscan == lastscan && e.lastpos == lastpos && e.scan == scan
    requires lenf == e.Lenf() && lenb == e.Lenb() && db != eb
    requires 0 <= dblen && dblen + e.Add() <= db.Length && 0 <= eblen && eblen + e.Copy() <= eb.Length
    modifies db, eb
    ensures db[..dblen + e.Add()] == old(db[..dblen]) + DiffBytes(base, target, e)
    ensures eb[..eblen + e.Copy()] == old(eb[..eblen]) + ExtraBytes(target, e)
  {
    PutDiff(base, target, db, dblen, lastscan, lastpos, lenf, e);
    PutExtra(target, eb, eblen, lastscan + lenf, scan - lenb);
  }

  // One emission: the bytes of both streams, and the triple.
  method Emit(base: seq<byte>, target: seq<byte>, lastscan: int, lastpos: int, scan: int, pos: int,
              db: array<byte>, dblen: int, eb: array<byte>, eblen: int, patch: MemoryCompressor)
    returns (lenf: int, lenb: int, ghost e: Step)
    requires |base| < MAX_SIZE && |target| < MAX_SIZE
    requires 0 <= lastscan <= scan <= |target| && 0 <= lastpos <= |base| && 0 <= pos <= |base|
    requires db != eb && db.Length == eb.Length == |target| + 1
    requires 0 <= dblen && 0 <= eblen && dblen + eblen == lastscan && patch.Collecting()
    modifies db, eb, patch
    ensures Chosen(base, target, e) && Tiles(base, target, e)
    ensures e.lastscan == lastscan && e.lastpos == lastpos && e.scan == scan && e.pos == pos
    ensures lenf == e.Lenf() && lenb == e.Lenb()
    ensures dblen + e.Add() <= db.Length && eblen + e.Copy() <= eb.Length
    ensures db[..dblen + e.Add()] == old(db[..dblen]) + DiffBytes(base, target, e)
    ensures eb[..eblen + e.Copy()] == old(eb[..eblen]) + ExtraBytes(target, e)
    ensures patch.pending == old(patch.pending) + e.Control() && patch.Collecting()
  {
    lenf, lenb, e := ChooseStep(base, target, lastscan, lastpos, scan, pos);
    TripleFits(base, target, e);
    PutStreams(base, target, lastscan, lastpos, scan, lenf, lenb, db, dblen, eb, eblen, e);
    PutTriple(lenf, (scan - lenb) - (lastscan + lenf), (pos - lenb) - (lastpos + lenf), patch);
  }

  // ------------------------------------------------------------ the main loop

  // The coder between two rounds of the loop.  Emissions es have been made; the
  // next round scans from scan + len.
  ghost predicate Coding(base: seq<byte>, target: seq<byte>, ms: seq<Match>, es: Steps,
                         lastscan: int, lastpos: int, lastoffset: int, scan: int, len: int)
    requires Usable(base, target, ms)
  {
    && Trace(base, target, ms, es)
    && var c := CursorAfter(ms, es);
    && 0 <= lastscan == c.lastscan && 0 <= lastpos == c.lastpos <= |base| && lastoffset == c.lastoffset
    && lastscan <= scan <= |target|
    && if scan == |target| then Complete(target, es)
       else
         && Unfinished(target, es)
         && 0 <= len && scan + len <= |target| && 0 <= scan + len + lastoffset
         && 0 <= c.start <= |target|
         && NextEmission(base, target, ms, lastoffset, scan + len)
            == NextEmission(base, target, ms, c.lastoffset, c.start)
  }

  lemma {:induction false} CodingStarts(base: seq<byte>, target: seq<byte>, ms: seq<Match>)
    requires Usable(base, target, ms)
    ensures Coding(base, target, ms, NoSteps, 0, 0, 0, 0, 0)
  {
  }

  lemma {:induction false} CodingRange(base: seq<byte>, target: seq<byte>, ms: seq<Match>, es: Steps,
                                       lastscan: int, lastpos: int, lastoffset: int, scan: int, len: int)
    requires Usable(base, target, ms) && Coding(base, target, ms, es, lastscan, lastpos, lastoffset, scan, len)
    ensures 0 <= lastscan <= scan <= |target| && 0 <= lastpos <= |base|
    ensures scan < |target| ==> 0 <= len && scan + len <= |target| && 0 <= scan + len + lastoffset
  {
  }

  // The round's scan ends at the next emission, or at a stop that is passed over.
  lemma {:induction false} Stopped(base: seq<byte>, target: seq<byte>, ms: seq<Match>, off: int, start: int, r: int)
    requires Usable(base, target, ms) && StoppedAt(base, target, ms, off, start, r)
    ensures r < |target| ==> r + ms[r].len <= |target|
    ensures NextEmission(base, target, ms, off, start) ==
            if r == |target| || ms[r].len != OldScore(base, target, ms, off, start, r) then r
            else NextEmission(base, target, ms, off, r + ms[r].len)
  {
    FirstStopIs(base, target, ms, off, start, start, r);
    if r < |target| {
      assert UsableAt(base, target, r, ms[r]);
    }
  }

  // A stop that is passed over moves the scan on without moving the next emission.
  lemma {:induction false} SkipsMatch(base: seq<byte>, target: seq<byte>, ms: seq<Match>, off: int, start: int, r: int)
    requires Usable(base, target, ms) && StoppedAt(base, target, ms, off, start, r) && r < |target| && 0 <= start + off
    requires ms[r].len == OldScore(base, target, ms, off, start, r)
    ensures 0 < ms[r].len && start < r + ms[r].len <= |target| && 0 <= r + ms[r].len + off
    ensures NextEmission(base, target, ms, off, start) == NextEmission(base, target, ms, off, r + ms[r].len)
  {
    Stopped(base, target, ms, off, start, r);
  }

  lemma {:induction false} PassedOver(base: seq<byte>, target: seq<byte>, ms: seq<Match>, es: Steps,
                   lastscan: int, lastpos: int, lastoffset: int, scan: int, len: int, r: int)
    requires Usable(base, target, ms) && Coding(base, target, ms, es, lastscan, lastpos, lastoffset, scan, len)
    requires scan < |target|
    requires StoppedAt(base, target, ms, lastoffset, scan + len, r) && r < |target|
    requires ms[r].len == OldScore(base, target, ms, lastoffset, scan + len, r)
    ensures Coding(base, target, ms, es, lastscan, lastpos, lastoffset, r, ms[r].len)
    ensures ms[r].len > 0
  {
    SkipsMatch(base, target, ms, lastoffset, scan + len, r);
  }

  // The round that does not pass over its stop has reached the next emission.
  lemma {:induction false} AtEmission(base: seq<byte>, target: seq<byte>, ms: seq<Match>, es: Steps,
                                      lastscan: int, lastpos: int, lastoffset: int, scan: int, len: int, r: int)
    requires Usable(base, target, ms) && Coding(base, target, ms, es, lastscan, lastpos, lastoffset, scan, len)
    requires scan < |target|
    requires StoppedAt(base, target, ms, lastoffset, scan + len, r)
    requires r < |target| ==> ms[r].len != OldScore(base, target, ms, lastoffset, scan + len, r)
    ensures Emitting(base, target, ms, es, lastscan, lastpos, r)
  {
    Stopped(base, target, ms, lastoffset, scan + len, r);
  }

  // The coder has emitted es and is about to emit at r.
  ghost predicate Emitting(base: seq<byte>, target: seq<byte>, ms: seq<Match>, es: Steps, lastscan: int, lastpos: int,
                           r: int)
    requires Usable(base, target, ms)
  {
    && Trace(base, target, ms, es) && Unfinished(target, es)
    && var c := CursorAfter(ms, es);
    && 0 <= lastscan == c.lastscan <= r && 0 <= lastpos == c.lastpos <= |base|
    && 0 <= c.start <= |target| && r == NextEmission(base, target, ms, c.lastoffset, c.start)
    && r <= |target| && |target| > 0
    && (r < |target| ==> ms[r].len > 0)
  }

  // After the emission, the next round goes on behind the match.
  lemma {:induction false} Emitted(base: seq<byte>, target: seq<byte>, ms: seq<Match>, es: Steps,
                                   lastscan: int, lastpos: int, r: int, e: Step, len: int)
    requires Usable(base, target, ms) && Emitting(base, target, ms, es, lastscan, lastpos, r)
    requires Chosen(base, target, e) && e.lastscan == lastscan && e.lastpos == lastpos && e.scan == r
    requires r < |target| ==> e.pos == ms[r].pos && len == ms[r].len
    ensures Coding(base, target, ms, Then(es, e), r - e.Lenb(), e.pos - e.Lenb(), e.pos - r, r, len)
  {
    ChosenTiles(base, target, e);
    TraceGrows(base, target, ms, es, e);
    if r < |target| {
      assert UsableAt(base, target, r, ms[r]);
    }
    CodingFrom(base, target, ms, Then(es, e), After(ms, e), r, len);
  }

  lemma {:induction false} CodingFrom(base: seq<byte>, target: seq<byte>, ms: seq<Match>, fs: Steps, c: Cursor,
                                      scan: int, len: int)
    requires Usable(base, target, ms) && Trace(base, target, ms, fs) && c == CursorAfter(ms, fs)
    requires 0 <= c.lastscan <= scan <= |target| && 0 <= c.lastpos <= |base|
    requires if scan == |target| then Complete(target, fs) else Unfinished(target, fs)
    requires scan < |target| ==>
      0 <= len && scan + len <= |target| && 0 <= scan + len + c.lastoffset && c.start == scan + len
    ensures Coding(base, target, ms, fs, c.lastscan, c.lastpos, c.lastoffset, scan, len)
  {
  }

  lemma {:induction false} TraceGrows(base: seq<byte>, target: seq<byte>, ms: seq<Match>, es: Steps, e: Step)
    requires Usable(base, target, ms) && Emitting(base, target, ms, es, e.lastscan, e.lastpos, e.scan)
    requires Chosen(base, target, e) && (e.scan < |target| ==> e.pos == ms[e.scan].pos)
    ensures Trace(base, target, ms, Then(es, e)) && 0 <= e.scan <= |target|
    ensures if e.scan == |target| then Complete(target, Then(es, e)) else Unfinished(target, Then(es, e))
  {
  }

  // The streams grow with the trace.
  lemma {:induction false} StreamsAppend(base: seq<byte>, target: seq<byte>, es: Steps, e: Step)
    requires AllTile(base, target, es) && Tiles(base, target, e)
    ensures AllTile(base, target, Then(es, e))
    ensures Controls(Then(es, e)) == Controls(es) + e.Control()
    ensures Diffs(base, target, Then(es, e)) == Diffs(base, target, es) + DiffBytes(base, target, e)
    ensures Extras(base, target, Then(es, e)) == Extras(base, target, es) + ExtraBytes(target, e)
  {
  }

  // The buffers hold the diff and extra data of the emissions so far, which
  // together cover the new file up to lastscan.
  ghost predicate Written(base: seq<byte>, target: seq<byte>, es: Steps, db: array<byte>, dblen: int, eb: array<byte>,
                          eblen: int, lastscan: int)
    reads db, eb
  {
    && 0 <= dblen <= db.Length && 0 <= eblen <= eb.Length
    && Streams(base, target, es, db[..dblen], eb[..eblen], lastscan)
  }

  ghost predicate Streams(base: seq<byte>, target: seq<byte>, es: Steps, diff: seq<byte>, extra: seq<byte>,
                          lastscan: int) {
    && AllTile(base, target, es) && |diff| + |extra| == lastscan
    && diff == Diffs(base, target, es) && extra == Extras(base, target, es)
  }

  lemma {:induction false} StreamsGrow(base: seq<byte>, target: seq<byte>, es: Steps, e: Step, diff: seq<byte>,
                                       extra: seq<byte>, diff1: seq<byte>, extra1: seq<byte>)
    requires Streams(base, target, es, diff, extra, e.lastscan) && Tiles(base, target, e)
    requires diff1 == diff + DiffBytes(base, target, e) && extra1 == extra + ExtraBytes(target, e)
    ensures Streams(base, target, Then(es, e), diff1, extra1, e.scan - e.Lenb())
  {
    StreamsAppend(base, target, es, e);
  }

  // One round's scan: to the next emission, or past a stop where the previous
  // alignment already gives the match.
  method ScanRound(I: array<int>, base: seq<byte>, target: seq<byte>, lastscan: int, lastpos: int, lastoffset: int,
                   scan0: int, len0: int, pos0: int, ghost ms: seq<Match>, ghost es: Steps)
    returns (scan: int, len: int, pos: int, emit: bool)
    requires SuffixArray(base, I[..]) && Positions(base, I[..]) && ms == Matches(base, I[..], target)
    requires 0 <= pos0 <= |base| && scan0 < |target|
    requires Usable(base, target, ms) && Coding(base, target, ms, es, lastscan, lastpos, lastoffset, scan0, len0)
    ensures 0 <= pos <= |base|
    ensures if emit then Emitting(base, target, ms, es, lastscan, lastpos, scan)
            else scan < |target| && Coding(base, target, ms, es, lastscan, lastpos, lastoffset, scan, len)
    ensures scan < |target| ==>
      len == ms[scan].len && pos == ms[scan].pos && scan + len > scan0 + len0
  {
    CodingRange(base, target, ms, es, lastscan, lastpos, lastoffset, scan0, len0);
    var oldscore;
    scan, len, pos, oldscore := NextMatch(I, base, target, lastoffset, scan0 + len0, len0, pos0, ms);
    emit := len != oldscore || scan == |target|;
    if emit {
      AtEmission(base, target, ms, es, lastscan, lastpos, lastoffset, scan0, len0, scan);
    } else {
      PassedOver(base, target, ms, es, lastscan, lastpos, lastoffset, scan0, len0, scan);
    }
  }

  // One round's emission.
  method EmitRound(base: seq<byte>, target: seq<byte>, lastscan: int, lastpos: int, scan: int, pos: int,
                   db: array<byte>, dblen: int, eb: array<byte>, eblen: int, patch: MemoryCompressor, ghost es: Steps)
    returns (lenf: int, lenb: int, ghost e: Step)
    requires |base| < MAX_SIZE && |target| < MAX_SIZE
    requires 0 <= lastscan <= scan <= |target| && 0 <= lastpos <= |base| && 0 <= pos <= |base|
    requires db != eb && db.Length == eb.Length == |target| + 1
    requires Written(base, target, es, db, dblen, eb, eblen, lastscan)
    requires patch.pending == Controls(es) && patch.Collecting()
    modifies db, eb, patch
    ensures Chosen(base, target, e)
    ensures e.lastscan == lastscan && e.lastpos == lastpos && e.scan == scan && e.pos == pos
    ensures lenf == e.Lenf() && lenb == e.Lenb()
    ensures Written(base, target, Then(es, e), db, dblen + lenf, eb, eblen + ((scan - lenb) - (lastscan + lenf)),
                    scan - lenb)
    ensures patch.pending == Controls(Then(es, e)) && patch.Collecting()
  {
    ghost var diff, extra := db[..dblen], eb[..eblen];
    lenf, lenb, e := Emit(base, target, lastscan, lastpos, scan, pos, db, dblen, eb, eblen, patch);
    StreamsGrow(base, target, es, e, diff, extra, db[..dblen + e.Add()], eb[..eblen + e.Copy()]);
  }

  lemma {:induction false} EmittingRange(base: seq<byte>, target: seq<byte>, ms: seq<Match>, es: Steps, lastscan: int,
                                         lastpos: int, r: int)
    requires Usable(base, target, ms) && Emitting(base, target, ms, es, lastscan, lastpos, r)
    ensures 0 <= lastscan <= r <= |target| && 0 <= lastpos <= |base|
  {
  }

  // The loop's variables.
  datatype Coder = Coder(scan: int, len: int, pos: int, lastscan: int, lastpos: int, lastoffset: int, dblen: int,
                         eblen: int)

  // What holds between rounds.
  ghost predicate Ongoing(base: seq<byte>, target: seq<byte>, ms: seq<Match>, es: Steps, c: Coder,
                          db: array<byte>, eb: array<byte>, patch: MemoryCompressor)
    requires Usable(base, target, ms)
    reads db, eb, patch
  {
    && 0 <= c.pos <= |base| && c.scan <= |target|
    && Coding(base, target, ms, es, c.lastscan, c.lastpos, c.lastoffset, c.scan, c.len)
    && Written(base, target, es, db, c.dblen, eb, c.eblen, c.lastscan)
    && patch.pending == Controls(es) && patch.Collecting()
  }

  lemma {:induction false} EmittedCoder(base: seq<byte>, target: seq<byte>, ms: seq<Match>, es: Steps, c: Coder,
                                        e: Step, d: Coder)
    requires Usable(base, target, ms) && Emitting(base, target, ms, es, c.lastscan, c.lastpos, e.scan)
    requires Chosen(base, target, e) && e.lastscan == c.lastscan && e.lastpos == c.lastpos
    requires e.scan < |target| ==> e.pos == ms[e.scan].pos && d.len == ms[e.scan].len
    requires d.scan == e.scan && d.lastscan == e.scan - e.Lenb() && d.lastpos == e.pos - e.Lenb()
    requires d.lastoffset == e.pos - e.scan
    ensures Coding(base, target, ms, Then(es, e), d.lastscan, d.lastpos, d.lastoffset, d.scan, d.len)
  {
    Emitted(base, target, ms, es, c.lastscan, c.lastpos, e.scan, e, d.len);
  }

  // One round's emission, seen from the loop.
  method EmitAt(base: seq<byte>, target: seq<byte>, db: array<byte>, eb: array<byte>, patch: MemoryCompressor,
                c: Coder, scan: int, len: int, pos: int, ghost ms: seq<Match>, ghost es: Steps)
    returns (d: Coder, ghost fs: Steps)
    requires |base| < MAX_SIZE && |target| < MAX_SIZE && Usable(base, target, ms)
    requires db != eb && db.Length == eb.Length == |target| + 1
    requires Written(base, target, es, db, c.dblen, eb, c.eblen, c.lastscan)
    requires patch.pending == Controls(es) && patch.Collecting()
    requires Emitting(base, target, ms, es, c.lastscan, c.lastpos, scan) && 0 <= pos <= |base|
    requires scan < |target| ==> pos == ms[scan].pos && len == ms[scan].len
    modifies db, eb, patch
    ensures d.scan == scan && d.len == len
    ensures Ongoing(base, target, ms, fs, d, db, eb, patch)
  {
    EmittingRange(base, target, ms, es, c.lastscan, c.lastpos, scan);
    var lenf, lenb;
    ghost var e;
    lenf, lenb, e := EmitRound(base, target, c.lastscan, c.lastpos, scan, pos, db, c.dblen, eb, c.eblen, patch, es);
    fs := Then(es, e);
    d := Coder(scan, len, pos, scan - lenb, pos - lenb, pos - scan,
               c.dblen + lenf, c.eblen + ((scan - lenb) - (c.lastscan + lenf)));
    EmittedCoder(base, target, ms, es, c, e, d);
  }

  // One round of the loop.
  method Round(I: array<int>, base: seq<byte>, target: seq<byte>, db: array<byte>, eb: array<byte>,
               patch: MemoryCompressor, c: Coder, ghost ms: seq<Match>, ghost es: Steps)
    returns (d: Coder, ghost fs: Steps)
    requires |base| < MAX_SIZE && |target| < MAX_SIZE
    requires SuffixArray(base, I[..]) && Positions(base, I[..]) && ms == Matches(base, I[..], target)
    requires Usable(base, target, ms)
    requires db != eb && db.Length == eb.Length == |target| + 1
    requires Ongoing(base, target, ms, es, c, db, eb, patch) && c.scan < |target|
    modifies db, eb, patch
    ensures Ongoing(base, target, ms, fs, d, db, eb, patch)
    ensures d.scan < |target| ==> d.scan + d.len > c.scan + c.len
  {
    var scan, len, pos, emit := ScanRound(I, base, target, c.lastscan, c.lastpos, c.lastoffset, c.scan, c.len, c.pos,
                                          ms, es);
    if emit {
      d, fs := EmitAt(base, target, db, eb, patch, c, scan, len, pos, ms, es);
    } else {
      fs := es;
      d := c.(scan := scan, len := len, pos := pos);
    }
  }

  // The whole loop.
  method EmitAll(I: array<int>, base: seq<byte>, target: seq<byte>, db: array<byte>, eb: array<byte>,
                 patch: MemoryCompressor, ghost ms: seq<Match>)
    returns (dblen: int, eblen: int, ghost es: Steps)
    requires |base| < MAX_SIZE && |target| < MAX_SIZE
    requires SuffixArray(base, I[..]) && Positions(base, I[..]) && ms == Matches(base, I[..], target)
    requires Usable(base, target, ms)
    requires db != eb && db.Length == eb.Length == |target| + 1 && patch.pending == []
    requires patch.Collecting()
    requires I.Length > 0
    modifies db, eb, patch
    ensures Trace(base, target, ms, es) && Complete(target, es)
    ensures Written(base, target, es, db, dblen, eb, eblen, |target|)
    ensures patch.pending == Controls(es) && patch.Collecting()
  {
    var c := Coder(0, 0, 0, 0, 0, 0, 0, 0);
    es := NoSteps;
    CodingStarts(base, target, ms);
    while c.scan < |target|
      invariant Ongoing(base, target, ms, es, c, db, eb, patch)
      decreases if c.scan < |target| then |target| + 1 - (c.scan + c.len) else 0
    {
      c, es := Round(I, base, target, db, eb, patch, c, ms, es);
    }
    Tiling(base, target, ms, es);
    dblen, eblen := c.dblen, c.eblen;
  }
}
