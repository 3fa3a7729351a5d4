// What CreatePatch emits: the steps of a patch, how each is chosen, and the
// control, diff and extra data they stand for.
module DiffTrace {
  import opened Bytes
  import opened Qsufsort
  import opened MatchSearch
  import opened Extend
  import opened ScanLoop
  import opened OffT

  // One emission.  rawf and rawb are the forward and backward extensions, lens
  // the part of their overlap that stays with the forward one.
  datatype Step = Step(lastscan: int, lastpos: int, scan: int, pos: int, rawf: int, rawb: int, lens: int) {
    function Overlap(): int {
      (lastscan + rawf) - (scan - rawb)
    }

    function Lenf(): int {
      if Overlap() > 0 then rawf + lens - Overlap() else rawf
    }

    function Lenb(): int {
      if Overlap() > 0 then rawb - lens else rawb
    }

    // Bytes to add to the old file, bytes to copy, distance to seek.
    function Add(): int {
      Lenf()
    }

    function Copy(): int {
      (scan - Lenb()) - (lastscan + Lenf())
    }

    function Seek(): int {
      (pos - Lenb()) - (lastpos + Lenf())
    }

    function Control(): seq<byte> {
      Encode(Add()) + Encode(Copy()) + Encode(Seek())
    }
  }

  // The extensions are the smallest that score best over what they may cover.
  ghost predicate Extended(base: seq<byte>, target: seq<byte>, e: Step) {
    && 0 <= e.lastscan <= e.scan <= |target|
    && 0 <= e.lastpos <= |base| && 0 <= e.pos <= |base|
    && SmallestMax(base, target, Forward(e.lastpos - e.lastscan, e.lastscan), e.rawf,
                   Min(e.scan - e.lastscan, |base| - e.lastpos))
    && (if e.scan < |target|
        then SmallestMax(base, target, Backward(e.pos - e.scan, e.scan), e.rawb, Min(e.scan - e.lastscan, e.pos))
        else e.rawb == 0)
  }

  // An overlap of the two is divided at the smallest point that matches best.
  ghost predicate Chosen(base: seq<byte>, target: seq<byte>, e: Step) {
    && Extended(base, target, e)
    && (e.Overlap() > 0 ==>
          SmallestMax(base, target, Divide(e.lastpos - e.lastscan, e.pos - e.scan, e.scan - e.rawb,
                                           e.lastscan + e.rawf),
                      e.lens, e.Overlap()))
  }

  // The step covers lastscan..scan - Lenb() of the new file, from positions of
  // the old file, without the two extensions overlapping.
  ghost predicate Tiles(base: seq<byte>, target: seq<byte>, e: Step) {
    && 0 <= e.lastscan && 0 <= e.Lenf() && e.lastscan + e.Lenf() <= e.scan - e.Lenb()
    && 0 <= e.Lenb() <= e.pos <= |base| && e.scan <= |target|
    && 0 <= e.lastpos && e.lastpos + e.Lenf() <= |base|
    && (e.scan == |target| ==> e.Lenb() == 0)
  }

  lemma {:induction false} ChosenTiles(base: seq<byte>, target: seq<byte>, e: Step)
    requires Chosen(base, target, e)
    ensures Tiles(base, target, e)
  {
  }

  // Where the coder stands after its emissions so far.
  datatype Cursor = Cursor(lastscan: int, lastpos: int, lastoffset: int, start: int)

  // The first place from i on where the scan loop stops.
  ghost function FirstStop(base: seq<byte>, target: seq<byte>, ms: seq<Match>, off: int, start: int, i: int): (r: int)
    requires |ms| == |target| && 0 <= start <= i <= |target|
    ensures i <= r <= |target|
    decreases |target| - i
  {
    if i == |target| || Stops(base, target, ms, off, start, i) then i
    else FirstStop(base, target, ms, off, start, i + 1)
  }

  // Where the next emission happens: stops at a match that the previous
  // alignment already gives are passed over.
  ghost function NextEmission(base: seq<byte>, target: seq<byte>, ms: seq<Match>, off: int, start: int): (r: int)
    requires Usable(base, target, ms) && 0 <= start <= |target|
    ensures start <= r <= |target|
    decreases |target| - start
  {
    var i := FirstStop(base, target, ms, off, start, start);
    if i == |target| || ms[i].len != OldScore(base, target, ms, off, start, i) then i
    else
      assert UsableAt(base, target, i, ms[i]);
      assert Stops(base, target, ms, off, start, i) by { FirstStops(base, target, ms, off, start, start); }
      NextEmission(base, target, ms, off, i + ms[i].len)
  }

  lemma {:induction false} FirstStops(base: seq<byte>, target: seq<byte>, ms: seq<Match>, off: int, start: int, i: int)
    requires |ms| == |target| && 0 <= start <= i <= |target|
    ensures var r := FirstStop(base, target, ms, off, start, i);
      r < |target| ==> Stops(base, target, ms, off, start, r)
    decreases |target| - i
  {
    if i < |target| && !Stops(base, target, ms, off, start, i) {
      FirstStops(base, target, ms, off, start, i + 1);
    }
  }

  // The loop's own description of its stop determines it.
  lemma {:induction false} FirstStopIs(base: seq<byte>, target: seq<byte>, ms: seq<Match>, off: int, start: int,
                                       i: int, r: int)
    requires |ms| == |target| && 0 <= start <= i <= r <= |target|
    requires forall j :: i <= j < r ==> !Stops(base, target, ms, off, start, j)
    requires r < |target| ==> Stops(base, target, ms, off, start, r)
    ensures FirstStop(base, target, ms, off, start, i) == r
    decreases |target| - i
  {
    if i < r {
      FirstStopIs(base, target, ms, off, start, i + 1, r);
    }
  }

  // Step e is what the coder does next at cursor c.
  ghost predicate Follows(base: seq<byte>, target: seq<byte>, ms: seq<Match>, c: Cursor, e: Step) {
    && Usable(base, target, ms) && 0 <= c.start <= |target|
    && e.lastscan == c.lastscan && e.lastpos == c.lastpos
    && e.scan == NextEmission(base, target, ms, c.lastoffset, c.start)
    && (e.scan < |target| ==> e.pos == ms[e.scan].pos)
    && Chosen(base, target, e)
  }

  // The cursor after step e: behind the match found there, if any.
  function After(ms: seq<Match>, e: Step): Cursor {
    Cursor(e.scan - e.Lenb(), e.pos - e.Lenb(), e.pos - e.scan,
           e.scan + if 0 <= e.scan < |ms| then ms[e.scan].len else 0)
  }

  // The steps made so far, oldest first.
  datatype Steps = NoSteps | Then(init: Steps, last: Step) {
    function Size(): nat {
      if NoSteps? then 0 else init.Size() + 1
    }
  }

  ghost predicate IsPrefix(p: Steps, all: Steps) {
    p == all || (all.Then? && IsPrefix(p, all.init))
  }

  function CursorAfter(ms: seq<Match>, es: Steps): Cursor {
    if es.NoSteps? then Cursor(0, 0, 0, 0) else After(ms, es.last)
  }

  // Each step follows the ones before it.
  ghost predicate Trace(base: seq<byte>, target: seq<byte>, ms: seq<Match>, es: Steps) {
    es.Then? ==> Trace(base, target, ms, es.init) && Follows(base, target, ms, CursorAfter(ms, es.init), es.last)
  }

  // None of them has reached the end of the new file ...
  ghost predicate Unfinished(target: seq<byte>, es: Steps) {
    es.Then? ==> Unfinished(target, es.init) && es.last.scan < |target|
  }

  // ... or exactly the last one has.
  ghost predicate Complete(target: seq<byte>, es: Steps) {
    if |target| == 0 then es.NoSteps?
    else es.Then? && es.last.scan == |target| && Unfinished(target, es.init)
  }

  // ------------------------------------------------------ the three streams

  function DiffBytes(base: seq<byte>, target: seq<byte>, e: Step): seq<byte>
    requires 0 <= e.lastscan && 0 <= e.Lenf() && e.lastscan + e.Lenf() <= |target|
    requires 0 <= e.lastpos && e.lastpos + e.Lenf() <= |base|
  {
    seq<byte>(e.Lenf(), i requires 0 <= i < e.Lenf() => SubByte(target[e.lastscan + i], base[e.lastpos + i]))
  }

  function ExtraBytes(target: seq<byte>, e: Step): seq<byte>
    requires 0 <= e.lastscan + e.Lenf() <= e.scan - e.Lenb() <= |target|
  {
    target[e.lastscan + e.Lenf()..e.scan - e.Lenb()]
  }

  ghost predicate AllTile(base: seq<byte>, target: seq<byte>, es: Steps) {
    es.Then? ==> AllTile(base, target, es.init) && Tiles(base, target, es.last)
  }

  function Controls(es: Steps): seq<byte> {
    match es
    case NoSteps => []
    case Then(init, e) => Controls(init) + e.Control()
  }

  ghost function Diffs(base: seq<byte>, target: seq<byte>, es: Steps): seq<byte>
    requires AllTile(base, target, es)
  {
    match es
    case NoSteps => []
    case Then(init, e) => Diffs(base, target, init) + DiffBytes(base, target, e)
  }

  ghost function Extras(base: seq<byte>, target: seq<byte>, es: Steps): seq<byte>
    requires AllTile(base, target, es)
  {
    match es
    case NoSteps => []
    case Then(init, e) => Extras(base, target, init) + ExtraBytes(target, e)
  }

  // How far the steps cover the new file, and where they leave the old one.
  function Covered(es: Steps): int {
    if es.NoSteps? then 0 else es.last.scan - es.last.Lenb()
  }

  function OldPosition(es: Steps): int {
    if es.NoSteps? then 0 else es.last.pos - es.last.Lenb()
  }

  // Each step starts where the one before it ended.
  ghost predicate Joined(es: Steps) {
    es.Then? ==> Joined(es.init) && es.last.lastscan == Covered(es.init) && es.last.lastpos == OldPosition(es.init)
  }

  lemma {:induction false} TraceJoined(base: seq<byte>, target: seq<byte>, ms: seq<Match>, es: Steps)
    requires Trace(base, target, ms, es)
    ensures AllTile(base, target, es) && Joined(es)
  {
    if es.Then? {
      TraceJoined(base, target, ms, es.init);
      ChosenTiles(base, target, es.last);
    }
  }

  // The pieces of diff and extra data tile the new file up to where the steps
  // have got.
  lemma {:induction false} Tiling(base: seq<byte>, target: seq<byte>, ms: seq<Match>, es: Steps)
    requires Trace(base, target, ms, es)
    ensures AllTile(base, target, es)
    ensures |Controls(es)| == 24 * es.Size()
    ensures |Diffs(base, target, es)| + |Extras(base, target, es)| == Covered(es) <= |target|
    ensures 0 <= OldPosition(es) <= |base|
    ensures Complete(target, es) ==> Covered(es) == |target|
  {
    TraceJoined(base, target, ms, es);
    if es.Then? {
      Tiling(base, target, ms, es.init);
    }
  }

  // An emission before the end of the new file is made for a match of more than
  // eight bytes.
  lemma {:induction false} EmissionLong(base: seq<byte>, target: seq<byte>, ms: seq<Match>, off: int, start: int)
    requires Usable(base, target, ms) && 0 <= start <= |target|
    ensures var r := NextEmission(base, target, ms, off, start); r < |target| ==> ms[r].len > 8
    decreases |target| - start
  {
    var i := FirstStop(base, target, ms, off, start, start);
    FirstStops(base, target, ms, off, start, start);
    if i < |target| && ms[i].len == OldScore(base, target, ms, off, start, i) {
      assert UsableAt(base, target, i, ms[i]);
      EmissionLong(base, target, ms, off, i + ms[i].len);
    }
  }

  // So emissions are at least nine bytes apart.
  lemma {:induction false} EmissionsApart(base: seq<byte>, target: seq<byte>, ms: seq<Match>, es: Steps)
    requires Trace(base, target, ms, es) && es.Then? && Unfinished(target, es.init)
    ensures 9 * (es.Size() - 1) <= es.last.scan <= |target|
  {
    if es.init.Then? {
      EmissionsApart(base, target, ms, es.init);
      var before := CursorAfter(ms, es.init.init);
      EmissionLong(base, target, ms, before.lastoffset, before.start);
      assert UsableAt(base, target, es.init.last.scan, ms[es.init.last.scan]);
    }
  }

  lemma {:induction false} FewEmissions(base: seq<byte>, target: seq<byte>, ms: seq<Match>, es: Steps)
    requires Trace(base, target, ms, es) && Complete(target, es)
    ensures 9 * es.Size() <= |target| + 9
  {
    if es.Then? {
      EmissionsApart(base, target, ms, es);
    }
  }
}
