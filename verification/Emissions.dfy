// What an emission is, in terms of the two files and the matches found: where
// it happens, how far it extends both ways, and how an overlap is divided.
module Emissions {
  import opened Bytes
  import opened Extend
  import opened ScanLoop
  import opened DiffTrace

  // The places of lo..hi where the byte off places on in the old file is the same.
  ghost function Same(base: seq<byte>, target: seq<byte>, off: int, lo: int, hi: int): set<int> {
    set j | lo <= j < hi && 0 <= j < |target| && 0 <= j + off < |base| && base[j + off] == target[j]
  }

  lemma {:induction false} HitsCount(base: seq<byte>, target: seq<byte>, off: int, lo: int, hi: int)
    ensures Hits(base, target, off, lo, hi) == |Same(base, target, off, lo, hi)|
    decreases hi - lo
  {
    if lo < hi {
      HitsCount(base, target, off, lo, hi - 1);
      var last := if Hit(base, target, off, hi - 1) then {hi - 1} else {};
      assert Same(base, target, off, lo, hi) == Same(base, target, off, lo, hi - 1) + last;
    } else {
      assert Same(base, target, off, lo, hi) == {};
    }
  }

  // The matches found at start..i all end by end, and one of them ends there.
  ghost predicate FurthestEnd(ms: seq<Match>, start: int, i: int, end: int)
    requires 0 <= start && i < |ms|
  {
    && start <= end && (forall k :: start <= k <= i ==> k + ms[k].len <= end)
    && (end == start || exists k :: start <= k <= i && end == k + ms[k].len)
  }

  lemma {:induction false} ReachIsFurthest(ms: seq<Match>, start: int, i: int)
    requires 0 <= start && i < |ms|
    ensures FurthestEnd(ms, start, i, Reach(ms, start, i))
    decreases i - start
  {
    if start <= i {
      ReachIsFurthest(ms, start, i - 1);
      assert i + ms[i].len == i + ms[i].len;
    }
  }

  // The old score: how many of the bytes from i to the furthest end of a match
  // the previous alignment gives.
  lemma {:induction false} OldScoreIs(base: seq<byte>, target: seq<byte>, ms: seq<Match>, off: int, start: int, i: int,
                                      end: int)
    requires 0 <= start <= i < |ms| && FurthestEnd(ms, start, i, end)
    ensures OldScore(base, target, ms, off, start, i) == |Same(base, target, off, i, end)|
  {
    ReachIsFurthest(ms, start, i);
    HitsCount(base, target, off, i, end);
  }

  // ------------------------------------------------------ where it happens

  // No match at lo..hi beats the old score by more than eight bytes, or equals it.
  ghost predicate Quiet(base: seq<byte>, target: seq<byte>, ms: seq<Match>, off: int, lo: int, hi: int)
    requires 0 <= lo && hi <= |ms|
  {
    forall i :: lo <= i < hi ==>
      && ms[i].len <= OldScore(base, target, ms, off, lo, i) + 8
      && (ms[i].len == 0 || ms[i].len != OldScore(base, target, ms, off, lo, i))
  }

  // From start on, nonempty matches that equal the old score are passed over at
  // the places of skips, each time going on behind the match; then r is the
  // first place with a match that beats the old score by more than eight bytes,
  // or the end.
  ghost predicate EmissionAt(base: seq<byte>, target: seq<byte>, ms: seq<Match>, off: int, start: int, skips: seq<int>,
                             r: int)
    requires Usable(base, target, ms) && 0 <= start <= |target|
    decreases |skips|
  {
    if |skips| == 0 then
      && start <= r <= |target| && Quiet(base, target, ms, off, start, r)
      && (r < |target| ==> ms[r].len > OldScore(base, target, ms, off, start, r) + 8)
    else
      var p := skips[0];
      && start <= p < |target| && Quiet(base, target, ms, off, start, p)
      && 0 < ms[p].len == OldScore(base, target, ms, off, start, p)
      && p + ms[p].len <= |target| && EmissionAt(base, target, ms, off, p + ms[p].len, skips[1..], r)
  }

  lemma {:induction false} QuietIff(base: seq<byte>, target: seq<byte>, ms: seq<Match>, off: int, lo: int, hi: int)
    requires 0 <= lo && hi <= |ms|
    ensures Quiet(base, target, ms, off, lo, hi)
       <==> forall i :: lo <= i < hi ==> !Stops(base, target, ms, off, lo, i)
  {
    if Quiet(base, target, ms, off, lo, hi) {
      forall i | lo <= i < hi
        ensures !Stops(base, target, ms, off, lo, i)
      {
        assert ms[i].len <= OldScore(base, target, ms, off, lo, i) + 8;
      }
    } else {
      var i :| lo <= i < hi && !(ms[i].len <= OldScore(base, target, ms, off, lo, i) + 8
                                 && (ms[i].len == 0 || ms[i].len != OldScore(base, target, ms, off, lo, i)));
      assert Stops(base, target, ms, off, lo, i);
    }
  }

  // The first stop is the place before which all is quiet.
  lemma {:induction false} FirstStopIff(base: seq<byte>, target: seq<byte>, ms: seq<Match>, off: int, start: int,
                                        r: int)
    requires |ms| == |target| && 0 <= start <= r <= |target|
    ensures FirstStop(base, target, ms, off, start, start) == r
       <==> Quiet(base, target, ms, off, start, r) && (r < |target| ==> Stops(base, target, ms, off, start, r))
  {
    QuietIff(base, target, ms, off, start, r);
    FirstStops(base, target, ms, off, start, start);
    QuietBefore(base, target, ms, off, start, start);
    if Quiet(base, target, ms, off, start, r) && (r < |target| ==> Stops(base, target, ms, off, start, r)) {
      FirstStopIs(base, target, ms, off, start, start, r);
    }
  }

  lemma {:induction false} QuietBefore(base: seq<byte>, target: seq<byte>, ms: seq<Match>, off: int, start: int, i: int)
    requires |ms| == |target| && 0 <= start <= i <= |target|
    ensures forall j :: i <= j < FirstStop(base, target, ms, off, start, i) ==>
              !Stops(base, target, ms, off, start, j)
    decreases |target| - i
  {
    if i < |target| && !Stops(base, target, ms, off, start, i) {
      QuietBefore(base, target, ms, off, start, i + 1);
    }
  }

  lemma {:induction false} EmissionFound(base: seq<byte>, target: seq<byte>, ms: seq<Match>, off: int, start: int)
    returns (skips: seq<int>)
    requires Usable(base, target, ms) && 0 <= start <= |target|
    ensures EmissionAt(base, target, ms, off, start, skips, NextEmission(base, target, ms, off, start))
    decreases |target| - start
  {
    var i, r := FirstStop(base, target, ms, off, start, start), NextEmission(base, target, ms, off, start);
    FirstStopIff(base, target, ms, off, start, i);
    EmissionStep(base, target, ms, off, start, i);
    if i < |target| && ms[i].len == OldScore(base, target, ms, off, start, i) {
      var more := EmissionFound(base, target, ms, off, i + ms[i].len);
      skips := [i] + more;
      EmissionSkips(base, target, ms, off, start, i, more, r);
    } else {
      skips := [];
      EmissionEnds(base, target, ms, off, start, r);
    }
  }

  lemma {:induction false} EmissionStep(base: seq<byte>, target: seq<byte>, ms: seq<Match>, off: int, start: int,
                                        i: int)
    requires Usable(base, target, ms) && 0 <= start <= |target| && i == FirstStop(base, target, ms, off, start, start)
    ensures if i < |target| && ms[i].len == OldScore(base, target, ms, off, start, i) then
              && 0 < ms[i].len && i + ms[i].len <= |target|
              && NextEmission(base, target, ms, off, start) == NextEmission(base, target, ms, off, i + ms[i].len)
            else NextEmission(base, target, ms, off, start) == i
  {
    FirstStops(base, target, ms, off, start, start);
    if i < |target| {
      assert UsableAt(base, target, i, ms[i]);
    }
  }

  lemma {:induction false} EmissionEnds(base: seq<byte>, target: seq<byte>, ms: seq<Match>, off: int, start: int,
                                        r: int)
    requires Usable(base, target, ms) && 0 <= start <= r <= |target| && Quiet(base, target, ms, off, start, r)
    requires r < |target| ==> ms[r].len > OldScore(base, target, ms, off, start, r) + 8
    ensures EmissionAt(base, target, ms, off, start, [], r)
  {
  }

  lemma {:induction false} EmissionSkips(base: seq<byte>, target: seq<byte>, ms: seq<Match>, off: int, start: int,
                                         p: int, more: seq<int>, r: int)
    requires Usable(base, target, ms) && 0 <= start <= p < |target| && Quiet(base, target, ms, off, start, p)
    requires 0 < ms[p].len == OldScore(base, target, ms, off, start, p) && p + ms[p].len <= |target|
    requires EmissionAt(base, target, ms, off, p + ms[p].len, more, r)
    ensures EmissionAt(base, target, ms, off, start, [p] + more, r)
  {
    assert ([p] + more)[1..] == more;
  }

  lemma {:induction false} EmissionUnique(base: seq<byte>, target: seq<byte>, ms: seq<Match>, off: int, start: int,
                                          skips: seq<int>, r: int)
    requires Usable(base, target, ms) && 0 <= start <= |target|
    requires EmissionAt(base, target, ms, off, start, skips, r)
    ensures r == NextEmission(base, target, ms, off, start)
    decreases |skips|
  {
    if |skips| == 0 {
      FirstStopIff(base, target, ms, off, start, r);
    } else {
      FirstStopIff(base, target, ms, off, start, skips[0]);
      EmissionUnique(base, target, ms, off, skips[0] + ms[skips[0]].len, skips[1..], r);
    }
  }

  ghost predicate IsEmission(base: seq<byte>, target: seq<byte>, ms: seq<Match>, off: int, start: int, r: int)
    requires Usable(base, target, ms) && 0 <= start <= |target|
  {
    exists skips :: EmissionAt(base, target, ms, off, start, skips, r)
  }

  // That is exactly where the next emission happens.
  lemma {:induction false} NextEmissionIff(base: seq<byte>, target: seq<byte>, ms: seq<Match>, off: int, start: int,
                                           r: int)
    requires Usable(base, target, ms) && 0 <= start <= |target|
    ensures r == NextEmission(base, target, ms, off, start) <==> IsEmission(base, target, ms, off, start, r)
  {
    var found := EmissionFound(base, target, ms, off, start);
    if IsEmission(base, target, ms, off, start, r) {
      var skips :| EmissionAt(base, target, ms, off, start, skips, r);
      EmissionUnique(base, target, ms, off, start, skips, r);
    }
  }

  // ------------------------------------------------ how far it extends

  // Twice the bytes that are the same less the bytes taken: the forward
  // extension is the shortest that is best for this ...
  lemma {:induction false} ForwardBest(base: seq<byte>, target: seq<byte>, e: Step, i: int)
    requires Chosen(base, target, e) && 0 <= i && e.lastscan + i <= e.scan && e.lastpos + i <= |base|
    ensures var off, lo := e.lastpos - e.lastscan, e.lastscan;
      var score, best := 2 * |Same(base, target, off, lo, lo + i)| - i,
                         2 * |Same(base, target, off, lo, lo + e.rawf)| - e.rawf;
      score <= best && (i < e.rawf ==> score < best)
  {
    var off, lo := e.lastpos - e.lastscan, e.lastscan;
    assert Beaten(base, target, Forward(off, lo), i, e.rawf);
    HitsCount(base, target, off, lo, lo + i);
    HitsCount(base, target, off, lo, lo + e.rawf);
  }

  // ... and so is the backward one, which is empty at the end of the new file.
  lemma {:induction false} BackwardBest(base: seq<byte>, target: seq<byte>, e: Step, i: int)
    requires Chosen(base, target, e) && 0 <= i && e.lastscan + i <= e.scan && i <= e.pos
    ensures e.scan == |target| ==> e.rawb == 0
    ensures var off, hi := e.pos - e.scan, e.scan;
      var score, best := 2 * |Same(base, target, off, hi - i, hi)| - i,
                         2 * |Same(base, target, off, hi - e.rawb, hi)| - e.rawb;
      e.scan < |target| ==> score <= best && (i < e.rawb ==> score < best)
  {
    var off, hi := e.pos - e.scan, e.scan;
    if e.scan < |target| {
      assert Beaten(base, target, Backward(off, hi), i, e.rawb);
      HitsCount(base, target, off, hi - i, hi);
      HitsCount(base, target, off, hi - e.rawb, hi);
    }
  }

  // Where they overlap, they are cut at the first place that leaves most bytes
  // the same on both sides; nothing is left between them then.
  lemma {:induction false} CutBest(base: seq<byte>, target: seq<byte>, e: Step, i: int)
    requires Chosen(base, target, e) && e.scan - e.rawb < i <= e.lastscan + e.rawf
    ensures var front, back, lo, hi := e.lastpos - e.lastscan, e.pos - e.scan, e.scan - e.rawb, e.lastscan + e.rawf;
      var cut := e.lastscan + e.Lenf();
      && lo <= cut == e.scan - e.Lenb() <= hi
      && |Same(base, target, front, lo, i)| + |Same(base, target, back, i, hi)|
         <= |Same(base, target, front, lo, cut)| + |Same(base, target, back, cut, hi)|
      && (i < cut ==>
            |Same(base, target, front, lo, i)| + |Same(base, target, back, i, hi)|
            < |Same(base, target, front, lo, cut)| + |Same(base, target, back, cut, hi)|)
  {
    var front, back, lo, hi := e.lastpos - e.lastscan, e.pos - e.scan, e.scan - e.rawb, e.lastscan + e.rawf;
    var cut := e.lastscan + e.Lenf();
    assert cut == lo + e.lens;
    assert Beaten(base, target, Divide(front, back, lo, hi), i - lo, e.lens);
    HitsCount(base, target, front, lo, i);
    HitsCount(base, target, back, i, hi);
    HitsCount(base, target, front, lo, cut);
    HitsCount(base, target, back, cut, hi);
  }

  // Otherwise they stay as they are.
  lemma {:induction false} NotCut(e: Step)
    requires e.lastscan + e.rawf <= e.scan - e.rawb
    ensures e.Lenf() == e.rawf && e.Lenb() == e.rawb
  {
  }

  // ---------------------------------------------------------- complete runs

  lemma {:induction false} PrefixTrace(base: seq<byte>, target: seq<byte>, ms: seq<Match>, p: Steps, all: Steps)
    requires Trace(base, target, ms, all) && IsPrefix(p, all)
    ensures Trace(base, target, ms, p)
  {
    if p != all {
      PrefixTrace(base, target, ms, p, all.init);
    }
  }

  lemma {:induction false} StepFollows(base: seq<byte>, target: seq<byte>, ms: seq<Match>, q: Steps, e: Step,
                                       all: Steps)
    requires Trace(base, target, ms, all) && IsPrefix(Then(q, e), all)
    ensures Follows(base, target, ms, CursorAfter(ms, q), e)
    ensures q.Then? ==> 0 <= q.last.scan <= |target|
  {
    PrefixTrace(base, target, ms, Then(q, e), all);
    if q.Then? {
      assert Follows(base, target, ms, CursorAfter(ms, q.init), q.last);
    }
  }

  lemma {:induction false} FollowsIsEmission(base: seq<byte>, target: seq<byte>, ms: seq<Match>, c: Cursor, e: Step)
    requires Follows(base, target, ms, c, e)
    ensures IsEmission(base, target, ms, c.lastoffset, c.start, e.scan)
  {
    NextEmissionIff(base, target, ms, c.lastoffset, c.start, e.scan);
  }

  // The cursor: behind the match of the step before, with that step's alignment.
  lemma {:induction false} CursorIs(ms: seq<Match>, q: Steps)
    requires q.Then? ==> 0 <= q.last.scan <= |ms|
    ensures var c := CursorAfter(ms, q);
      if q.NoSteps? then c.lastscan == c.lastpos == c.lastoffset == c.start == 0
      else
        && c.lastscan == q.last.scan - q.last.Lenb() && c.lastpos == q.last.pos - q.last.Lenb()
        && c.lastoffset == q.last.pos - q.last.scan
        && c.start == if q.last.scan == |ms| then |ms| else q.last.scan + ms[q.last.scan].len
  {
  }

  // Every step of a run is an emission in this sense.
  lemma {:induction false} EmissionOfTrace(base: seq<byte>, target: seq<byte>, ms: seq<Match>, q: Steps, e: Step,
                                           all: Steps)
    requires Trace(base, target, ms, all) && IsPrefix(Then(q, e), all)
    ensures q.Then? ==> 0 <= q.last.scan <= |target| == |ms|
    ensures var c := CursorAfter(ms, q);
      && Usable(base, target, ms) && 0 <= c.start <= |target|
      && IsEmission(base, target, ms, c.lastoffset, c.start, e.scan)
      && (0 <= e.scan < |target| ==> e.pos == ms[e.scan].pos)
      && e.lastscan == c.lastscan && e.lastpos == c.lastpos && Chosen(base, target, e)
  {
    StepFollows(base, target, ms, q, e, all);
    FollowsIsEmission(base, target, ms, CursorAfter(ms, q), e);
  }
}
