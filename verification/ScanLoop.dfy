// The scan loop of CreatePatch: from one place in the new file to the next
// place worth looking at.
module ScanLoop {
  import opened Bytes
  import opened SuffixGroups
  import opened Qsufsort
  import opened MatchSearch
  import opened Extend

  // What search finds for the new file from byte i on.
  datatype Match = Match(len: nat, pos: int)

  ghost function MatchFrom(base: seq<byte>, s: seq<int>, target: seq<byte>, i: int): Match
    requires Positions(base, s) && |s| == |base| + 1 && 0 <= i <= |target|
  {
    var r := Found(base, s, target[i..], 0, |base|);
    Match(r.0, r.1)
  }

  // ... for every i.
  ghost function Matches(base: seq<byte>, s: seq<int>, target: seq<byte>): (ms: seq<Match>)
    requires Positions(base, s) && |s| == |base| + 1
    ensures |ms| == |target|
    ensures forall i :: 0 <= i < |target| ==> ms[i] == MatchFrom(base, s, target, i)
  {
    seq(|target|, i requires 0 <= i < |target| => MatchFrom(base, s, target, i))
  }

  // A match lies in both files, and is empty only where no byte can match.
  ghost predicate UsableAt(base: seq<byte>, target: seq<byte>, i: int, m: Match) {
    && i + m.len <= |target| && 0 <= m.pos && m.pos + m.len <= |base|
    && (m.len == 0 ==> forall off :: !Hit(base, target, off, i))
  }

  ghost predicate Usable(base: seq<byte>, target: seq<byte>, ms: seq<Match>) {
    |ms| == |target| && forall i {:trigger UsableAt(base, target, i, ms[i])} :: 0 <= i < |ms| ==>
        UsableAt(base, target, i, ms[i])
  }

  lemma {:induction false} MatchesUsable(base: seq<byte>, s: seq<int>, target: seq<byte>)
    requires SuffixArray(base, s) && Positions(base, s)
    ensures Usable(base, target, Matches(base, s, target))
  {
    forall i | 0 <= i < |target|
      ensures UsableAt(base, target, i, MatchFrom(base, s, target, i))
    {
      var k := FoundEntry(base, s, target[i..], 0, |base|);
      SearchFindsByte(base, s, target[i..]);
    }
  }

  // The furthest end of a match found from start..i.
  function Reach(ms: seq<Match>, start: int, i: int): int
    requires 0 <= start && i < |ms|
    decreases i - start
  {
    if i < start then start
    else
      var before := Reach(ms, start, i - 1);
      var end := i + ms[i].len;
      if before < end then end else before
  }

  // How well the previous alignment off explains the bytes from i to there.
  function OldScore(base: seq<byte>, target: seq<byte>, ms: seq<Match>, off: int, start: int, i: int): nat
    requires 0 <= start && i < |ms|
  {
    Hits(base, target, off, i, Reach(ms, start, i))
  }

  // The match at i is exactly what the previous alignment gives, or beats it by
  // more than eight bytes.
  predicate Stops(base: seq<byte>, target: seq<byte>, ms: seq<Match>, off: int, start: int, i: int)
    requires 0 <= start && 0 <= i < |ms|
  {
    var oldscore := OldScore(base, target, ms, off, start, i);
    (ms[i].len == oldscore && ms[i].len != 0) || ms[i].len > oldscore + 8
  }

  lemma {:induction false} ReachFits(base: seq<byte>, target: seq<byte>, ms: seq<Match>, start: int, i: int)
    requires Usable(base, target, ms) && 0 <= start <= |target| && i < |target|
    ensures start <= Reach(ms, start, i) <= |target|
    ensures start <= i ==> i <= Reach(ms, start, i)
    decreases i - start
  {
    if start <= i {
      assert UsableAt(base, target, i, ms[i]);
      ReachFits(base, target, ms, start, i - 1);
    }
  }

  // What the loop knows on reaching i: scsc is the end reached so far, one
  // short of i only where nothing could match, and oldscore counts up to it.
  ghost predicate Window(base: seq<byte>, target: seq<byte>, ms: seq<Match>, off: int, start: int, i: int, scsc: int,
                         oldscore: int)
    requires 0 <= start <= i <= |target| == |ms|
  {
    && scsc == Reach(ms, start, i - 1)
    && start <= scsc <= |target|
    && (scsc >= i || (scsc == i - 1 && !Hit(base, target, off, scsc)))
    && oldscore == Hits(base, target, off, i, scsc)
  }

  // Leaving i: its own hit, if any, drops out of the count.
  lemma {:induction false} WindowStep(base: seq<byte>, target: seq<byte>, ms: seq<Match>, off: int, start: int, i: int)
    requires Usable(base, target, ms) && 0 <= start <= i < |target|
    ensures OldScore(base, target, ms, off, start, i) >= One(Hit(base, target, off, i))
    ensures Window(base, target, ms, off, start, i + 1, Reach(ms, start, i),
                   OldScore(base, target, ms, off, start, i) - One(Hit(base, target, off, i)))
  {
    assert UsableAt(base, target, i, ms[i]);
    ReachFits(base, target, ms, start, i);
    var end := Reach(ms, start, i);
    if i < end {
      HitsJoin(base, target, off, i, i + 1, end);
      assert Hits(base, target, off, i, i + 1) == One(Hit(base, target, off, i));
    }
  }

  // The counting loop: from the end reached before to the end of the match at scan.
  method CountHits(base: seq<byte>, target: seq<byte>, lastoffset: int, scan: int, len: int, scsc0: int, oldscore0: int)
    returns (scsc: int, oldscore: int)
    requires 0 <= scan && 0 <= len && scan + len <= |target|
    requires 0 <= scsc0 && 0 <= scsc0 + lastoffset
    requires scsc0 >= scan || (scsc0 == scan - 1 && !Hit(base, target, lastoffset, scsc0))
    requires oldscore0 == Hits(base, target, lastoffset, scan, scsc0)
    ensures scsc == if scsc0 < scan + len then scan + len else scsc0
    ensures oldscore == Hits(base, target, lastoffset, scan, scsc)
  {
    scsc, oldscore := scsc0, oldscore0;
    while scsc < scan + len
      invariant scsc0 <= scsc && (scsc <= scan + len || scsc == scsc0)
      invariant scsc >= scan || (scsc == scan - 1 && !Hit(base, target, lastoffset, scsc))
      invariant oldscore == Hits(base, target, lastoffset, scan, scsc)
    {
      if scsc + lastoffset < |base| && base[scsc + lastoffset] == target[scsc] {
        oldscore := oldscore + 1;
      }
      scsc := scsc + 1;
    }
  }

  // r is the first place from start on that stops the loop, or the end of target.
  ghost predicate StoppedAt(base: seq<byte>, target: seq<byte>, ms: seq<Match>, off: int, start: int, r: int)
    requires |ms| == |target|
  {
    && 0 <= start <= r <= |target|
    && (forall i :: start <= i < r ==> !Stops(base, target, ms, off, start, i))
    && (r < |target| ==> Stops(base, target, ms, off, start, r))
  }

  method SearchAt(I: array<int>, base: seq<byte>, target: seq<byte>, scan: int,
                  ghost ms: seq<Match>) returns (len: int, pos: int)
    requires SuffixArray(base, I[..]) && Positions(base, I[..]) && ms == Matches(base, I[..], target)
    requires 0 <= scan < |target|
    ensures len == ms[scan].len && pos == ms[scan].pos
  {
    len, pos := Search(I, base, target[scan..], 0, |base|);
  }

  // One place: the match there, and how well the previous alignment explains it.
  method LookAt(I: array<int>, base: seq<byte>, target: seq<byte>, lastoffset: int, start: int, scan: int,
                scsc0: int, oldscore0: int, ghost ms: seq<Match>)
    returns (len: int, pos: int, scsc: int, oldscore: int, stop: bool)
    requires SuffixArray(base, I[..]) && Positions(base, I[..]) && ms == Matches(base, I[..], target)
    requires Usable(base, target, ms) && 0 <= start + lastoffset && 0 <= start <= scan < |target|
    requires Window(base, target, ms, lastoffset, start, scan, scsc0, oldscore0)
    ensures len == ms[scan].len && pos == ms[scan].pos && 0 <= pos <= |base| && scan + len <= |target|
    ensures scsc == Reach(ms, start, scan) && oldscore == OldScore(base, target, ms, lastoffset, start, scan)
    ensures stop == Stops(base, target, ms, lastoffset, start, scan)
    ensures !stop ==> Window(base, target, ms, lastoffset, start, scan + 1, scsc,
                             oldscore - One(Hit(base, target, lastoffset, scan)))
  {
    len, pos := SearchAt(I, base, target, scan, ms);
    assert UsableAt(base, target, scan, ms[scan]);
    scsc, oldscore := CountHits(base, target, lastoffset, scan, len, scsc0, oldscore0);
    stop := (len == oldscore && len != 0) || len > oldscore + 8;
    if !stop {
      WindowStep(base, target, ms, lastoffset, start, scan);
    }
  }

  // From start to the first place that stops the loop, or the end of target.
  method NextMatch(I: array<int>, base: seq<byte>, target: seq<byte>, lastoffset: int, start: int, len0: int,
                   pos0: int, ghost ms: seq<Match>)
    returns (scan: int, len: int, pos: int, oldscore: int)
    requires SuffixArray(base, I[..]) && Positions(base, I[..]) && ms == Matches(base, I[..], target)
    requires Usable(base, target, ms)
    requires 0 <= start <= |target| && 0 <= start + lastoffset && 0 <= pos0 <= |base|
    ensures 0 <= pos <= |base| && StoppedAt(base, target, ms, lastoffset, start, scan)
    ensures scan < |target| ==>
      len == ms[scan].len && pos == ms[scan].pos && oldscore == OldScore(base, target, ms, lastoffset, start, scan)
  {
    len, pos, oldscore := len0, pos0, 0;
    var scsc := start;
    scan := start;
    while scan < |target|
      invariant start <= scan <= |target| && 0 <= pos <= |base|
      invariant forall i :: start <= i < scan ==> !Stops(base, target, ms, lastoffset, start, i)
      invariant Window(base, target, ms, lastoffset, start, scan, scsc, oldscore)
    {
      var stop;
      len, pos, scsc, oldscore, stop := LookAt(I, base, target, lastoffset, start, scan, scsc, oldscore, ms);
      if stop {
        break;
      }
      if scan + lastoffset < |base| && base[scan + lastoffset] == target[scan] {
        oldscore := oldscore - 1;
      }
      scan := scan + 1;
    }
  }
}
