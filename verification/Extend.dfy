// How CreatePatch grows a match: forwards from the last emission, backwards
// from the new match, and how an overlap of the two is divided.
module Extend {
  import opened Bytes

  // Byte i of target equals the byte of base off places on.
  predicate Hit(base: seq<byte>, target: seq<byte>, off: int, i: int) {
    0 <= i < |target| && 0 <= i + off < |base| && base[i + off] == target[i]
  }

  // The number of hits in lo..hi.
  function Hits(base: seq<byte>, target: seq<byte>, off: int, lo: int, hi: int): nat
    decreases hi - lo
  {
    if hi <= lo then 0 else Hits(base, target, off, lo, hi - 1) + if Hit(base, target, off, hi - 1) then 1 else 0
  }

  lemma {:induction false} HitsJoin(base: seq<byte>, target: seq<byte>, off: int, lo: int, mid: int, hi: int)
    requires lo <= mid <= hi
    ensures Hits(base, target, off, lo, hi) == Hits(base, target, off, lo, mid) + Hits(base, target, off, mid, hi)
    decreases hi - mid
  {
    if mid < hi {
      HitsJoin(base, target, off, lo, mid, hi - 1);
    }
  }

  // What the code maximises, as a function of the number of bytes i:
  // twice the hits less the bytes taken, forwards from lo or backwards from hi;
  // or the hits of lo..hi when its first i bytes go to the front match and the
  // rest to the back match.
  datatype Scoring =
    | Forward(off: int, lo: int)
    | Backward(off: int, hi: int)
    | Divide(front: int, back: int, lo: int, hi: int)

  ghost function Score(base: seq<byte>, target: seq<byte>, f: Scoring, i: int): int {
    match f
    case Forward(off, lo) => 2 * Hits(base, target, off, lo, lo + i) - i
    case Backward(off, hi) => 2 * Hits(base, target, off, hi - i, hi) - i
    case Divide(front, back, lo, hi) => Hits(base, target, front, lo, lo + i) + Hits(base, target, back, lo + i, hi)
  }

  // i scores no better than k, and worse if it comes first.
  ghost predicate Beaten(base: seq<byte>, target: seq<byte>, f: Scoring, i: int, k: int) {
    && Score(base, target, f, i) <= Score(base, target, f, k)
    && (i < k ==> Score(base, target, f, i) < Score(base, target, f, k))
  }

  // k is the smallest of 0..n with the best score.
  ghost predicate SmallestMax(base: seq<byte>, target: seq<byte>, f: Scoring, k: int, n: int) {
    0 <= k <= n && forall i {:trigger Beaten(base, target, f, i, k)} :: 0 <= i <= n ==> Beaten(base, target, f, i, k)
  }

  function One(b: bool): nat {
    if b then 1 else 0
  }

  lemma {:induction false} ForwardStep(base: seq<byte>, target: seq<byte>, off: int, lo: int, i: int)
    requires 0 <= i
    ensures Score(base, target, Forward(off, lo), i + 1)
         == Score(base, target, Forward(off, lo), i) + 2 * One(Hit(base, target, off, lo + i)) - 1
  {
    assert lo + (i + 1) - 1 == lo + i;
  }

  lemma {:induction false} BackwardStep(base: seq<byte>, target: seq<byte>, off: int, hi: int, i: int)
    requires 0 < i
    ensures Score(base, target, Backward(off, hi), i)
         == Score(base, target, Backward(off, hi), i - 1) + 2 * One(Hit(base, target, off, hi - i)) - 1
  {
    HitsJoin(base, target, off, hi - i, hi - i + 1, hi);
    assert Hits(base, target, off, hi - i, hi - i + 1) == One(Hit(base, target, off, hi - i));
    assert hi - (i - 1) == hi - i + 1;
  }

  lemma {:induction false} SplitStep(base: seq<byte>, target: seq<byte>, front: int, back: int, lo: int, hi: int,
                                     i: int)
    requires 0 <= i && lo + i < hi
    ensures Score(base, target, Divide(front, back, lo, hi), i + 1)
         == Score(base, target, Divide(front, back, lo, hi), i)
            + One(Hit(base, target, front, lo + i)) - One(Hit(base, target, back, lo + i))
  {
    HitsJoin(base, target, back, lo + i, lo + i + 1, hi);
    assert Hits(base, target, back, lo + i, lo + i + 1) == One(Hit(base, target, back, lo + i));
    assert lo + (i + 1) == lo + i + 1 && lo + (i + 1) - 1 == lo + i;
  }

  // One more value does not beat the best so far, or is the new best.
  lemma {:induction false} NextMax(base: seq<byte>, target: seq<byte>, f: Scoring, k: int, n: int)
    requires SmallestMax(base, target, f, k, n)
    ensures SmallestMax(base, target, f,
                        if Score(base, target, f, n + 1) > Score(base, target, f, k) then n + 1 else k, n + 1)
  {
    var m := if Score(base, target, f, n + 1) > Score(base, target, f, k) then n + 1 else k;
    forall i | 0 <= i <= n + 1
      ensures Beaten(base, target, f, i, m)
    {
      assert i <= n ==> Beaten(base, target, f, i, k);
    }
  }

  lemma {:induction false} FirstMax(base: seq<byte>, target: seq<byte>, f: Scoring)
    ensures SmallestMax(base, target, f, 0, 0)
  {
    assert Beaten(base, target, f, 0, 0);
  }

  function Min(a: int, b: int): int {
    if a < b then a else b
  }

  method ExtendForward(base: seq<byte>, target: seq<byte>, lastscan: int, lastpos: int, scan: int) returns (lenf: int)
    requires 0 <= lastscan <= scan <= |target| && 0 <= lastpos <= |base|
    ensures SmallestMax(base, target, Forward(lastpos - lastscan, lastscan), lenf,
                        Min(scan - lastscan, |base| - lastpos))
  {
    ghost var f := Forward(lastpos - lastscan, lastscan);
    FirstMax(base, target, f);
    var s, Sf, i := 0, 0, 0;
    lenf := 0;
    while lastscan + i < scan && lastpos + i < |base|
      invariant 0 <= i && lastscan + i <= scan && lastpos + i <= |base|
      invariant Score(base, target, f, i) == 2 * s - i && Score(base, target, f, lenf) == 2 * Sf - lenf
      invariant SmallestMax(base, target, f, lenf, i)
    {
      ForwardStep(base, target, lastpos - lastscan, lastscan, i);
      NextMax(base, target, f, lenf, i);
      if base[lastpos + i] == target[lastscan + i] {
        s := s + 1;
      }
      i := i + 1;
      if s * 2 - i > Sf * 2 - lenf {
        Sf := s;
        lenf := i;
      }
    }
  }

  method ExtendBackward(base: seq<byte>, target: seq<byte>, lastscan: int, scan: int, pos: int) returns (lenb: int)
    requires 0 <= lastscan <= scan <= |target| && 0 <= pos <= |base|
    ensures SmallestMax(base, target, Backward(pos - scan, scan), lenb, Min(scan - lastscan, pos))
  {
    ghost var f := Backward(pos - scan, scan);
    FirstMax(base, target, f);
    var s, Sb, i := 0, 0, 1;
    lenb := 0;
    while scan >= lastscan + i && pos >= i
      invariant 1 <= i && lastscan + i - 1 <= scan && i - 1 <= pos
      invariant Score(base, target, f, i - 1) == 2 * s - (i - 1) && Score(base, target, f, lenb) == 2 * Sb - lenb
      invariant SmallestMax(base, target, f, lenb, i - 1)
    {
      BackwardStep(base, target, pos - scan, scan, i);
      NextMax(base, target, f, lenb, i - 1);
      if base[pos - i] == target[scan - i] {
        s := s + 1;
      }
      if s * 2 - i > Sb * 2 - lenb {
        Sb := s;
        lenb := i;
      }
      i := i + 1;
    }
  }

  // The front match reaches lo + overlap, the back match starts at lo: how many
  // bytes the front match keeps.
  method DivideOverlap(base: seq<byte>, target: seq<byte>, front: int, back: int, lo: int,
                       overlap: int) returns (lens: int)
    requires 0 <= lo && 0 <= overlap && lo + overlap <= |target|
    requires 0 <= lo + front && lo + overlap + front <= |base|
    requires 0 <= lo + back && lo + overlap + back <= |base|
    ensures SmallestMax(base, target, Divide(front, back, lo, lo + overlap), lens, overlap)
  {
    ghost var f := Divide(front, back, lo, lo + overlap);
    FirstMax(base, target, f);
    var s, Ss := 0, 0;
    lens := 0;
    for i := 0 to overlap
      invariant Score(base, target, f, i) == Score(base, target, f, 0) + s
      invariant Score(base, target, f, lens) == Score(base, target, f, 0) + Ss
      invariant SmallestMax(base, target, f, lens, i)
    {
      SplitStep(base, target, front, back, lo, lo + overlap, i);
      NextMax(base, target, f, lens, i);
      if target[lo + i] == base[lo + front + i] {
        s := s + 1;
      }
      if target[lo + i] == base[lo + back + i] {
        s := s - 1;
      }
      if s > Ss {
        Ss := s;
        lens := i + 1;
      }
    }
  }
}
