// The two ways split rearranges a range of I: a selection pass for short
// ranges and a three-way partition for long ones.
//
// Both look at an entry only through a number attached to the suffix it holds
// (its key, or the side of the pivot its key is on).  tag gives that number by
// suffix, the ghost sequence tags by position.
module RangeMoves {

  function Swap(s: seq<int>, i: int, j: int): seq<int>
    requires 0 <= i < |s| && 0 <= j < |s|
  {
    s[i := s[j]][j := s[i]]
  }

  ghost predicate SameOutside(s: seq<int>, t: seq<int>, lo: int, hi: int) {
    |s| == |t| && forall i :: 0 <= i < |s| && !(lo <= i < hi) ==> t[i] == s[i]
  }

  // tags[q] is the tag of the suffix at position q, for q in lo..hi.
  ghost predicate Tagged(I: array<int>, tag: seq<int>, tags: seq<int>, lo: int, hi: int)
    reads I
  {
    && I.Length == |tags| && 0 <= lo <= hi <= |tags|
    && forall q :: lo <= q < hi ==> 0 <= I[q] < |tag| && tags[q] == tag[I[q]]
  }

  method SwapEntries(I: array<int>, i: int, j: int, ghost tag: seq<int>, ghost tags: seq<int>, ghost lo: int,
                     ghost hi: int)
    returns (ghost next: seq<int>)
    requires Tagged(I, tag, tags, lo, hi) && lo <= i < hi && lo <= j < hi
    modifies I
    ensures next == Swap(tags, i, j) && Tagged(I, tag, next, lo, hi)
    ensures SameOutside(old(I[..]), I[..], lo, hi) && multiset(I[..]) == old(multiset(I[..]))
  {
    var tmp := I[i];
    I[i] := I[j];
    I[j] := tmp;
    next := Swap(tags, i, j);
  }

  ghost predicate Run(s: seq<int>, c: int, a: int, b: int) {
    0 <= a <= b <= |s| && forall q :: a <= q < b ==> s[q] == c
  }

  // A swap outside a run keeps it; a swap with its end extends it.
  lemma {:induction false} SwapRun(s: seq<int>, c: int, a: int, b: int, i: int, j: int)
    requires Run(s, c, a, b) && 0 <= i < |s| && 0 <= j < |s| && !(a <= i < b) && !(a <= j < b)
    ensures Run(Swap(s, i, j), c, a, b)
    ensures j == b && s[i] == c ==> Run(Swap(s, i, j), c, a, b + 1)
  {
  }

  // ---------------------------------------------------------------- selection

  // The pass has looked at k..k+i: j keys equal to x in front, greater ones behind.
  ghost predicate Selected(s: seq<int>, k: int, j: int, i: int, x: int) {
    && Run(s, x, k, k + j) && j <= i && k + i <= |s|
    && forall b :: k + j <= b < k + i ==> x < s[b]
  }

  lemma {:induction false} SelectSwap(s: seq<int>, k: int, j: int, i: int, x: int)
    requires Selected(s, k, j, i, x) && k + i < |s| && s[k + i] == x
    ensures Selected(Swap(s, k + j, k + i), k, j + 1, i + 1, x)
  {
  }

  // The entry at k + i joins the part in front, or makes a new one, or stays.
  method SelectNext(I: array<int>, key: int, k: int, hi: int, j0: int, i: int, x0: int, ghost tag: seq<int>,
                    ghost keys0: seq<int>)
    returns (j: int, x: int, ghost keys: seq<int>)
    requires Tagged(I, tag, keys0, k, hi) && 0 <= j0 && 0 <= i && k + i < hi && key == keys0[k + i]
    requires Selected(keys0, k, j0, i, x0) && 0 < j0
    modifies I
    ensures SameOutside(old(I[..]), I[..], k, hi) && multiset(I[..]) == old(multiset(I[..]))
    ensures Tagged(I, tag, keys, k, hi) && 0 < j && Selected(keys, k, j, i + 1, x)
  {
    j, x, keys := j0, x0, keys0;
    if key < x {
      x := key;
      j := 0;
    }
    if key == x {
      SelectSwap(keys, k, j, i, x);
      keys := SwapEntries(I, k + j, k + i, tag, keys, k, hi);
      j := j + 1;
    }
  }

  // One round: the j suffixes with the least key move to the front of k..hi.
  method SelectLeast(I: array<int>, V: array<int>, k: int, hi: int, h: int, ghost v: seq<int>, ghost keys0: seq<int>)
    returns (j: int, ghost keys: seq<int>, ghost least: int)
    requires I != V && V[..] == v && 0 <= h <= |v|
    requires Tagged(I, v[h..], keys0, k, hi) && k < hi
    modifies I
    ensures SameOutside(old(I[..]), I[..], k, hi) && multiset(I[..]) == old(multiset(I[..]))
    ensures Tagged(I, v[h..], keys, k, hi)
    ensures 1 <= j && Selected(keys, k, j, hi - k, least)
  {
    ghost var s0, m0 := I[..], multiset(I[..]);
    keys := keys0;
    j := 1;
    var x := V[I[k] + h];
    var i := 1;
    while k + i < hi
      invariant 1 <= j && k + i <= hi
      invariant V[..] == v && Tagged(I, v[h..], keys, k, hi)
      invariant Selected(keys, k, j, i, x)
      invariant SameOutside(s0, I[..], k, hi) && multiset(I[..]) == m0
      decreases hi - k - i
    {
      var key := V[I[k + i] + h];
      assert key == keys[k + i];
      j, x, keys := SelectNext(I, key, k, hi, j, i, x, v[h..], keys);
      i := i + 1;
    }
    least := x;
  }

  // ---------------------------------------------------------------- partition

  // Which side of the pivot key x a key is on.
  ghost function Side(key: int, x: int): int {
    if key < x then 0 else if key == x then 1 else 2
  }

  ghost function SidesOf(keys: seq<int>, x: int): seq<int> {
    seq(|keys|, a requires 0 <= a < |keys| => Side(keys[a], x))
  }

  // How many of the first n entries are c.
  ghost function Count(s: seq<int>, c: int, n: nat): nat
    requires n <= |s|
  {
    if n == 0 then 0 else Count(s, c, n - 1) + if s[n - 1] == c then 1 else 0
  }

  lemma {:induction false} CountUpdate(s: seq<int>, i: int, x: int, c: int, n: nat)
    requires n <= |s| && 0 <= i < |s|
    ensures Count(s[i := x], c, n) ==
            Count(s, c, n) + if i >= n then 0 else (if x == c then 1 else 0) - (if s[i] == c then 1 else 0)
  {
    if n > 0 {
      CountUpdate(s, i, x, c, n - 1);
    }
  }

  lemma {:induction false} CountSwap(s: seq<int>, i: int, j: int, c: int)
    requires 0 <= i < |s| && 0 <= j < |s|
    ensures Count(Swap(s, i, j), c, |s|) == Count(s, c, |s|)
  {
    CountUpdate(s, i, s[j], c, |s|);
    CountUpdate(s[i := s[j]], j, s[i], c, |s|);
  }

  // The counting argument: a run of c, and one more c elsewhere, need more
  // than b - a entries of that value.
  lemma {:induction false} CountRun(s: seq<int>, c: int, a: int, b: int, z: int, n: nat)
    requires Run(s, c, a, b) && 0 <= z < |s| && !(a <= z < b) && s[z] == c && n <= |s|
    ensures Count(s, c, n) >= (if n <= a then 0 else if n <= b then n - a else b - a) + if z < n then 1 else 0
  {
    if n > 0 {
      CountRun(s, c, a, b, z, n - 1);
    }
  }

  // There are jj - lo lesser, kk - jj equal and hi - kk greater entries.
  ghost predicate Counted(s: seq<int>, lo: int, jj: int, kk: int, hi: int) {
    && 0 <= lo <= jj <= kk <= hi <= |s|
    && Count(s, 0, |s|) == jj - lo && Count(s, 1, |s|) == kk - jj && Count(s, 2, |s|) == hi - kk
  }

  lemma {:induction false} SwapCounted(s: seq<int>, lo: int, jj: int, kk: int, hi: int, i: int, j: int)
    requires Counted(s, lo, jj, kk, hi) && 0 <= i < |s| && 0 <= j < |s|
    ensures Counted(Swap(s, i, j), lo, jj, kk, hi)
  {
    CountSwap(s, i, j, 0);
    CountSwap(s, i, j, 1);
    CountSwap(s, i, j, 2);
  }

  // What the sweeps have placed: i - lo lesser, j equal and k greater entries.
  ghost predicate Swept(s: seq<int>, lo: int, jj: int, kk: int, hi: int, i: int, j: int, k: int) {
    && Counted(s, lo, jj, kk, hi)
    && i <= jj && jj + j <= kk && kk + k <= hi
    && Run(s, 0, lo, i) && Run(s, 1, jj, jj + j) && Run(s, 2, kk, kk + k)
  }

  lemma {:induction false} PlaceEqual(s: seq<int>, lo: int, jj: int, kk: int, hi: int, i: int, j: int, k: int)
    requires Swept(s, lo, jj, kk, hi, i, j, k) && i < jj && s[i] == 1
    ensures jj + j < kk && Swept(Swap(s, i, jj + j), lo, jj, kk, hi, i, j + 1, k)
  {
    CountRun(s, 1, jj, jj + j, i, |s|);
    SwapCounted(s, lo, jj, kk, hi, i, jj + j);
    SwapRun(s, 0, lo, i, i, jj + j);
    SwapRun(s, 1, jj, jj + j, i, jj + j);
    SwapRun(s, 2, kk, kk + k, i, jj + j);
  }

  lemma {:induction false} PlaceGreater(s: seq<int>, lo: int, jj: int, kk: int, hi: int, i: int, j: int, k: int, z: int)
    requires Swept(s, lo, jj, kk, hi, i, j, k)
    requires (i == z < jj) || (i == jj && z == jj + j < kk)
    requires s[z] == 2
    ensures kk + k < hi && Swept(Swap(s, z, kk + k), lo, jj, kk, hi, i, j, k + 1)
  {
    CountRun(s, 2, kk, kk + k, z, |s|);
    SwapCounted(s, lo, jj, kk, hi, z, kk + k);
    SwapRun(s, 0, lo, i, z, kk + k);
    SwapRun(s, 1, jj, jj + j, z, kk + k);
    SwapRun(s, 2, kk, kk + k, z, kk + k);
  }

  // After the first sweep every lesser key is below jj, and after the second
  // every equal key is below kk.
  lemma {:induction false} NoneLeft(s: seq<int>, lo: int, jj: int, kk: int, hi: int, j: int, k: int, z: int)
    requires Swept(s, lo, jj, kk, hi, jj, j, k) && jj <= z < |s|
    ensures s[z] != 0
    ensures jj + j == kk <= z ==> s[z] != 1
  {
    if s[z] == 0 {
      CountRun(s, 0, lo, jj, z, |s|);
    }
    if jj + j == kk <= z && s[z] == 1 {
      CountRun(s, 1, jj, kk, z, |s|);
    }
  }

  // Count the keys on each side of x, and note the sides by position; entries
  // outside lo..hi are on none of them.
  method CountSides(I: array<int>, V: array<int>, lo: int, hi: int, h: int, x: int, ghost v: seq<int>,
                    ghost keys: seq<int>)
    returns (jj: int, kk: int, ghost sides: seq<int>)
    requires I != V && V[..] == v && 0 <= h <= |v|
    requires Tagged(I, v[h..], keys, lo, hi)
    ensures Tagged(I, SidesOf(v[h..], x), sides, lo, hi) && Counted(sides, lo, jj, kk, hi)
    ensures forall q :: lo <= q < hi && keys[q] == x ==> jj < kk
  {
    jj, kk := 0, 0;
    sides := seq(|keys|, q requires 0 <= q < |keys| => if lo <= q < hi then Side(keys[q], x) else 3);
    assert Tagged(I, SidesOf(v[h..], x), sides, lo, hi);
    CountNone(sides, lo);
    for i := lo to hi
      invariant 0 <= jj && 0 <= kk
      invariant Count(sides, 0, i) == jj && Count(sides, 1, i) == kk && Count(sides, 2, i) == i - lo - jj - kk
      invariant forall q :: lo <= q < i && keys[q] == x ==> kk > 0
    {
      assert V[I[i] + h] == keys[i];
      if V[I[i] + h] < x {
        jj := jj + 1;
      }
      if V[I[i] + h] == x {
        kk := kk + 1;
      }
    }
    CountTail(sides, hi, |sides|);
    jj := jj + lo;
    kk := kk + jj;
  }

  lemma {:induction false} CountNone(s: seq<int>, n: nat)
    requires n <= |s| && Run(s, 3, 0, n)
    ensures Count(s, 0, n) == 0 && Count(s, 1, n) == 0 && Count(s, 2, n) == 0
  {
    if n > 0 {
      CountNone(s, n - 1);
    }
  }

  lemma {:induction false} CountTail(s: seq<int>, m: nat, n: nat)
    requires m <= n <= |s| && Run(s, 3, m, n)
    ensures forall c :: 0 <= c <= 2 ==> Count(s, c, n) == Count(s, c, m)
  {
    if n > m {
      CountTail(s, m, n - 1);
    }
  }

  // Move an entry with an equal or a greater key to the end of its part.
  method SwapEqual(I: array<int>, ghost side: seq<int>, ghost sides: seq<int>, ghost lo: int, jj: int, ghost kk: int,
                   ghost hi: int, i: int, j: int, ghost k: int)
    returns (ghost next: seq<int>)
    requires Tagged(I, side, sides, lo, hi) && Swept(sides, lo, jj, kk, hi, i, j, k) && i < jj && sides[i] == 1
    modifies I
    ensures Tagged(I, side, next, lo, hi) && jj + j < kk && Swept(next, lo, jj, kk, hi, i, j + 1, k)
    ensures SameOutside(old(I[..]), I[..], lo, hi) && multiset(I[..]) == old(multiset(I[..]))
  {
    PlaceEqual(sides, lo, jj, kk, hi, i, j, k);
    next := SwapEntries(I, i, jj + j, side, sides, lo, hi);
  }

  method SwapGreater(I: array<int>, ghost side: seq<int>, ghost sides: seq<int>, ghost lo: int, ghost jj: int,
                     kk: int, ghost hi: int, ghost i: int, ghost j: int, k: int, z: int)
    returns (ghost next: seq<int>)
    requires Tagged(I, side, sides, lo, hi) && Swept(sides, lo, jj, kk, hi, i, j, k)
    requires ((i == z < jj) || (i == jj && z == jj + j < kk)) && sides[z] == 2
    modifies I
    ensures Tagged(I, side, next, lo, hi) && kk + k < hi && Swept(next, lo, jj, kk, hi, i, j, k + 1)
    ensures SameOutside(old(I[..]), I[..], lo, hi) && multiset(I[..]) == old(multiset(I[..]))
  {
    PlaceGreater(sides, lo, jj, kk, hi, i, j, k, z);
    next := SwapEntries(I, z, kk + k, side, sides, lo, hi);
  }

  // First sweep: fill lo..jj with lesser keys.
  method SweepLesser(I: array<int>, V: array<int>, lo: int, jj: int, kk: int, hi: int, h: int, x: int,
                     ghost v: seq<int>, ghost sides0: seq<int>)
    returns (j: int, k: int, ghost sides: seq<int>)
    requires I != V && V[..] == v && 0 <= h <= |v|
    requires Tagged(I, SidesOf(v[h..], x), sides0, lo, hi) && Counted(sides0, lo, jj, kk, hi)
    modifies I
    ensures SameOutside(old(I[..]), I[..], lo, hi) && multiset(I[..]) == old(multiset(I[..]))
    ensures Tagged(I, SidesOf(v[h..], x), sides, lo, hi) && Swept(sides, lo, jj, kk, hi, jj, j, k)
  {
    ghost var s0, m0, side := I[..], multiset(I[..]), SidesOf(v[h..], x);
    sides := sides0;
    var i := lo;
    j, k := 0, 0;
    while i < jj
      invariant V[..] == v && Tagged(I, side, sides, lo, hi)
      invariant Swept(sides, lo, jj, kk, hi, i, j, k)
      invariant SameOutside(s0, I[..], lo, hi) && multiset(I[..]) == m0
      decreases jj - i + kk - j + hi - k
    {
      var key := V[I[i] + h];
      assert sides[i] == Side(key, x);
      if key < x {
        i := i + 1;
      } else if key == x {
        sides := SwapEqual(I, side, sides, lo, jj, kk, hi, i, j, k);
        j := j + 1;
      } else {
        sides := SwapGreater(I, side, sides, lo, jj, kk, hi, i, j, k, i);
        k := k + 1;
      }
    }
  }

  // Second sweep: fill jj..kk with equal keys.
  method SweepEqual(I: array<int>, V: array<int>, lo: int, jj: int, kk: int, hi: int, h: int, x: int, j0: int, k0: int,
                    ghost v: seq<int>, ghost sides0: seq<int>)
    returns (ghost k1: int, ghost sides: seq<int>)
    requires I != V && V[..] == v && 0 <= h <= |v|
    requires Tagged(I, SidesOf(v[h..], x), sides0, lo, hi) && Swept(sides0, lo, jj, kk, hi, jj, j0, k0)
    modifies I
    ensures SameOutside(old(I[..]), I[..], lo, hi) && multiset(I[..]) == old(multiset(I[..]))
    ensures Tagged(I, SidesOf(v[h..], x), sides, lo, hi) && Swept(sides, lo, jj, kk, hi, jj, kk - jj, k1)
  {
    ghost var s0, m0, side := I[..], multiset(I[..]), SidesOf(v[h..], x);
    sides := sides0;
    var j, k := j0, k0;
    while jj + j < kk
      invariant V[..] == v && Tagged(I, side, sides, lo, hi)
      invariant Swept(sides, lo, jj, kk, hi, jj, j, k)
      invariant SameOutside(s0, I[..], lo, hi) && multiset(I[..]) == m0
      decreases kk - jj - j + hi - k
    {
      var key := V[I[jj + j] + h];
      assert sides[jj + j] == Side(key, x);
      if key == x {
        j := j + 1;
      } else {
        NoneLeft(sides, lo, jj, kk, hi, j, k, jj + j);
        sides := SwapGreater(I, side, sides, lo, jj, kk, hi, jj, j, k, jj + j);
        k := k + 1;
      }
    }
    k1 := k;
  }

  // The pass over a long range: lesser keys to lo..jj, keys equal to the
  // middle one to jj..kk, greater keys to kk..hi.
  method Partition(I: array<int>, V: array<int>, lo: int, hi: int, h: int, ghost v: seq<int>, ghost keys0: seq<int>)
    returns (jj: int, kk: int, ghost x: int)
    requires I != V && V[..] == v && 0 <= h <= |v|
    requires Tagged(I, v[h..], keys0, lo, hi) && lo < hi
    modifies I
    ensures SameOutside(old(I[..]), I[..], lo, hi) && multiset(I[..]) == old(multiset(I[..]))
    ensures lo <= jj < kk <= hi
    ensures forall q :: lo <= q < hi ==> 0 <= I[q] < |v| - h
    ensures forall q :: lo <= q < jj ==> v[h..][I[q]] < x
    ensures forall q :: jj <= q < kk ==> v[h..][I[q]] == x
    ensures forall q :: kk <= q < hi ==> v[h..][I[q]] > x
  {
    var pivot := V[I[lo + (hi - lo) / 2] + h];
    assert keys0[lo + (hi - lo) / 2] == pivot;
    ghost var sides;
    jj, kk, sides := CountSides(I, V, lo, hi, h, pivot, v, keys0);
    var j, k;
    j, k, sides := SweepLesser(I, V, lo, jj, kk, hi, h, pivot, v, sides);
    ghost var k1;
    k1, sides := SweepEqual(I, V, lo, jj, kk, hi, h, pivot, j, k, v, sides);
    forall q | kk <= q < hi
      ensures v[h..][I[q]] > pivot
    {
      NoneLeft(sides, lo, jj, kk, hi, kk - jj, k1, q);
    }
    x := pivot;
  }
}
