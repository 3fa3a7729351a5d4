// qsufsort as a whole: counting sort, then passes for h = 1, 2, 4, ... until
// one run covers the array, then the inversion of V into I.
module Qsufsort {
  import opened Bytes
  import opened SuffixGroups
  import opened SuffixSort
  import opened SuffixPass
  import opened Buckets

  // I lists every suffix, the empty one included, in strictly increasing order.
  ghost predicate SuffixArray(base: seq<byte>, s: seq<int>) {
    && |s| == |base| + 1
    && Permutation(s)
    && forall i, j :: 0 <= i < j < |s| ==> SuffixLess(base, s[i], s[j])
  }

  // The number of bytes below each byte value.
  method CountBuckets(base: seq<byte>, buckets: array<int>)
    requires buckets.Length == 256
    modifies buckets
    ensures forall c :: 0 <= c < 256 ==> buckets[c] == Less(base, c)
  {
    for c := 0 to 256
      invariant forall d :: 0 <= d < c ==> buckets[d] == 0
    {
      buckets[c] := 0;
    }
    for i := 0 to |base|
      invariant forall c :: 0 <= c < 256 ==> buckets[c] == Occurrences(base, c, i)
    {
      buckets[base[i]] := buckets[base[i]] + 1;
    }
    assert Less(base, 0) == 0;
    assert Less(base, 1) == Less(base, 0) + Occurrences(base, 0, |base|);
    for i := 1 to 256
      invariant forall c :: 0 <= c < i ==> buckets[c] == Less(base, c + 1)
      invariant forall c :: i <= c < 256 ==> buckets[c] == Occurrences(base, c, |base|)
    {
      assert buckets[i - 1] == Less(base, i);
      buckets[i] := buckets[i] + buckets[i - 1];
    }
    for i := 255 downto 0
      invariant forall c :: 0 <= c <= i ==> buckets[c] == Less(base, c + 1)
      invariant forall c :: i < c < 256 ==> buckets[c] == Less(base, c)
    {
      buckets[i + 1] := buckets[i];
    }
    buckets[0] := 0;
  }

  // Every suffix goes to its slot; buckets[c] ends as the last slot of byte c.
  method FillSlots(base: seq<byte>, I: array<int>, buckets: array<int>)
    requires buckets.Length == 256 && I != buckets && I.Length == |base| + 1
    requires forall c :: 0 <= c < 256 ==> buckets[c] == Less(base, c)
    modifies I, buckets
    ensures BySlot(base, I[..])
    ensures forall c :: 0 <= c < 256 ==> buckets[c] == Less(base, c + 1)
  {
    for i := 0 to |base|
      invariant forall c :: 0 <= c < 256 ==> buckets[c] == Less(base, c) + Occurrences(base, c, i)
      invariant forall j {:trigger Slot(base, j)} :: 0 <= j < i ==> 0 < Slot(base, j) <= |base| && I[Slot(base, j)] == j
    {
      SlotInBucket(base, i);
      forall j | 0 <= j < i
        ensures Slot(base, j) != Slot(base, i)
      {
        SlotsDiffer(base, j, i);
      }
      buckets[base[i]] := buckets[base[i]] + 1;
      assert buckets[base[i]] == Slot(base, i);
      I[buckets[base[i]]] := i;
    }
    I[0] := |base|;
    assert forall i {:trigger Slot(base, i)} :: 0 <= i <= |base| ==> I[Slot(base, i)] == i;
  }

  method NameBuckets(base: seq<byte>, V: array<int>, buckets: array<int>)
    requires buckets.Length == 256 && V != buckets && V.Length == |base| + 1
    requires forall c :: 0 <= c < 256 ==> buckets[c] == Less(base, c + 1)
    modifies V
    ensures ByBucket(base, V[..])
  {
    for i := 0 to |base|
      invariant forall j :: 0 <= j < i ==> V[j] == Less(base, base[j] as int + 1)
    {
      V[i] := buckets[base[i]];
    }
    V[|base|] := 0;
  }

  // I[q] is p[q], unless it marks a finished suffix.
  ghost predicate MarkedSome(s: seq<int>, v: seq<int>, p: seq<int>)
    requires Grouped(v, p)
  {
    |s| == |p| && forall q :: 0 <= q < |p| ==> s[q] == p[q] || (s[q] == -1 && Single(v, p, q))
  }

  // Mark the buckets that hold one suffix.  The loop leaves out byte 0: a lone
  // suffix starting with it stays shown until the first pass.
  method MarkLone(base: seq<byte>, I: array<int>, buckets: array<int>, ghost v: seq<int>)
    requires buckets.Length == 256 && I != buckets
    requires BySlot(base, I[..]) && ByBucket(base, v) && Grouped(v, I[..])
    requires forall c :: 0 <= c < 256 ==> buckets[c] == Less(base, c + 1)
    modifies I
    ensures MarkedSome(I[..], v, old(I[..])) && I[0] == -1
  {
    ghost var p := I[..];
    for i := 1 to 256
      invariant MarkedSome(I[..], v, p)
    {
      if buckets[i] == buckets[i - 1] + 1 {
        LoneBucket(base, v, p, i);
        I[buckets[i]] := -1;
      }
    }
    assert p[Slot(base, |base|)] == |base|;
    I[0] := -1;
  }

  lemma {:induction false} MarkedReady(base: seq<byte>, b: Arrays)
    requires BySlot(base, b.p) && ByBucket(base, b.v) && Grouped(b.v, b.p)
    requires MarkedSome(b.s, b.v, b.p) && b.s[0] == -1
    ensures Between(base, b, 1)
  {
    BucketsRefined(base, b.v, b.p);
    forall q | 0 <= q < |b.p|
      ensures EntryOk(base, b, 1, q)
    {
      AtSlot(base, b.p, q);
      AtSlot(base, b.p, 0);
    }
  }

  // -------------------------------------------------------------- all passes

  ghost function Pow2(n: nat): nat {
    if n == 0 then 1 else 2 * Pow2(n - 1)
  }

  // What is left to do: nothing, one merging pass, or passes up to n - h.
  ghost function Rank(base: seq<byte>, b: Arrays, h: int): int
    requires |b.s| > 0
  {
    if b.s[0] == -|b.s| then 0 else if AllFinished(b, 0) then 1 else 2 + |base| - h
  }

  // Some h bytes occur at two places.
  ghost predicate Repeats(base: seq<byte>, h: nat) {
    exists x, y {:trigger Share(base, x, y, h)} :: x != y && Share(base, x, y, h)
  }

  lemma {:induction false} RepeatsLess(base: seq<byte>, h: nat, k: nat)
    requires Repeats(base, h) && k <= h
    ensures Repeats(base, k) && h < |base|
  {
    var x, y :| x != y && Share(base, x, y, h);
    assert base[x..x + k] == base[x..x + h][..k] == base[y..y + h][..k] == base[y..y + k];
    assert Share(base, x, y, k);
  }

  // An entry that is still shown bounds h: its group shares h bytes.
  lemma {:induction false} ShownBounds(base: seq<byte>, b: Arrays, h: int, q: int)
    requires Between(base, b, h) && 0 <= q < |b.s| && b.s[q] >= 0
    ensures h <= |base| && (h >= 2 ==> h < |base| && Repeats(base, h))
  {
    assert EntryOk(base, b, h, q);
    if h >= 2 {
      assert !Single(b.v, b.p, q);
      var e := b.v[b.p[q]];
      if e > q {
        assert Together(b.v, b.p, q, e) && Differ(b.p, q, e);
        assert Share(base, b.p[q], b.p[e], h);
      } else {
        assert Together(b.v, b.p, q - 1, q);
        assert Differ(b.p, q - 1, q);
        assert Share(base, b.p[q - 1], b.p[q], h);
      }
    }
  }

  lemma {:induction false} RankDrops(base: seq<byte>, a: Arrays, b: Arrays, h: int)
    requires Between(base, a, h) && Between(base, b, 2 * h)
    requires a.s[0] != -|a.s|
    requires AllFinished(a, 0) ==> b.s[0] == -|b.p|
    ensures 0 <= Rank(base, b, 2 * h) < Rank(base, a, h)
  {
    if !AllFinished(a, 0) {
      var q :| 0 <= q < |a.s| && a.s[q] >= 0;
      ShownBounds(base, a, h, q);
    }
    if !AllFinished(b, 0) {
      var q :| 0 <= q < |b.s| && b.s[q] >= 0;
      ShownBounds(base, b, 2 * h, q);
    }
  }

  // How far the passes can have got: some bytes that occur twice are that long.
  ghost predicate PassBound(base: seq<byte>, b: Arrays, passes: nat)
    requires |b.s| > 0
  {
    if b.s[0] == -|b.s| then passes > 2 ==> Repeats(base, Pow2(passes - 2))
    else if AllFinished(b, 0) then passes > 1 ==> Repeats(base, Pow2(passes - 1))
    else passes > 0 ==> Repeats(base, Pow2(passes))
  }

  lemma {:induction false} PassBoundKept(base: seq<byte>, a: Arrays, b: Arrays, passes: nat)
    requires Between(base, a, Pow2(passes)) && Between(base, b, Pow2(passes + 1))
    requires a.s[0] != -|a.s| && PassBound(base, a, passes)
    requires AllFinished(a, 0) ==> b.s[0] == -|b.p|
    ensures PassBound(base, b, passes + 1)
  {
    if b.s[0] != -|b.s| && !AllFinished(b, 0) {
      var q :| 0 <= q < |b.s| && b.s[q] >= 0;
      ShownBounds(base, b, Pow2(passes + 1), q);
    } else if !AllFinished(a, 0) && passes > 1 {
      RepeatsLess(base, Pow2(passes), Pow2(passes - 1));
    }
  }

  // One run over the whole array: the permutation is the suffix array.
  lemma {:induction false} OneRunSorted(base: seq<byte>, b: Arrays, h: int)
    requires Between(base, b, h) && b.s[0] == -|b.s|
    ensures SuffixArray(base, b.p)
    ensures forall q :: 0 <= q < |b.p| ==> b.v[b.p[q]] == q
  {
    assert EntryOk(base, b, h, 0);
    forall q | 0 <= q < |b.p|
      ensures b.v[b.p[q]] == q
    {
      assert b.s[q] < 0;
    }
  }

  method StartSort(I: array<int>, V: array<int>, base: seq<byte>) returns (ghost b: Arrays)
    requires I != V && I.Length == V.Length == |base| + 1
    modifies I, V
    ensures I[..] == b.s && V[..] == b.v
    ensures Between(base, b, 1) && b.s[0] == -1
  {
    var buckets := new int[256];
    CountBuckets(base, buckets);
    FillSlots(base, I, buckets);
    ghost var p := I[..];
    NameBuckets(base, V, buckets);
    assert I[..] == p;
    BucketsGrouped(base, V[..], p);
    MarkLone(base, I, buckets, V[..]);
    b := Arrays(I[..], V[..], p);
    MarkedReady(base, b);
  }

  // Invert V into I.
  method Invert(I: array<int>, V: array<int>, ghost p: seq<int>)
    requires I != V && I.Length == V.Length == |p| && Permutation(p)
    requires forall q :: 0 <= q < |p| ==> V[p[q]] == q
    modifies I
    ensures I[..] == p
  {
    for i := 0 to I.Length
      invariant forall j :: 0 <= j < i ==> 0 <= V[j] < I.Length && I[V[j]] == j
    {
      var q := Position(p, i);
      forall j | 0 <= j < i
        ensures V[j] != V[i]
      {
        var r := Position(p, j);
      }
      I[V[i]] := i;
    }
    forall q | 0 <= q < |p|
      ensures I[q] == p[q]
    {
      assert V[p[q]] == q;
    }
  }

  // The suffix array of base in I, its inverse in V.  There are at most two
  // passes more than the length of the longest bytes that occur twice can be
  // halved, so at most ceil(log2 n) + 1 for a file of n >= 2 bytes.
  method QSufSort(I: array<int>, V: array<int>, base: seq<byte>) returns (ghost passes: nat)
    requires I != V && I.Length == V.Length == |base| + 1
    modifies I, V
    ensures SuffixArray(base, I[..])
    ensures forall i :: 0 <= i < I.Length ==> 0 <= I[i] < V.Length && V[I[i]] == i
    ensures passes > 2 ==> Repeats(base, Pow2(passes - 2)) && Pow2(passes - 2) < |base|
  {
    ghost var b := StartSort(I, V, base);
    var h := 1;
    passes := 0;
    while I[0] != -(|base| + 1)
      invariant I[..] == b.s && V[..] == b.v
      invariant Between(base, b, h) && h == Pow2(passes)
      invariant PassBound(base, b, passes)
      decreases Rank(base, b, h)
    {
      ghost var next := Pass(I, V, h, base, b);
      RankDrops(base, b, next, h);
      PassBoundKept(base, b, next, passes);
      b := next;
      h := h + h;
      passes := passes + 1;
    }
    assert b.s[0] == I[0];
    if passes > 2 {
      RepeatsLess(base, Pow2(passes - 2), 0);
    }
    OneRunSorted(base, b, h);
    Invert(I, V, b.p);
  }
}
