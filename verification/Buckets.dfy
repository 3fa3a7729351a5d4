// The first step of qsufsort: a counting sort of the suffixes by first byte.
module Buckets {
  import opened Bytes
  import opened SuffixGroups
  import opened SuffixSort
  import opened SuffixPass

  // How many of the first n bytes are c.
  ghost function Occurrences(base: seq<byte>, c: int, n: nat): nat
    requires n <= |base|
  {
    if n == 0 then 0 else Occurrences(base, c, n - 1) + if base[n - 1] == c then 1 else 0
  }

  // How many of the first n bytes are below c.
  ghost function Below(base: seq<byte>, c: nat, n: nat): nat
    requires n <= |base|
  {
    if c == 0 then 0 else Below(base, c - 1, n) + Occurrences(base, c - 1, n)
  }

  ghost function Less(base: seq<byte>, c: nat): nat {
    Below(base, c, |base|)
  }

  lemma {:induction false} BelowStep(base: seq<byte>, c: nat, n: nat)
    requires n < |base|
    ensures Below(base, c, n + 1) == Below(base, c, n) + if base[n] < c then 1 else 0
  {
    if c > 0 {
      BelowStep(base, c - 1, n);
    }
  }

  lemma {:induction false} BelowAll(base: seq<byte>, n: nat)
    requires n <= |base|
    ensures Below(base, 256, n) == n
  {
    if n > 0 {
      BelowAll(base, n - 1);
      BelowStep(base, 256, n - 1);
    } else {
      BelowNone(base, 256);
    }
  }

  lemma {:induction false} BelowNone(base: seq<byte>, c: nat)
    ensures Below(base, c, 0) == 0
  {
    if c > 0 {
      BelowNone(base, c - 1);
    }
  }

  lemma {:induction false} LessMonotone(base: seq<byte>, c: nat, d: nat)
    requires c <= d
    ensures Less(base, c) <= Less(base, d)
  {
    if c < d {
      LessMonotone(base, c, d - 1);
    }
  }

  lemma {:induction false} OccurrencesMonotone(base: seq<byte>, c: int, m: nat, n: nat)
    requires m <= n <= |base|
    ensures Occurrences(base, c, m) <= Occurrences(base, c, n)
  {
    if m < n {
      OccurrencesMonotone(base, c, m, n - 1);
    }
  }

  // The position suffix i is sorted to.
  ghost function Slot(base: seq<byte>, i: nat): nat
    requires i <= |base|
  {
    if i == |base| then 0 else Less(base, base[i]) + Occurrences(base, base[i], i + 1)
  }

  // The bucket of byte c is the positions after Less(c), up to Less(c + 1).
  lemma {:induction false} SlotInBucket(base: seq<byte>, i: nat)
    requires i < |base|
    ensures Less(base, base[i]) < Slot(base, i) <= Less(base, base[i] as int + 1) <= |base|
  {
    OccurrencesMonotone(base, base[i], i + 1, |base|);
    LessMonotone(base, base[i] as int + 1, 256);
    BelowAll(base, |base|);
  }

  // Buckets of different bytes do not meet.
  lemma {:induction false} SameBucket(base: seq<byte>, c: nat, d: nat, q: int)
    requires Less(base, c) < q <= Less(base, c + 1) && Less(base, d) < q <= Less(base, d + 1)
    ensures c == d
  {
    if c < d {
      LessMonotone(base, c + 1, d);
    } else if d < c {
      LessMonotone(base, d + 1, c);
    }
  }

  lemma {:induction false} SlotsDiffer(base: seq<byte>, i: nat, j: nat)
    requires i < j <= |base|
    ensures Slot(base, i) != Slot(base, j)
  {
    SlotInBucket(base, i);
    if j < |base| {
      SlotInBucket(base, j);
      if Slot(base, i) == Slot(base, j) {
        SameBucket(base, base[i], base[j], Slot(base, i));
        OccurrencesMonotone(base, base[i], i + 1, j);
      }
    }
  }

  ghost function Slots(base: seq<byte>): seq<int> {
    seq(|base| + 1, i requires 0 <= i <= |base| => Slot(base, i))
  }

  lemma {:induction false} SlotsPermutation(base: seq<byte>)
    ensures Permutation(Slots(base))
  {
    forall i | 0 <= i <= |base|
      ensures 0 <= Slots(base)[i] <= |base|
    {
      if i < |base| {
        SlotInBucket(base, i);
      }
    }
    forall i, j | 0 <= i < j <= |base|
      ensures Differ(Slots(base), i, j)
    {
      SlotsDiffer(base, i, j);
    }
  }

  // p lists the suffixes by their slots.
  ghost predicate BySlot(base: seq<byte>, p: seq<int>) {
    |p| == |base| + 1 && forall i {:trigger Slot(base, i)} :: 0 <= i <= |base| ==>
        0 <= Slot(base, i) <= |base| && p[Slot(base, i)] == i
  }

  lemma {:induction false} AtSlot(base: seq<byte>, p: seq<int>, q: nat)
    requires BySlot(base, p) && q <= |base|
    ensures 0 <= p[q] <= |base| && Slot(base, p[q]) == q
  {
    SlotsPermutation(base);
    var i := Position(Slots(base), q);
    assert p[Slot(base, i)] == i;
  }

  lemma {:induction false} BySlotPermutation(base: seq<byte>, p: seq<int>)
    requires BySlot(base, p)
    ensures Permutation(p)
  {
    forall i | 0 <= i < |p|
      ensures 0 <= p[i] < |p|
    {
      AtSlot(base, p, i);
    }
    forall i, j | 0 <= i < j < |p|
      ensures Differ(p, i, j)
    {
      AtSlot(base, p, i);
      AtSlot(base, p, j);
    }
  }

  // v names each bucket by its last position.
  ghost predicate ByBucket(base: seq<byte>, v: seq<int>) {
    && |v| == |base| + 1 && v[|base|] == 0
    && forall i :: 0 <= i < |base| ==> v[i] == Less(base, base[i] as int + 1)
  }

  lemma {:induction false} BucketsGrouped(base: seq<byte>, v: seq<int>, p: seq<int>)
    requires BySlot(base, p) && ByBucket(base, v)
    ensures Grouped(v, p)
  {
    BySlotPermutation(base, p);
    forall q | 0 <= q < |p|
      ensures q <= v[p[q]] < |p|
    {
      AtSlot(base, p, q);
      if p[q] < |base| {
        SlotInBucket(base, p[q]);
      }
    }
    forall q, r | 0 <= q < r < |p| && r <= v[p[q]]
      ensures Together(v, p, q, r)
    {
      AtSlot(base, p, q);
      AtSlot(base, p, r);
      SlotInBucket(base, p[q]);
      SlotInBucket(base, p[r]);
      SameBucket(base, base[p[q]], base[p[r]], r);
    }
  }

  lemma {:induction false} BucketsConsistent(base: seq<byte>, v: seq<int>)
    requires ByBucket(base, v)
    ensures Consistent(base, v) && Sharing(base, v, 1)
  {
    forall a, b | 0 <= a < |v| && 0 <= b < |v| && v[a] < v[b]
      ensures SuffixLess(base, a, b)
    {
      if a < |base| && b < |base| && base[b] <= base[a] {
        LessMonotone(base, base[b] as int + 1, base[a] as int + 1);
      }
    }
    forall a, b | 0 <= a < |v| && 0 <= b < |v| && a != b && v[a] == v[b]
      ensures Share(base, a, b, 1)
    {
      if a < |base| { SlotInBucket(base, a); }
      if b < |base| { SlotInBucket(base, b); }
      SameBucket(base, base[a], base[b], v[a]);
    }
  }

  lemma {:induction false} BucketsRefined(base: seq<byte>, v: seq<int>, p: seq<int>)
    requires BySlot(base, p) && ByBucket(base, v)
    ensures Refined(base, v, p, 1)
  {
    BucketsGrouped(base, v, p);
    BucketsConsistent(base, v);
  }

  // A bucket of one suffix is finished.
  lemma {:induction false} LoneBucket(base: seq<byte>, v: seq<int>, p: seq<int>, c: nat)
    requires BySlot(base, p) && ByBucket(base, v) && Grouped(v, p)
    requires c < 256 && Less(base, c + 1) == Less(base, c) + 1
    ensures Less(base, c + 1) <= |base| && Single(v, p, Less(base, c + 1))
  {
    LessMonotone(base, c + 1, 256);
    BelowAll(base, |base|);
    var q := Less(base, c + 1);
    AtSlot(base, p, q);
    SlotInBucket(base, p[q]);
    SameBucket(base, base[p[q]], c, q);
    AtSlot(base, p, q - 1);
    if q > 1 {
      SlotInBucket(base, p[q - 1]);
      if base[p[q - 1]] >= c {
        LessMonotone(base, c, base[p[q - 1]]);
      } else {
        LessMonotone(base, base[p[q - 1]] as int + 1, c);
      }
    }
  }
}
