// qsufsort: the suffix array by prefix doubling, in place.
//
// I and V are the arrays of the source; base is the old file.  The ghost
// sequence p is the permutation that I holds before finished entries of I are
// overwritten by negative run lengths.
module SuffixSort {
  import opened Bytes
  import opened RangeMoves
  import opened SuffixGroups

  ghost predicate Single(v: seq<int>, p: seq<int>, i: int)
    requires Grouped(v, p) && 0 <= i < |p|
  {
    v[p[i]] == i && (i == 0 || v[p[i - 1]] < i)
  }

  // After split, a finished suffix is marked and an unfinished one is listed.
  ghost predicate Marked(s: seq<int>, v: seq<int>, p: seq<int>, lo: int, hi: int)
    requires Grouped(v, p) && |s| == |p|
  {
    forall i {:trigger s[i]} :: 0 <= i < |p| && lo <= i < hi ==> s[i] == if Single(v, p, i) then -1 else p[i]
  }

  ghost predicate Agree(base: seq<byte>, v: seq<int>, p: seq<int>, n: int, i: int, j: int) {
    Together(v, p, i, j) ==> Share(base, p[i], p[j], n)
  }

  // Suffixes of lo..hi that are still in one group agree on n bytes.
  ghost predicate SharingIn(base: seq<byte>, v: seq<int>, p: seq<int>, n: int, lo: int, hi: int)
    requires Grouped(v, p)
  {
    forall i, j {:trigger Agree(base, v, p, n, i, j)} :: 0 <= lo <= i < j < hi <= |p| ==> Agree(base, v, p, n, i, j)
  }

  // I, V and the permutation at one moment.
  datatype Arrays = Arrays(s: seq<int>, v: seq<int>, p: seq<int>)

  // From a to b, split has finished lo..m and touched nothing outside lo..hi.
  ghost predicate SplitDone(base: seq<byte>, a: Arrays, b: Arrays, h: int, lo: int, m: int, hi: int) {
    && Refined(base, b.v, b.p, h)
    && |b.s| == |a.v| == |b.p| && Permutation(a.p)
    && 0 <= lo <= m <= hi <= |b.p|
    && SameOutside(a.p, b.p, lo, hi)
    && SameOutside(a.s, b.s, lo, hi)
    && (forall i :: 0 <= i < |b.p| && !(lo <= i < m) ==> b.v[b.p[i]] == a.v[a.p[i]])
    && (forall i :: lo <= i < m ==> b.v[b.p[i]] < m)
    && SharingIn(base, b.v, b.p, 2 * h, lo, m)
    && Marked(b.s, b.v, b.p, lo, m)
  }

  // Finishing lo..k and then k..m finishes lo..m.
  lemma {:induction false} SplitThen(base: seq<byte>, a: Arrays, b: Arrays, c: Arrays, h: int, lo: int, k: int,
                                     h1: int, m: int, h2: int, hi: int)
    requires SplitDone(base, a, b, h, lo, k, h1) && SplitDone(base, b, c, h, k, m, h2)
    requires h1 <= hi && h2 <= hi <= |b.p|
    ensures SplitDone(base, a, c, h, lo, m, hi)
  {
    forall i, j | lo <= i < j < m
      ensures Agree(base, c.v, c.p, 2 * h, i, j)
    {
      if j < k {
        assert Agree(base, b.v, b.p, 2 * h, i, j);
        assert c.v[c.p[i]] == b.v[b.p[i]] && c.v[c.p[j]] == b.v[b.p[j]];
      }
    }
    forall i | lo <= i < k
      ensures c.s[i] == if Single(c.v, c.p, i) then -1 else c.p[i]
    {
      assert i > 0 ==> c.v[c.p[i - 1]] == b.v[b.p[i - 1]];
    }
  }

  // What remains of a range after its front lo..m is finished can be split next.
  lemma {:induction false} RestReady(base: seq<byte>, a: Arrays, b: Arrays, h: int, lo: int, m: int, hi: int)
    requires Ready(base, a.v, a.p, h, lo, hi) && SplitDone(base, a, b, h, lo, m, hi) && m < hi
    ensures Ready(base, b.v, b.p, h, m, hi)
    ensures b.v[b.p[m]] == a.v[a.p[lo]]
  {
    OneGroup(a.v, a.p, lo, m);
    var e := a.v[a.p[lo]];
    forall i, j | m <= i < hi <= j < e + 1
      ensures SuffixLess(base, b.p[i], b.p[j])
    {
      var k := FromRange(a.p, b.p, lo, hi, i);
      assert b.p[j] == a.p[j];
    }
    forall i | m <= i < hi
      ensures b.p[i] + h <= |base|
    {
      var k := FromRange(a.p, b.p, lo, hi, i);
    }
    assert m > lo ==> b.v[b.p[m - 1]] < m;
    assert 0 < m == lo ==> b.v[b.p[m - 1]] == a.v[a.p[m - 1]];
  }

  // Rearranging lo..hi finishes nothing and keeps the range ready.
  lemma {:induction false} Rearranged(base: seq<byte>, a: Arrays, s: seq<int>, h: int, lo: int,
                                      hi: int) returns (b: Arrays)
    requires Ready(base, a.v, a.p, h, lo, hi) && Listed(a.s, a.p, lo, hi)
    requires SameOutside(a.s, s, lo, hi) && multiset(s) == multiset(a.s)
    ensures b == Arrays(s, a.v, Patched(a.p, s, lo, hi))
    ensures SplitDone(base, a, b, h, lo, lo, hi)
    ensures Ready(base, b.v, b.p, h, lo, hi) && Listed(b.s, b.p, lo, hi)
    ensures b.v[b.p[lo]] == a.v[a.p[lo]]
  {
    b := Arrays(s, a.v, Patched(a.p, s, lo, hi));
    PatchedPermutation(a.p, a.s, s, lo, hi);
    RearrangeReady(base, a.v, a.p, b.p, h, lo, hi);
    forall i | 0 <= i < |b.p|
      ensures b.v[b.p[i]] == a.v[a.p[i]]
    {
      if lo <= i < hi {
        OneGroup(a.v, a.p, lo, i);
        OneGroup(b.v, b.p, lo, i);
      }
    }
  }

  // Name the suffixes of lo..m by the last position of that range.
  method NameGroup(I: array<int>, V: array<int>, lo: int, m: int, ghost p: seq<int>)
    requires I != V && I.Length == V.Length && Permutation(p)
    requires 0 <= lo < m <= I.Length && Listed(I[..], p, lo, m)
    modifies V
    ensures forall q :: 0 <= q < |p| ==> V[p[q]] == if lo <= q < m then m - 1 else old(V[p[q]])
  {
    for i := 0 to m - lo
      invariant forall q :: 0 <= q < |p| ==> V[p[q]] == if lo <= q < lo + i then m - 1 else old(V[p[q]])
    {
      assert I[..][lo + i] == p[lo + i];
      forall q | 0 <= q < |p| && q != lo + i
        ensures p[q] != p[lo + i]
      {
        assert Differ(p, q, lo + i) || Differ(p, lo + i, q);
      }
      V[I[lo + i]] := m - 1;
    }
  }

  // The front lo..m of a group has become a group of its own: s and v are I
  // and V after the naming loop and the marking of single suffixes.
  lemma {:induction false} GroupFinished(base: seq<byte>, a: Arrays, b: Arrays, h: int, lo: int, m: int)
    requires Refined(base, a.v, a.p, h) && |a.s| == |a.p|
    requires 0 <= lo < m <= |a.p| && FirstOfGroup(a.v, a.p, lo) && m <= a.v[a.p[lo]] + 1
    requires Before(base, a.p, lo, m, a.v[a.p[lo]] + 1)
    requires forall i, j {:trigger Share(base, a.p[i], a.p[j], 2 * h)} :: lo <= i < j < m ==>
        Share(base, a.p[i], a.p[j], 2 * h)
    requires Listed(a.s, a.p, lo, m)
    requires |b.v| == |a.v| && b.p == a.p
    requires forall q :: 0 <= q < |b.p| ==> b.v[b.p[q]] == if lo <= q < m then m - 1 else a.v[a.p[q]]
    requires b.s == if lo == m - 1 then a.s[lo := -1] else a.s
    ensures SplitDone(base, a, b, h, lo, m, m)
  {
    Carve(base, a.v, b.v, a.p, h, lo, m);
    forall i | lo <= i < m
      ensures b.s[i] == if Single(b.v, b.p, i) then -1 else b.p[i]
    {
      assert b.v[b.p[i]] == m - 1;
      if i > lo {
        assert b.v[b.p[i - 1]] == m - 1;
      } else if lo > 0 {
        assert b.v[b.p[lo - 1]] == a.v[a.p[lo - 1]] < lo;
      }
    }
  }

  // The tail shared by both branches of split.
  method FinishGroup(I: array<int>, V: array<int>, lo: int, m: int, ghost base: seq<byte>, ghost a: Arrays,
                     ghost h: int)
    returns (ghost b: Arrays)
    requires I != V && I[..] == a.s && V[..] == a.v
    requires Refined(base, a.v, a.p, h) && |a.s| == |a.p|
    requires 0 <= lo < m <= |a.p| && FirstOfGroup(a.v, a.p, lo) && m <= a.v[a.p[lo]] + 1
    requires Before(base, a.p, lo, m, a.v[a.p[lo]] + 1)
    requires forall i, j {:trigger Share(base, a.p[i], a.p[j], 2 * h)} :: lo <= i < j < m ==>
        Share(base, a.p[i], a.p[j], 2 * h)
    requires Listed(a.s, a.p, lo, m)
    modifies I, V
    ensures I[..] == b.s && V[..] == b.v && SplitDone(base, a, b, h, lo, m, m)
  {
    NameGroup(I, V, lo, m, a.p);
    if lo == m - 1 {
      I[lo] := -1;
    }
    b := Arrays(I[..], V[..], a.p);
    assert forall q :: 0 <= q < |a.p| ==> b.v[a.p[q]] == V[a.p[q]] && a.v[a.p[q]] == old(V[a.p[q]]);
    GroupFinished(base, a, b, h, lo, m);
  }

  // The keys of the range, by position.
  ghost function KeysOf(v: seq<int>, s: seq<int>, h: int): seq<int> {
    seq(|s|, i requires 0 <= i < |s| => if 0 <= s[i] + h < |v| then v[s[i] + h] else 0)
  }

  lemma {:induction false} TaggedByKeys(I: array<int>, base: seq<byte>, a: Arrays, h: int, lo: int, hi: int)
    requires I[..] == a.s && Ready(base, a.v, a.p, h, lo, hi) && Listed(a.s, a.p, lo, hi)
    ensures Tagged(I, a.v[h..], KeysOf(a.v, a.s, h), lo, hi)
  {
    forall q | lo <= q < hi
      ensures 0 <= I[q] < |a.v[h..]| && KeysOf(a.v, a.s, h)[q] == a.v[h..][I[q]]
    {
      assert I[q] == a.s[q] == a.p[q];
    }
  }

  // keys are the keys of the permutation c on lo..hi.
  ghost predicate KeysAt(c: Arrays, keys: seq<int>, h: int, lo: int, hi: int) {
    && h >= 0 && 0 <= lo <= hi <= |keys| == |c.p|
    && forall q :: lo <= q < hi ==> 0 <= c.p[q] < |c.v| - h && keys[q] == c.v[c.p[q] + h]
  }

  lemma {:induction false} TaggedKeys(I: array<int>, c: Arrays, keys: seq<int>, h: int, lo: int, hi: int)
    requires I[..] == c.s && 0 <= h <= |c.v| && Tagged(I, c.v[h..], keys, lo, hi) && Listed(c.s, c.p, lo, hi)
    ensures KeysAt(c, keys, h, lo, hi)
  {
    forall q | lo <= q < hi
      ensures 0 <= c.p[q] < |c.v| - h && keys[q] == c.v[c.p[q] + h]
    {
      assert I[q] == c.s[q] == c.p[q];
    }
  }

  // Suffixes whose keys are all x, with keys above x behind them, precede the
  // rest of the group and agree on 2h bytes.
  lemma {:induction false} EqualFront(base: seq<byte>, c: Arrays, keys: seq<int>, h: int, lo: int, a: int, b: int,
                                      hi: int, x: int)
    requires Ready(base, c.v, c.p, h, lo, hi) && KeysAt(c, keys, h, lo, hi)
    requires lo <= a <= b <= hi
    requires forall q :: a <= q < b ==> keys[q] == x
    requires forall q :: b <= q < hi ==> keys[q] > x
    ensures Before(base, c.p, a, b, c.v[c.p[lo]] + 1)
    ensures forall i, j :: a <= i < j < b ==> Share(base, c.p[i], c.p[j], 2 * h)
  {
    KeysBefore(base, c.v, c.p, h, lo, hi, a, b, x + 1);
    KeysShare(base, c.v, c.p, h, lo, hi, a, b, x);
  }

  // A round rearranges k..hi, and then finishes k..m.
  lemma {:induction false} RoundDone(base: seq<byte>, a: Arrays, b: Arrays, c: Arrays, d: Arrays, h: int, lo: int,
                                     k: int, m: int, hi: int)
    requires SplitDone(base, a, b, h, lo, k, hi) && SplitDone(base, b, c, h, k, k, hi)
    requires SplitDone(base, c, d, h, k, m, m) && m <= hi && Listed(c.s, c.p, k, hi)
    ensures SplitDone(base, a, d, h, lo, m, hi) && Listed(d.s, d.p, m, hi)
  {
    SplitThen(base, b, c, d, h, k, k, hi, m, m, hi);
    SplitThen(base, a, b, d, h, lo, k, hi, m, hi, hi);
  }

  // Ranges shorter than 16: repeated selection of the least keys.
  method SplitShort(I: array<int>, V: array<int>, start: int, len: int, h: int, ghost base: seq<byte>, ghost a: Arrays)
    returns (ghost b: Arrays)
    requires I != V && I[..] == a.s && V[..] == a.v
    requires Ready(base, a.v, a.p, h, start, start + len) && Listed(a.s, a.p, start, start + len)
    modifies I, V
    ensures I[..] == b.s && V[..] == b.v
    ensures SplitDone(base, a, b, h, start, start + len, start + len)
  {
    b := a;
    var k := start;
    while k < start + len
      invariant k <= start + len
      invariant I[..] == b.s && V[..] == b.v
      invariant SplitDone(base, a, b, h, start, k, start + len)
      invariant Listed(b.s, b.p, k, start + len)
    {
      var j;
      j, b := ShortRound(I, V, k, start + len, h, base, a, b, start);
      k := k + j;
    }
  }

  // One round of it: the suffixes with the least key become a finished group.
  method ShortRound(I: array<int>, V: array<int>, k: int, hi: int, h: int,
                    ghost base: seq<byte>, ghost a: Arrays, ghost b: Arrays, ghost lo: int)
    returns (j: int, ghost d: Arrays)
    requires I != V && I[..] == b.s && V[..] == b.v
    requires Ready(base, a.v, a.p, h, lo, hi) && SplitDone(base, a, b, h, lo, k, hi)
    requires k < hi && Listed(b.s, b.p, k, hi)
    modifies I, V
    ensures I[..] == d.s && V[..] == d.v
    ensures 1 <= j <= hi - k
    ensures SplitDone(base, a, d, h, lo, k + j, hi)
    ensures Listed(d.s, d.p, k + j, hi)
  {
    RestReady(base, a, b, h, lo, k, hi);
    ghost var c;
    j, c, d := FinishLeast(I, V, k, hi, h, base, b);
    RoundDone(base, a, b, c, d, h, lo, k, k + j, hi);
  }

  // They are gathered in front, and then named and marked.
  method FinishLeast(I: array<int>, V: array<int>, k: int, hi: int, h: int, ghost base: seq<byte>, ghost b: Arrays)
    returns (j: int, ghost c: Arrays, ghost d: Arrays)
    requires I != V && I[..] == b.s && V[..] == b.v
    requires Ready(base, b.v, b.p, h, k, hi) && Listed(b.s, b.p, k, hi)
    modifies I, V
    ensures I[..] == d.s && V[..] == d.v && 1 <= j <= hi - k
    ensures SplitDone(base, b, c, h, k, k, hi) && Listed(c.s, c.p, k, hi)
    ensures SplitDone(base, c, d, h, k, k + j, k + j)
  {
    j, c := GatherLeast(I, V, k, hi, h, base, b);
    d := FinishGroup(I, V, k, k + j, base, c, h);
  }

  method GatherLeast(I: array<int>, V: array<int>, k: int, hi: int, h: int, ghost base: seq<byte>, ghost b: Arrays)
    returns (j: int, ghost c: Arrays)
    requires I != V && I[..] == b.s && V[..] == b.v
    requires Ready(base, b.v, b.p, h, k, hi) && Listed(b.s, b.p, k, hi)
    modifies I
    ensures I[..] == c.s && V[..] == c.v == b.v
    ensures 1 <= j <= hi - k
    ensures SplitDone(base, b, c, h, k, k, hi) && Listed(c.s, c.p, k, hi)
    ensures FirstOfGroup(c.v, c.p, k) && k + j <= c.v[c.p[k]] + 1
    ensures Before(base, c.p, k, k + j, c.v[c.p[k]] + 1)
    ensures forall x, y {:trigger Share(base, c.p[x], c.p[y], 2 * h)} :: k <= x < y < k + j ==>
        Share(base, c.p[x], c.p[y], 2 * h)
  {
    TaggedByKeys(I, base, b, h, k, hi);
    ghost var keys, least;
    j, keys, least := SelectLeast(I, V, k, hi, h, b.v, KeysOf(b.v, b.s, h));
    c := Rearranged(base, b, I[..], h, k, hi);
    TaggedKeys(I, c, keys, h, k, hi);
    EqualFront(base, c, keys, h, k, k, k + j, hi, least);
  }

  // The partition of lo..hi at jj and kk orders the three parts.
  ghost predicate Parted(base: seq<byte>, c: Arrays, h: int, lo: int, jj: int, kk: int, hi: int) {
    && Ready(base, c.v, c.p, h, lo, hi)
    && lo <= jj < kk <= hi
    && Before(base, c.p, lo, jj, c.v[c.p[lo]] + 1)
    && Before(base, c.p, jj, kk, c.v[c.p[lo]] + 1)
    && forall i, j {:trigger Share(base, c.p[i], c.p[j], 2 * h)} :: jj <= i < j < kk ==>
        Share(base, c.p[i], c.p[j], 2 * h)
  }

  lemma {:induction false} PartsOrdered(base: seq<byte>, c: Arrays, h: int, lo: int, jj: int, kk: int, hi: int, x: int)
    requires Ready(base, c.v, c.p, h, lo, hi) && Listed(c.s, c.p, lo, hi)
    requires lo <= jj < kk <= hi
    requires forall q :: lo <= q < hi ==> 0 <= c.s[q] < |c.v| - h
    requires forall q :: lo <= q < jj ==> c.v[h..][c.s[q]] < x
    requires forall q :: jj <= q < kk ==> c.v[h..][c.s[q]] == x
    requires forall q :: kk <= q < hi ==> c.v[h..][c.s[q]] > x
    ensures Parted(base, c, h, lo, jj, kk, hi)
  {
    assert forall q :: lo <= q < hi ==> c.v[c.p[q] + h] == c.v[h..][c.s[q]];
    KeysBefore(base, c.v, c.p, h, lo, hi, lo, jj, x);
    KeysBefore(base, c.v, c.p, h, lo, hi, jj, kk, x + 1);
    KeysShare(base, c.v, c.p, h, lo, hi, jj, kk, x);
  }

  method PartitionRange(I: array<int>, V: array<int>, lo: int, hi: int, h: int, ghost base: seq<byte>, ghost a: Arrays)
    returns (jj: int, kk: int, ghost c: Arrays)
    requires I != V && I[..] == a.s && V[..] == a.v
    requires Ready(base, a.v, a.p, h, lo, hi) && Listed(a.s, a.p, lo, hi)
    modifies I
    ensures I[..] == c.s && V[..] == c.v
    ensures SplitDone(base, a, c, h, lo, lo, hi) && Listed(c.s, c.p, lo, hi)
    ensures Parted(base, c, h, lo, jj, kk, hi)
  {
    TaggedByKeys(I, base, a, h, lo, hi);
    ghost var x;
    jj, kk, x := Partition(I, V, lo, hi, h, a.v, KeysOf(a.v, a.s, h));
    c := Rearranged(base, a, I[..], h, lo, hi);
    assert forall q :: 0 <= q < |c.s| ==> c.s[q] == I[q];
    PartsOrdered(base, c, h, lo, jj, kk, hi, x);
  }

  // The lesser part is a range that split may take on.
  lemma {:induction false} LesserReady(base: seq<byte>, c: Arrays, h: int, lo: int, jj: int, kk: int, hi: int)
    requires Parted(base, c, h, lo, jj, kk, hi) && lo < jj
    ensures Ready(base, c.v, c.p, h, lo, jj)
  {
  }

  // Once the lesser part is finished, the equal part is the front of its group.
  lemma {:induction false} EqualReady(base: seq<byte>, c: Arrays, d: Arrays, h: int, lo: int, jj: int, kk: int, hi: int)
    requires Parted(base, c, h, lo, jj, kk, hi) && SplitDone(base, c, d, h, lo, jj, jj)
    ensures FirstOfGroup(d.v, d.p, jj) && kk <= d.v[d.p[jj]] + 1
    ensures Before(base, d.p, jj, kk, d.v[d.p[jj]] + 1)
    ensures forall i, j {:trigger Share(base, d.p[i], d.p[j], 2 * h)} :: jj <= i < j < kk ==>
        Share(base, d.p[i], d.p[j], 2 * h)
  {
    OneGroup(c.v, c.p, lo, jj);
    assert d.v[d.p[jj]] == c.v[c.p[jj]];
    assert jj > lo ==> d.v[d.p[jj - 1]] < jj;
    assert 0 < jj == lo ==> d.v[d.p[jj - 1]] == c.v[c.p[jj - 1]];
    forall i, j | jj <= i < kk <= j < d.v[d.p[jj]] + 1
      ensures SuffixLess(base, d.p[i], d.p[j])
    {
      assert d.p[i] == c.p[i] && d.p[j] == c.p[j];
    }
    forall i, j | jj <= i < j < kk
      ensures Share(base, d.p[i], d.p[j], 2 * h)
    {
      assert d.p[i] == c.p[i] && d.p[j] == c.p[j];
    }
  }

  // Finish the equal part, after the lesser part.
  method FinishMiddle(I: array<int>, V: array<int>, jj: int, kk: int, ghost base: seq<byte>, ghost c: Arrays,
                      ghost d: Arrays, ghost h: int, ghost lo: int, ghost hi: int)
    returns (ghost e: Arrays)
    requires I != V && I[..] == d.s && V[..] == d.v
    requires Parted(base, c, h, lo, jj, kk, hi) && Listed(c.s, c.p, lo, hi)
    requires SplitDone(base, c, d, h, lo, jj, jj)
    modifies I, V
    ensures I[..] == e.s && V[..] == e.v
    ensures SplitDone(base, c, e, h, lo, kk, hi) && Listed(e.s, e.p, kk, hi)
  {
    EqualReady(base, c, d, h, lo, jj, kk, hi);
    RestListed(base, c, d, h, lo, jj, jj, hi);
    e := FinishGroup(I, V, jj, kk, base, d, h);
    SplitThen(base, c, d, e, h, lo, jj, jj, kk, kk, hi);
    RestListed(base, d, e, h, jj, kk, kk, hi);
  }

  // What is left of a range after its front is finished is still listed.
  lemma {:induction false} RestListed(base: seq<byte>, c: Arrays, d: Arrays, h: int, lo: int, m: int, h1: int, hi: int)
    requires SplitDone(base, c, d, h, lo, m, h1) && h1 <= hi && Listed(c.s, c.p, lo, hi)
    ensures Listed(d.s, d.p, h1, hi)
  {
  }

  // The three parts of a partitioned range are finished in turn.
  lemma {:induction false} LongDone(base: seq<byte>, a: Arrays, c: Arrays, e: Arrays, f: Arrays, h: int, lo: int,
                                    kk: int, hi: int)
    requires SplitDone(base, a, c, h, lo, lo, hi) && SplitDone(base, c, e, h, lo, kk, hi)
    requires if kk == hi then f == e else SplitDone(base, e, f, h, kk, hi, hi)
    ensures SplitDone(base, a, f, h, lo, hi, hi)
  {
    if kk < hi {
      SplitThen(base, c, e, f, h, lo, kk, hi, hi, hi, hi);
    }
    SplitThen(base, a, c, f, h, lo, lo, hi, hi, hi, hi);
  }

  // Sort the range start..start+len of a group by the keys h places on.
  method Split(I: array<int>, V: array<int>, start: int, len: int, h: int, ghost base: seq<byte>, ghost a: Arrays)
    returns (ghost b: Arrays)
    requires I != V && I[..] == a.s && V[..] == a.v
    requires Ready(base, a.v, a.p, h, start, start + len) && Listed(a.s, a.p, start, start + len)
    modifies I, V
    ensures I[..] == b.s && V[..] == b.v
    ensures SplitDone(base, a, b, h, start, start + len, start + len)
    decreases len, 1
  {
    if len < 16 {
      b := SplitShort(I, V, start, len, h, base, a);
    } else {
      b := SplitLong(I, V, start, start + len, h, base, a);
    }
  }

  // Partition lo..hi around a key, and split the two outer parts in turn.
  method SplitLong(I: array<int>, V: array<int>, lo: int, hi: int, h: int, ghost base: seq<byte>, ghost a: Arrays)
    returns (ghost b: Arrays)
    requires I != V && I[..] == a.s && V[..] == a.v
    requires Ready(base, a.v, a.p, h, lo, hi) && Listed(a.s, a.p, lo, hi) && lo < hi
    modifies I, V
    ensures I[..] == b.s && V[..] == b.v
    ensures SplitDone(base, a, b, h, lo, hi, hi)
    decreases hi - lo, 0
  {
    var jj, kk;
    ghost var c, d, e;
    jj, kk, c := PartitionRange(I, V, lo, hi, h, base, a);
    d := SplitLesser(I, V, lo, jj, h, base, c, kk, hi);
    e := FinishMiddle(I, V, jj, kk, base, c, d, h, lo, hi);
    b := SplitGreater(I, V, kk, hi, h, base, c, e, lo);
    LongDone(base, a, c, e, b, h, lo, kk, hi);
  }

  method SplitLesser(I: array<int>, V: array<int>, lo: int, jj: int, h: int,
                     ghost base: seq<byte>, ghost c: Arrays, ghost kk: int, ghost hi: int)
    returns (ghost d: Arrays)
    requires I != V && I[..] == c.s && V[..] == c.v
    requires Parted(base, c, h, lo, jj, kk, hi) && Listed(c.s, c.p, lo, hi)
    modifies I, V
    ensures I[..] == d.s && V[..] == d.v
    ensures SplitDone(base, c, d, h, lo, jj, jj)
    decreases jj - lo, 2
  {
    d := c;
    if jj > lo {
      LesserReady(base, c, h, lo, jj, kk, hi);
      d := Split(I, V, lo, jj - lo, h, base, c);
    }
  }

  method SplitGreater(I: array<int>, V: array<int>, kk: int, hi: int, h: int,
                      ghost base: seq<byte>, ghost c: Arrays, ghost e: Arrays, ghost lo: int)
    returns (ghost f: Arrays)
    requires I != V && I[..] == e.s && V[..] == e.v
    requires Ready(base, c.v, c.p, h, lo, hi)
    requires SplitDone(base, c, e, h, lo, kk, hi) && Listed(e.s, e.p, kk, hi)
    modifies I, V
    ensures I[..] == f.s && V[..] == f.v
    ensures if kk == hi then f == e else SplitDone(base, e, f, h, kk, hi, hi)
    decreases hi - kk, 2
  {
    f := e;
    if hi > kk {
      RestReady(base, c, e, h, lo, kk, hi);
      f := Split(I, V, kk, hi - kk, h, base, e);
    }
  }
}
