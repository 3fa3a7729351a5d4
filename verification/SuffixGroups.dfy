// The abstract state of the suffix sort and the two moves that refine it.
//
// p lists the suffixes position by position; v maps a suffix to the last
// position of its group.  Array I of the sort agrees with p wherever it is
// not overwritten by a negative run length; array V is v.
module SuffixGroups {
  import opened Bytes
  import opened RangeMoves

  // Pairs of positions are compared through Differ and Together, so that the
  // verifier looks at a pair only where a proof names it.
  ghost predicate Differ(p: seq<int>, i: int, j: int) {
    0 <= i < |p| && 0 <= j < |p| && p[i] != p[j]
  }

  ghost predicate Permutation(p: seq<int>) {
    && (forall i :: 0 <= i < |p| ==> 0 <= p[i] < |p|)
    && (forall i, j {:trigger Differ(p, i, j)} :: 0 <= i < j < |p| ==> Differ(p, i, j))
  }

  // Pigeonhole: a permutation reaches every value.
  lemma {:induction false} Position(p: seq<int>, a: int) returns (i: int)
    requires Permutation(p) && 0 <= a < |p|
    ensures 0 <= i < |p| && p[i] == a
  {
    if a !in p {
      forall x, y | 0 <= x < y < |p|
        ensures p[x] != p[y]
      {
        assert Differ(p, x, y);
      }
      DistinctCount(p, Below(|p|) - {a});
      assert false;
    }
    i :| 0 <= i < |p| && p[i] == a;
  }

  ghost function Below(n: nat): (s: set<int>)
    ensures |s| == n && forall x :: x in s <==> 0 <= x < n
  {
    if n == 0 then {} else Below(n - 1) + {n - 1}
  }

  lemma {:induction false} DistinctCount(p: seq<int>, values: set<int>)
    requires forall i :: 0 <= i < |p| ==> p[i] in values
    requires forall i, j :: 0 <= i < j < |p| ==> p[i] != p[j]
    ensures |p| <= |values|
  {
    if |p| > 0 {
      var last := p[|p| - 1];
      DistinctCount(p[..|p| - 1], values - {last});
    }
  }

  ghost predicate Together(v: seq<int>, p: seq<int>, i: int, j: int) {
    && 0 <= i < |p| && 0 <= j < |p| && 0 <= p[i] < |v| && 0 <= p[j] < |v|
    && v[p[j]] == v[p[i]]
  }

  // Groups are contiguous, listed in order, and named by their last position.
  ghost predicate Grouped(v: seq<int>, p: seq<int>) {
    && |v| == |p|
    && Permutation(p)
    && (forall i :: 0 <= i < |p| ==> i <= v[p[i]] < |p|)
    && (forall i, j {:trigger Together(v, p, i, j)} :: 0 <= i < j < |p| && j <= v[p[i]] ==> Together(v, p, i, j))
  }

  // The order of the group names is the order of the suffixes.
  ghost predicate Consistent(base: seq<byte>, v: seq<int>) {
    && |v| == |base| + 1
    && forall a, b {:trigger SuffixLess(base, a, b)} :: 0 <= a < |v| && 0 <= b < |v| && v[a] < v[b] ==>
        SuffixLess(base, a, b)
  }

  // Suffixes in one group agree on their first h bytes.
  ghost predicate Sharing(base: seq<byte>, v: seq<int>, h: int) {
    forall a, b {:trigger Share(base, a, b, h)} ::
      0 <= a < |v| && 0 <= b < |v| && a != b && v[a] == v[b] ==> Share(base, a, b, h)
  }

  ghost predicate Refined(base: seq<byte>, v: seq<int>, p: seq<int>, h: int) {
    && h >= 1
    && Grouped(v, p)
    && Consistent(base, v)
    && Sharing(base, v, h)
  }

  ghost predicate FirstOfGroup(v: seq<int>, p: seq<int>, lo: int)
    requires Grouped(v, p)
  {
    0 <= lo < |p| && (lo == 0 || v[p[lo - 1]] < lo)
  }

  // Every suffix at lo..hi precedes every suffix at hi..end.
  ghost predicate Before(base: seq<byte>, p: seq<int>, lo: int, hi: int, end: int)
    requires 0 <= lo <= hi <= end <= |p| == |base| + 1 && Permutation(p)
  {
    forall i, j {:trigger SuffixLess(base, p[i], p[j])} :: lo <= i < hi <= j < end ==> SuffixLess(base, p[i], p[j])
  }

  // What split may assume of I[lo..hi): it is the front of a group, already
  // known to precede the rest of that group, and key reads stay in range.
  ghost predicate Ready(base: seq<byte>, v: seq<int>, p: seq<int>, h: int, lo: int, hi: int) {
    && Refined(base, v, p, h)
    && 0 <= lo < hi <= |p|
    && FirstOfGroup(v, p, lo)
    && hi <= v[p[lo]] + 1
    && Before(base, p, lo, hi, v[p[lo]] + 1)
    && (forall i :: lo <= i < hi ==> p[i] + h <= |base|)
  }

  lemma {:induction false} OneGroup(v: seq<int>, p: seq<int>, lo: int, i: int)
    requires Grouped(v, p) && 0 <= lo < |p| && lo <= i <= v[p[lo]]
    ensures v[p[i]] == v[p[lo]]
  {
    assert lo < i ==> Together(v, p, lo, i);
  }

  // Two permutations that agree outside a range have the same suffixes in it.
  lemma {:induction false} FromRange(p: seq<int>, q: seq<int>, lo: int, hi: int, i: int) returns (j: int)
    requires Permutation(p) && Permutation(q) && SameOutside(p, q, lo, hi)
    requires 0 <= lo <= i < hi <= |p|
    ensures lo <= j < hi && q[i] == p[j]
  {
    j := Position(p, q[i]);
    assert Differ(q, i, j) || Differ(q, j, i) || i == j;
  }

  // Rearranging the range keeps everything split may assume.
  lemma {:induction false} RearrangeReady(base: seq<byte>, v: seq<int>, p: seq<int>, q: seq<int>, h: int, lo: int,
                                          hi: int)
    requires Ready(base, v, p, h, lo, hi)
    requires Permutation(q) && SameOutside(p, q, lo, hi)
    ensures Ready(base, v, q, h, lo, hi)
    ensures v[q[lo]] == v[p[lo]]
  {
    var e := v[p[lo]];
    forall i | 0 <= i < |p|
      ensures v[q[i]] == v[p[i]]
    {
      if lo <= i < hi {
        var j := FromRange(p, q, lo, hi, i);
        OneGroup(v, p, lo, i);
        OneGroup(v, p, lo, j);
      }
    }
    SameGroups(v, p, q);
    forall i, j | lo <= i < hi <= j < e + 1
      ensures SuffixLess(base, q[i], q[j])
    {
      var k := FromRange(p, q, lo, hi, i);
      assert q[j] == p[j];
    }
    forall i | lo <= i < hi
      ensures q[i] + h <= |base|
    {
      var k := FromRange(p, q, lo, hi, i);
    }
  }

  lemma {:induction false} SameGroups(v: seq<int>, p: seq<int>, q: seq<int>)
    requires Grouped(v, p) && Permutation(q) && |q| == |p|
    requires forall i :: 0 <= i < |p| ==> v[q[i]] == v[p[i]]
    ensures Grouped(v, q)
  {
    forall i, j | 0 <= i < j < |q| && j <= v[q[i]]
      ensures Together(v, q, i, j)
    {
      assert Together(v, p, i, j);
    }
  }

  // The move that refines: the front lo..m of a group, known to precede the
  // rest of the group, becomes a group of its own.
  lemma {:induction false} Carve(base: seq<byte>, v: seq<int>, w: seq<int>, p: seq<int>, h: int, lo: int, m: int)
    requires Refined(base, v, p, h)
    requires 0 <= lo < m <= |p| && FirstOfGroup(v, p, lo) && m <= v[p[lo]] + 1
    requires Before(base, p, lo, m, v[p[lo]] + 1)
    requires |w| == |v|
    requires forall i :: 0 <= i < |p| ==> w[p[i]] == if lo <= i < m then m - 1 else v[p[i]]
    ensures Refined(base, w, p, h)
    ensures m < |p| ==> FirstOfGroup(w, p, m)
  {
    var e := v[p[lo]];
    forall i | 0 <= i < lo
      ensures v[p[i]] < lo
    {
      assert lo <= v[p[i]] ==> Together(v, p, i, lo - 1) || i == lo - 1;
    }
    forall i | lo <= i <= e
      ensures v[p[i]] == e
    {
      OneGroup(v, p, lo, i);
    }
    CarveGrouped(v, w, p, lo, m);
    forall a, b | 0 <= a < |w| && 0 <= b < |w| && w[a] < w[b]
      ensures SuffixLess(base, a, b)
    {
      var i := Position(p, a);
      var j := Position(p, b);
      if lo <= i < m {
        if j <= e { assert m <= j; } else { assert v[a] < v[b]; }
      } else {
        assert v[a] < v[b];
      }
    }
    forall a, b | 0 <= a < |w| && 0 <= b < |w| && a != b && w[a] == w[b]
      ensures Share(base, a, b, h)
    {
      var i := Position(p, a);
      var j := Position(p, b);
      assert v[a] == v[b];
    }
  }

  lemma {:induction false} CarveGrouped(v: seq<int>, w: seq<int>, p: seq<int>, lo: int, m: int)
    requires Grouped(v, p)
    requires 0 <= lo < m <= |p| && FirstOfGroup(v, p, lo) && m <= v[p[lo]] + 1
    requires forall i :: 0 <= i < lo ==> v[p[i]] < lo
    requires forall i :: lo <= i <= v[p[lo]] ==> v[p[i]] == v[p[lo]]
    requires |w| == |v|
    requires forall i :: 0 <= i < |p| ==> w[p[i]] == if lo <= i < m then m - 1 else v[p[i]]
    ensures Grouped(w, p)
  {
    forall i, j | 0 <= i < j < |p| && j <= w[p[i]]
      ensures Together(w, p, i, j)
    {
      assert v[p[i]] >= j ==> Together(v, p, i, j);
    }
  }

  // Equal keys give agreement on 2h bytes, smaller keys give precedence.
  lemma {:induction false} CompareKeys(base: seq<byte>, v: seq<int>, h: int, a: int, b: int)
    requires Consistent(base, v) && Sharing(base, v, h)
    requires 0 <= a < |v| && 0 <= b < |v| && a != b && v[a] == v[b]
    requires h >= 1 && a + h < |v| && b + h < |v|
    ensures v[a + h] < v[b + h] ==> SuffixLess(base, a, b)
    ensures v[a + h] == v[b + h] ==> Share(base, a, b, 2 * h)
  {
    SkipShared(base, a, b, h);
    if v[a + h] == v[b + h] {
      ShareDouble(base, a, b, h);
    }
  }

  // I shows the permutation on lo..hi.
  ghost predicate Listed(s: seq<int>, p: seq<int>, lo: int, hi: int) {
    |s| == |p| && forall i :: 0 <= i < |p| && lo <= i < hi ==> s[i] == p[i]
  }

  // The permutation after I was rearranged from s0 to s on lo..hi.
  ghost function Patched(p: seq<int>, s: seq<int>, lo: int, hi: int): seq<int>
    requires 0 <= lo <= hi <= |p| == |s|
  {
    p[..lo] + s[lo..hi] + p[hi..]
  }

  lemma {:induction false} PatchedPermutation(p: seq<int>, s0: seq<int>, s: seq<int>, lo: int, hi: int)
    requires Permutation(p) && 0 <= lo <= hi <= |p| && Listed(s0, p, lo, hi)
    requires SameOutside(s0, s, lo, hi) && multiset(s) == multiset(s0)
    ensures Permutation(Patched(p, s, lo, hi))
    ensures SameOutside(p, Patched(p, s, lo, hi), lo, hi) && Listed(s, Patched(p, s, lo, hi), lo, hi)
  {
    var q := Patched(p, s, lo, hi);
    assert multiset(q) == multiset(p) by {
      assert s[..lo] == s0[..lo] && s[hi..] == s0[hi..] && p[lo..hi] == s0[lo..hi];
      ThreeParts(s, lo, hi);
      ThreeParts(s0, lo, hi);
      ThreeParts(p, lo, hi);
      SameMiddle(multiset(s[..lo]), multiset(s[lo..hi]), multiset(s0[lo..hi]), multiset(s[hi..]));
    }
    SameBag(p, q);
  }

  lemma {:induction false} ThreeParts(s: seq<int>, lo: int, hi: int)
    requires 0 <= lo <= hi <= |s|
    ensures multiset(s) == multiset(s[..lo]) + multiset(s[lo..hi]) + multiset(s[hi..])
  {
    assert s == s[..lo] + s[lo..hi] + s[hi..];
  }

  lemma {:induction false} SameMiddle(a: multiset<int>, b: multiset<int>, c: multiset<int>, d: multiset<int>)
    requires a + b + d == a + c + d
    ensures b == c
  {
    assert b == (a + b + d) - a - d;
    assert c == (a + c + d) - a - d;
  }

  lemma {:induction false} SameBag(p: seq<int>, q: seq<int>)
    requires Permutation(p) && multiset(q) == multiset(p)
    ensures Permutation(q)
  {
    assert |p| == |multiset(p)| == |multiset(q)| == |q|;
    forall i | 0 <= i < |q|
      ensures 0 <= q[i] < |q|
    {
      assert q[i] in multiset(p);
    }
    forall i, j | 0 <= i < j < |q|
      ensures q[i] != q[j]
    {
      if q[i] == q[j] {
        Twice(q, i, j);
        forall x, y | 0 <= x < y < |p|
          ensures p[x] != p[y]
        {
          assert Differ(p, x, y);
        }
        Once(p, q[i]);
      }
    }
  }

  lemma {:induction false} Twice(q: seq<int>, i: int, j: int)
    requires 0 <= i < j < |q| && q[i] == q[j]
    ensures multiset(q)[q[i]] >= 2
  {
    assert q == q[..j] + q[j..];
    assert q[..j][i] == q[i] && q[j..][0] == q[i];
  }

  lemma {:induction false} Once(p: seq<int>, x: int)
    requires forall i, j :: 0 <= i < j < |p| ==> p[i] != p[j]
    ensures multiset(p)[x] <= 1
  {
    if |p| > 0 {
      Once(p[1..], x);
      assert p == [p[0]] + p[1..];
      if p[0] == x {
        assert x !in p[1..];
      }
    }
  }

  // CompareKeys for two suffixes of the range.
  lemma {:induction false} CompareAt(base: seq<byte>, v: seq<int>, p: seq<int>, h: int, lo: int, hi: int, i: int,
                                     j: int)
    requires Ready(base, v, p, h, lo, hi) && lo <= i < j < hi
    ensures v[p[i] + h] < v[p[j] + h] ==> SuffixLess(base, p[i], p[j])
    ensures v[p[i] + h] == v[p[j] + h] ==> Share(base, p[i], p[j], 2 * h)
  {
    OneGroup(v, p, lo, i);
    OneGroup(v, p, lo, j);
    assert Differ(p, i, j);
    CompareKeys(base, v, h, p[i], p[j]);
  }

  // Smaller keys in front: a..b precedes the rest of the group.
  lemma {:induction false} KeysBefore(base: seq<byte>, v: seq<int>, p: seq<int>, h: int, lo: int, hi: int, a: int,
                                      b: int, x: int)
    requires Ready(base, v, p, h, lo, hi) && lo <= a <= b <= hi
    requires forall i :: a <= i < b ==> v[p[i] + h] < x
    requires forall j :: b <= j < hi ==> x <= v[p[j] + h]
    ensures Before(base, p, a, b, v[p[lo]] + 1)
  {
    forall i, j | a <= i < b <= j < v[p[lo]] + 1
      ensures SuffixLess(base, p[i], p[j])
    {
      if j < hi {
        CompareAt(base, v, p, h, lo, hi, i, j);
      }
    }
  }

  // Equal keys: the suffixes of a..b agree on 2h bytes.
  lemma {:induction false} KeysShare(base: seq<byte>, v: seq<int>, p: seq<int>, h: int, lo: int, hi: int, a: int,
                                     b: int, x: int)
    requires Ready(base, v, p, h, lo, hi) && lo <= a <= b <= hi
    requires forall i :: a <= i < b ==> v[p[i] + h] == x
    ensures forall i, j :: a <= i < j < b ==> Share(base, p[i], p[j], 2 * h)
  {
    forall i, j | a <= i < j < b
      ensures Share(base, p[i], p[j], 2 * h)
    {
      CompareAt(base, v, p, h, lo, hi, i, j);
    }
  }
}
