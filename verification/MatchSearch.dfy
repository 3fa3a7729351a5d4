// search: the binary search of the suffix array for a long match.
module MatchSearch {
  import opened Bytes
  import opened SuffixGroups
  import opened Qsufsort

  // memcmp(s, t, MIN(|s|, |t|)) < 0: the first difference decides, and a
  // prefix compares as equal.
  predicate ComparesLess(s: seq<byte>, t: seq<byte>) {
    |s| > 0 && |t| > 0 && (s[0] < t[0] || (s[0] == t[0] && ComparesLess(s[1..], t[1..])))
  }

  lemma {:induction false} ComparesLessIs(s: seq<byte>, t: seq<byte>)
    ensures ComparesLess(s, t)
       <==> exists k :: 0 <= k < |s| && k < |t| && s[..k] == t[..k] && s[k] < t[k]
  {
    var k := CommonPrefix(s, t);
    CommonPrefixExact(s, t, k);
    ComparesAt(s, t, k);
    forall j | 0 <= j < |s| && j < |t| && s[..j] == t[..j] && s[j] < t[j]
      ensures j == k
    {
      CommonPrefixExact(s, t, j);
    }
  }

  lemma {:induction false} ComparesAt(s: seq<byte>, t: seq<byte>, k: nat)
    requires k == CommonPrefix(s, t)
    ensures ComparesLess(s, t) <==> k < |s| && k < |t| && s[k] < t[k]
  {
    if |s| > 0 && |t| > 0 && s[0] == t[0] {
      ComparesAt(s[1..], t[1..], k - 1);
    }
  }

  method Matchlen(s: seq<byte>, t: seq<byte>) returns (i: nat)
    ensures i == CommonPrefix(s, t)
  {
    i := 0;
    while i < |s| && i < |t|
      invariant i <= |s| && i <= |t| && s[..i] == t[..i]
    {
      if s[i] != t[i] {
        break;
      }
      i := i + 1;
    }
    CommonPrefixExact(s, t, i);
  }

  // Every entry is a position of base.
  predicate Positions(base: seq<byte>, s: seq<int>) {
    forall i :: 0 <= i < |s| ==> 0 <= s[i] <= |base|
  }

  // The length of the match at entry k.
  function MatchAt(base: seq<byte>, s: seq<int>, query: seq<byte>, k: int): nat
    requires Positions(base, s) && 0 <= k < |s|
  {
    CommonPrefix(base[s[k]..], query)
  }

  // The search over entries st..en: the length found, and where.
  function Found(base: seq<byte>, s: seq<int>, query: seq<byte>, st: int, en: int): (r: (nat, int))
    requires Positions(base, s) && 0 <= st <= en < |s|
    decreases en - st
  {
    if en - st < 2 then
      if MatchAt(base, s, query, st) > MatchAt(base, s, query, en)
      then (MatchAt(base, s, query, st), s[st])
      else (MatchAt(base, s, query, en), s[en])
    else
      var x := st + (en - st) / 2;
      if ComparesLess(base[s[x]..], query)
      then Found(base, s, query, x, en)
      else Found(base, s, query, st, x)
  }

  method Search(I: array<int>, base: seq<byte>, query: seq<byte>, st: int, en: int) returns (len: nat, pos: int)
    requires Positions(base, I[..]) && 0 <= st <= en < I.Length
    ensures (len, pos) == Found(base, I[..], query, st, en)
    decreases en - st
  {
    if en - st < 2 {
      var x := Matchlen(base[I[st]..], query);
      var y := Matchlen(base[I[en]..], query);
      if x > y {
        return x, I[st];
      } else {
        return y, I[en];
      }
    }
    var x := st + (en - st) / 2;
    if ComparesLess(base[I[x]..], query) {
      len, pos := Search(I, base, query, x, en);
    } else {
      len, pos := Search(I, base, query, st, x);
    }
  }

  // What is found is one of the entries, with its true match length.
  lemma {:induction false} FoundEntry(base: seq<byte>, s: seq<int>, query: seq<byte>, st: int, en: int) returns (k: int)
    requires Positions(base, s) && 0 <= st <= en < |s|
    ensures st <= k <= en && Found(base, s, query, st, en) == (MatchAt(base, s, query, k), s[k])
    decreases en - st
  {
    if en - st < 2 {
      k := if MatchAt(base, s, query, st) > MatchAt(base, s, query, en) then st else en;
    } else {
      var x := st + (en - st) / 2;
      if ComparesLess(base[s[x]..], query) {
        k := FoundEntry(base, s, query, x, en);
      } else {
        k := FoundEntry(base, s, query, st, x);
      }
    }
  }

  // ------------------------------------------- matches near the query's place

  predicate ProperPrefix(s: seq<byte>, t: seq<byte>) {
    |s| < |t| && s == t[..|s|]
  }

  // A string is below the query, not below it, or cut off by it.
  lemma {:induction false} ComparesCases(s: seq<byte>, q: seq<byte>)
    ensures ComparesLess(s, q) ==> LexLess(s, q)
    ensures !ComparesLess(s, q) ==> !LexLess(s, q) || ProperPrefix(s, q)
    ensures ProperPrefix(s, q) ==> !ComparesLess(s, q) && LexLess(s, q) && CommonPrefix(s, q) == |s|
  {
    if |s| > 0 && |q| > 0 && s[0] == q[0] {
      ComparesCases(s[1..], q[1..]);
      assert ProperPrefix(s, q) ==> s[1..] == q[..|s|][1..] == q[1..][..|s| - 1];
      assert ProperPrefix(s[1..], q[1..]) ==> s == [q[0]] + q[1..][..|s| - 1] == q[..|s|];
    } else if |s| > 0 && |q| > 0 {
      assert |s| <= |q| ==> q[..|s|][0] == q[0];
    }
  }

  // Matches improve towards the query's place from below ...
  lemma {:induction false} MatchBelow(s: seq<byte>, t: seq<byte>, q: seq<byte>)
    requires LexLess(s, t) && LexLess(t, q)
    ensures CommonPrefix(s, q) <= CommonPrefix(t, q)
  {
    if |s| > 0 && s[0] == q[0] {
      assert s[0] == t[0];
      MatchBelow(s[1..], t[1..], q[1..]);
    }
  }

  // ... and from above.
  lemma {:induction false} MatchAbove(s: seq<byte>, t: seq<byte>, q: seq<byte>)
    requires LexLess(s, t) && !LexLess(s, q)
    ensures CommonPrefix(t, q) <= CommonPrefix(s, q)
  {
    if |t| > 0 && |q| > 0 && t[0] == q[0] {
      assert |s| > 0 && s[0] == q[0];
      MatchAbove(s[1..], t[1..], q[1..]);
    }
  }

  lemma {:induction false} ArrayOrder(base: seq<byte>, s: seq<int>, i: int, j: int)
    requires SuffixArray(base, s) && 0 <= i < j < |s|
    ensures Positions(base, s) && LexLess(base[s[i]..], base[s[j]..])
  {
    SuffixLessIsLexLess(base, s[i], s[j]);
  }

  // Matches at entries before and after entry x, by what the probe says.
  lemma {:induction false} ProbeLess(base: seq<byte>, s: seq<int>, query: seq<byte>, x: int, j: int)
    requires SuffixArray(base, s) && 0 <= j <= x < |s| && LexLess(base[s[x]..], query)
    ensures MatchAt(base, s, query, j) <= MatchAt(base, s, query, x)
  {
    if j < x {
      ArrayOrder(base, s, j, x);
      MatchBelow(base[s[j]..], base[s[x]..], query);
    }
  }

  lemma {:induction false} ProbeNotLess(base: seq<byte>, s: seq<int>, query: seq<byte>, x: int, j: int)
    requires SuffixArray(base, s) && 0 <= x <= j < |s| && !LexLess(base[s[x]..], query)
    ensures MatchAt(base, s, query, j) <= MatchAt(base, s, query, x)
  {
    if x < j {
      ArrayOrder(base, s, x, j);
      MatchAbove(base[s[x]..], base[s[j]..], query);
    }
  }

  // ------------------------------------------------- a first byte is not missed

  // If the search leaves an entry that matches, the probe it turns to matches too.
  lemma {:induction false} ProbeKeepsByte(base: seq<byte>, s: seq<int>, query: seq<byte>, x: int, j: int)
    requires SuffixArray(base, s) && Positions(base, s) && 0 <= j < |s| && 0 < x < |s|
    requires MatchAt(base, s, query, j) > 0
    requires if ComparesLess(base[s[x]..], query) then j < x else x < j
    ensures MatchAt(base, s, query, x) > 0
  {
    ComparesCases(base[s[x]..], query);
    if ComparesLess(base[s[x]..], query) {
      ProbeLess(base, s, query, x, j);
    } else {
      NonemptyAfterFirst(base, s, x);
      if !LexLess(base[s[x]..], query) {
        ProbeNotLess(base, s, query, x, j);
      }
    }
  }

  lemma {:induction false} FoundByte(base: seq<byte>, s: seq<int>, query: seq<byte>, st: int, en: int, j: int)
    requires SuffixArray(base, s) && Positions(base, s) && 0 <= st <= j <= en < |s|
    requires MatchAt(base, s, query, j) > 0
    ensures Found(base, s, query, st, en).0 > 0
    decreases en - st
  {
    if en - st >= 2 {
      var x := st + (en - st) / 2;
      var less := ComparesLess(base[s[x]..], query);
      if if less then j < x else x < j {
        ProbeKeepsByte(base, s, query, x, j);
      }
      if less {
        FoundByte(base, s, query, x, en, if j < x then x else j);
      } else {
        FoundByte(base, s, query, st, x, if j > x then x else j);
      }
    }
  }

  // Only the first suffix is empty.
  lemma {:induction false} NonemptyAfterFirst(base: seq<byte>, s: seq<int>, x: int)
    requires SuffixArray(base, s) && 0 < x < |s|
    ensures 0 <= s[x] < |base|
  {
    ArrayOrder(base, s, 0, x);
  }

  // search finds something exactly when the query's first byte occurs in base.
  lemma {:induction false} SearchFindsByte(base: seq<byte>, s: seq<int>, query: seq<byte>)
    requires SuffixArray(base, s)
    ensures Positions(base, s)
    ensures Found(base, s, query, 0, |base|).0 > 0 <==> |query| > 0 && query[0] in base
  {
    var k := FoundEntry(base, s, query, 0, |base|);
    if |query| > 0 && query[0] in base {
      var p :| 0 <= p < |base| && base[p] == query[0];
      var j := Position(s, p);
      FoundByte(base, s, query, 0, |base|, j);
    }
  }

  // Entry k is the first of the last two, which are next to each other: it
  // compares as less than the query and the next does not, as far as they are
  // not the ends.
  ghost predicate EndsAt(base: seq<byte>, s: seq<int>, query: seq<byte>, st: int, en: int, k: int)
    requires Positions(base, s) && 0 <= st <= en < |s|
  {
    && st <= k <= en && (st < en ==> k < en)
    && (st < k ==> ComparesLess(base[s[k]..], query)) && (k + 1 < en ==> !ComparesLess(base[s[k + 1]..], query))
  }

  // The search comes down to these two ...
  lemma {:induction false} SearchEnds(base: seq<byte>, s: seq<int>, query: seq<byte>, st: int, en: int)
    returns (k: int)
    requires Positions(base, s) && 0 <= st <= en < |s|
    ensures EndsAt(base, s, query, st, en, k)
    ensures Found(base, s, query, st, en) == Found(base, s, query, k, if st < en then k + 1 else k)
    decreases en - st
  {
    if en - st < 2 {
      k := st;
    } else {
      var x := st + (en - st) / 2;
      var less := ComparesLess(base[s[x]..], query);
      if less {
        k := SearchEnds(base, s, query, x, en);
      } else {
        k := SearchEnds(base, s, query, st, x);
      }
      EndsInside(base, s, query, st, en, x, less, k);
    }
  }

  // ... of which the first is taken only if its match is longer.
  lemma {:induction false} FoundOfTwo(base: seq<byte>, s: seq<int>, query: seq<byte>, k: int, l: int)
    requires Positions(base, s) && 0 <= k <= l <= k + 1 && l < |s|
    ensures var i := if MatchAt(base, s, query, k) > MatchAt(base, s, query, l) then k else l;
      Found(base, s, query, k, l) == (MatchAt(base, s, query, i), s[i])
  {
  }

  lemma {:induction false} EndsInside(base: seq<byte>, s: seq<int>, query: seq<byte>, st: int, en: int, x: int,
                                      less: bool, k: int)
    requires Positions(base, s) && 0 <= st < x < en < |s| && less == ComparesLess(base[s[x]..], query)
    requires if less then EndsAt(base, s, query, x, en, k) else EndsAt(base, s, query, st, x, k)
    ensures EndsAt(base, s, query, st, en, k)
  {
  }

  // -------------------------------------------------------- the longest match

  predicate OccursAt(base: seq<byte>, w: seq<byte>, p: int) {
    0 <= p && p + |w| <= |base| && base[p..p + |w|] == w
  }

  ghost predicate Occurs(base: seq<byte>, w: seq<byte>) {
    exists p :: OccursAt(base, w, p)
  }

  // The comparison with suffix a is cut off by the end of base although base
  // continues the match elsewhere.
  ghost predicate CutOff(base: seq<byte>, query: seq<byte>, a: int)
    requires 0 <= a <= |base|
  {
    ProperPrefix(base[a..], query) && Occurs(base, query[..|base| - a + 1])
  }

  // The search over st..en probes an entry whose comparison is cut off.
  ghost predicate Misled(base: seq<byte>, s: seq<int>, query: seq<byte>, st: int, en: int)
    requires Positions(base, s) && 0 <= st <= en < |s|
    decreases en - st
  {
    en - st >= 2 &&
    var x := st + (en - st) / 2;
    CutOff(base, query, s[x]) ||
    if ComparesLess(base[s[x]..], query) then Misled(base, s, query, x, en) else Misled(base, s, query, st, x)
  }

  // A match of n bytes anywhere is an occurrence of the query's first n bytes.
  lemma {:induction false} MatchOccurs(base: seq<byte>, query: seq<byte>, p: int, n: nat)
    requires 0 <= p <= |base| && n <= |query|
    ensures CommonPrefix(base[p..], query) >= n <==> OccursAt(base, query[..n], p)
  {
    var k := CommonPrefix(base[p..], query);
    CommonPrefixExact(base[p..], query, k);
    if k >= n {
      assert base[p..p + n] == base[p..][..k][..n] == query[..k][..n] == query[..n];
    } else if p + n <= |base| {
      assert base[p..][k] != query[k];
      assert base[p..p + n][k] == base[p + k] && query[..n][k] == query[k];
    }
  }

  ghost predicate Bounds(base: seq<byte>, s: seq<int>, query: seq<byte>, st: int, en: int)
    requires Positions(base, s) && 0 <= st <= en < |s|
  {
    && (forall j :: 0 <= j < st ==> MatchAt(base, s, query, j) <= MatchAt(base, s, query, st))
    && (forall j :: en < j < |s| ==> MatchAt(base, s, query, j) <= MatchAt(base, s, query, en))
  }

  // A probe that is not cut off keeps the longest match in range.
  lemma {:induction false} ProbeKeeps(base: seq<byte>, s: seq<int>, query: seq<byte>, st: int, en: int, x: int)
    requires SuffixArray(base, s) && Positions(base, s) && 0 <= st <= x <= en < |s|
    requires Bounds(base, s, query, st, en) && !CutOff(base, query, s[x])
    ensures if ComparesLess(base[s[x]..], query) then Bounds(base, s, query, x, en) else Bounds(base, s, query, st, x)
  {
    ComparesCases(base[s[x]..], query);
    if ComparesLess(base[s[x]..], query) {
      forall j | 0 <= j < x
        ensures MatchAt(base, s, query, j) <= MatchAt(base, s, query, x)
      {
        ProbeLess(base, s, query, x, j);
      }
    } else {
      forall j | x < j < |s|
        ensures MatchAt(base, s, query, j) <= MatchAt(base, s, query, x)
      {
        if LexLess(base[s[x]..], query) {
          MatchOccurs(base, query, s[j], |base| - s[x] + 1);
        } else {
          ProbeNotLess(base, s, query, x, j);
        }
      }
    }
  }

  lemma {:induction false} NotMisledLongest(base: seq<byte>, s: seq<int>, query: seq<byte>, st: int, en: int, j: int)
    requires SuffixArray(base, s) && Positions(base, s) && 0 <= st <= en < |s| && 0 <= j < |s|
    requires Bounds(base, s, query, st, en) && !Misled(base, s, query, st, en)
    ensures MatchAt(base, s, query, j) <= Found(base, s, query, st, en).0
    decreases en - st
  {
    if en - st >= 2 {
      var x := st + (en - st) / 2;
      ProbeKeeps(base, s, query, st, en, x);
      if ComparesLess(base[s[x]..], query) {
        NotMisledLongest(base, s, query, x, en, j);
      } else {
        NotMisledLongest(base, s, query, st, x, j);
      }
    }
  }

  lemma {:induction false} MisledShort(base: seq<byte>, s: seq<int>, query: seq<byte>, st: int,
                                       en: int) returns (p: int)
    requires SuffixArray(base, s) && Positions(base, s) && 0 <= st <= en < |s|
    requires Misled(base, s, query, st, en)
    ensures 0 <= p <= |base| && CommonPrefix(base[p..], query) > Found(base, s, query, st, en).0
    decreases en - st
  {
    var x := st + (en - st) / 2;
    ComparesCases(base[s[x]..], query);
    if CutOff(base, query, s[x]) {
      var n := |base| - s[x] + 1;
      p :| OccursAt(base, query[..n], p);
      MatchOccurs(base, query, p, n);
      var k := FoundEntry(base, s, query, st, x);
      ProbeLess(base, s, query, x, k);
    } else if ComparesLess(base[s[x]..], query) {
      p := MisledShort(base, s, query, x, en);
    } else {
      p := MisledShort(base, s, query, st, x);
    }
  }

  // search returns a longest match exactly when no probe is cut off.
  lemma {:induction false} SearchLongest(base: seq<byte>, s: seq<int>, query: seq<byte>)
    requires SuffixArray(base, s)
    ensures Positions(base, s)
    ensures (forall p :: 0 <= p <= |base| ==> CommonPrefix(base[p..], query) <= Found(base, s, query, 0, |base|).0)
       <==> !Misled(base, s, query, 0, |base|)
  {
    if Misled(base, s, query, 0, |base|) {
      var p := MisledShort(base, s, query, 0, |base|);
    } else {
      forall p | 0 <= p <= |base|
        ensures CommonPrefix(base[p..], query) <= Found(base, s, query, 0, |base|).0
      {
        var j := Position(s, p);
        NotMisledLongest(base, s, query, 0, |base|, j);
      }
    }
  }

  // It is never misled when base does not end in a beginning of the query.
  lemma {:induction false} NeverMisled(base: seq<byte>, s: seq<int>, query: seq<byte>, st: int, en: int)
    requires SuffixArray(base, s) && Positions(base, s) && 0 <= st <= en < |s|
    requires forall a :: 0 <= a < |base| ==> !ProperPrefix(base[a..], query)
    ensures !Misled(base, s, query, st, en)
    decreases en - st
  {
    if en - st >= 2 {
      var x := st + (en - st) / 2;
      NonemptyAfterFirst(base, s, x);
      NeverMisled(base, s, query, x, en);
      NeverMisled(base, s, query, st, x);
    }
  }

  // The smallest miss: in 1 2 1, the query 1 2 is found as a match of one byte
  // at position 2, although all of it is at position 0.
  lemma {:induction false} MissedMatch()
    ensures var base: seq<byte>, s, query: seq<byte> := [1, 2, 1], [3, 2, 0, 1], [1, 2];
      && SuffixArray(base, s) && Positions(base, s)
      && Found(base, s, query, 0, 3) == (1, 2)
      && CommonPrefix(base[0..], query) == 2
  {
    var base: seq<byte>, s, query: seq<byte> := [1, 2, 1], [3, 2, 0, 1], [1, 2];
    assert base[3..] == [] && base[2..] == [1] && base[1..] == [2, 1] && base[0..] == base;
    assert Permutation(s);
  }
}
