// One pass of qsufsort: every unfinished group is split by the keys h places
// on, and neighbouring finished suffixes are merged into one run.
module SuffixPass {
  import opened Bytes
  import opened RangeMoves
  import opened SuffixGroups
  import opened SuffixSort

  // Entry q of I is a run length, or shows a suffix that still has a key.
  // For h >= 2 a shown suffix is not alone in its group; for h == 1 the only
  // suffix starting with byte 0 is shown although it is finished.
  ghost predicate EntryOk(base: seq<byte>, b: Arrays, h: int, q: int)
    requires Grouped(b.v, b.p) && |b.s| == |b.p| && 0 <= q < |b.p|
  {
    if b.s[q] < 0 then q - b.s[q] <= |b.p| && Finished(b, q, q - b.s[q])
    else b.s[q] == b.p[q] && b.p[q] + h <= |base| && (h >= 2 ==> !Single(b.v, b.p, q))
  }

  // lo..hi are finished suffixes, and none of them is shown.
  ghost predicate Finished(b: Arrays, lo: int, hi: int)
    requires Grouped(b.v, b.p) && |b.s| == |b.p|
  {
    0 <= lo <= hi <= |b.p| && forall r {:trigger b.s[r]} :: lo <= r < hi ==> b.s[r] < 0 && Single(b.v, b.p, r)
  }

  ghost predicate EntriesOk(base: seq<byte>, b: Arrays, h: int, lo: int, hi: int)
    requires Grouped(b.v, b.p) && |b.s| == |b.p|
  {
    forall q {:trigger EntryOk(base, b, h, q)} :: 0 <= q < |b.p| && lo <= q < hi ==> EntryOk(base, b, h, q)
  }

  // The state between passes.
  ghost predicate Between(base: seq<byte>, b: Arrays, h: int) {
    && Refined(base, b.v, b.p, h)
    && |b.s| == |b.p|
    && EntriesOk(base, b, h, 0, |b.p|)
  }

  ghost predicate AllFinished(b: Arrays, lo: int) {
    forall q :: 0 <= q < |b.s| && lo <= q ==> b.s[q] < 0
  }

  // The state inside a pass: positions below i are done, the last n of them
  // are a run that is not yet written down.
  ghost predicate Passing(base: seq<byte>, b: Arrays, h: int, i: int, n: int) {
    && Refined(base, b.v, b.p, h)
    && |b.s| == |b.p|
    && 0 <= n <= i <= |b.p|
    && (i > 0 ==> b.v[b.p[i - 1]] < i)
    && SharingIn(base, b.v, b.p, 2 * h, 0, i)
    && EntriesOk(base, b, 2 * h, 0, i)
    && EntriesOk(base, b, h, i, |b.p|)
    && Finished(b, i - n, i)
  }

  lemma {:induction false} Monotone(v: seq<int>, p: seq<int>, i: int, j: int)
    requires Grouped(v, p) && 0 <= i <= j < |p|
    ensures v[p[i]] <= v[p[j]]
  {
    assert i < j ==> Together(v, p, i, j) || v[p[i]] < j;
  }

  // A finished suffix is alone in its group.
  lemma {:induction false} SingleAlone(v: seq<int>, p: seq<int>, i: int, j: int)
    requires Grouped(v, p) && 0 <= i < j < |p| && (Single(v, p, i) || Single(v, p, j))
    ensures v[p[i]] != v[p[j]]
  {
    Monotone(v, p, i, j - 1);
  }

  // A run of finished suffixes is passed over.
  lemma {:induction false} SkipRun(base: seq<byte>, b: Arrays, h: int, i: int, n: int)
    requires Passing(base, b, h, i, n) && i < |b.p| && b.s[i] < 0
    ensures i - b.s[i] <= |b.p|
    ensures Passing(base, b, h, i - b.s[i], n - b.s[i])
  {
    assert EntryOk(base, b, h, i);
    var m := i - b.s[i];
    assert b.s[m - 1] < 0 && Single(b.v, b.p, m - 1);
    forall x, y | 0 <= x < y < m
      ensures Agree(base, b.v, b.p, 2 * h, x, y)
    {
      if y < i {
        assert Agree(base, b.v, b.p, 2 * h, x, y);
      } else {
        assert b.s[y] < 0;
        SingleAlone(b.v, b.p, x, y);
      }
    }
    forall q | 0 <= q < m
      ensures EntryOk(base, b, 2 * h, q)
    {
      if q < i {
        assert EntryOk(base, b, 2 * h, q);
      } else {
        assert b.s[q] < 0;
        assert EntryOk(base, b, h, q);
      }
    }
    forall q | m <= q < |b.p|
      ensures EntryOk(base, b, h, q)
    {
      assert EntryOk(base, b, h, q);
    }
  }

  // Writing down the length of the run ending at i.
  lemma {:induction false} WriteRun(base: seq<byte>, b: Arrays, c: Arrays, h: int, i: int, n: int)
    requires Passing(base, b, h, i, n) && n > 0 && c == b.(s := b.s[i - n := -n])
    ensures Passing(base, c, h, i, n)
  {
    assert b.s[i - n] < 0;
    forall q, g | 0 <= q < |b.p| && EntryOk(base, b, g, q)
      ensures EntryOk(base, c, g, q)
    {
      assert b.s[q] < 0 ==> forall r :: q <= r < q - b.s[q] ==> b.s[r] < 0 && c.s[r] < 0 && Single(c.v, c.p, r);
    }
  }

  // A shown entry at the front of the pass starts a group that split may take on.
  lemma {:induction false} GroupReady(base: seq<byte>, b: Arrays, h: int, i: int, n: int)
    requires Passing(base, b, h, i, n) && i < |b.p| && b.s[i] >= 0
    ensures b.s[i] == b.p[i]
    ensures i <= b.v[b.p[i]] < |b.p|
    ensures Ready(base, b.v, b.p, h, i, b.v[b.p[i]] + 1) && Listed(b.s, b.p, i, b.v[b.p[i]] + 1)
  {
    assert EntryOk(base, b, h, i);
    var e := b.v[b.p[i]];
    forall q | i <= q < e + 1
      ensures b.s[q] == b.p[q] && b.p[q] + h <= |base|
    {
      assert EntryOk(base, b, h, q);
      OneGroup(b.v, b.p, i, q);
      if q > i {
        OneGroup(b.v, b.p, i, q - 1);
        assert !Single(b.v, b.p, q);
      }
    }
  }

  // split has taken on the whole group i..m of b and left c.
  ghost predicate GroupSplit(base: seq<byte>, b: Arrays, c: Arrays, h: int, i: int, m: int) {
    && Refined(base, b.v, b.p, h)
    && |b.s| == |b.p|
    && 0 <= i < m <= |b.p|
    && (i > 0 ==> b.v[b.p[i - 1]] < i)
    && b.v[b.p[i]] == m - 1
    && Listed(b.s, b.p, i, m)
    && SplitDone(base, b, c, h, i, m, m)
  }

  // Outside the group, finished suffixes stay finished and no others become so.
  lemma {:induction false} KeepsSingle(base: seq<byte>, b: Arrays, c: Arrays, h: int, i: int, m: int, q: int)
    requires GroupSplit(base, b, c, h, i, m) && 0 <= q < |b.p| && !(i <= q < m)
    ensures Single(c.v, c.p, q) <==> Single(b.v, b.p, q)
  {
    assert c.v[c.p[q]] == b.v[b.p[q]];
    if q == m {
      OneGroup(b.v, b.p, i, m - 1);
      assert c.v[c.p[m - 1]] < m;
    } else if q > 0 {
      assert c.v[c.p[q - 1]] == b.v[b.p[q - 1]];
    }
  }

  lemma {:induction false} KeepsFinished(base: seq<byte>, b: Arrays, c: Arrays, h: int, i: int, m: int, lo: int,
                                         hi: int)
    requires GroupSplit(base, b, c, h, i, m) && Finished(b, lo, hi)
    ensures Finished(c, lo, hi)
  {
    forall r | lo <= r < hi
      ensures c.s[r] < 0 && Single(c.v, c.p, r)
    {
      assert b.s[r] < 0;
      KeepsSingle(base, b, c, h, i, m, r);
    }
  }

  lemma {:induction false} KeepsEntries(base: seq<byte>, b: Arrays, c: Arrays, h: int, i: int, m: int, g: int,
                                        lo: int, hi: int)
    requires GroupSplit(base, b, c, h, i, m)
    requires hi <= i || m <= lo
    requires EntriesOk(base, b, g, lo, hi)
    ensures EntriesOk(base, c, g, lo, hi)
  {
    forall q | 0 <= q < |c.p| && lo <= q < hi
      ensures EntryOk(base, c, g, q)
    {
      assert EntryOk(base, b, g, q);
      KeepsSingle(base, b, c, h, i, m, q);
      assert c.s[q] == b.s[q];
      if b.s[q] < 0 {
        KeepsFinished(base, b, c, h, i, m, q, q - b.s[q]);
      }
    }
  }

  lemma {:induction false} SplitEntry(base: seq<byte>, b: Arrays, c: Arrays, h: int, i: int, m: int, q: int)
    requires GroupSplit(base, b, c, h, i, m) && i <= q < m
    ensures EntryOk(base, c, 2 * h, q)
  {
    assert c.s[q] == if Single(c.v, c.p, q) then -1 else c.p[q];
    if !Single(c.v, c.p, q) {
      var e := c.v[c.p[q]];
      if e > q {
        assert Together(c.v, c.p, q, e);
        assert Agree(base, c.v, c.p, 2 * h, q, e);
      } else {
        assert forall r :: r == i - 1 && i > 0 ==> c.v[c.p[r]] == b.v[b.p[r]];
        assert Together(c.v, c.p, q - 1, q);
        assert Agree(base, c.v, c.p, 2 * h, q - 1, q);
      }
    }
  }

  lemma {:induction false} SharesBelow(base: seq<byte>, b: Arrays, c: Arrays, h: int, i: int, m: int)
    requires GroupSplit(base, b, c, h, i, m) && SharingIn(base, b.v, b.p, 2 * h, 0, i)
    ensures SharingIn(base, c.v, c.p, 2 * h, 0, m)
  {
    forall x, y | 0 <= x < y < m
      ensures Agree(base, c.v, c.p, 2 * h, x, y)
    {
      if y < i {
        assert Agree(base, b.v, b.p, 2 * h, x, y);
        assert c.v[c.p[x]] == b.v[b.p[x]] && c.v[c.p[y]] == b.v[b.p[y]];
      } else if x < i {
        Monotone(b.v, b.p, x, i - 1);
        assert c.v[c.p[x]] == b.v[b.p[x]];
      } else {
        assert Agree(base, c.v, c.p, 2 * h, x, y);
      }
    }
  }

  // split leaves its range done, and the rest of the pass as it was.
  lemma {:induction false} AfterSplit(base: seq<byte>, b: Arrays, c: Arrays, h: int, i: int, n: int, m: int)
    requires Passing(base, b, h, i, n) && i < m <= |b.p| && b.v[b.p[i]] == m - 1 && Listed(b.s, b.p, i, m)
    requires SplitDone(base, b, c, h, i, m, m)
    ensures Passing(base, c, h, m, 0)
  {
    assert GroupSplit(base, b, c, h, i, m);
    KeepsEntries(base, b, c, h, i, m, 2 * h, 0, i);
    KeepsEntries(base, b, c, h, i, m, h, m, |b.p|);
    forall q | 0 <= q < |c.p| && 0 <= q < m
      ensures EntryOk(base, c, 2 * h, q)
    {
      if q >= i {
        SplitEntry(base, b, c, h, i, m, q);
      }
    }
    SharesBelow(base, b, c, h, i, m);
    assert c.v[c.p[m - 1]] < m;
  }

  // At the end of the pass, groups agree on 2h bytes.
  lemma {:induction false} PassDone(base: seq<byte>, b: Arrays, h: int, n: int)
    requires Passing(base, b, h, |b.p|, n)
    ensures Between(base, b, 2 * h)
  {
    forall x, y | 0 <= x < |b.v| && 0 <= y < |b.v| && x != y && b.v[x] == b.v[y]
      ensures Share(base, x, y, 2 * h)
    {
      var i := Position(b.p, x);
      var j := Position(b.p, y);
      assert Together(b.v, b.p, i, j) && Together(b.v, b.p, j, i);
      assert Agree(base, b.v, b.p, 2 * h, i, j) || Agree(base, b.v, b.p, 2 * h, j, i);
    }
  }

  // Write down the run of n finished suffixes in front of i.
  method JoinRun(I: array<int>, i: int, n: int, h: int, ghost base: seq<byte>, ghost b: Arrays)
    returns (ghost c: Arrays)
    requires I[..] == b.s && Passing(base, b, h, i, n)
    modifies I
    ensures I[..] == c.s && c == if n == 0 then b else b.(s := b.s[i - n := -n])
    ensures Passing(base, c, h, i, n)
  {
    c := b;
    if n != 0 {
      I[i - n] := -n;
      c := b.(s := I[..]);
      WriteRun(base, b, c, h, i, n);
    }
  }

  // At the front of the pass is a group: split it, after writing down the run
  // of n finished suffixes before it.
  method PassGroup(I: array<int>, V: array<int>, i: int, n: int, h: int, ghost base: seq<byte>, ghost b0: Arrays)
    returns (len: int, ghost c: Arrays)
    requires I != V && I[..] == b0.s && V[..] == b0.v
    requires Passing(base, b0, h, i, n) && i < |b0.p| && b0.s[i] >= 0
    modifies I, V
    ensures I[..] == c.s && V[..] == c.v
    ensures len >= 1 && Passing(base, c, h, i + len, 0)
  {
    ghost var b := JoinRun(I, i, n, h, base, b0);
    GroupReady(base, b, h, i, n);
    assert I[i] == b.s[i];
    len := V[I[i]] + 1 - i;
    c := Split(I, V, i, len, h, base, b);
    AfterSplit(base, b, c, h, i, n, i + len);
  }

  // One pass.  If every entry was already a run length, all runs merge into one.
  method Pass(I: array<int>, V: array<int>, h: int, ghost base: seq<byte>, ghost a: Arrays) returns (ghost b: Arrays)
    requires I != V && I[..] == a.s && V[..] == a.v
    requires Between(base, a, h)
    modifies I, V
    ensures I[..] == b.s && V[..] == b.v
    ensures Between(base, b, 2 * h)
    ensures AllFinished(a, 0) ==> b.s[0] == -|b.p|
  {
    b := a;
    var len, i := 0, 0;
    while i < I.Length
      invariant I[..] == b.s && V[..] == b.v
      invariant Passing(base, b, h, i, len)
      invariant AllFinished(a, 0) ==> AllFinished(b, 0) && len == i
    {
      assert I[i] == b.s[i];
      if I[i] < 0 {
        SkipRun(base, b, h, i, len);
        len := len - I[i];
        i := i - I[i];
      } else {
        len, b := PassGroup(I, V, i, len, h, base, b);
        i := i + len;
        len := 0;
      }
    }
    b := JoinRun(I, i, len, h, base, b);
    PassDone(base, b, h, len);
  }
}
