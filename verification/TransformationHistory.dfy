// TransformationHistory: recent positions and velocities of an object, read
// back at times in between.
module TransformationHistory {
  import opened Options

  // Times are milliseconds in 32 unsigned bits.
  const TIME: int := 0x1_0000_0000

  type TimeMS = t: int | 0 <= t < TIME

  datatype Vector3 = Vector3(x: real, y: real, z: real) {
    // this + (other - this) * lerp
    function Towards(other: Vector3, lerp: real): Vector3 {
      Vector3(x + (other.x - x) * lerp, y + (other.y - y) * lerp, z + (other.z - z) * lerp)
    }
  }

  datatype Cell = Cell(time: TimeMS, position: Vector3, velocity: Vector3)

  // Unsigned subtraction of times.
  function Elapsed(a: TimeMS, b: TimeMS): (r: TimeMS) {
    (a - b) % TIME
  }

  function Push(h: seq<Cell>, c: Cell, max: int): seq<Cell> {
    if |h| + 1 > max then (h + [c])[1..] else h + [c]
  }

  // A new cell, unless the last one is too recent.
  function Written(h: seq<Cell>, c: Cell, interval: int, max: int): seq<Cell> {
    if h == [] then [c]
    else if Elapsed(c.time, h[|h| - 1].time) >= interval then Push(h, c, max)
    else h
  }

  // The latest of the first n cells that is not after when, or -1.
  function Latest(h: seq<Cell>, n: nat, when: int): (i: int)
    requires n <= |h|
    ensures -1 <= i < n
    ensures i >= 0 ==> h[i].time <= when
    ensures forall j :: i < j < n ==> when < h[j].time
  {
    if n == 0 then -1 else if when >= h[n - 1].time then n - 1 else Latest(h, n - 1, when)
  }

  // The cell for that time is changed; past the last cell it may be a new one.
  function Overwritten(h: seq<Cell>, c: Cell, interval: int, max: int): seq<Cell> {
    if h == [] then [c]
    else
      var i := Latest(h, |h|, c.time);
      if i < 0 then h
      else if i == |h| - 1 && Elapsed(c.time, h[i].time) >= interval then Push(h, c, max)
      else h[i := c]
  }

  // ------------------------------------------------------ order and retention

  ghost predicate Ordered(h: seq<Cell>) {
    forall i, j :: 0 <= i < j < |h| ==> h[i].time < h[j].time
  }

  // Neighbours are at least the write interval apart.
  ghost predicate Spaced(h: seq<Cell>, interval: int) {
    forall i :: 0 < i < |h| ==> h[i - 1].time + interval <= h[i].time
  }

  lemma {:induction false} SpacedOrdered(h: seq<Cell>, interval: int, i: nat, j: nat)
    requires Spaced(h, interval) && interval > 0 && i <= j < |h|
    ensures h[j].time - h[i].time >= (j - i) * interval
    decreases j
  {
    if i < j {
      SpacedOrdered(h, interval, i, j - 1);
      assert h[j - 1].time + interval <= h[j].time;
      assert (j - i) * interval == (j - 1 - i) * interval + interval;
    }
  }

  // Write does not put a cell behind one with a later time.
  predicate WriteGuard(h: seq<Cell>, c: Cell, interval: int, max: int) {
    h == [] || c.time >= h[|h| - 1].time || Elapsed(c.time, h[|h| - 1].time) < interval || max == 1
  }

  // That is exactly when it keeps the cells in order.
  lemma {:induction false} WriteOrderIff(h: seq<Cell>, c: Cell, interval: int, max: int)
    requires Ordered(h) && interval > 0 && 0 < max && |h| <= max
    ensures Ordered(Written(h, c, interval, max)) <==> WriteGuard(h, c, interval, max)
    ensures |Written(h, c, interval, max)| <= max
  {
    if h != [] && Elapsed(c.time, h[|h| - 1].time) >= interval {
      var g := Push(h, c, max);
      assert g[|g| - 1] == c;
      if max > 1 {
        assert g[|g| - 2] == h[|h| - 1];
      }
    }
  }

  // Overwrite always does.
  lemma {:induction false} OverwriteOrder(h: seq<Cell>, c: Cell, interval: int, max: int)
    requires Ordered(h) && interval > 0 && 0 < max && |h| <= max
    ensures Ordered(Overwritten(h, c, interval, max)) && |Overwritten(h, c, interval, max)| <= max
  {
  }

  // The same guard is exact for spacing ...
  lemma {:induction false} WriteSpacedIff(h: seq<Cell>, c: Cell, interval: int, max: int)
    requires Spaced(h, interval) && interval > 0 && 0 < max && |h| <= max
    ensures Spaced(Written(h, c, interval, max), interval) <==> WriteGuard(h, c, interval, max)
  {
    if h != [] && Elapsed(c.time, h[|h| - 1].time) >= interval {
      var g := Push(h, c, max);
      assert g[|g| - 1] == c;
      if max > 1 {
        assert g[|g| - 2] == h[|h| - 1];
      }
    }
  }

  // ... and an overwrite keeps it exactly when the cell that is moved stays far
  // enough from the next.
  predicate KeepsDistance(h: seq<Cell>, c: Cell, interval: int) {
    var i := Latest(h, |h|, c.time);
    0 <= i < |h| - 1 ==> c.time + interval <= h[i + 1].time
  }

  lemma {:induction false} OverwriteSpacedIff(h: seq<Cell>, c: Cell, interval: int, max: int)
    requires Spaced(h, interval) && interval > 0
    ensures Spaced(Overwritten(h, c, interval, max), interval) <==> KeepsDistance(h, c, interval)
  {
    var i := Latest(h, |h|, c.time);
    var g := Overwritten(h, c, interval, max);
    if 0 <= i < |h| - 1 {
      assert g == h[i := c];
      assert g[i + 1 - 1] == c && g[i + 1] == h[i + 1];
    }
  }

  datatype Op = Write(cell: Cell) | Overwrite(cell: Cell)

  function Step(h: seq<Cell>, op: Op, interval: int, max: int): seq<Cell> {
    match op
    case Write(c) => Written(h, c, interval, max)
    case Overwrite(c) => Overwritten(h, c, interval, max)
  }

  // The operations do not go back in time: nothing is written before the newest
  // cell.  An overwrite may, if past allows it.
  ghost predicate Forward(h: seq<Cell>, op: Op, past: bool) {
    h == [] || op.cell.time >= h[|h| - 1].time || (past && op.Overwrite?)
  }

  // The limit on the number of cells, in 32 unsigned bits.
  function MaxLength(maxWriteInterval: TimeMS, maxHistoryTime: TimeMS): (r: nat)
    requires maxWriteInterval > 0
  {
    (maxHistoryTime / maxWriteInterval + 1) % TIME
  }

  function After(ops: seq<Op>, interval: int, max: int): seq<Cell> {
    if |ops| == 0 then [] else Step(After(ops[..|ops| - 1], interval, max), ops[|ops| - 1], interval, max)
  }

  ghost predicate AllForward(ops: seq<Op>, interval: int, max: int, past: bool) {
    |ops| > 0 ==>
      var before := ops[..|ops| - 1];
      AllForward(before, interval, max, past) && Forward(After(before, interval, max), ops[|ops| - 1], past)
  }

  // Every Write of the run meets its guard.
  ghost predicate WritesGuarded(ops: seq<Op>, interval: int, max: int) {
    |ops| > 0 ==>
      var before, op := ops[..|ops| - 1], ops[|ops| - 1];
      && WritesGuarded(before, interval, max)
      && (op.Write? ==> WriteGuard(After(before, interval, max), op.cell, interval, max))
  }

  lemma {:induction false} RunBounded(ops: seq<Op>, interval: int, max: int)
    requires max > 0
    ensures |After(ops, interval, max)| <= max
  {
    if |ops| > 0 {
      RunBounded(ops[..|ops| - 1], interval, max);
    }
  }

  ghost predicate AlwaysOrdered(ops: seq<Op>, interval: int, max: int) {
    forall n {:trigger ops[..n]} :: 0 <= n <= |ops| ==> Ordered(After(ops[..n], interval, max))
  }

  lemma {:induction false} OrderedThen(ops: seq<Op>, interval: int, max: int)
    requires |ops| > 0
    ensures var before := ops[..|ops| - 1];
      AlwaysOrdered(ops, interval, max) <==> AlwaysOrdered(before, interval, max) && Ordered(After(ops, interval, max))
  {
    var before := ops[..|ops| - 1];
    assert ops[..|ops|] == ops;
    forall n | 0 <= n < |ops|
      ensures before[..n] == ops[..n]
    {
    }
  }

  // The cells are in order throughout a run exactly when every Write meets its guard.
  lemma {:induction false} RunOrderIff(ops: seq<Op>, interval: int, max: int)
    requires interval > 0 && max > 0
    ensures AlwaysOrdered(ops, interval, max) <==> WritesGuarded(ops, interval, max)
  {
    if |ops| > 0 {
      var before, op := ops[..|ops| - 1], ops[|ops| - 1];
      OrderedThen(ops, interval, max);
      RunOrderIff(before, interval, max);
      RunBounded(before, interval, max);
      if AlwaysOrdered(before, interval, max) {
        assert before[..|before|] == before;
        var h := After(before, interval, max);
        match op
        case Write(c) => WriteOrderIff(h, c, interval, max);
        case Overwrite(c) => OverwriteOrder(h, c, interval, max);
      }
    }
  }

  // Over every run that writes nothing before the newest cell, with overwrites
  // anywhere, the cells stay in order and within bounds.
  lemma {:induction false} RunOrdered(ops: seq<Op>, interval: int, max: int)
    requires interval > 0 && max > 0 && AllForward(ops, interval, max, true)
    ensures Ordered(After(ops, interval, max)) && |After(ops, interval, max)| <= max
  {
    if |ops| > 0 {
      var before, op := ops[..|ops| - 1], ops[|ops| - 1];
      RunOrdered(before, interval, max);
      var h := After(before, interval, max);
      match op
      case Write(c) => WriteOrderIff(h, c, interval, max);
      case Overwrite(c) => OverwriteOrder(h, c, interval, max);
    }
  }

  // The operations of the run meet the guards for spacing.
  ghost predicate SpacingGuarded(ops: seq<Op>, interval: int, max: int) {
    |ops| > 0 ==>
      var before, op := ops[..|ops| - 1], ops[|ops| - 1];
      var h := After(before, interval, max);
      && SpacingGuarded(before, interval, max)
      && (if op.Write? then WriteGuard(h, op.cell, interval, max) else KeepsDistance(h, op.cell, interval))
  }

  ghost predicate AlwaysSpaced(ops: seq<Op>, interval: int, max: int) {
    forall n {:trigger ops[..n]} :: 0 <= n <= |ops| ==> Spaced(After(ops[..n], interval, max), interval)
  }

  lemma {:induction false} SpacedThen(ops: seq<Op>, interval: int, max: int)
    requires |ops| > 0
    ensures var before := ops[..|ops| - 1];
      AlwaysSpaced(ops, interval, max)
      <==> AlwaysSpaced(before, interval, max) && Spaced(After(ops, interval, max), interval)
  {
    var before := ops[..|ops| - 1];
    assert ops[..|ops|] == ops;
    forall n | 0 <= n < |ops|
      ensures before[..n] == ops[..n]
    {
    }
  }

  // The cells are a write interval apart throughout a run exactly when every
  // operation meets its guard.
  lemma {:induction false} RunSpacedIff(ops: seq<Op>, interval: int, max: int)
    requires interval > 0 && max > 0
    ensures AlwaysSpaced(ops, interval, max) <==> SpacingGuarded(ops, interval, max)
  {
    if |ops| > 0 {
      var before, op := ops[..|ops| - 1], ops[|ops| - 1];
      SpacedThen(ops, interval, max);
      RunSpacedIff(before, interval, max);
      RunBounded(before, interval, max);
      if AlwaysSpaced(before, interval, max) {
        assert before[..|before|] == before;
        var h := After(before, interval, max);
        match op
        case Write(c) => WriteSpacedIff(h, c, interval, max);
        case Overwrite(c) => OverwriteSpacedIff(h, c, interval, max);
      }
    }
  }

  // ----------------------------------------------------- what is stored where

  // After a Write the last cell is exactly the given one, if the interval has
  // passed or there was none; otherwise nothing changes.
  lemma {:induction false} WriteStores(h: seq<Cell>, c: Cell, interval: int, max: int)
    requires interval > 0 && 0 <= max && (|h| <= max || |h| == 1)
    ensures var g := Step(h, Write(c), interval, max);
      if h == [] || (c.time - h[|h| - 1].time) % 0x1_0000_0000 >= interval
      then |g| > 0 && g[|g| - 1] == c && g[..|g| - 1] == if |h| < max || h == [] then h else h[1..]
      else g == h
  {
  }

  // After an Overwrite the latest cell not after the given time is exactly the
  // given one, or that is added last; otherwise nothing changes.
  lemma {:induction false} OverwriteStores(h: seq<Cell>, c: Cell, interval: int, max: int, i: int)
    requires interval > 0 && 0 <= max && (|h| <= max || |h| == 1)
    requires -1 <= i < |h| && (i >= 0 ==> h[i].time <= c.time) && forall j :: i < j < |h| ==> c.time < h[j].time
    ensures var g := Step(h, Overwrite(c), interval, max);
      if h == [] then g == [c]
      else if i < 0 then g == h
      else if i == |h| - 1 && (c.time - h[i].time) % 0x1_0000_0000 >= interval
      then |g| > 0 && g[|g| - 1] == c && g[..|g| - 1] == if |h| < max then h else h[1..]
      else |g| == |h| && g[i] == c && forall j :: 0 <= j < |h| && j != i ==> g[j] == h[j]
  {
    assert Latest(h, |h|, c.time) == i;
  }

  // Where an Overwrite of an ordered history stores its cell, Read finds it.
  lemma {:induction false} OverwriteFinds(h: seq<Cell>, c: Cell, interval: int, max: int) returns (k: nat)
    requires interval > 0 && 0 <= max && (|h| <= max || |h| == 1) && Ordered(h) && (h == [] || h[0].time <= c.time)
    ensures var g := Step(h, Overwrite(c), interval, max);
      && Ordered(g) && k < |g| && g[k] == c
      && (k < |g| - 1 <==> h != [] && c.time < h[|h| - 1].time)
  {
    var g, i := Step(h, Overwrite(c), interval, max), Latest(h, |h|, c.time);
    OverwriteStores(h, c, interval, max, i);
    k := if h != [] && i < |h| - 1 then i else |g| - 1;
  }

  // The operation pushes a cell onto a full history.
  predicate Evicts(h: seq<Cell>, op: Op, interval: int, max: int) {
    && h != [] && |h| >= max && Elapsed(op.cell.time, h[|h| - 1].time) >= interval
    && (op.Write? || Latest(h, |h|, op.cell.time) == |h| - 1)
  }

  // Then the oldest cell is lost; and no operation loses one otherwise.
  lemma {:induction false} EvictsIff(h: seq<Cell>, op: Op, interval: int, max: int)
    requires 0 < max && |h| <= max
    ensures Evicts(h, op, interval, max) ==> Step(h, op, interval, max) == h[1..] + [op.cell]
    ensures !Evicts(h, op, interval, max) ==> |Step(h, op, interval, max)| >= |h|
    ensures !Evicts(h, op, interval, max) ==>
      forall i :: 0 <= i < |h| && !(op.Overwrite? && i == Latest(h, |h|, op.cell.time)) ==>
          Step(h, op, interval, max)[i] == h[i]
  {
  }

  // The cells of a full history a write interval apart outlast the history time,
  // unless the limit wraps around to 0.
  lemma {:induction false} LongEnoughIff(interval: TimeMS, maxHistoryTime: TimeMS)
    requires interval > 0
    ensures MaxLength(interval, maxHistoryTime) * interval > maxHistoryTime <==> !LimitWraps(interval, maxHistoryTime)
    ensures MaxLength(interval, maxHistoryTime) == 0 <==> LimitWraps(interval, maxHistoryTime)
  {
    var q := maxHistoryTime / interval;
    assert maxHistoryTime == q * interval + maxHistoryTime % interval;
    assert (q + 1) * interval == q * interval + interval;
    if interval >= 2 {
      AtLeast(interval, 2, q);
    }
  }

  predicate LimitWraps(interval: TimeMS, maxHistoryTime: TimeMS) {
    interval == 1 && maxHistoryTime == TIME - 1
  }

  lemma {:induction false} OneMore(n: int, k: int)
    ensures (n + 1) * k == n * k + k
  {
  }

  lemma {:induction false} AtLeast(a: int, b: int, k: int)
    requires a >= b && k >= 0
    ensures a * k >= b * k
  {
    assert (a - b) * k >= 0;
    assert (a - b) * k == a * k - b * k;
  }

  // n cells have to be pushed, each at least the interval after the one before
  // it, to lose a cell of time t.  The newest cell will then be later than it by
  // more than time, unless the clock ends before.
  predicate LastsFor(last: TimeMS, t: TimeMS, n: int, interval: int, time: int) {
    last + n * interval >= TIME || last - t + n * interval > time
  }

  predicate Lasts(h: seq<Cell>, i: nat, interval: int, max: int, time: int)
    requires i < |h|
  {
    LastsFor(h[|h| - 1].time, h[i].time, max - |h| + 1 + i, interval, time)
  }

  ghost predicate Lasting(h: seq<Cell>, interval: int, max: int, time: int) {
    forall i :: 0 <= i < |h| ==> Lasts(h, i, interval, max, time)
  }

  // Nothing is written or overwritten before the newest cell ...
  ghost predicate Newest(h: seq<Cell>, ops: seq<Op>, interval: int, max: int)
    decreases |ops|
  {
    |ops| > 0 ==> Forward(h, ops[0], false) && Newest(Step(h, ops[0], interval, max), ops[1..], interval, max)
  }

  // ... and only cells older than time are lost.
  ghost predicate LosesOnlyOld(h: seq<Cell>, ops: seq<Op>, interval: int, max: int, time: int)
    decreases |ops|
  {
    |ops| > 0 ==>
      && (Evicts(h, ops[0], interval, max) ==> ops[0].cell.time - h[0].time > time)
      && LosesOnlyOld(Step(h, ops[0], interval, max), ops[1..], interval, max, time)
  }

  // A step at the newest end pushes a cell, or at most changes the newest one.
  lemma {:induction false} StepForward(h: seq<Cell>, op: Op, interval: int, max: int)
    requires 0 < max && h != [] && |h| <= max && Forward(h, op, false)
    ensures var g, c, n := Step(h, op, interval, max), op.cell, |h| - 1;
      && c.time >= h[n].time
      && (if c.time - h[n].time >= interval then g == Push(h, c, max) && (|h| == max <==> Evicts(h, op, interval, max))
          else (g == h || g == h[n := c]) && !Evicts(h, op, interval, max))
  {
  }

  // Pushing a cell, or changing the newest, keeps every cell early enough.
  lemma {:induction false} PushLasting(h: seq<Cell>, g: seq<Cell>, c: Cell, interval: int, max: int, time: int)
    requires interval > 0 && max * interval > time && h != [] && |h| <= max && Lasting(h, interval, max, time)
    requires c.time >= h[|h| - 1].time + interval && g == Push(h, c, max)
    ensures Lasting(g, interval, max, time)
    ensures |h| == max ==> c.time - h[0].time > time
  {
    var lost := |h| + 1 - |g|;
    forall i | 0 <= i < |g|
      ensures Lasts(g, i, interval, max, time)
    {
      if i + 1 < |g| {
        assert Lasts(h, i + lost, interval, max, time);
        LastsOn(h[|h| - 1].time, c.time, g[i].time, max - |g| + 1 + i, interval, time);
      }
    }
    if |h| == max {
      assert Lasts(h, 0, interval, max, time);
      LastsOn(h[|h| - 1].time, c.time, h[0].time, 0, interval, time);
    }
  }

  lemma {:induction false} ChangeLasting(h: seq<Cell>, c: Cell, interval: int, max: int, time: int)
    requires max * interval > time && h != [] && |h| <= max && Lasting(h, interval, max, time)
    requires c.time >= h[|h| - 1].time
    ensures Lasting(h[|h| - 1 := c], interval, max, time)
  {
    var g := h[|h| - 1 := c];
    forall i | 0 <= i < |g|
      ensures Lasts(g, i, interval, max, time)
    {
      assert Lasts(h, i, interval, max, time);
    }
  }

  // With the newest cell an interval later, one cell less has to be pushed.
  lemma {:induction false} LastsOn(last: TimeMS, next: TimeMS, t: TimeMS, n: int, interval: int, time: int)
    requires interval > 0 && LastsFor(last, t, n + 1, interval, time) && next >= last + interval
    ensures LastsFor(next, t, n, interval, time)
  {
    OneMore(n, interval);
  }

  lemma {:induction false} StepLasting(h: seq<Cell>, op: Op, interval: int, max: int, time: int)
    requires interval > 0 && 0 < max && max * interval > time && |h| <= max
    requires Lasting(h, interval, max, time) && Forward(h, op, false)
    ensures var g := Step(h, op, interval, max); 0 < |g| <= max && Lasting(g, interval, max, time)
    ensures Evicts(h, op, interval, max) ==> op.cell.time - h[0].time > time
  {
    if h != [] {
      var n := |h| - 1;
      StepForward(h, op, interval, max);
      if op.cell.time - h[n].time >= interval {
        PushLasting(h, Step(h, op, interval, max), op.cell, interval, max, time);
      } else {
        ChangeLasting(h, op.cell, interval, max, time);
      }
    }
  }

  lemma {:induction false} RunLasting(h: seq<Cell>, ops: seq<Op>, interval: int, max: int, time: int)
    requires interval > 0 && 0 < max && max * interval > time && |h| <= max
    requires Lasting(h, interval, max, time) && Newest(h, ops, interval, max)
    ensures LosesOnlyOld(h, ops, interval, max, time)
    decreases |ops|
  {
    if |ops| > 0 {
      StepLasting(h, ops[0], interval, max, time);
      RunLasting(Step(h, ops[0], interval, max), ops[1..], interval, max, time);
    }
  }

  // n writes, each the interval after the one before it.
  function Regular(c: Cell, interval: int, n: nat): seq<Op>
    requires interval > 0 && c.time + n * interval < TIME
    decreases n
  {
    if n == 0 then []
    else
      OneMore(n - 1, interval);
      AtLeast(n - 1, 0, interval);
      var d := c.(time := c.time + interval);
      [Write(d)] + Regular(d, interval, n - 1)
  }

  // Such writes lose cell i too soon if it does not last.
  lemma {:induction false} LosesTooSoon(h: seq<Cell>, i: nat, interval: int, max: int, time: int, n: nat)
    requires interval > 0 && i < |h| <= max && n == max - |h| + 1 + i && !Lasts(h, i, interval, max, time)
    ensures var ops := Regular(h[|h| - 1], interval, n);
      Newest(h, ops, interval, max) && !LosesOnlyOld(h, ops, interval, max, time)
    decreases n
  {
    OneMore(n - 1, interval);
    AtLeast(n - 1, 0, interval);
    var c := h[|h| - 1];
    var ops, d := Regular(c, interval, n), c.(time := c.time + interval);
    var g := Step(h, Write(d), interval, max);
    assert ops[0] == Write(d) && ops[1..] == Regular(d, interval, n - 1);
    if n > 1 {
      LosesTooSoon(g, if |h| == max then i - 1 else i, interval, max, time, n - 1);
    }
  }

  // However a history of max cells goes on without going back in time, it loses
  // only cells older than time exactly when every cell lasts.
  lemma {:induction false} LastingIff(h: seq<Cell>, interval: int, max: int, time: int)
    requires interval > 0 && 0 < |h| <= max && max * interval > time
    ensures Lasting(h, interval, max, time)
      <==> forall ops :: Newest(h, ops, interval, max) ==> LosesOnlyOld(h, ops, interval, max, time)
  {
    if Lasting(h, interval, max, time) {
      forall ops | Newest(h, ops, interval, max)
        ensures LosesOnlyOld(h, ops, interval, max, time)
      {
        RunLasting(h, ops, interval, max, time);
      }
    } else {
      var i :| 0 <= i < |h| && !Lasts(h, i, interval, max, time);
      LosesTooSoon(h, i, interval, max, time, max - |h| + 1 + i);
    }
  }

  // An overwrite leaves the cell it moves early enough to last.
  predicate OverwriteGuard(h: seq<Cell>, c: Cell, interval: int, max: int, time: int) {
    var i := Latest(h, |h|, c.time);
    0 <= i < |h| - 1 ==> LastsFor(h[|h| - 1].time, c.time, max - |h| + 1 + i, interval, time)
  }

  lemma {:induction false} OverwriteLastingIff(h: seq<Cell>, c: Cell, interval: int, max: int, time: int)
    requires interval > 0 && 0 < max && max * interval > time && |h| <= max && Lasting(h, interval, max, time)
    ensures |Overwritten(h, c, interval, max)| <= max
    ensures Lasting(Overwritten(h, c, interval, max), interval, max, time)
        <==> OverwriteGuard(h, c, interval, max, time)
  {
    var i, g := Latest(h, |h|, c.time), Overwritten(h, c, interval, max);
    if h == [] || i == |h| - 1 {
      StepLasting(h, Overwrite(c), interval, max, time);
    } else if i >= 0 {
      assert g == h[i := c];
      forall j | 0 <= j < |h| && j != i
        ensures Lasts(g, j, interval, max, time)
      {
        assert Lasts(h, j, interval, max, time);
      }
      assert Lasts(g, i, interval, max, time) <==> OverwriteGuard(h, c, interval, max, time);
    }
  }

  // So whatever follows an overwrite, only cells older than time are lost,
  // exactly when the overwrite meets its guard.
  lemma {:induction false} OverwriteRetentionIff(h: seq<Cell>, c: Cell, interval: int, max: int, time: int)
    requires interval > 0 && 0 < max && max * interval > time && |h| <= max && Lasting(h, interval, max, time)
    ensures var g := Overwritten(h, c, interval, max);
      (forall ops :: Newest(g, ops, interval, max) ==> LosesOnlyOld(g, ops, interval, max, time))
      <==> OverwriteGuard(h, c, interval, max, time)
  {
    OverwriteLastingIff(h, c, interval, max, time);
    LastingIff(Overwritten(h, c, interval, max), interval, max, time);
  }

  // The run goes forward, or overwrites the past within the guard.
  ghost predicate Harmless(ops: seq<Op>, interval: int, max: int, time: int) {
    |ops| > 0 ==>
      var before, op := ops[..|ops| - 1], ops[|ops| - 1];
      var h := After(before, interval, max);
      && Harmless(before, interval, max, time)
      && (Forward(h, op, false) || (op.Overwrite? && OverwriteGuard(h, op.cell, interval, max, time)))
  }

  lemma {:induction false} HarmlessLasting(ops: seq<Op>, interval: int, max: int, time: int)
    requires interval > 0 && 0 < max && max * interval > time && Harmless(ops, interval, max, time)
    ensures Lasting(After(ops, interval, max), interval, max, time) && |After(ops, interval, max)| <= max
  {
    RunBounded(ops, interval, max);
    if |ops| > 0 {
      var before, op := ops[..|ops| - 1], ops[|ops| - 1];
      HarmlessLasting(before, interval, max, time);
      var h := After(before, interval, max);
      if Forward(h, op, false) {
        StepLasting(h, op, interval, max, time);
      } else {
        OverwriteLastingIff(h, op.cell, interval, max, time);
      }
    }
  }

  // Over every run whose overwrites of older cells meet the guard, a cell that
  // is lost is older than the newest by more than the history time.
  lemma {:induction false} GuardedRetention(ops: seq<Op>, op: Op, interval: TimeMS, maxHistoryTime: TimeMS)
    requires interval > 0 && !LimitWraps(interval, maxHistoryTime)
    requires var max := MaxLength(interval, maxHistoryTime);
      Harmless(ops + [op], interval, max, maxHistoryTime) && Evicts(After(ops, interval, max), op, interval, max)
    ensures var h := After(ops, interval, MaxLength(interval, maxHistoryTime));
      op.cell.time - h[0].time > maxHistoryTime
  {
    var max := MaxLength(interval, maxHistoryTime);
    LongEnoughIff(interval, maxHistoryTime);
    assert (ops + [op])[..|ops + [op]| - 1] == ops;
    HarmlessLasting(ops, interval, max, maxHistoryTime);
    StepLasting(After(ops, interval, max), op, interval, max, maxHistoryTime);
  }

  ghost predicate Retains(interval: TimeMS, maxHistoryTime: TimeMS)
    requires interval > 0
  {
    var max := MaxLength(interval, maxHistoryTime);
    forall ops, op ::
      Harmless(ops + [op], interval, max, maxHistoryTime) && Evicts(After(ops, interval, max), op, interval, max) ==>
        op.cell.time - After(ops, interval, max)[0].time > maxHistoryTime
  }

  // With the limit at 0, the second of two Writes loses the first.
  lemma {:induction false} LimitOfNone(p: Vector3)
    ensures var ops, op := [Write(At(0, p))], Write(At(1, p));
      && Harmless(ops + [op], 1, 0, TIME - 1) && Evicts(After(ops, 1, 0), op, 1, 0)
      && After(ops, 1, 0)[0].time == 0
  {
    var ops, all := [Write(At(0, p))], [Write(At(0, p)), Write(At(1, p))];
    assert ops[..0] == [] && all[..1] == ops && ops + [Write(At(1, p))] == all;
    assert After(ops, 1, 0) == [At(0, p)];
    assert Harmless(ops, 1, 0, TIME - 1);
    assert Forward(After(ops, 1, 0), all[1], false);
  }

  lemma {:induction false} LimitOfNoneKeepsOne(ops: seq<Op>, interval: int)
    ensures |After(ops, interval, 0)| <= 1
  {
    if |ops| > 0 {
      LimitOfNoneKeepsOne(ops[..|ops| - 1], interval);
    }
  }

  // That is so for every interval and history time for which the limit does not wrap around.
  lemma {:induction false} RetainsIff(interval: TimeMS, maxHistoryTime: TimeMS)
    requires interval > 0
    ensures Retains(interval, maxHistoryTime) <==> !LimitWraps(interval, maxHistoryTime)
  {
    var max := MaxLength(interval, maxHistoryTime);
    LongEnoughIff(interval, maxHistoryTime);
    if LimitWraps(interval, maxHistoryTime) {
      LimitOfNone(Vector3(0.0, 0.0, 0.0));
    } else {
      forall ops, op | Harmless(ops + [op], interval, max, maxHistoryTime)
                       && Evicts(After(ops, interval, max), op, interval, max)
        ensures op.cell.time - After(ops, interval, max)[0].time > maxHistoryTime
      {
        GuardedRetention(ops, op, interval, maxHistoryTime);
      }
    }
  }

  // In particular over every run in which only the newest cell is overwritten.
  lemma {:induction false} Retention(ops: seq<Op>, op: Op, interval: TimeMS, maxHistoryTime: TimeMS)
    requires interval > 0 && !LimitWraps(interval, maxHistoryTime)
    requires var max := MaxLength(interval, maxHistoryTime);
      var h := After(ops, interval, max);
      AllForward(ops, interval, max, false) && Forward(h, op, false) && Evicts(h, op, interval, max)
    ensures var h := After(ops, interval, MaxLength(interval, maxHistoryTime));
      op.cell.time - h[0].time > maxHistoryTime
  {
    var max := MaxLength(interval, maxHistoryTime);
    assert (ops + [op])[..|ops + [op]| - 1] == ops;
    ForwardHarmless(ops, interval, max, maxHistoryTime);
    GuardedRetention(ops, op, interval, maxHistoryTime);
  }

  lemma {:induction false} ForwardHarmless(ops: seq<Op>, interval: int, max: int, time: int)
    requires AllForward(ops, interval, max, false)
    ensures Harmless(ops, interval, max, time)
  {
    if |ops| > 0 {
      ForwardHarmless(ops[..|ops| - 1], interval, max, time);
    }
  }

  // Cells a write interval apart all last.
  lemma {:induction false} SpacedLasting(h: seq<Cell>, interval: int, max: int, time: int)
    requires interval > 0 && |h| <= max && max * interval > time && Spaced(h, interval)
    ensures Lasting(h, interval, max, time)
  {
    forall i | 0 <= i < |h|
      ensures Lasts(h, i, interval, max, time)
    {
      SpacedOrdered(h, interval, i, |h| - 1);
      var a, b := |h| - 1 - i, max - |h| + 1 + i;
      assert a * interval + b * interval == (a + b) * interval;
    }
  }

  function At(t: TimeMS, p: Vector3): Cell {
    Cell(t, p, p)
  }

  // A Write later than every Write before it can still come before a cell that
  // Overwrite put ahead of it; the cells are then out of order.
  lemma {:induction false} WriteBehindOverwrite(p: Vector3)
    ensures var max := MaxLength(10, 100);
      var h := Step(Step([], Write(At(0, p)), 10, max), Overwrite(At(100, p)), 10, max);
      && Step(h, Write(At(50, p)), 10, max) == [At(0, p), At(100, p), At(50, p)]
      && !Ordered(Step(h, Write(At(50, p)), 10, max))
  {
    assert Latest([At(0, p)], 1, 100) == 0;
    assert Step([At(0, p)], Overwrite(At(100, p)), 10, 11) == [At(0, p), At(100, p)];
    var g := [At(0, p), At(100, p), At(50, p)];
    assert Step([At(0, p), At(100, p)], Write(At(50, p)), 10, 11) == g;
    assert g[1].time > g[2].time;
  }

  // An overwrite outside the guard: a history of 25 ms then loses a cell that is
  // 21 ms old.
  lemma {:induction false} OverwriteShortensHistory(p: Vector3)
    ensures var max := MaxLength(10, 25);
      var h := Step(Step(Step([], Write(At(0, p)), 10, max), Write(At(10, p)), 10, max), Write(At(20, p)), 10, max);
      var g := Step(h, Overwrite(At(9, p)), 10, max);
      Evicts(g, Write(At(30, p)), 10, max) && g[0].time == 9
  {
    var h := [At(0, p), At(10, p), At(20, p)];
    assert Step([], Write(At(0, p)), 10, 3) == [At(0, p)];
    assert Step([At(0, p)], Write(At(10, p)), 10, 3) == [At(0, p), At(10, p)];
    assert Step([At(0, p), At(10, p)], Write(At(20, p)), 10, 3) == h;
    assert Latest(h, 1, 9) == 0;
    assert Latest(h, 2, 9) == 0;
    assert Latest(h, 3, 9) == 0;
  }

  // -------------------------------------------------------------------- reading

  datatype ReadResult = ReadOldest | ValuesUnchanged | Interpolated

  // A value at a time.
  datatype Knot = Knot(time: int, value: Vector3)

  function Positions(h: seq<Cell>): (ks: seq<Knot>)
    ensures |ks| == |h|
    ensures forall i :: 0 <= i < |h| ==> ks[i] == Knot(h[i].time, h[i].position)
  {
    if h == [] then [] else Positions(h[..|h| - 1]) + [Knot(h[|h| - 1].time, h[|h| - 1].position)]
  }

  function Velocities(h: seq<Cell>): (ks: seq<Knot>)
    ensures |ks| == |h|
    ensures forall i :: 0 <= i < |h| ==> ks[i] == Knot(h[i].time, h[i].velocity)
  {
    if h == [] then [] else Velocities(h[..|h| - 1]) + [Knot(h[|h| - 1].time, h[|h| - 1].velocity)]
  }

  function Outcome(h: seq<Cell>, when: int, curTime: int): ReadResult {
    if h == [] then ValuesUnchanged
    else if Latest(h, |h|, when) < 0 then ReadOldest
    else if Latest(h, |h|, when) == |h| - 1 && curTime <= h[|h| - 1].time then ValuesUnchanged
    else Interpolated
  }

  // When each outcome happens.
  lemma {:induction false} OutcomeIff(h: seq<Cell>, when: int, curTime: int)
    ensures Outcome(h, when, curTime).ReadOldest? <==> h != [] && forall i :: 0 <= i < |h| ==> when < h[i].time
    ensures Outcome(h, when, curTime).ValuesUnchanged? <==> h == [] || curTime <= h[|h| - 1].time <= when
  {
  }

  function Lerp(a: Knot, b: Knot, when: int): Vector3
    requires a.time != b.time
  {
    a.value.Towards(b.value, (when - a.time) as real / (b.time - a.time) as real)
  }

  // What is read: at the latest of the cells that are not after when, on the
  // way to the next cell, or to the present value.
  function Sampled(ks: seq<Knot>, i: int, when: int, curTime: int, current: Vector3): Vector3
    requires -1 <= i < |ks| && |ks| > 0
    requires 0 <= i < |ks| - 1 ==> ks[i].time != ks[i + 1].time
  {
    if i < 0 then ks[0].value
    else if i < |ks| - 1 then Lerp(ks[i], ks[i + 1], when)
    else if curTime <= ks[i].time then current
    else Lerp(ks[i], Knot(curTime, current), when)
  }

  // A value that is not wanted is None.
  function ReadValue(ks: seq<Knot>, i: int, when: int, curTime: int, value: Option<Vector3>): Option<Vector3>
    requires -1 <= i < |ks| && |ks| > 0
    requires 0 <= i < |ks| - 1 ==> ks[i].time != ks[i + 1].time
  {
    if value.Some? then Some(Sampled(ks, i, when, curTime, value.value)) else None
  }

  ghost predicate Rising(ks: seq<Knot>) {
    forall i, j :: 0 <= i < j < |ks| ==> ks[i].time < ks[j].time
  }

  // The cells of an ordered history, and the one that Read finds, are as the
  // lemmas below need them.
  lemma {:induction false} HistoryKnots(h: seq<Cell>, when: int)
    requires Ordered(h)
    ensures Rising(Positions(h)) && LatestKnot(Positions(h), Latest(h, |h|, when), when)
    ensures Rising(Velocities(h)) && LatestKnot(Velocities(h), Latest(h, |h|, when), when)
  {
  }

  // The mean of a and b, weighted by how near t is to each.
  function Mean(a: real, b: real, s: int, t: int, u: int): real
    requires s != u
  {
    (a * (u - t) as real + b * (t - s) as real) / (u - s) as real
  }

  // It is the only number for which this holds.
  lemma {:induction false} MeanIs(a: real, b: real, s: int, t: int, u: int, m: real)
    requires s != u
    ensures m == Mean(a, b, s, t, u) <==> m * (u - s) as real == a * (u - t) as real + b * (t - s) as real
  {
    var n, d := a * (u - t) as real + b * (t - s) as real, (u - s) as real;
    assert Mean(a, b, s, t, u) * d == n;
    if m * d == n {
      assert m == n / d;
    }
  }

  function Weighted(a: Knot, b: Knot, t: int): Vector3
    requires a.time != b.time
  {
    Vector3(Mean(a.value.x, b.value.x, a.time, t, b.time), Mean(a.value.y, b.value.y, a.time, t, b.time),
            Mean(a.value.z, b.value.z, a.time, t, b.time))
  }

  // The function that is linear between the knots, and goes on beyond the last.
  ghost function PiecewiseLinear(ks: seq<Knot>, t: int): Vector3
    requires |ks| > 0 && Rising(ks)
  {
    if |ks| == 1 then ks[0].value
    else if |ks| == 2 || t < ks[1].time then Weighted(ks[0], ks[1], t)
    else PiecewiseLinear(ks[1..], t)
  }

  lemma {:induction false} SegmentOf(ks: seq<Knot>, i: nat, t: int)
    requires Rising(ks) && i + 1 < |ks| && ks[i].time <= t && (i + 1 < |ks| - 1 ==> t < ks[i + 1].time)
    ensures PiecewiseLinear(ks, t) == Weighted(ks[i], ks[i + 1], t)
    decreases i
  {
    if i > 0 {
      assert ks[1].time <= ks[i].time;
      SegmentOf(ks[1..], i - 1, t);
    }
  }

  lemma {:induction false} LerpIsMean(a: real, b: real, s: int, t: int, u: int)
    requires s != u
    ensures a + (b - a) * ((t - s) as real / (u - s) as real) == Mean(a, b, s, t, u)
  {
    var d, e := (u - s) as real, (t - s) as real;
    var r := e / d;
    assert r * d == e;
    assert a * (u - t) as real + b * e == (a + (b - a) * r) * d by {
      assert (u - t) as real == d - e;
      assert a * (d - e) + b * e == a * d + (b - a) * e;
      assert (b - a) * e == (b - a) * r * d;
      assert (a + (b - a) * r) * d == a * d + (b - a) * r * d;
    }
  }

  lemma {:induction false} LerpIsWeighted(a: Knot, b: Knot, t: int)
    requires a.time != b.time
    ensures Lerp(a, b, t) == Weighted(a, b, t)
  {
    LerpIsMean(a.value.x, b.value.x, a.time, t, b.time);
    LerpIsMean(a.value.y, b.value.y, a.time, t, b.time);
    LerpIsMean(a.value.z, b.value.z, a.time, t, b.time);
  }

  // The stored values, and the present one if it is later.
  function Known(ks: seq<Knot>, curTime: int, current: Vector3): seq<Knot>
    requires |ks| > 0
  {
    if curTime > ks[|ks| - 1].time then ks + [Knot(curTime, current)] else ks
  }

  // i is the place of the latest of the knots that are not after when.
  ghost predicate LatestKnot(ks: seq<Knot>, i: int, when: int) {
    && -1 <= i < |ks| && (i >= 0 ==> ks[i].time <= when)
    && forall j :: i < j < |ks| ==> when < ks[j].time
  }

  // What is read is the piecewise-linear function through the known values,
  // unless the time is before them all or nothing later is known.
  lemma {:induction false} ReadsPiecewiseLinear(ks: seq<Knot>, i: int, when: int, curTime: int, current: Vector3)
    requires |ks| > 0 && Rising(ks) && LatestKnot(ks, i, when) && i >= 0
    requires i == |ks| - 1 ==> curTime > ks[i].time
    ensures Rising(Known(ks, curTime, current))
    ensures Sampled(ks, i, when, curTime, current) == PiecewiseLinear(Known(ks, curTime, current), when)
  {
    var all := Known(ks, curTime, current);
    SegmentOf(all, i, when);
    LerpIsWeighted(all[i], all[i + 1], when);
  }

  lemma {:induction false} MeanBetween(a: real, b: real, s: int, t: int, u: int)
    requires s <= t <= u && s < u
    ensures if a <= b then a <= Mean(a, b, s, t, u) <= b else b <= Mean(a, b, s, t, u) <= a
  {
    var d, e := (u - s) as real, (t - s) as real;
    var m := Mean(a, b, s, t, u);
    assert m * d == a * (d - e) + b * e;
    assert m * d == a * d + (b - a) * e && m * d == b * d - (b - a) * (d - e);
    if a <= b {
      assert (b - a) * e >= 0.0 && (b - a) * (d - e) >= 0.0;
      Cancel(a, m, d);
      Cancel(m, b, d);
    } else {
      assert (a - b) * e >= 0.0 && (a - b) * (d - e) >= 0.0;
      assert (b - a) * e == -((a - b) * e) && (b - a) * (d - e) == -((a - b) * (d - e));
      Cancel(m, a, d);
      Cancel(b, m, d);
    }
  }

  lemma {:induction false} Cancel(x: real, y: real, d: real)
    requires d > 0.0 && x * d <= y * d
    ensures x <= y
  {
  }

  ghost predicate Between(v: Vector3, a: Vector3, b: Vector3) {
    && (a.x <= v.x <= b.x || b.x <= v.x <= a.x)
    && (a.y <= v.y <= b.y || b.y <= v.y <= a.y)
    && (a.z <= v.z <= b.z || b.z <= v.z <= a.z)
  }

  // For times up to the present, what is read lies between the values on both sides.
  lemma {:induction false} ReadsBetween(ks: seq<Knot>, i: int, when: int, curTime: int, current: Vector3)
    requires |ks| > 0 && Rising(ks) && LatestKnot(ks, i, when) && i >= 0
    requires i == |ks| - 1 ==> ks[i].time < curTime && when <= curTime
    ensures var all := Known(ks, curTime, current);
      i + 1 < |all| && Between(Sampled(ks, i, when, curTime, current), all[i].value, all[i + 1].value)
  {
    var all := Known(ks, curTime, current);
    var a, b := all[i], all[i + 1];
    LerpIsWeighted(a, b, when);
    MeanBetween(a.value.x, b.value.x, a.time, when, b.time);
    MeanBetween(a.value.y, b.value.y, a.time, when, b.time);
    MeanBetween(a.value.z, b.value.z, a.time, when, b.time);
  }

  // At the time of a stored value, that value is read.
  lemma {:induction false} ReadsStored(ks: seq<Knot>, k: nat, curTime: int, current: Vector3)
    requires Rising(ks) && k < |ks|
    requires k == |ks| - 1 ==> curTime > ks[k].time
    ensures LatestKnot(ks, k, ks[k].time) && Sampled(ks, k, ks[k].time, curTime, current) == ks[k].value
  {
    assert ks[k].value.Towards(current, 0.0) == ks[k].value;
  }

  // The value v is the piecewise-linear function at when, and for times up to
  // the present it lies between its neighbours.
  ghost predicate Interpolates(ks: seq<Knot>, i: int, when: int, curTime: int, v: Vector3) {
    && Rising(ks) && 0 <= i < |ks| - 1 && v == PiecewiseLinear(ks, when)
    && (when <= curTime ==> Between(v, ks[i].value, ks[i + 1].value))
  }

  lemma {:induction false} SampledInterpolates(ks: seq<Knot>, i: int, when: int, curTime: int, current: Vector3)
    requires |ks| > 0 && Rising(ks) && LatestKnot(ks, i, when) && i >= 0
    requires i == |ks| - 1 ==> curTime > ks[i].time
    ensures Interpolates(Known(ks, curTime, current), i, when, curTime, Sampled(ks, i, when, curTime, current))
  {
    ReadsPiecewiseLinear(ks, i, when, curTime, current);
    if when <= curTime {
      ReadsBetween(ks, i, when, curTime, current);
    }
  }

  // What Read returns when it interpolates in an ordered history.
  lemma {:induction false} ReadOfHistory(h: seq<Cell>, when: int, curTime: int, position: Vector3, velocity: Vector3)
    requires Ordered(h) && Outcome(h, when, curTime).Interpolated?
    ensures var i, ps := Latest(h, |h|, when), Positions(h);
      && i >= 0 && ReadValue(ps, i, when, curTime, Some(position)).Some?
      && Interpolates(Known(ps, curTime, position), i, when, curTime,
                      ReadValue(ps, i, when, curTime, Some(position)).value)
    ensures var i, vs := Latest(h, |h|, when), Velocities(h);
      && i >= 0 && ReadValue(vs, i, when, curTime, Some(velocity)).Some?
      && Interpolates(Known(vs, curTime, velocity), i, when, curTime,
                      ReadValue(vs, i, when, curTime, Some(velocity)).value)
  {
    HistoryKnots(h, when);
    SampledInterpolates(Positions(h), Latest(h, |h|, when), when, curTime, position);
    SampledInterpolates(Velocities(h), Latest(h, |h|, when), when, curTime, velocity);
  }

  // A value that is wanted is read from the piecewise-linear function.
  ghost predicate ReadsLinear(ks: seq<Knot>, when: int, curTime: int, value: Option<Vector3>, v: Option<Vector3>)
    requires |ks| > 0
  {
    value.Some? ==>
      var known := Known(ks, curTime, value.value);
      Rising(known) && v == Some(PiecewiseLinear(known, when))
  }

  lemma {:induction false} ReadsWanted(ks: seq<Knot>, i: int, when: int, curTime: int, value: Option<Vector3>)
    requires |ks| > 0 && Rising(ks) && LatestKnot(ks, i, when) && i >= 0
    requires i == |ks| - 1 ==> curTime > ks[i].time
    ensures ReadsLinear(ks, when, curTime, value, ReadValue(ks, i, when, curTime, value))
  {
    if value.Some? {
      ReadsPiecewiseLinear(ks, i, when, curTime, value.value);
    }
  }

  // The same for both values of an ordered history.
  lemma {:induction false} HistoryWanted(h: seq<Cell>, when: int, curTime: int, position: Option<Vector3>,
                                         velocity: Option<Vector3>)
    requires Ordered(h) && Outcome(h, when, curTime).Interpolated?
    ensures var i := Latest(h, |h|, when);
      && i >= 0
      && ReadsLinear(Positions(h), when, curTime, position, ReadValue(Positions(h), i, when, curTime, position))
      && ReadsLinear(Velocities(h), when, curTime, velocity, ReadValue(Velocities(h), i, when, curTime, velocity))
  {
    HistoryKnots(h, when);
    ReadsWanted(Positions(h), Latest(h, |h|, when), when, curTime, position);
    ReadsWanted(Velocities(h), Latest(h, |h|, when), when, curTime, velocity);
  }

  // The function goes through the stored values.
  lemma {:induction false} LinearThroughStored(ks: seq<Knot>, k: nat, curTime: int, current: Vector3)
    requires Rising(ks) && k < |ks| && (k == |ks| - 1 ==> curTime > ks[k].time)
    ensures var known := Known(ks, curTime, current);
      Rising(known) && PiecewiseLinear(known, ks[k].time) == ks[k].value
  {
    ReadsStored(ks, k, curTime, current);
    ReadsPiecewiseLinear(ks, k, ks[k].time, curTime, current);
  }

  // At the time of a cell Read returns that cell.
  lemma {:induction false} ReadOfStored(h: seq<Cell>, k: nat, curTime: int, position: Vector3, velocity: Vector3)
    requires Ordered(h) && k < |h| && (k == |h| - 1 ==> curTime > h[k].time)
    ensures Outcome(h, h[k].time, curTime).Interpolated? && Latest(h, |h|, h[k].time) == k
    ensures ReadValue(Positions(h), k, h[k].time, curTime, Some(position)) == Some(h[k].position)
    ensures ReadValue(Velocities(h), k, h[k].time, curTime, Some(velocity)) == Some(h[k].velocity)
  {
    HistoryKnots(h, h[k].time);
    ReadsStored(Positions(h), k, curTime, position);
    ReadsStored(Velocities(h), k, curTime, velocity);
  }

  lemma {:induction false} ReadStored(h: seq<Cell>, k: nat, curTime: int, position: Vector3, velocity: Vector3)
    requires Ordered(h) && k < |h| && (k == |h| - 1 ==> curTime > h[k].time)
    ensures exists i :: 0 <= i < |h| && h[i].time <= h[k].time
    ensures !(curTime <= h[|h| - 1].time <= h[k].time)
    ensures var known := Known(Positions(h), curTime, position);
      Rising(known) && PiecewiseLinear(known, h[k].time) == h[k].position
    ensures var known := Known(Velocities(h), curTime, velocity);
      Rising(known) && PiecewiseLinear(known, h[k].time) == h[k].velocity
  {
    HistoryKnots(h, h[k].time);
    LinearThroughStored(Positions(h), k, curTime, position);
    LinearThroughStored(Velocities(h), k, curTime, velocity);
  }

  // ------------------------------------------------------------------ the class

  class TransformationHistory {
    var history: seq<Cell>
    var maxHistoryLength: int
    var writeInterval: int

    ghost predicate Valid()
      reads this
    {
      writeInterval > 0 && maxHistoryLength >= 0 && (|history| <= maxHistoryLength || |history| == 1)
    }

    constructor (maxWriteInterval: TimeMS, maxHistoryTime: TimeMS)
      requires maxWriteInterval > 0
      ensures Valid() && history == [] && writeInterval == maxWriteInterval
      ensures maxHistoryLength == MaxLength(maxWriteInterval, maxHistoryTime)
    {
      writeInterval := maxWriteInterval;
      maxHistoryLength := (maxHistoryTime / maxWriteInterval + 1) % TIME;
      history := [];
    }

    // Add a cell at the end of a queue that is never longer than its limit, or
    // than one cell.
    method PushCell(cell: Cell)
      requires Valid() && history != []
      modifies `history
      ensures Valid() && history == Push(old(history), cell, maxHistoryLength)
    {
      history := history + [cell];
      if |history| > maxHistoryLength {
        history := history[1..];
      }
    }

    method Write(position: Vector3, velocity: Vector3, curTimeMS: TimeMS)
      requires Valid()
      modifies `history
      ensures Valid()
      ensures history
           == Step(old(history), Op.Write(Cell(curTimeMS, position, velocity)), writeInterval, maxHistoryLength)
    {
      if |history| == 0 {
        history := [Cell(curTimeMS, position, velocity)];
      } else {
        var lastCell := history[|history| - 1];
        if (curTimeMS - lastCell.time) % TIME >= writeInterval {
          PushCell(Cell(curTimeMS, position, velocity));
        }
      }
    }

    method Overwrite(position: Vector3, velocity: Vector3, when: TimeMS)
      requires Valid()
      modifies `history
      ensures Valid()
      ensures history
           == Step(old(history), Op.Overwrite(Cell(when, position, velocity)), writeInterval, maxHistoryLength)
    {
      var historySize := |history|;
      var cell := Cell(when, position, velocity);
      if historySize == 0 {
        history := [cell];
      } else {
        var i := historySize - 1;
        while i >= 0
          invariant -1 <= i < historySize == |history| && history == old(history)
          invariant Latest(history, historySize, when) == Latest(history, i + 1, when)
        {
          if when >= history[i].time {
            if i == historySize - 1 && (when - history[i].time) % TIME >= writeInterval {
              PushCell(cell);
              return;
            }
            history := history[i := cell];
            return;
          }
          i := i - 1;
        }
      }
    }

    // Read at cell i, the latest that is not after when.
    method ReadCell(i: nat, position: Option<Vector3>, velocity: Option<Vector3>, when: TimeMS, curTime: TimeMS)
      returns (result: ReadResult, newPosition: Option<Vector3>, newVelocity: Option<Vector3>)
      requires i < |history| && history[i].time <= when && (i + 1 < |history| ==> when < history[i + 1].time)
      ensures result == if i == |history| - 1 && curTime <= history[i].time then ValuesUnchanged else Interpolated
      ensures newPosition == ReadValue(Positions(history), i, when, curTime, position)
      ensures newVelocity == ReadValue(Velocities(history), i, when, curTime, velocity)
    {
      var cell := history[i];
      if i == |history| - 1 {
        if curTime <= cell.time {
          return ValuesUnchanged, position, velocity;
        }
        var divisor := (curTime - cell.time) as real;
        var lerp := (when - cell.time) as real / divisor;
        newPosition := if position.Some? then Some(cell.position.Towards(position.value, lerp)) else None;
        newVelocity := if velocity.Some? then Some(cell.velocity.Towards(velocity.value, lerp)) else None;
      } else {
        var nextCell := history[i + 1];
        var divisor := (nextCell.time - cell.time) as real;
        var lerp := (when - cell.time) as real / divisor;
        newPosition := if position.Some? then Some(cell.position.Towards(nextCell.position, lerp)) else None;
        newVelocity := if velocity.Some? then Some(cell.velocity.Towards(nextCell.velocity, lerp)) else None;
      }
      result := Interpolated;
    }

    // What is known of the object at an earlier time.  A value that is not
    // wanted is None.
    method Read(position: Option<Vector3>, velocity: Option<Vector3>, when: TimeMS, curTime: TimeMS)
      returns (result: ReadResult, newPosition: Option<Vector3>, newVelocity: Option<Vector3>)
      ensures result == ReadOldest <==> history != [] && forall i :: 0 <= i < |history| ==> when < history[i].time
      ensures result == ValuesUnchanged <==> history == [] || curTime <= history[|history| - 1].time <= when
      ensures newPosition.Some? == position.Some? && newVelocity.Some? == velocity.Some?
      ensures result == ValuesUnchanged ==> newPosition == position && newVelocity == velocity
      ensures result == ReadOldest ==>
        && (position.Some? ==> newPosition.value == history[0].position)
        && (velocity.Some? ==> newVelocity.value == history[0].velocity)
      ensures result == Interpolated && Ordered(history) ==>
        && history != []
        && ReadsLinear(Positions(history), when, curTime, position, newPosition)
        && ReadsLinear(Velocities(history), when, curTime, velocity, newVelocity)
    {
      result, newPosition, newVelocity := ReadAt(position, velocity, when, curTime);
      OutcomeIff(history, when, curTime);
      if result == Interpolated && Ordered(history) {
        HistoryWanted(history, when, curTime, position, velocity);
      }
    }

    // The reverse scan.
    method ReadAt(position: Option<Vector3>, velocity: Option<Vector3>, when: TimeMS, curTime: TimeMS)
      returns (result: ReadResult, newPosition: Option<Vector3>, newVelocity: Option<Vector3>)
      ensures result == Outcome(history, when, curTime)
      ensures history == [] ==> newPosition == position && newVelocity == velocity
      ensures history != [] ==>
        var i := Latest(history, |history|, when);
        && newPosition == ReadValue(Positions(history), i, when, curTime, position)
        && newVelocity == ReadValue(Velocities(history), i, when, curTime, velocity)
    {
      var historySize := |history|;
      if historySize == 0 {
        return ValuesUnchanged, position, velocity;
      }
      var i := historySize - 1;
      while i >= 0
        invariant -1 <= i < historySize
        invariant Latest(history, historySize, when) == Latest(history, i + 1, when)
      {
        if when >= history[i].time {
          result, newPosition, newVelocity := ReadCell(i, position, velocity, when, curTime);
          return;
        }
        i := i - 1;
      }
      newPosition := if position.Some? then Some(history[0].position) else None;
      newVelocity := if velocity.Some? then Some(history[0].velocity) else None;
      result := ReadOldest;
    }

    method Clear()
      requires Valid()
      modifies `history
      ensures Valid() && history == []
    {
      history := [];
    }
  }

  // What was stored by an Overwrite is read back at its time, if something
  // later is known and not all cells are later.
  method OverwriteAndRead(t: TransformationHistory, position: Vector3, velocity: Vector3, when: TimeMS,
                          curTime: TimeMS, current: Vector3, moving: Vector3)
    returns (result: ReadResult, newPosition: Option<Vector3>, newVelocity: Option<Vector3>)
    requires t.Valid() && Ordered(t.history) && (t.history == [] || t.history[0].time <= when)
    requires when < curTime || (t.history != [] && when < t.history[|t.history| - 1].time)
    modifies t`history
    ensures result == Interpolated && newPosition == Some(position) && newVelocity == Some(velocity)
  {
    ghost var k := OverwriteFinds(t.history, Cell(when, position, velocity), t.writeInterval, t.maxHistoryLength);
    t.Overwrite(position, velocity, when);
    result, newPosition, newVelocity := t.Read(Some(current), Some(moving), when, curTime);
    ReadStored(t.history, k, curTime, current, moving);
  }
}
