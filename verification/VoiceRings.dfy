// The index arithmetic of a voice channel's two ring buffers.  Users hand over
// and take blocks of B bytes, the codec blocks of S bytes; both rings hold
// BLOCKS blocks of B bytes.
module VoiceRings {
  const BLOCKS: int := 100
  const SAMPLESIZE: int := 2

  datatype Ring = Ring(read: nat, write: nat)

  function Total(B: nat): nat {
    BLOCKS * B
  }

  predicate Placed(B: nat, ring: Ring) {
    0 <= ring.read < Total(B) && 0 <= ring.write < Total(B)
  }

  function Waiting(B: nat, ring: Ring): (w: int)
    ensures Placed(B, ring) ==> 0 <= w < Total(B)
  {
    if ring.read <= ring.write then ring.write - ring.read else Total(B) - ring.read + ring.write
  }

  function Remaining(B: nat, ring: Ring): int {
    if ring.write >= ring.read then Total(B) - (ring.write - ring.read) else ring.read - ring.write
  }

  function Advance(B: nat, i: nat): nat {
    if i + B == Total(B) then 0 else i + B
  }

  // i % T
  function Wrap(T: nat, i: nat): (r: nat)
    requires T > 0
    ensures r < T
  {
    if i < T then i else Wrap(T, i - T)
  }

  lemma {:induction false} WrapIsMod(T: nat, i: nat)
    requires T > 0
    ensures Wrap(T, i) == i % T
  {
    if i >= T {
      WrapIsMod(T, i - T);
      ModDown(T, i);
    }
  }

  lemma {:induction false} TimesAtLeast(d: int, T: int)
    requires d >= 1 && T > 0
    ensures d * T >= T
    decreases d
  {
    if d > 1 {
      TimesAtLeast(d - 1, T);
      assert d * T == (d - 1) * T + T;
    }
  }

  lemma {:induction false} TimesMinus(p: int, q: int, T: int)
    ensures (p - q) * T == p * T - q * T
  {
  }

  lemma {:induction false} SameQuotient(T: int, p: int, m: int, q: int, r: int)
    requires 0 <= m < T && 0 <= r < T && p * T + m == q * T + r
    ensures m == r
  {
    TimesMinus(p, q, T);
    TimesMinus(q, p, T);
    if p > q {
      TimesAtLeast(p - q, T);
    } else if p < q {
      TimesAtLeast(q - p, T);
    }
  }

  lemma {:induction false} ModDown(T: int, i: int)
    requires 0 < T <= i
    ensures i % T == (i - T) % T
  {
    var p, q := i / T, (i - T) / T;
    assert i == p * T + i % T;
    assert i - T == q * T + (i - T) % T;
    assert (q + 1) * T == q * T + T;
    SameQuotient(T, p, i % T, q + 1, (i - T) % T);
  }

  lemma {:induction false} WrapOnce(T: nat, i: nat)
    requires T > 0 && i < 2 * T
    ensures Wrap(T, i) == if i < T then i else i - T
  {
    if i >= T {
      assert Wrap(T, i - T) == i - T;
    }
  }

  // A multiple of B.
  ghost predicate Aligned(B: nat, x: int)
    requires B > 0
    decreases if x < 0 then 0 else x
  {
    x == 0 || (x >= B && Aligned(B, x - B))
  }

  // n blocks of B bytes.
  function Span(B: nat, n: nat): nat
    decreases n
  {
    if n == 0 then 0 else Span(B, n - 1) + B
  }

  lemma {:induction false} SpanIsTimes(B: nat, n: nat)
    ensures Span(B, n) == n * B
    decreases n
  {
    if n > 0 {
      SpanIsTimes(B, n - 1);
      TimesMinus(n, 1, B);
    }
  }

  lemma {:induction false} FullBlocks(w: nat, S: nat)
    requires S > 0
    ensures w == Span(S, w / S) + w % S
  {
    SpanIsTimes(S, w / S);
  }

  lemma {:induction false} AlignedTimes(B: nat, n: nat)
    requires B > 0
    ensures Aligned(B, Span(B, n))
    decreases n
  {
    if n > 0 {
      AlignedTimes(B, n - 1);
    }
  }

  lemma {:induction false} AlignedBelow(B: nat, x: int, m: int)
    requires B > 0 && Aligned(B, x) && Aligned(B, m) && x < m
    ensures x + B <= m
    decreases if x < 0 then 0 else x
  {
    if x != 0 {
      AlignedBelow(B, x - B, m - B);
    }
  }

  // ------------------------------------------------------- the incoming ring

  // Write one codec block; if that might reach the read index, move it on.
  function Arrive(B: nat, S: nat, ring: Ring): Ring
    requires B > 0
  {
    Ring(if B >= Remaining(B, ring) then Advance(B, ring.read) else ring.read, Wrap(Total(B), ring.write + S))
  }

  // Read one user block; a partial one is padded up to a whole block.
  function Play(B: nat, ring: Ring): Ring {
    Ring(Advance(B, ring.read), if Waiting(B, ring) > B then ring.write else Advance(B, ring.read))
  }

  // buffering: waiting until enough has arrived to start playing.
  // copied: a block was played since the output was last zeroed.
  datatype Incoming = Incoming(ring: Ring, buffering: bool, copied: bool)

  const OPENED := Incoming(Ring(0, 0), true, false)

  predicate Plays(B: nat, c: Incoming) {
    !c.copied && Waiting(B, c.ring) != 0 && (!c.buffering || Waiting(B, c.ring) > B * 2)
  }

  // The channel's turn in Update.
  function Turn(B: nat, c: Incoming): Incoming {
    if Plays(B, c) then Incoming(Play(B, c.ring), false, true)
    else if !c.copied && Waiting(B, c.ring) == 0 then c.(buffering := true)
    else c
  }

  // A decoded block arrives, or Update runs; zeroed says whether the output
  // block was taken since the last Update.
  datatype Event = Block | Update(zeroed: bool)

  function Zeroed(c: Incoming, e: Event): Incoming {
    if e.Update? && e.zeroed then c.(copied := false) else c
  }

  function Step(B: nat, S: nat, c: Incoming, e: Event): Incoming
    requires B > 0
  {
    if e.Block? then c.(ring := Arrive(B, S, c.ring)) else Turn(B, Zeroed(c, e))
  }

  // The state after a run of events, oldest first.
  function After(B: nat, S: nat, events: seq<Event>): Incoming
    requires B > 0
  {
    if |events| == 0 then OPENED
    else Step(B, S, After(B, S, events[..|events| - 1]), events[|events| - 1])
  }

  // What went in and out over a run, in bytes.
  datatype Account = Account(enqueued: int, played: int, dropped: int, padded: int) {
    function Balance(): int {
      enqueued - played - dropped + padded
    }
  }

  function Charge(B: nat, S: nat, a: Account, c: Incoming, e: Event): Account {
    if e.Block? then
      a.(enqueued := a.enqueued + S, dropped := a.dropped + if B >= Remaining(B, c.ring) then B else 0)
    else if Plays(B, Zeroed(c, e)) then
      a.(played := a.played + B, padded := a.padded + if Waiting(B, c.ring) > B then 0 else B - Waiting(B, c.ring))
    else a
  }

  function Accounts(B: nat, S: nat, events: seq<Event>): Account
    requires B > 0
  {
    if |events| == 0 then Account(0, 0, 0, 0)
    else
      var before := events[..|events| - 1];
      Charge(B, S, Accounts(B, S, before), After(B, S, before), events[|events| - 1])
  }

  lemma {:induction false} AlignedFits(B: nat, x: int)
    requires B > 0 && 0 <= x < Total(B) && Aligned(B, x)
    ensures x + B <= Total(B) && 0 <= Advance(B, x) < Total(B) && Aligned(B, Advance(B, x))
  {
    AlignedTimes(B, BLOCKS);
    SpanIsTimes(B, BLOCKS);
    AlignedBelow(B, x, Total(B));
  }

  lemma {:induction false} StepPlaced(B: nat, S: nat, c: Incoming, e: Event)
    requires B > 0 && Placed(B, c.ring) && Aligned(B, c.ring.read)
    ensures Placed(B, Step(B, S, c, e).ring) && Aligned(B, Step(B, S, c, e).ring.read)
  {
    AlignedFits(B, c.ring.read);
  }

  // Both indices stay in place and the read index block-aligned, whatever the
  // codec's block size.
  lemma {:induction false} IncomingPlaced(B: nat, S: nat, events: seq<Event>)
    requires B > 0
    ensures Placed(B, After(B, S, events).ring) && Aligned(B, After(B, S, events).ring.read)
  {
    if |events| > 0 {
      IncomingPlaced(B, S, events[..|events| - 1]);
      StepPlaced(B, S, After(B, S, events[..|events| - 1]), events[|events| - 1]);
    }
  }

  lemma {:induction false} ArriveBalance(B: nat, S: nat, ring: Ring)
    requires B > 0 && 0 <= S <= B && Placed(B, ring) && Aligned(B, ring.read)
    ensures Waiting(B, Arrive(B, S, ring)) == Waiting(B, ring) + S - if B >= Remaining(B, ring) then B else 0
  {
    AlignedFits(B, ring.read);
    WrapOnce(Total(B), ring.write + S);
  }

  lemma {:induction false} PlayBalance(B: nat, ring: Ring)
    requires B > 0 && Placed(B, ring) && Aligned(B, ring.read) && Waiting(B, ring) != 0
    ensures Waiting(B, Play(B, ring)) == if Waiting(B, ring) > B then Waiting(B, ring) - B else 0
  {
    AlignedFits(B, ring.read);
  }

  lemma {:induction false} LastStep(B: nat, S: nat, events: seq<Event>, before: seq<Event>, e: Event)
    requires B > 0 && |events| > 0 && before == events[..|events| - 1] && e == events[|events| - 1]
    ensures After(B, S, events) == Step(B, S, After(B, S, before), e)
    ensures Accounts(B, S, events) == Charge(B, S, Accounts(B, S, before), After(B, S, before), e)
  {
  }

  lemma {:induction false} StepBalance(B: nat, S: nat, a: Account, c: Incoming, e: Event, b: Account, d: Incoming)
    requires 0 < B && S <= B && Placed(B, c.ring) && Aligned(B, c.ring.read) && Waiting(B, c.ring) == a.Balance()
    requires d == Step(B, S, c, e) && b == Charge(B, S, a, c, e)
    ensures Waiting(B, d.ring) == b.Balance()
  {
    if e.Block? {
      ArriveBalance(B, S, c.ring);
    } else if Plays(B, Zeroed(c, e)) {
      PlayBalance(B, c.ring);
    }
  }

  lemma {:induction false} BalanceKept(B: nat, S: nat, events: seq<Event>, before: seq<Event>)
    requires 0 < B && S <= B && |events| > 0 && before == events[..|events| - 1]
    requires Waiting(B, After(B, S, before).ring) == Accounts(B, S, before).Balance()
    ensures Waiting(B, After(B, S, events).ring) == Accounts(B, S, events).Balance()
  {
    var e := events[|events| - 1];
    IncomingPlaced(B, S, before);
    LastStep(B, S, events, before, e);
    StepBalance(B, S, Accounts(B, S, before), After(B, S, before), e, Accounts(B, S, events), After(B, S, events));
  }

  // With codec blocks no larger than user blocks, the bytes waiting are exactly
  // those that came in and did not go out: a full ring is never taken for an
  // empty one.
  lemma {:induction false} IncomingOccupancy(B: nat, S: nat, events: seq<Event>)
    requires 0 < B && S <= B
    ensures Waiting(B, After(B, S, events).ring) == Accounts(B, S, events).Balance()
    ensures 0 <= Accounts(B, S, events).Balance() < Total(B)
  {
    if |events| == 0 {
      assert After(B, S, events) == OPENED;
    } else {
      IncomingOccupancy(B, S, events[..|events| - 1]);
      BalanceKept(B, S, events, events[..|events| - 1]);
      IncomingPlaced(B, S, events);
    }
  }

  ghost predicate IncomingFaithful(B: nat, S: nat)
    requires B > 0
  {
    forall events :: Waiting(B, After(B, S, events).ring) == Accounts(B, S, events).Balance()
  }

  function Times(n: nat): (events: seq<Event>)
    ensures |events| == n
  {
    if n == 0 then [] else Times(n - 1) + [Block]
  }

  lemma {:induction false} ArrivalGains(B: nat, S: nat, a: Account, c: Incoming)
    requires B < S
    ensures Charge(B, S, a, c, Block).Balance() >= a.Balance() + 1
  {
  }

  lemma {:induction false} ArrivalsPileUp(B: nat, S: nat, n: nat)
    requires 0 < B < S
    ensures Accounts(B, S, Times(n)).Balance() >= n
  {
    if n > 0 {
      ArrivalsPileUp(B, S, n - 1);
      LastStep(B, S, Times(n), Times(n - 1), Block);
      ArrivalGains(B, S, Accounts(B, S, Times(n - 1)), After(B, S, Times(n - 1)));
    }
  }

  // And only then.
  lemma {:induction false} IncomingFaithfulIff(B: nat, S: nat)
    requires B > 0 && S > 0
    ensures IncomingFaithful(B, S) <==> S <= B
  {
    if S <= B {
      forall events
        ensures Waiting(B, After(B, S, events).ring) == Accounts(B, S, events).Balance()
      {
        IncomingOccupancy(B, S, events);
      }
    } else {
      var events := Times(Total(B));
      ArrivalsPileUp(B, S, Total(B));
      IncomingPlaced(B, S, events);
      assert Waiting(B, After(B, S, events).ring) < Accounts(B, S, events).Balance();
    }
  }

  // Once a channel has run dry it stays silent until more than two blocks have
  // arrived, however often Update runs.
  lemma {:induction false} RestartsFull(B: nat, S: nat, before: seq<Event>, events: seq<Event>)
    requires B > 0 && 0 <= S <= B
    requires var c := After(B, S, before); c.buffering && Waiting(B, c.ring) == 0
    requires Accounts(B, S, before + events).enqueued - Accounts(B, S, before).enqueued <= 2 * B
    ensures var c := After(B, S, before + events);
      c.buffering && Waiting(B, c.ring) == Accounts(B, S, before + events).enqueued - Accounts(B, S, before).enqueued
    ensures Accounts(B, S, before + events).played == Accounts(B, S, before).played
    ensures Accounts(B, S, before + events).enqueued >= Accounts(B, S, before).enqueued
  {
    if |events| == 0 {
      assert before + events == before;
    } else {
      var run, last := before + events[..|events| - 1], events[|events| - 1];
      assert (before + events)[..|before + events| - 1] == run;
      assert Accounts(B, S, run).enqueued <= Accounts(B, S, before + events).enqueued;
      RestartsFull(B, S, before, events[..|events| - 1]);
      IncomingPlaced(B, S, run);
      if last.Block? {
        ArriveBalance(B, S, After(B, S, run).ring);
      }
    }
  }

  // ------------------------------------------------------- the outgoing ring

  // SendFrame: write one user block; if that might reach the read index, move
  // it on by one codec block.
  function Send(B: nat, S: nat, ring: Ring): Ring
    requires B > 0
  {
    Ring(if B >= Remaining(B, ring) then Wrap(Total(B), ring.read + S) else ring.read, Advance(B, ring.write))
  }

  // Update reads n codec blocks.
  function Encode(B: nat, S: nat, ring: Ring, n: nat): Ring
    requires B > 0
    decreases n
  {
    if n == 0 then ring
    else
      var before := Encode(B, S, ring, n - 1);
      Ring(Wrap(Total(B), before.read + S), before.write)
  }

  function Frames(B: nat, S: nat, ring: Ring): nat
    requires S > 0
  {
    if Waiting(B, ring) < 0 then 0 else Waiting(B, ring) / S
  }

  datatype OutEvent = Frame | Pass

  function OutStep(B: nat, S: nat, ring: Ring, e: OutEvent): Ring
    requires B > 0 && S > 0
  {
    if e.Frame? then Send(B, S, ring)
    else if Frames(B, S, ring) > 0 then Encode(B, S, ring, Frames(B, S, ring)) else ring
  }

  function OutAfter(B: nat, S: nat, events: seq<OutEvent>): Ring
    requires B > 0 && S > 0
  {
    if |events| == 0 then Ring(0, 0)
    else OutStep(B, S, OutAfter(B, S, events[..|events| - 1]), events[|events| - 1])
  }

  // Bytes taken from the user, less those encoded or dropped.
  function OutCharge(B: nat, S: nat, ring: Ring, e: OutEvent): int
    requires B > 0 && S > 0
  {
    if e.Frame? then B - (if B >= Remaining(B, ring) then S else 0) else 0 - Span(S, Frames(B, S, ring))
  }

  function OutBalance(B: nat, S: nat, events: seq<OutEvent>): int
    requires B > 0 && S > 0
  {
    if |events| == 0 then 0
    else
      var before := events[..|events| - 1];
      OutBalance(B, S, before) + OutCharge(B, S, OutAfter(B, S, before), events[|events| - 1])
  }

  lemma {:induction false} EncodePlaced(B: nat, S: nat, ring: Ring, n: nat)
    requires B > 0 && Placed(B, ring)
    ensures Placed(B, Encode(B, S, ring, n)) && Encode(B, S, ring, n).write == ring.write
    decreases n
  {
    if n > 0 {
      EncodePlaced(B, S, ring, n - 1);
    }
  }

  // Reading n blocks that are there leaves n blocks less.
  lemma {:induction false} EncodeBalance(B: nat, S: nat, ring: Ring, n: nat)
    requires B > 0 && S > 0 && Placed(B, ring) && Span(S, n) <= Waiting(B, ring)
    ensures Waiting(B, Encode(B, S, ring, n)) == Waiting(B, ring) - Span(S, n)
    decreases n
  {
    if n > 0 {
      EncodeBalance(B, S, ring, n - 1);
      EncodePlaced(B, S, ring, n - 1);
      WrapOnce(Total(B), Encode(B, S, ring, n - 1).read + S);
    }
  }

  lemma {:induction false} PassBalance(B: nat, S: nat, ring: Ring)
    requires B > 0 && S > 0 && Placed(B, ring)
    ensures var after := OutStep(B, S, ring, Pass);
      && Placed(B, after) && after.write == ring.write
      && Waiting(B, after) == Waiting(B, ring) - Span(S, Frames(B, S, ring))
  {
    var n := Frames(B, S, ring);
    FullBlocks(Waiting(B, ring), S);
    EncodePlaced(B, S, ring, n);
    EncodeBalance(B, S, ring, n);
  }

  // A pass over the ring leaves less than one codec block.
  lemma {:induction false} PassLeaves(B: nat, S: nat, ring: Ring)
    requires B > 0 && S > 0 && Placed(B, ring)
    ensures var after := OutStep(B, S, ring, Pass);
      Placed(B, after) && Waiting(B, after) == Waiting(B, ring) % S < S
  {
    PassBalance(B, S, ring);
    FullBlocks(Waiting(B, ring), S);
  }

  lemma {:induction false} OutgoingPlaced(B: nat, S: nat, events: seq<OutEvent>)
    requires B > 0 && S > 0
    ensures Placed(B, OutAfter(B, S, events)) && Aligned(B, OutAfter(B, S, events).write)
  {
    if |events| > 0 {
      var before := events[..|events| - 1];
      OutgoingPlaced(B, S, before);
      var ring := OutAfter(B, S, before);
      AlignedFits(B, ring.write);
      if Frames(B, S, ring) > 0 {
        EncodePlaced(B, S, ring, Frames(B, S, ring));
      }
    }
  }

  lemma {:induction false} SendBalance(B: nat, S: nat, ring: Ring)
    requires B > 0 && B <= S <= Total(B) && Placed(B, ring) && Aligned(B, ring.write)
    ensures Waiting(B, Send(B, S, ring)) == Waiting(B, ring) + B - if B >= Remaining(B, ring) then S else 0
  {
    AlignedFits(B, ring.write);
    WrapOnce(Total(B), ring.read + S);
  }

  lemma {:induction false} OutStepBalance(B: nat, S: nat, ring: Ring, e: OutEvent)
    requires 0 < B <= S <= Total(B) && Placed(B, ring) && Aligned(B, ring.write)
    ensures Waiting(B, OutStep(B, S, ring, e)) == Waiting(B, ring) + OutCharge(B, S, ring, e)
  {
    if e.Frame? {
      SendBalance(B, S, ring);
    } else {
      PassBalance(B, S, ring);
    }
  }

  // With user blocks no larger than codec blocks, and those no larger than the
  // ring, the bytes waiting are exactly those taken and neither encoded nor dropped.
  lemma {:induction false} OutgoingOccupancy(B: nat, S: nat, events: seq<OutEvent>)
    requires 0 < B <= S <= Total(B)
    ensures Waiting(B, OutAfter(B, S, events)) == OutBalance(B, S, events)
    ensures 0 <= OutBalance(B, S, events) < Total(B)
  {
    OutgoingPlaced(B, S, events);
    if |events| > 0 {
      var before := events[..|events| - 1];
      OutgoingOccupancy(B, S, before);
      OutgoingPlaced(B, S, before);
      OutStepBalance(B, S, OutAfter(B, S, before), events[|events| - 1]);
    }
  }

  ghost predicate OutgoingFaithful(B: nat, S: nat)
    requires B > 0 && S > 0
  {
    forall events :: Waiting(B, OutAfter(B, S, events)) == OutBalance(B, S, events)
  }

  function Sends(n: nat): (events: seq<OutEvent>)
    ensures |events| == n
  {
    if n == 0 then [] else Sends(n - 1) + [Frame]
  }

  lemma {:induction false} OneSend(B: nat, S: nat, n: nat)
    requires 0 < B && 0 < S && 0 < n
    ensures OutAfter(B, S, Sends(n)) == Send(B, S, OutAfter(B, S, Sends(n - 1)))
    ensures OutBalance(B, S, Sends(n))
         == OutBalance(B, S, Sends(n - 1)) + OutCharge(B, S, OutAfter(B, S, Sends(n - 1)), Frame)
  {
    assert Sends(n)[..n - 1] == Sends(n - 1);
  }

  lemma {:induction false} SendGains(B: nat, S: nat, ring: Ring)
    requires 0 < S < B
    ensures OutCharge(B, S, ring, Frame) >= 1
  {
  }

  lemma {:induction false} SendsPileUp(B: nat, S: nat, n: nat)
    requires 0 < S < B
    ensures OutBalance(B, S, Sends(n)) >= n
  {
    if n > 0 {
      SendsPileUp(B, S, n - 1);
      OneSend(B, S, n);
      SendGains(B, S, OutAfter(B, S, Sends(n - 1)));
    }
  }

  lemma {:induction false} SpanBelow(B: nat, m: nat, n: nat)
    requires m <= n
    ensures Span(B, m) <= Span(B, n)
    decreases n
  {
    if m < n {
      SpanBelow(B, m, n - 1);
    }
  }

  lemma {:induction false} SpanFits(B: nat, n: nat)
    requires 0 < B && n < BLOCKS
    ensures Span(B, n) < Total(B)
  {
    SpanBelow(B, n, BLOCKS - 1);
    SpanIsTimes(B, BLOCKS - 1);
  }

  lemma {:induction false} SendAhead(B: nat, S: nat, w: nat)
    requires 0 < B && 0 < S && w + B < Total(B)
    ensures Send(B, S, Ring(0, w)) == Ring(0, w + B) && OutCharge(B, S, Ring(0, w), Frame) == B
  {
  }

  lemma {:induction false} SendsFill(B: nat, S: nat, n: nat)
    requires 0 < B && 0 < S && n < BLOCKS
    ensures OutAfter(B, S, Sends(n)) == Ring(0, Span(B, n)) && OutBalance(B, S, Sends(n)) == Span(B, n)
  {
    if n > 0 {
      SendsFill(B, S, n - 1);
      OneSend(B, S, n);
      SpanFits(B, n);
      SendAhead(B, S, Span(B, n - 1));
    }
  }

  // Dropping a codec block larger than the ring counts more bytes than it holds.
  lemma {:induction false} Overdrawn(B: nat, S: nat)
    requires 0 < B && S > Total(B)
    ensures OutBalance(B, S, Sends(BLOCKS)) < 0
  {
    SendsFill(B, S, BLOCKS - 1);
    OneSend(B, S, BLOCKS);
    SpanIsTimes(B, BLOCKS - 1);
  }

  // And only then.
  lemma {:induction false} OutgoingFaithfulIff(B: nat, S: nat)
    requires B > 0 && S > 0
    ensures OutgoingFaithful(B, S) <==> B <= S <= Total(B)
  {
    if B <= S <= Total(B) {
      forall events
        ensures Waiting(B, OutAfter(B, S, events)) == OutBalance(B, S, events)
      {
        OutgoingOccupancy(B, S, events);
      }
    } else if S < B {
      var events := Sends(Total(B));
      SendsPileUp(B, S, Total(B));
      OutgoingPlaced(B, S, events);
      assert Waiting(B, OutAfter(B, S, events)) < OutBalance(B, S, events);
    } else {
      var events := Sends(BLOCKS);
      Overdrawn(B, S);
      OutgoingPlaced(B, S, events);
      assert Waiting(B, OutAfter(B, S, events)) >= 0;
    }
  }
}
