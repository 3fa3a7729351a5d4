// What the incoming ring holds.  When codec blocks and user blocks have the
// same size, it is a first-in, first-out queue of blocks.
module VoiceQueue {
  import opened Bytes
  import opened VoiceRings
  import opened VoiceSequence
  import opened VoiceMix

  type Block = seq<byte>

  // The memcpy calls of WriteOutputToChannel.  Where the block does not fit
  // before the end of the buffer, both copies start at its first byte.
  function Store(buffer: seq<byte>, write: nat, data: Block): (r: seq<byte>)
    requires write < |buffer| && |data| <= |buffer|
    ensures |r| == |buffer|
  {
    var fits := |buffer| - write;
    if |data| <= fits then buffer[..write] + data + buffer[write + |data|..]
    else data[..|data| - fits] + buffer[|data| - fits..write] + data[..fits]
  }

  // Byte by byte.
  lemma {:induction false} StoreIs(buffer: seq<byte>, write: nat, data: Block, i: nat)
    requires write < |buffer| && |data| <= |buffer| && i < |buffer|
    ensures Store(buffer, write, data)[i]
         == if write <= i < write + |data| then data[i - write]
            else if i + |buffer| < write + |data| then data[i]
            else buffer[i]
  {
  }

  // The S bytes that were written first, going round.
  function Oldest(buffer: seq<byte>, read: nat, S: nat): seq<byte>
    requires read < |buffer| && S <= |buffer|
  {
    if read + S <= |buffer| then buffer[read..read + S] else buffer[read..] + buffer[..read + S - |buffer|]
  }

  function Marked(n: nat, read: nat): (b: seq<byte>)
    ensures |b| == n
  {
    seq<byte>(n, i => if i == read then 1 else 0)
  }

  // A block that is read back from where it was stored is the block that was
  // stored, whatever it is, exactly when it did not have to wrap around.
  lemma {:induction false} StoredReadsBackIff(buffer: seq<byte>, write: nat, S: nat)
    requires write < |buffer| && 0 < S <= |buffer|
    ensures (forall data: seq<byte> | |data| == S :: Oldest(Store(buffer, write, data), write, S) == data)
        <==> write + S <= |buffer|
  {
    if write + S <= |buffer| {
      forall data: seq<byte> | |data| == S
        ensures Oldest(Store(buffer, write, data), write, S) == data
      {
      }
    } else {
      var fits, data := |buffer| - write, Marked(S, 0);
      assert Oldest(Store(buffer, write, data), write, S)[fits] == Store(buffer, write, data)[0] == data[0];
      assert data[fits] != data[0];
    }
  }

  function Ahead(B: nat, p: nat, k: nat): nat
    decreases k
  {
    if k == 0 then p else Ahead(B, Advance(B, p), k - 1)
  }

  lemma {:induction false} AheadIs(B: nat, p: nat, k: nat)
    requires B > 0 && p < Total(B) && Aligned(B, p) && k <= BLOCKS
    ensures Span(B, k) <= Total(B)
    ensures Ahead(B, p, k) == if p + Span(B, k) < Total(B) then p + Span(B, k) else p + Span(B, k) - Total(B)
    ensures Aligned(B, Ahead(B, p, k))
    decreases k
  {
    SpanBelow(B, k, BLOCKS);
    SpanIsTimes(B, BLOCKS);
    if k > 0 {
      AlignedFits(B, p);
      AheadIs(B, Advance(B, p), k - 1);
    }
  }

  // The k blocks from position p on, going round.
  ghost function Queue(B: nat, buffer: seq<byte>, p: nat, k: nat): (q: seq<Block>)
    requires B > 0 && |buffer| == Total(B) && p < Total(B) && Aligned(B, p)
    ensures |q| == k
    decreases k
  {
    if k == 0 then [] else
      AlignedFits(B, p);
      [buffer[p..p + B]] + Queue(B, buffer, Advance(B, p), k - 1)
  }

  lemma {:induction false} StoreElsewhere(B: nat, buffer: seq<byte>, w: nat, data: Block, p: nat)
    requires B > 0 && |buffer| == Total(B) && |data| == B && w + B <= Total(B) && p + B <= Total(B)
    requires p + B <= w || w + B <= p
    ensures Store(buffer, w, data)[p..p + B] == buffer[p..p + B]
  {
  }

  lemma {:induction false} Apart(B: nat, p: nat, w: nat)
    requires B > 0 && Aligned(B, p) && Aligned(B, w) && p != w
    ensures p + B <= w || w + B <= p
  {
    if p < w {
      AlignedBelow(B, p, w);
    } else {
      AlignedBelow(B, w, p);
    }
  }

  lemma {:induction false} NotAhead(B: nat, p: nat, k: nat)
    requires B > 0 && p < Total(B) && Aligned(B, p) && 0 < k < BLOCKS
    ensures Ahead(B, p, k) != p
  {
    AheadIs(B, p, k);
    SpanBelow(B, 1, k);
    SpanBelow(B, k, BLOCKS - 1);
    SpanIsTimes(B, BLOCKS - 1);
    assert Span(B, 1) == B;
  }

  lemma {:induction false} StoreFirst(B: nat, buffer: seq<byte>, p: nat, data: Block)
    requires B > 0 && |buffer| == Total(B) && p + B <= Total(B) && Aligned(B, p) && |data| == B
    ensures Queue(B, Store(buffer, p, data), p, 1) == [data]
  {
    AlignedFits(B, p);
    assert Store(buffer, p, data)[p..p + B] == data;
  }

  // Storing a block where the queue ends appends it.
  lemma {:induction false} StoreAppends(B: nat, buffer: seq<byte>, p: nat, k: nat, data: Block)
    requires B > 0 && |buffer| == Total(B) && p < Total(B) && Aligned(B, p) && k < BLOCKS && |data| == B
    ensures Ahead(B, p, k) + B <= Total(B)
    ensures Queue(B, Store(buffer, Ahead(B, p, k), data), p, k + 1) == Queue(B, buffer, p, k) + [data]
    decreases k
  {
    var w := Ahead(B, p, k);
    AheadIs(B, p, k);
    AlignedFits(B, p);
    AlignedFits(B, w);
    if k == 0 {
      StoreFirst(B, buffer, p, data);
    } else {
      NotAhead(B, p, k);
      Apart(B, p, w);
      StoreElsewhere(B, buffer, w, data, p);
      StoreAppends(B, buffer, Advance(B, p), k - 1, data);
    }
  }

  // The ring and its buffer hold exactly the queue q.
  ghost predicate Holds(B: nat, ring: Ring, buffer: seq<byte>, q: seq<Block>) {
    && B > 0 && |buffer| == Total(B) && ring.read < Total(B) && Aligned(B, ring.read)
    && |q| < BLOCKS && ring.write == Ahead(B, ring.read, |q|)
    && q == Queue(B, buffer, ring.read, |q|)
  }

  lemma {:induction false} HoldsWaiting(B: nat, ring: Ring, buffer: seq<byte>, q: seq<Block>)
    requires Holds(B, ring, buffer, q)
    ensures Waiting(B, ring) == Span(B, |q|) && Remaining(B, ring) == Total(B) - Span(B, |q|)
    ensures Aligned(B, ring.write) && ring.write + B <= Total(B)
  {
    AheadIs(B, ring.read, |q|);
    SpanBelow(B, |q|, BLOCKS - 1);
    SpanIsTimes(B, BLOCKS - 1);
    AlignedFits(B, ring.write);
  }

  // The conditions that the code tests, in blocks.
  lemma {:induction false} HoldsTests(B: nat, ring: Ring, buffer: seq<byte>, q: seq<Block>)
    requires Holds(B, ring, buffer, q)
    ensures Waiting(B, ring) == 0 <==> q == []
    ensures Waiting(B, ring) > B <==> |q| > 1
    ensures Waiting(B, ring) > B * 2 <==> |q| > 2
    ensures B >= Remaining(B, ring) <==> |q| == BLOCKS - 1
  {
    HoldsWaiting(B, ring, buffer, q);
    var k := |q|;
    SpanIsTimes(B, BLOCKS);
    SpanIsTimes(B, BLOCKS - 1);
    SpanIsTimes(B, BLOCKS - 2);
    if k >= 1 {
      SpanBelow(B, 1, k);
    }
    if k >= 2 {
      SpanBelow(B, 2, k);
    }
    if k >= 3 {
      SpanBelow(B, 3, k);
    }
    if k <= BLOCKS - 2 {
      SpanBelow(B, k, BLOCKS - 2);
    }
  }

  // A full queue drops its oldest block.
  function Pushed(q: seq<Block>, data: Block): seq<Block> {
    if |q| == BLOCKS - 1 then q[1..] + [data] else q + [data]
  }

  lemma {:induction false} AheadStep(B: nat, p: nat, k: nat)
    requires B > 0 && p < Total(B) && Aligned(B, p)
    ensures Ahead(B, p, k + 1) == Advance(B, Ahead(B, p, k)) == Ahead(B, Advance(B, p), k)
    decreases k
  {
    if k > 0 {
      AlignedFits(B, p);
      AheadStep(B, Advance(B, p), k - 1);
    }
  }

  lemma {:induction false} ArriveIndices(B: nat, ring: Ring, buffer: seq<byte>, q: seq<Block>)
    requires Holds(B, ring, buffer, q)
    ensures Arrive(B, B, ring)
         == Ring(if |q| == BLOCKS - 1 then Advance(B, ring.read) else ring.read, Advance(B, ring.write))
    ensures ring.write + B <= |buffer|
  {
    HoldsWaiting(B, ring, buffer, q);
    HoldsTests(B, ring, buffer, q);
    WrapOnce(Total(B), ring.write + B);
  }

  lemma {:induction false} ArriveHolds(B: nat, ring: Ring, buffer: seq<byte>, q: seq<Block>, data: Block)
    requires Holds(B, ring, buffer, q) && |data| == B
    ensures ring.write + B <= |buffer|
    ensures Holds(B, Arrive(B, B, ring), Store(buffer, ring.write, data), Pushed(q, data))
  {
    ArriveIndices(B, ring, buffer, q);
    StoreAppends(B, buffer, ring.read, |q|, data);
    AlignedFits(B, ring.read);
    AheadStep(B, ring.read, |q|);
    if |q| == BLOCKS - 1 {
      var after := Store(buffer, ring.write, data);
      assert Queue(B, after, ring.read, |q| + 1)[1..] == Queue(B, after, Advance(B, ring.read), |q|);
      assert (q + [data])[1..] == q[1..] + [data];
    }
  }

  lemma {:induction false} PlayHolds(B: nat, ring: Ring, buffer: seq<byte>, q: seq<Block>)
    requires Holds(B, ring, buffer, q) && q != []
    ensures ring.read + B <= |buffer| && Contribution(B, ring, buffer) == q[0]
    ensures Holds(B, Play(B, ring), buffer, q[1..])
  {
    HoldsTests(B, ring, buffer, q);
    HoldsWaiting(B, ring, buffer, q);
    assert |q| == 1 ==> Span(B, 1) == B;
    AlignedFits(B, ring.read);
    assert q[1..] == Queue(B, buffer, Advance(B, ring.read), |q| - 1);
    if |q| == 1 {
      assert Ahead(B, Advance(B, ring.read), 0) == Advance(B, ring.read);
    }
  }

  // What a channel gives to the output in an Update: its oldest block, at most
  // once between two zeroings, and not while it is filling up again.
  lemma {:induction false} GivesOldest(B: nat, c: Incoming, buffer: seq<byte>, q: seq<Block>, zeroed: bool,
                                       was: seq<byte>, now: seq<byte>)
    requires Holds(B, c.ring, buffer, q) && GivenBy(B, c, buffer, zeroed, was, now)
    ensures now == if (zeroed || !c.copied) && q != [] && (!c.buffering || |q| > 2) then q[0]
                   else if zeroed then []
                   else was
  {
    HoldsTests(B, c.ring, buffer, q);
    if q != [] {
      PlayHolds(B, c.ring, buffer, q);
    }
  }

  // ------------------------------------------------------------ whole runs

  // A channel's receiving side: ring, buffer, and the message number it expects.
  datatype Channel = Channel(state: Incoming, buffer: seq<byte>, counter: int)

  // A message arrives that is the place-th message of its sender, or Update runs.
  datatype Event = Message(place: nat, data: Block) | Updated(zeroed: bool)

  ghost predicate Sized(B: nat, ch: Channel) {
    B > 0 && |ch.buffer| == Total(B) && Placed(B, ch.state.ring) && Aligned(B, ch.state.ring.read)
  }

  ghost predicate Fits(B: nat, e: Event) {
    e.Message? ==> |e.data| == B
  }

  ghost predicate Taken(ch: Channel, e: Event) {
    e.Message? && Accepts(Number(e.place), ch.counter)
  }

  ghost function StepChannel(B: nat, ch: Channel, e: Event): (r: Channel)
    requires Sized(B, ch) && Fits(B, e)
    ensures Sized(B, r)
  {
    match e
    case Message(place, data) =>
      if !Taken(ch, e) then ch
      else
        StepPlaced(B, B, ch.state, VoiceRings.Block);
        Channel(Step(B, B, ch.state, VoiceRings.Block), Store(ch.buffer, ch.state.ring.write, data),
                Next(Number(place)))
    case Updated(zeroed) =>
      StepPlaced(B, B, ch.state, Update(zeroed));
      ch.(state := Step(B, B, ch.state, Update(zeroed)))
  }

  // What has happened on a channel: the blocks that were let in and their
  // places among the messages sent, the blocks played and their places among
  // those let in, and the number of blocks dropped from a full ring.
  datatype History = History(arrived: seq<Block>, sent: seq<nat>, played: seq<Block>, places: seq<nat>, dropped: nat)

  ghost function Record(B: nat, ch: Channel, h: History, e: Event): History
    requires Sized(B, ch) && Fits(B, e)
  {
    match e
    case Message(place, data) =>
      if !Taken(ch, e) then h
      else h.(arrived := h.arrived + [data], sent := h.sent + [place],
              dropped := h.dropped + if B >= Remaining(B, ch.state.ring) then 1 else 0)
    case Updated(zeroed) =>
      if !Plays(B, Zeroed(ch.state, Update(zeroed))) then h
      else
        AlignedFits(B, ch.state.ring.read);
        h.(played := h.played + [Contribution(B, ch.state.ring, ch.buffer)],
           places := h.places + [|h.played| + h.dropped])
  }

  ghost predicate AllFit(B: nat, events: seq<Event>) {
    forall i :: 0 <= i < |events| ==> Fits(B, events[i])
  }

  datatype Life = Life(ch: Channel, h: History)

  ghost function LifeAfter(B: nat, memory: seq<byte>, events: seq<Event>): (l: Life)
    requires B > 0 && |memory| == Total(B) && AllFit(B, events)
    ensures Sized(B, l.ch)
  {
    if |events| == 0 then Life(Channel(OPENED, memory, 0), History([], [], [], [], 0))
    else
      var l, e := LifeAfter(B, memory, events[..|events| - 1]), events[|events| - 1];
      Life(StepChannel(B, l.ch, e), Record(B, l.ch, l.h, e))
  }

  // Of the blocks that were let in, those not yet played or dropped.
  ghost function Left(h: History): seq<Block>
    requires |h.played| + h.dropped <= |h.arrived|
  {
    h.arrived[|h.played| + h.dropped..]
  }

  ghost predicate InOrder(h: History) {
    && |h.sent| == |h.arrived| && |h.places| == |h.played| && |h.played| + h.dropped <= |h.arrived|
    && (forall i :: 0 <= i < |h.places| ==>
          h.places[i] < |h.played| + h.dropped && h.played[i] == h.arrived[h.places[i]])
    && (forall i, j :: 0 <= i < j < |h.places| ==> h.places[i] < h.places[j])
    && (h.dropped == 0 ==> h.played == h.arrived[..|h.played|])
  }

  lemma {:induction false} LetIn(h: History, place: nat, data: Block, full: bool, g: History)
    requires InOrder(h) && (full <==> |Left(h)| == BLOCKS - 1)
    requires g
         == h.(arrived := h.arrived + [data], sent := h.sent + [place], dropped := h.dropped + if full then 1 else 0)
    ensures InOrder(g) && Left(g) == Pushed(Left(h), data)
  {
  }

  lemma {:induction false} PlayedNext(h: History, g: History)
    requires InOrder(h) && Left(h) != []
    requires g == h.(played := h.played + [Left(h)[0]], places := h.places + [|h.played| + h.dropped])
    ensures InOrder(g) && Left(g) == Left(h)[1..]
  {
  }

  lemma {:induction false} TakenStep(B: nat, ch: Channel, h: History, e: Event)
    requires Sized(B, ch) && Fits(B, e) && InOrder(h) && Holds(B, ch.state.ring, ch.buffer, Left(h)) && Taken(ch, e)
    ensures var d, g := StepChannel(B, ch, e), Record(B, ch, h, e);
      InOrder(g) && Holds(B, d.state.ring, d.buffer, Left(g))
  {
    var ring, g := ch.state.ring, Record(B, ch, h, e);
    HoldsTests(B, ring, ch.buffer, Left(h));
    ArriveHolds(B, ring, ch.buffer, Left(h), e.data);
    LetIn(h, e.place, e.data, B >= Remaining(B, ring), g);
  }

  lemma {:induction false} PlayedStep(B: nat, ch: Channel, h: History, e: Event)
    requires Sized(B, ch) && Fits(B, e) && InOrder(h) && Holds(B, ch.state.ring, ch.buffer, Left(h))
    requires e.Updated? && Plays(B, Zeroed(ch.state, Update(e.zeroed)))
    ensures var d, g := StepChannel(B, ch, e), Record(B, ch, h, e);
      InOrder(g) && Holds(B, d.state.ring, d.buffer, Left(g))
  {
    HoldsTests(B, ch.state.ring, ch.buffer, Left(h));
    PlayHolds(B, ch.state.ring, ch.buffer, Left(h));
    PlayedNext(h, Record(B, ch, h, e));
  }

  lemma {:induction false} LifeStep(B: nat, ch: Channel, h: History, e: Event)
    requires Sized(B, ch) && Fits(B, e) && InOrder(h) && Holds(B, ch.state.ring, ch.buffer, Left(h))
    ensures var d, g := StepChannel(B, ch, e), Record(B, ch, h, e);
      InOrder(g) && Holds(B, d.state.ring, d.buffer, Left(g))
  {
    if Taken(ch, e) {
      TakenStep(B, ch, h, e);
    } else if e.Updated? && Plays(B, Zeroed(ch.state, Update(e.zeroed))) {
      PlayedStep(B, ch, h, e);
    }
  }

  // Over every run the ring holds exactly the blocks let in and neither played
  // nor dropped; blocks are played as they came in, in the order they came in;
  // and if none was dropped, none is left out.
  lemma {:induction false} FirstInFirstOut(B: nat, memory: seq<byte>, events: seq<Event>)
    requires B > 0 && |memory| == Total(B) && AllFit(B, events)
    ensures var l := LifeAfter(B, memory, events); InOrder(l.h) && Holds(B, l.ch.state.ring, l.ch.buffer, Left(l.h))
  {
    if |events| > 0 {
      FirstInFirstOut(B, memory, events[..|events| - 1]);
      var l := LifeAfter(B, memory, events[..|events| - 1]);
      LifeStep(B, l.ch, l.h, events[|events| - 1]);
    }
  }

  // The messages that arrived, in order of arrival.
  ghost function Arrivals(events: seq<Event>): seq<nat> {
    if |events| == 0 then []
    else
      var e := events[|events| - 1];
      Arrivals(events[..|events| - 1]) + if e.Message? then [e.place] else []
  }

  lemma {:induction false} SentIsAccepted(B: nat, memory: seq<byte>, events: seq<Event>)
    requires B > 0 && |memory| == Total(B) && AllFit(B, events)
    ensures var l := LifeAfter(B, memory, events); Run(Arrivals(events)) == Receiver(l.ch.counter, l.h.sent)
  {
    if |events| > 0 {
      var before, e := events[..|events| - 1], events[|events| - 1];
      SentIsAccepted(B, memory, before);
      if e.Message? {
        assert Arrivals(events)[..|Arrivals(events)| - 1] == Arrivals(before);
      } else {
        assert Arrivals(events) == Arrivals(before);
      }
    }
  }

  // From the network to the listener: if arrivals are close enough to be told
  // apart, the blocks played are in the order of sending, and none is played twice.
  lemma {:induction false} PlayedInSendingOrder(B: nat, memory: seq<byte>, events: seq<Event>, i: nat, j: nat)
    requires B > 0 && |memory| == Total(B) && AllFit(B, events) && Close(Arrivals(events))
    requires i < j < |LifeAfter(B, memory, events).h.played|
    ensures var h := LifeAfter(B, memory, events).h;
      && |h.places| == |h.played| && h.places[i] < |h.sent| && h.places[j] < |h.sent|
      && h.sent[h.places[i]] < h.sent[h.places[j]]
  {
    FirstInFirstOut(B, memory, events);
    SentIsAccepted(B, memory, events);
    FilterExact(Arrivals(events));
  }
}
