// Which block sizes keep the two faulty ring copies from doing harm: over
// every run, when is a block stored, or a frame read, across the end of a ring?
module VoiceReach {
  import opened Bytes
  import opened VoiceRings
  import VoiceQueue
  import opened VoiceChannels

  // ------------------------------------------------------- the incoming ring

  // Every block that may arrive after the run is read back as it was stored.
  ghost predicate StoredRight(S: nat, buffer: seq<byte>, write: nat)
    requires write < |buffer| && 0 < S <= |buffer|
  {
    forall data: seq<byte> | |data| == S :: VoiceQueue.Oldest(VoiceQueue.Store(buffer, write, data), write, S) == data
  }

  ghost predicate BlocksRight(B: nat, S: nat, buffer: seq<byte>)
    requires 0 < S <= B && |buffer| == Total(B)
  {
    forall events ::
      After(B, S, events).ring.write < |buffer| && StoredRight(S, buffer, After(B, S, events).ring.write)
  }

  ghost predicate BlocksWhole(B: nat, S: nat)
    requires B > 0
  {
    forall events :: After(B, S, events).ring.write + S <= Total(B)
  }

  lemma {:induction false} Append(B: nat, S: nat, events: seq<Event>, e: Event)
    requires B > 0
    ensures After(B, S, events + [e]) == Step(B, S, After(B, S, events), e)
  {
    assert (events + [e])[..|events + [e]| - 1] == events;
  }

  // If no block goes across the end, blocks fill what is left of the ring exactly.
  lemma {:induction false} FillsRest(B: nat, S: nat, events: seq<Event>)
    requires 0 < S <= B && BlocksWhole(B, S)
    ensures var write := After(B, S, events).ring.write; write < Total(B) && Aligned(S, Total(B) - write)
    decreases Total(B) - After(B, S, events).ring.write
  {
    var write := After(B, S, events).ring.write;
    IncomingPlaced(B, S, events);
    assert write + S <= Total(B);
    if write + S < Total(B) {
      Append(B, S, events, Block);
      FillsRest(B, S, events + [Block]);
    }
  }

  // Blocks arrive until a channel that has just been opened starts to play.
  lemma {:induction false} FillsUp(B: nat, S: nat, events: seq<Event>) returns (more: seq<Event>)
    requires 0 < S <= B
    requires var c := After(B, S, events); c == Incoming(Ring(0, c.ring.write), true, false) && c.ring.write <= 2 * B
    ensures var c := After(B, S, more);
      c == Incoming(Ring(0, c.ring.write), true, false) && 2 * B < c.ring.write <= 3 * B
    decreases 2 * B - After(B, S, events).ring.write
  {
    more := events + [Block];
    Append(B, S, events, Block);
    if After(B, S, more).ring.write <= 2 * B {
      more := FillsUp(B, S, more);
    }
  }

  // It then runs dry after three blocks, with the write index moved up to the read index.
  lemma {:induction false} RunsDry(B: nat, S: nat) returns (events: seq<Event>)
    requires 0 < S <= B
    ensures After(B, S, events).ring == Ring(3 * B, 3 * B)
  {
    events := FillsUp(B, S, []);
    var w := After(B, S, events).ring.write;
    Append(B, S, events, Update(true));
    events := events + [Update(true)];
    assert After(B, S, events) == Incoming(Ring(B, w), false, true);
    Append(B, S, events, Update(true));
    events := events + [Update(true)];
    assert After(B, S, events) == Incoming(Ring(2 * B, w), false, true);
    Append(B, S, events, Update(true));
    events := events + [Update(true)];
  }

  lemma {:induction false} AlignedPlus(S: nat, x: int, y: int)
    requires S > 0 && Aligned(S, x) && Aligned(S, y)
    ensures Aligned(S, x + y)
    decreases if x < 0 then 0 else x
  {
    if x != 0 {
      AlignedPlus(S, x - S, y);
    }
  }

  lemma {:induction false} AlignedMinus(S: nat, x: int, y: int)
    requires S > 0 && Aligned(S, x) && Aligned(S, y) && y <= x
    ensures Aligned(S, x - y)
    decreases if y < 0 then 0 else y
  {
    if y != 0 {
      AlignedMinus(S, x - S, y - S);
    }
  }

  lemma {:induction false} AlignedLess(S: nat, x: int, y: int, n: nat)
    requires S > 0 && Aligned(S, x) && Aligned(S, y) && y >= 0 && Span(y, n) <= x
    ensures Aligned(S, x - Span(y, n))
    decreases n
  {
    if n > 0 {
      AlignedLess(S, x, y, n - 1);
      AlignedMinus(S, x - Span(y, n - 1), y);
    }
  }

  lemma {:induction false} AlignedThrough(S: nat, B: nat, x: int)
    requires S > 0 && B > 0 && Aligned(S, B) && Aligned(B, x)
    ensures Aligned(S, x)
    decreases if x < 0 then 0 else x
  {
    if x != 0 {
      AlignedThrough(S, B, x - B);
      AlignedPlus(S, x - B, B);
    }
  }

  // 100 and 97 user blocks are whole codec blocks, so one is.
  lemma {:induction false} WholeDivides(B: nat, S: nat)
    requires 0 < S <= B && BlocksWhole(B, S)
    ensures Aligned(S, B)
  {
    FillsRest(B, S, []);
    var events := RunsDry(B, S);
    FillsRest(B, S, events);
    AlignedMinus(S, Total(B), 97 * B);
    SpanIsTimes(3 * B, 33);
    AlignedLess(S, Total(B), 3 * B, 33);
  }

  lemma {:induction false} DividesFits(B: nat, S: nat, x: nat)
    requires 0 < S <= B && Aligned(S, B) && Aligned(S, x) && x < Total(B)
    ensures x + S <= Total(B) && Aligned(S, Wrap(Total(B), x + S))
  {
    AlignedTimes(B, BLOCKS);
    SpanIsTimes(B, BLOCKS);
    AlignedThrough(S, B, Total(B));
    AlignedBelow(S, x, Total(B));
    WrapOnce(Total(B), x + S);
    AlignedPlus(S, x, S);
  }

  lemma {:induction false} DividesStep(B: nat, S: nat, c: Incoming, e: Event)
    requires 0 < S <= B && Aligned(S, B) && Placed(B, c.ring) && Aligned(B, c.ring.read) && Aligned(S, c.ring.write)
    ensures Aligned(S, Step(B, S, c, e).ring.write)
  {
    DividesFits(B, S, c.ring.write);
    AlignedFits(B, c.ring.read);
    AlignedThrough(S, B, Advance(B, c.ring.read));
  }

  lemma {:induction false} DividesWhole(B: nat, S: nat, events: seq<Event>)
    requires 0 < S <= B && Aligned(S, B)
    ensures var write := After(B, S, events).ring.write; Aligned(S, write) && write + S <= Total(B)
  {
    if |events| > 0 {
      var before := events[..|events| - 1];
      DividesWhole(B, S, before);
      IncomingPlaced(B, S, before);
      DividesStep(B, S, After(B, S, before), events[|events| - 1]);
    }
    IncomingPlaced(B, S, events);
    DividesFits(B, S, After(B, S, events).ring.write);
  }

  // Over every run, every block is read back as it was stored if and only if
  // the user's blocks are whole codec blocks.
  lemma {:induction false} BlocksRightIff(B: nat, S: nat, buffer: seq<byte>)
    requires 0 < S <= B && |buffer| == Total(B)
    ensures BlocksRight(B, S, buffer) <==> Aligned(S, B)
  {
    forall events
      ensures After(B, S, events).ring.write < |buffer|
      ensures StoredRight(S, buffer, After(B, S, events).ring.write)
         <==> After(B, S, events).ring.write + S <= Total(B)
    {
      IncomingPlaced(B, S, events);
      VoiceQueue.StoredReadsBackIff(buffer, After(B, S, events).ring.write, S);
    }
    if BlocksRight(B, S, buffer) {
      assert BlocksWhole(B, S);
      WholeDivides(B, S);
    } else if Aligned(S, B) {
      forall events
        ensures StoredRight(S, buffer, After(B, S, events).ring.write)
      {
        DividesWhole(B, S, events);
      }
    }
  }

  // ------------------------------------------------------- the outgoing ring

  // Whatever the ring holds, the next frame is its oldest bytes.
  ghost predicate ReadRight(B: nat, S: nat, read: nat)
    requires 0 < S <= Total(B) && read < Total(B)
  {
    forall buffer: seq<byte> | |buffer| == Total(B) :: FrameAt(B, S, buffer, read) == VoiceQueue.Oldest(buffer, read, S)
  }

  // So it is whenever a pass has a frame to encode.
  ghost predicate FramesRight(B: nat, S: nat)
    requires 0 < B <= S <= Total(B)
  {
    forall events :: Frames(B, S, OutAfter(B, S, events)) > 0 ==>
      OutAfter(B, S, events).read < Total(B) && ReadRight(B, S, OutAfter(B, S, events).read)
  }

  lemma {:induction false} AppendOut(B: nat, S: nat, events: seq<OutEvent>, e: OutEvent)
    requires B > 0 && S > 0
    ensures OutAfter(B, S, events + [e]) == OutStep(B, S, OutAfter(B, S, events), e)
    ensures Placed(B, OutAfter(B, S, events)) && Aligned(B, OutAfter(B, S, events).write)
  {
    assert (events + [e])[..|events + [e]| - 1] == events;
    OutgoingPlaced(B, S, events);
  }

  lemma {:induction false} FrameIsFull(S: nat, w: int)
    requires S > 0
    ensures S <= w < 2 * S ==> w / S == 1
    ensures 0 <= w < S ==> w / S == 0
  {
  }

  // With a frame waiting, it does not reach the end of the ring.
  lemma {:induction false} NextFits(B: nat, S: nat, events: seq<OutEvent>)
    requires 0 < B <= S < Total(B) && FramesRight(B, S) && S <= Waiting(B, OutAfter(B, S, events)) < 2 * S
    ensures OutAfter(B, S, events).read + S < Total(B)
  {
    FrameIsFull(S, Waiting(B, OutAfter(B, S, events)));
    assert Frames(B, S, OutAfter(B, S, events)) > 0;
    FrameIsOldestIff(B, S, OutAfter(B, S, events).read);
  }

  // Sending a frame that the ring has room for.
  lemma {:induction false} SendOne(B: nat, S: nat, events: seq<OutEvent>)
    requires B > 0 && S > 0
    requires Waiting(B, OutAfter(B, S, events)) + B < Total(B)
    ensures var ring, next := OutAfter(B, S, events), OutAfter(B, S, events + [Frame]);
      next.read == ring.read && next.write == Advance(B, ring.write) && Waiting(B, next) == Waiting(B, ring) + B
  {
    AppendOut(B, S, events, Frame);
    AlignedFits(B, OutAfter(B, S, events).write);
  }

  // Frames are sent until one codec block can be encoded.
  lemma {:induction false} SendEnough(B: nat, S: nat, events: seq<OutEvent>) returns (more: seq<OutEvent>)
    requires 0 < B <= S <= Total(B) - B && Waiting(B, OutAfter(B, S, events)) < S
    ensures OutAfter(B, S, more).read == OutAfter(B, S, events).read
    ensures S <= Waiting(B, OutAfter(B, S, more)) < S + B
    decreases S - Waiting(B, OutAfter(B, S, events))
  {
    more := events + [Frame];
    SendOne(B, S, events);
    if Waiting(B, OutAfter(B, S, more)) < S {
      more := SendEnough(B, S, more);
    }
  }

  // With room for a user block beside a codec block, reading goes on to the end.
  lemma {:induction false} ReadsToEnd(B: nat, S: nat, events: seq<OutEvent>)
    requires 0 < B <= S <= Total(B) - B && FramesRight(B, S) && Waiting(B, OutAfter(B, S, events)) < S
    ensures false
    decreases Total(B) - OutAfter(B, S, events).read
  {
    var full := SendEnough(B, S, events);
    var ring := OutAfter(B, S, full);
    NextFits(B, S, full);
    AppendOut(B, S, full, Pass);
    FrameIsFull(S, Waiting(B, ring));
    PassBalance(B, S, ring);
    assert Encode(B, S, ring, 0) == ring;
    assert OutStep(B, S, ring, Pass) == Encode(B, S, ring, 1);
    ReadsToEnd(B, S, full + [Pass]);
  }

  // Without, frames are dropped, each time moving the read index back a little.
  lemma {:induction false} SendMany(B: nat, S: nat, events: seq<OutEvent>, n: nat) returns (more: seq<OutEvent>)
    requires B > 0 && S > 0
    requires OutAfter(B, S, events).write == 0 && Waiting(B, OutAfter(B, S, events)) < B && n < BLOCKS
    ensures var ring, next := OutAfter(B, S, events), OutAfter(B, S, more);
      next == Ring(ring.read, Span(B, n)) && Waiting(B, next) == Waiting(B, ring) + Span(B, n)
    decreases n
  {
    if n == 0 {
      more := events;
    } else {
      var before := SendMany(B, S, events, n - 1);
      SpanFits(B, n);
      SpanBelow(B, n - 1, BLOCKS - 2);
      SpanIsTimes(B, BLOCKS - 2);
      SendOne(B, S, before);
      more := before + [Frame];
    }
  }

  lemma {:induction false} DropOne(B: nat, S: nat, c: nat)
    requires 0 < B && Total(B) - B < S < Total(B) && 0 < c && c + 99 * B < S
    ensures Send(B, S, Ring(Total(B) - c, 99 * B)) == Ring(S - c, 0)
  {
    WrapOnce(Total(B), Total(B) - c + S);
  }

  lemma {:induction false} DropsOn(B: nat, S: nat, events: seq<OutEvent>, c: nat)
    requires 0 < B && Total(B) - B < S < Total(B) && FramesRight(B, S) && 0 < c < B
    requires OutAfter(B, S, events) == Ring(Total(B) - c, 0)
    ensures false
    decreases B - c
  {
    var full := SendMany(B, S, events, BLOCKS - 1);
    SpanIsTimes(B, BLOCKS - 1);
    if c + 99 * B >= S {
      NextFits(B, S, full);
    } else {
      AppendOut(B, S, full, Frame);
      DropOne(B, S, c);
      DropsOn(B, S, full + [Frame], c + (Total(B) - S));
    }
  }

  lemma {:induction false} FirstDrop(B: nat, S: nat) returns (events: seq<OutEvent>)
    requires 0 < B && Total(B) - B < S < Total(B)
    ensures OutAfter(B, S, events) == Ring(S, 0)
  {
    var full := SendMany(B, S, [], BLOCKS - 1);
    SpanIsTimes(B, BLOCKS - 1);
    AppendOut(B, S, full, Frame);
    events := full + [Frame];
  }

  // For sizes with which the ring counts its bytes correctly: over every run,
  // every pass begins with the oldest bytes if and only if a codec block is as
  // large as the ring, when nothing is ever encoded.
  lemma {:induction false} FramesRightIff(B: nat, S: nat)
    requires 0 < B <= S <= Total(B)
    ensures FramesRight(B, S) <==> S == Total(B)
  {
    if S == Total(B) {
      forall events
        ensures Frames(B, S, OutAfter(B, S, events)) == 0
      {
        OutgoingPlaced(B, S, events);
        FrameIsFull(S, Waiting(B, OutAfter(B, S, events)));
      }
    } else if FramesRight(B, S) {
      if S <= Total(B) - B {
        ReadsToEnd(B, S, []);
      } else {
        var events := FirstDrop(B, S);
        DropsOn(B, S, events, Total(B) - S);
      }
    }
  }

  // The user hands over a block and Update runs, n times.
  function Rounds(n: nat): seq<OutEvent> {
    if n == 0 then [] else Rounds(n - 1) + [Frame] + [Pass]
  }

  lemma {:induction false} OneFrame(B: nat, ring: Ring)
    requires B > 0 && Placed(B, ring) && Waiting(B, ring) == B
    ensures Frames(B, B, ring) == 1
    ensures OutStep(B, B, ring, Pass) == Ring(Wrap(Total(B), ring.read + B), ring.write)
  {
    FrameIsFull(B, B);
    assert Encode(B, B, ring, 0) == ring;
    assert OutStep(B, B, ring, Pass) == Encode(B, B, ring, 1);
  }

  lemma {:induction false} RoundsReadAll(B: nat, n: nat)
    requires B > 0 && n < BLOCKS
    ensures OutAfter(B, B, Rounds(n)) == Ring(Span(B, n), Span(B, n)) && Span(B, n) < Total(B)
  {
    SpanFits(B, n);
    if n > 0 {
      RoundsReadAll(B, n - 1);
      SendOne(B, B, Rounds(n - 1));
      AppendOut(B, B, Rounds(n - 1) + [Frame], Pass);
      OneFrame(B, OutAfter(B, B, Rounds(n - 1) + [Frame]));
    }
  }

  lemma {:induction false} LastBlock(B: nat, n: nat)
    requires B > 0 && n < BLOCKS
    ensures Span(B, n) + B < Total(B) <==> n < BLOCKS - 1
    ensures n == BLOCKS - 1 ==> Span(B, n) != 0
  {
    if n < BLOCKS - 1 {
      SpanFits(B, n + 1);
    } else {
      SpanIsTimes(B, n);
    }
  }

  lemma {:induction false} RingAfterFrame(B: nat, n: nat, read: nat, ring: Ring)
    requires B > 0 && n < BLOCKS && read == Span(B, n) && ring == OutAfter(B, B, Rounds(n) + [Frame])
    ensures ring.read == read < Total(B) && Frames(B, B, ring) == 1
  {
    RoundsReadAll(B, n);
    SendOne(B, B, Rounds(n));
    AppendOut(B, B, Rounds(n) + [Frame], Pass);
    OneFrame(B, ring);
  }

  // With equal block sizes, the hundredth frame is the first to be encoded from
  // the wrong bytes.
  lemma {:induction false} HundredthFrame(B: nat, n: nat)
    requires B > 0 && n < BLOCKS
    ensures var ring := OutAfter(B, B, Rounds(n) + [Frame]);
      && Frames(B, B, ring) == 1 && ring.read < Total(B)
      && (ReadRight(B, B, ring.read) <==> n < BLOCKS - 1)
  {
    RingAfterFrame(B, n, Span(B, n), OutAfter(B, B, Rounds(n) + [Frame]));
    LastBlock(B, n);
    FrameIsOldestIff(B, B, Span(B, n));
  }
}
