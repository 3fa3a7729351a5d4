// What a ring holds, byte by byte, whatever the block sizes; and what the
// incoming ring gives to the output.
module VoiceBytes {
  import opened Bytes
  import opened VoiceRings
  import opened VoiceSequence
  import opened VoiceQueue
  import opened VoiceMix
  import opened VoiceChannels
  import VoiceReach

  // The place of the i-th byte from read on, going round.
  function Place(T: nat, read: nat, i: nat): nat {
    if read + i < T then read + i else read + i - T
  }

  // The ring holds the bytes of rest, in this order.
  ghost predicate Bears(B: nat, ring: Ring, buffer: seq<byte>, rest: seq<byte>) {
    && B > 0 && |buffer| == Total(B) && Placed(B, ring) && Waiting(B, ring) == |rest|
    && forall i :: 0 <= i < |rest| ==> buffer[Place(Total(B), ring.read, i)] == rest[i]
  }

  lemma {:induction false} StoreAt(buffer: seq<byte>, write: nat, data: seq<byte>, j: nat)
    requires write + |data| <= |buffer| && write < |buffer| && j < |buffer|
    ensures Store(buffer, write, data)[j]
         == if write <= j < write + |data| then data[j - write] else buffer[j]
  {
  }

  // The i-th byte behind those that are gone is one of the w bytes that were
  // there, or of the block stored behind them.
  lemma {:induction false} PlaceAfter(T: nat, read: nat, w: nat, B: nat, gone: nat, i: nat)
    requires read < T && w < T && gone <= w + B && w + B - gone <= T && gone <= T && i < w + B - gone
    requires Place(T, read, w) + B <= T
    ensures var p, write := Place(T, Place(T, read, gone), i), Place(T, read, w);
      && p < T
      && (if gone + i < w then p == Place(T, read, gone + i) && !(write <= p < write + B)
          else p == write + (gone + i - w))
  {
  }

  // Bytes are stored behind those that are there, and gone of them dropped in front.
  lemma {:induction false} StoreBears(B: nat, ring: Ring, next: Ring, buffer: seq<byte>, rest: seq<byte>,
                                      data: seq<byte>, gone: nat)
    requires Bears(B, ring, buffer, rest) && Placed(B, next) && ring.write + |data| <= Total(B)
    requires gone <= |rest| + |data| && gone <= Total(B) && Waiting(B, next) == |rest| + |data| - gone
    requires next.read == Place(Total(B), ring.read, gone) && ring.write == Place(Total(B), ring.read, |rest|)
    ensures Bears(B, next, Store(buffer, ring.write, data), (rest + data)[gone..])
  {
    var w, after := |rest|, Store(buffer, ring.write, data);
    forall i | 0 <= i < w + |data| - gone
      ensures after[Place(Total(B), next.read, i)] == (rest + data)[gone..][i]
    {
      PlaceAfter(Total(B), ring.read, w, |data|, gone, i);
      StoreAt(buffer, ring.write, data, Place(Total(B), next.read, i));
    }
  }

  // ------------------------------------------------------- the incoming ring

  // On a channel, a decoded block arrives, or Update runs.
  datatype Input = Arrived(data: seq<byte>) | Updated(zeroed: bool)

  // What should happen: the bytes that arrived, how many of them are gone, played
  // or dropped, the blocks given to the output, and whether the channel is
  // filling up, and has given a block since the output was last taken.
  datatype Stream = Stream(arrived: seq<byte>, gone: nat, given: seq<seq<byte>>, filling: bool, gave: bool)

  // A user block is dropped when the ring would be full.  A channel that has run
  // dry gives nothing until more than two user blocks wait; then a user block in
  // each turn, or what there is of it.
  function StepStream(B: nat, s: Stream, e: Input): Stream
    requires s.gone <= |s.arrived|
  {
    var waiting := |s.arrived| - s.gone;
    match e
    case Arrived(data) =>
      s.(arrived := s.arrived + data, gone := if waiting + B >= 100 * B then s.gone + B else s.gone)
    case Updated(zeroed) =>
      if s.gave && !zeroed then s
      else if waiting == 0 then s.(filling := true, gave := false)
      else if s.filling && waiting <= 2 * B then s.(gave := false)
      else
        var n := if waiting < B then waiting else B;
        Stream(s.arrived, s.gone + n, s.given + [s.arrived[s.gone..s.gone + n]], false, true)
  }

  // What does happen to the ring, and what it gives.
  datatype Player = Player(held: Held, given: seq<seq<byte>>)

  ghost function StepPlayer(B: nat, S: nat, p: Player, e: Input): (r: Player)
    requires HeldWell(B, p.held) && (e.Arrived? ==> |e.data| <= Total(B))
    ensures HeldWell(B, r.held)
  {
    match e
    case Arrived(data) => Player(Fill(B, S, p.held, data), p.given)
    case Updated(zeroed) =>
      var c := p.held.state;
      StepPlaced(B, S, c, Update(zeroed));
      AlignedFits(B, c.ring.read);
      Player(Held(Step(B, S, c, Update(zeroed)), p.held.buffer),
             if Plays(B, Zeroed(c, Update(zeroed))) then p.given + [Contribution(B, c.ring, p.held.buffer)]
             else p.given)
  }

  // The ring holds the bytes that are not gone, and the flags are those of the stream.
  ghost predicate Agrees(B: nat, p: Player, s: Stream) {
    && HeldWell(B, p.held) && s.gone <= |s.arrived|
    && Bears(B, p.held.state.ring, p.held.buffer, s.arrived[s.gone..]) && p.given == s.given
    && p.held.state.buffering == s.filling && p.held.state.copied == s.gave
  }

  // A codec block arrives.
  lemma {:induction false} ArriveBears(B: nat, S: nat, ring: Ring, buffer: seq<byte>, rest: seq<byte>, data: seq<byte>,
                                       gone: nat)
    requires 0 < S <= B && Bears(B, ring, buffer, rest) && Aligned(B, ring.read)
    requires |data| == S && ring.write + S <= Total(B) && gone == if |rest| + B >= Total(B) then B else 0
    ensures gone <= |rest| + S
    ensures Bears(B, Arrive(B, S, ring), Store(buffer, ring.write, data), (rest + data)[gone..])
  {
    AlignedFits(B, ring.read);
    WrapOnce(Total(B), ring.write + S);
    ArriveBalance(B, S, ring);
    StoreBears(B, ring, Arrive(B, S, ring), buffer, rest, data, gone);
  }

  // What is given are the bytes that wait longest.
  lemma {:induction false} PlayBears(B: nat, ring: Ring, buffer: seq<byte>, rest: seq<byte>, n: nat)
    requires Bears(B, ring, buffer, rest) && Aligned(B, ring.read) && rest != []
    requires n == if |rest| < B then |rest| else B
    ensures ring.read + B <= |buffer| && Contribution(B, ring, buffer) == rest[..n]
    ensures Bears(B, Play(B, ring), buffer, rest[n..])
  {
    AlignedFits(B, ring.read);
    PlayBalance(B, ring);
    forall i | 0 <= i < n
      ensures Contribution(B, ring, buffer)[i] == rest[..n][i]
    {
      assert buffer[Place(Total(B), ring.read, i)] == rest[i];
    }
    forall i | 0 <= i < |rest| - n
      ensures buffer[Place(Total(B), Play(B, ring).read, i)] == rest[n..][i]
    {
      assert buffer[Place(Total(B), ring.read, n + i)] == rest[n + i];
    }
  }

  lemma {:induction false} RestAfter(arrived: seq<byte>, data: seq<byte>, gone: nat, more: nat)
    requires gone <= |arrived| && gone + more <= |arrived| + |data|
    ensures (arrived[gone..] + data)[more..] == (arrived + data)[gone + more..]
    ensures data == [] ==> arrived[gone..][more..] == arrived[gone + more..]
    ensures gone + more <= |arrived| ==> arrived[gone..][..more] == arrived[gone..gone + more]
  {
  }

  lemma {:induction false} AgreesIs(B: nat, p: Player, s: Stream, rest: seq<byte>)
    requires HeldWell(B, p.held) && s.gone <= |s.arrived| && rest == s.arrived[s.gone..] && p.given == s.given
    requires Bears(B, p.held.state.ring, p.held.buffer, rest)
    requires p.held.state.buffering == s.filling && p.held.state.copied == s.gave
    ensures Agrees(B, p, s)
  {
  }

  lemma {:induction false} ArriveAgrees(B: nat, S: nat, p: Player, s: Stream, data: seq<byte>)
    requires 0 < S <= B && Agrees(B, p, s) && |data| == S && p.held.state.ring.write + S <= Total(B)
    ensures Agrees(B, StepPlayer(B, S, p, Arrived(data)), StepStream(B, s, Arrived(data)))
  {
    var rest := s.arrived[s.gone..];
    var more := if |rest| + B >= Total(B) then B else 0;
    ArriveBears(B, S, p.held.state.ring, p.held.buffer, rest, data, more);
    RestAfter(s.arrived, data, s.gone, more);
    AgreesIs(B, StepPlayer(B, S, p, Arrived(data)), StepStream(B, s, Arrived(data)), (rest + data)[more..]);
  }

  lemma {:induction false} UpdateAgrees(B: nat, S: nat, p: Player, s: Stream, zeroed: bool)
    requires Agrees(B, p, s)
    ensures Agrees(B, StepPlayer(B, S, p, Input.Updated(zeroed)), StepStream(B, s, Input.Updated(zeroed)))
  {
    var rest, ring := s.arrived[s.gone..], p.held.state.ring;
    var q, t := StepPlayer(B, S, p, Input.Updated(zeroed)), StepStream(B, s, Input.Updated(zeroed));
    StepPlaced(B, S, p.held.state, Update(zeroed));
    if Plays(B, Zeroed(p.held.state, Update(zeroed))) {
      var n := if |rest| < B then |rest| else B;
      PlayBears(B, ring, p.held.buffer, rest, n);
      RestAfter(s.arrived, [], s.gone, n);
      AgreesIs(B, q, t, rest[n..]);
    } else {
      AgreesIs(B, q, t, rest);
    }
  }

  // ------------------------------------------------------------ whole runs

  ghost predicate Sized(S: nat, events: seq<Input>) {
    forall i :: 0 <= i < |events| && events[i].Arrived? ==> |events[i].data| == S
  }

  ghost function PlayerAfter(B: nat, S: nat, memory: seq<byte>, events: seq<Input>): (p: Player)
    requires 0 < B && S <= B && |memory| == Total(B) && Sized(S, events)
    ensures HeldWell(B, p.held)
  {
    if |events| == 0 then Player(Held(OPENED, memory), [])
    else StepPlayer(B, S, PlayerAfter(B, S, memory, events[..|events| - 1]), events[|events| - 1])
  }

  function StreamAfter(B: nat, events: seq<Input>): (s: Stream)
    ensures s.gone <= |s.arrived|
  {
    if |events| == 0 then Stream([], 0, [], true, false)
    else StepStream(B, StreamAfter(B, events[..|events| - 1]), events[|events| - 1])
  }

  function EventsOf(events: seq<Input>): (r: seq<VoiceRings.Event>)
    ensures |r| == |events|
  {
    if |events| == 0 then []
    else
      EventsOf(events[..|events| - 1])
        + [match events[|events| - 1] case Arrived(_) => VoiceRings.Block case Updated(zeroed) => Update(zeroed)]
  }

  lemma {:induction false} StateIs(B: nat, S: nat, memory: seq<byte>, events: seq<Input>)
    requires 0 < B && S <= B && |memory| == Total(B) && Sized(S, events)
    ensures PlayerAfter(B, S, memory, events).held.state == After(B, S, EventsOf(events))
  {
    if |events| > 0 {
      StateIs(B, S, memory, events[..|events| - 1]);
      assert EventsOf(events)[..|events| - 1] == EventsOf(events[..|events| - 1]);
    }
  }

  // Where a user block is a whole number of codec blocks, the incoming ring is a
  // queue of bytes over every run, and gives what the stream says.
  lemma {:induction false} RunIsStream(B: nat, S: nat, memory: seq<byte>, events: seq<Input>)
    requires 0 < S <= B && Aligned(S, B) && |memory| == Total(B) && Sized(S, events)
    ensures Agrees(B, PlayerAfter(B, S, memory, events), StreamAfter(B, events))
  {
    if |events| > 0 {
      var before := events[..|events| - 1];
      RunIsStream(B, S, memory, before);
      match events[|events| - 1]
      case Arrived(data) =>
        StateIs(B, S, memory, before);
        VoiceReach.DividesWhole(B, S, EventsOf(before));
        ArriveAgrees(B, S, PlayerAfter(B, S, memory, before), StreamAfter(B, before), data);
      case Updated(zeroed) =>
        UpdateAgrees(B, S, PlayerAfter(B, S, memory, before), StreamAfter(B, before), zeroed);
    }
  }

  // Blocks are pieces of the first n bytes, one behind the other.
  ghost predicate InOrder(arrived: seq<byte>, given: seq<seq<byte>>, n: nat)
    decreases |given|
  {
    if |given| == 0 then true
    else
      var last := given[|given| - 1];
      n <= |arrived|
      && exists from: nat :: PieceAt(arrived, last, from) && from + |last| <= n
                             && InOrder(arrived, given[..|given| - 1], from)
  }

  predicate PieceAt(arrived: seq<byte>, piece: seq<byte>, from: nat) {
    from + |piece| <= |arrived| && arrived[from..from + |piece|] == piece
  }

  lemma {:induction false} InOrderOn(arrived: seq<byte>, data: seq<byte>, given: seq<seq<byte>>, n: nat, m: nat)
    requires InOrder(arrived, given, n) && n <= m <= |arrived| + |data|
    ensures InOrder(arrived + data, given, m)
    decreases |given|
  {
    if |given| > 0 {
      var last := given[|given| - 1];
      var from: nat :| PieceAt(arrived, last, from) && from + |last| <= n
                       && InOrder(arrived, given[..|given| - 1], from);
      InOrderOn(arrived, data, given[..|given| - 1], from, from);
      assert PieceAt(arrived + data, last, from);
    }
  }

  // What is given are the bytes that arrived, in the order in which they did, and none twice.
  lemma {:induction false} GivenInOrder(B: nat, events: seq<Input>)
    ensures InOrder(StreamAfter(B, events).arrived, StreamAfter(B, events).given, StreamAfter(B, events).gone)
  {
    if |events| > 0 {
      GivenInOrder(B, events[..|events| - 1]);
      var s, t := StreamAfter(B, events[..|events| - 1]), StreamAfter(B, events);
      match events[|events| - 1]
      case Arrived(data) => InOrderOn(s.arrived, data, s.given, s.gone, t.gone);
      case Updated(_) =>
        if t.given != s.given {
          assert t.given[..|t.given| - 1] == s.given;
          assert PieceAt(t.arrived, t.given[|t.given| - 1], s.gone);
        }
    }
  }

  function Joined(given: seq<seq<byte>>): seq<byte> {
    if |given| == 0 then [] else Joined(given[..|given| - 1]) + given[|given| - 1]
  }

  // Blocks in order that are as many bytes as are gone leave none of them out.
  lemma {:induction false} NoneLeftOut(arrived: seq<byte>, given: seq<seq<byte>>, n: nat)
    requires InOrder(arrived, given, n) && n <= |arrived|
    ensures |Joined(given)| <= n
    ensures |Joined(given)| == n ==> Joined(given) == arrived[..n]
    decreases |given|
  {
    if |given| > 0 {
      var last := given[|given| - 1];
      var from: nat :| PieceAt(arrived, last, from) && from + |last| <= n
                       && InOrder(arrived, given[..|given| - 1], from);
      NoneLeftOut(arrived, given[..|given| - 1], from);
      assert arrived[..from] + arrived[from..from + |last|] == arrived[..from + |last|];
    }
  }

  // What Update does with a channel is the step of these runs.
  lemma {:induction false} TurnIsStep(B: nat, S: nat, c: Incoming, d: Incoming, buffer: seq<byte>, zeroed: bool,
                                      was: seq<byte>, now: seq<byte>, given: seq<seq<byte>>)
    requires HeldWell(B, Held(c, buffer)) && d == Step(B, S, c, Update(zeroed))
    requires GivenBy(B, c, buffer, zeroed, was, now)
    ensures StepPlayer(B, S, Player(Held(c, buffer), given), Input.Updated(zeroed))
         == Player(Held(d, buffer), if Plays(B, Zeroed(c, Update(zeroed))) then given + [now] else given)
  {
  }
}
