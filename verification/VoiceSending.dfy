// From SendFrame to the packets of Update: what is sent are the bytes handed
// over, one codec block after the other.
module VoiceSending {
  import opened Bytes
  import opened VoiceRings
  import opened VoiceChannels
  import opened RakVoice
  import opened VoiceBytes
  import VoiceQueue

  // A call on a channel: SendFrame with a block of the user, or Update.
  datatype Call = Hand(data: seq<byte>) | Updated(currentTime: int, speech: seq<bool>, vad: bool)

  ghost predicate Sizes(B: nat, S: nat, calls: seq<Call>) {
    0 < B <= S <= Total(B) && forall i :: 0 <= i < |calls| && calls[i].Hand? ==> |calls[i].data| == B
  }

  // ------------------------------------------------- what should happen

  // The bytes handed over; how many codec blocks of them are gone, encoded or
  // dropped; which of these were sent; and when last.
  datatype Log = Log(handed: seq<byte>, next: nat, heard: seq<nat>, lastSend: int)

  // Of n blocks from next on, those that are sent: the ones with speech, or all.
  function Heard(next: nat, n: nat, speech: seq<bool>, vad: bool): seq<nat>
    decreases n
  {
    if n == 0 then []
    else Heard(next, n - 1, speech, vad) + if !vad || n - 1 >= |speech| || speech[n - 1] then [next + n - 1] else []
  }

  // A block is dropped when the ring would be full; all whole blocks that wait
  // are encoded, but not within 50 ms of the last time.
  function StepLog(B: nat, S: nat, l: Log, c: Call): Log
    requires S > 0
  {
    var waiting := |l.handed| - l.next * S;
    match c
    case Hand(data) => l.(handed := l.handed + data, next := if waiting + B >= Total(B) then l.next + 1 else l.next)
    case Updated(currentTime, speech, vad) =>
      var n: nat := if waiting < 0 then 0 else waiting / S;
      if (currentTime - l.lastSend) % 0x1_0000_0000 <= 50 || n == 0 then l
      else Log(l.handed, l.next + n, l.heard + Heard(l.next, n, speech, vad), currentTime)
  }

  function LogAfter(B: nat, S: nat, calls: seq<Call>): Log
    requires S > 0
  {
    if |calls| == 0 then Log([], 0, [], 0)
    else StepLog(B, S, LogAfter(B, S, calls[..|calls| - 1]), calls[|calls| - 1])
  }

  // ------------------------------------------------------ what happens

  // A channel's sending side, and the packets sent so far.
  datatype Sender = Sender(ring: Ring, buffer: seq<byte>, count: nat, lastSend: int, packets: seq<Packet>)

  ghost predicate Ready(B: nat, S: nat, s: Sender) {
    0 < B <= S <= Total(B) && |s.buffer| == Total(B) && Placed(B, s.ring) && Aligned(B, s.ring.write)
  }

  function StepSender(B: nat, S: nat, s: Sender, c: Call): Sender
    requires 0 < B && 0 < S && |s.buffer| == Total(B) && Placed(B, s.ring) && (c.Hand? ==> |c.data| == B)
  {
    match c
    case Hand(data) =>
      s.(ring := Send(B, S, s.ring), buffer := VoiceQueue.Store(s.buffer, s.ring.write, data))
    case Updated(currentTime, speech, vad) =>
      if Throttled(currentTime, s.lastSend) then s
      else
        var more := PassPackets(B, S, s.buffer, s.ring, speech, vad, s.count);
        Sender(OutStep(B, S, s.ring, Pass), s.buffer, s.count + |more|,
               if Frames(B, S, s.ring) > 0 then currentTime else s.lastSend, s.packets + more)
  }

  lemma {:induction false} StepReady(B: nat, S: nat, s: Sender, c: Call)
    requires Ready(B, S, s) && (c.Hand? ==> |c.data| == B)
    ensures Ready(B, S, StepSender(B, S, s, c))
  {
    AlignedFits(B, s.ring.write);
    PassBalance(B, S, s.ring);
  }

  ghost function SenderAfter(B: nat, S: nat, memory: seq<byte>, calls: seq<Call>): (s: Sender)
    requires Sizes(B, S, calls) && |memory| == Total(B)
    ensures Ready(B, S, s)
  {
    if |calls| == 0 then Sender(Ring(0, 0), memory, 0, 0, [])
    else
      StepReady(B, S, SenderAfter(B, S, memory, calls[..|calls| - 1]), calls[|calls| - 1]);
      StepSender(B, S, SenderAfter(B, S, memory, calls[..|calls| - 1]), calls[|calls| - 1])
  }

  // ------------------------------------------------- bytes in the ring

  // Where the indices are after a user block.
  lemma {:induction false} HandRing(B: nat, S: nat, ring: Ring, w: nat, gone: nat)
    requires 0 < B <= S <= Total(B) && Placed(B, ring) && Aligned(B, ring.write) && w == Waiting(B, ring)
    requires gone == if w + B >= Total(B) then S else 0
    ensures var next := Send(B, S, ring);
      && ring.write + B <= Total(B) && Placed(B, next) && gone <= w + B && Waiting(B, next) == w + B - gone
      && next.read == Place(Total(B), ring.read, gone)
      && ring.write == Place(Total(B), ring.read, w)
  {
    AlignedFits(B, ring.write);
    WrapOnce(Total(B), ring.read + S);
  }

  // A user block is appended, and if it may reach the read index, a codec block
  // is dropped in front.
  lemma {:induction false} HandBears(B: nat, S: nat, ring: Ring, buffer: seq<byte>, rest: seq<byte>, data: seq<byte>,
                                     gone: nat)
    requires 0 < B <= S <= Total(B) && Bears(B, ring, buffer, rest) && Aligned(B, ring.write) && |data| == B
    requires gone == if |rest| + B >= Total(B) then S else 0
    ensures ring.write + B <= |buffer| && gone <= |rest| + B
    ensures Bears(B, Send(B, S, ring), VoiceQueue.Store(buffer, ring.write, data), (rest + data)[gone..])
  {
    HandRing(B, S, ring, |rest|, gone);
    StoreBears(B, ring, Send(B, S, ring), buffer, rest, data, gone);
  }

  // ------------------------------------------------------------ encoding

  // A codec block in front of the ring is taken off.
  lemma {:induction false} EncodeBears(B: nat, S: nat, ring: Ring, buffer: seq<byte>, rest: seq<byte>)
    requires 0 < S <= |rest| && Bears(B, ring, buffer, rest)
    ensures Bears(B, Ring(Wrap(Total(B), ring.read + S), ring.write), buffer, rest[S..])
    ensures ring.read + S < Total(B) || ring.read == 0 ==> FrameAt(B, S, buffer, ring.read) == rest[..S]
  {
    WrapOnce(Total(B), ring.read + S);
    var next := Wrap(Total(B), ring.read + S);
    forall i | 0 <= i < |rest| - S
      ensures buffer[Place(Total(B), next, i)] == rest[S..][i]
    {
      assert buffer[Place(Total(B), ring.read, S + i)] == rest[S + i];
    }
    if ring.read + S < Total(B) || ring.read == 0 {
      forall i | 0 <= i < S
        ensures FrameAt(B, S, buffer, ring.read)[i] == rest[..S][i]
      {
        assert buffer[Place(Total(B), ring.read, i)] == rest[i];
      }
    }
  }

  // The ring bears the bytes handed over behind the first next codec blocks.
  ghost predicate Behind(B: nat, S: nat, ring: Ring, buffer: seq<byte>, handed: seq<byte>, next: nat) {
    && 0 < B <= S <= Total(B) && Span(S, next) <= |handed| && ring.read == Wrap(Total(B), Span(S, next))
    && Bears(B, ring, buffer, handed[Span(S, next)..])
  }

  // The codec block of this number does not reach the end of the ring.
  predicate WholeAt(B: nat, S: nat, c: nat)
    requires B > 0
  {
    var at := Wrap(Total(B), Span(S, c));
    at + S < Total(B) || at == 0
  }

  // The k-th packet is for codec block c of the bytes handed over.
  ghost predicate CarriesAt(B: nat, S: nat, handed: seq<byte>, c: nat, p: Packet, k: nat)
    requires B > 0
  {
    && p.number == k % 0x1_0000 && Span(S, c) + S <= |handed|
    && (WholeAt(B, S, c) ==> p.frame == handed[Span(S, c)..Span(S, c) + S])
  }

  ghost predicate Carries(B: nat, S: nat, handed: seq<byte>, heard: seq<nat>, packets: seq<Packet>, count: nat)
    requires B > 0
  {
    |packets| == |heard| && forall i :: 0 <= i < |heard| ==> CarriesAt(B, S, handed, heard[i], packets[i], count + i)
  }

  lemma {:induction false} WrapPlus(T: nat, x: nat, y: nat)
    requires T > 0
    ensures Wrap(T, Wrap(T, x) + y) == Wrap(T, x + y)
    decreases x
  {
    if x >= T {
      WrapPlus(T, x - T, y);
    }
  }

  lemma {:induction false} NextBlock(B: nat, S: nat, ring: Ring, buffer: seq<byte>, handed: seq<byte>, next: nat)
    requires Behind(B, S, ring, buffer, handed, next) && Span(S, next) + S <= |handed|
    ensures Behind(B, S, Ring(Wrap(Total(B), ring.read + S), ring.write), buffer, handed, next + 1)
    ensures WholeAt(B, S, next) ==> FrameAt(B, S, buffer, ring.read) == handed[Span(S, next)..Span(S, next) + S]
  {
    var rest := handed[Span(S, next)..];
    EncodeBears(B, S, ring, buffer, rest);
    WrapPlus(Total(B), Span(S, next), S);
    assert rest[S..] == handed[Span(S, next + 1)..];
    assert rest[..S] == handed[Span(S, next)..Span(S, next) + S];
  }

  lemma {:induction false} CarriesMore(B: nat, S: nat, handed: seq<byte>, heard: seq<nat>, packets: seq<Packet>,
                                       count: nat, c: nat, p: Packet)
    requires B > 0 && Carries(B, S, handed, heard, packets, count)
    requires CarriesAt(B, S, handed, c, p, count + |heard|)
    ensures Carries(B, S, handed, heard + [c], packets + [p], count)
  {
  }

  // What the encoder makes of one codec block.
  lemma {:induction false} FrameCarries(B: nat, S: nat, ring: Ring, buffer: seq<byte>, handed: seq<byte>, next: nat,
                                        heard: seq<nat>, packets: seq<Packet>, count: nat, sent: bool)
    requires Behind(B, S, ring, buffer, handed, next) && Span(S, next) + S <= |handed|
    requires Carries(B, S, handed, heard, packets, count)
    ensures Behind(B, S, Ring(Wrap(Total(B), ring.read + S), ring.write), buffer, handed, next + 1)
    ensures Carries(B, S, handed, heard + if sent then [next] else [],
                    packets + PacketFor(B, S, buffer, ring.read, sent, count + |packets|), count)
  {
    NextBlock(B, S, ring, buffer, handed, next);
    if sent {
      CarriesMore(B, S, handed, heard, packets, count, next,
                  PacketFor(B, S, buffer, ring.read, sent, count + |packets|)[0]);
    } else {
      assert heard + [] == heard && packets + [] == packets;
    }
  }

  // The packets of n frames carry those of the blocks that are heard.
  lemma {:induction false} PassCarries(B: nat, S: nat, ring: Ring, buffer: seq<byte>, handed: seq<byte>, next: nat,
                                       n: nat, speech: seq<bool>, vad: bool, count: nat)
    requires Behind(B, S, ring, buffer, handed, next) && Span(S, next + n) <= |handed|
    ensures Behind(B, S, Encode(B, S, ring, n), buffer, handed, next + n)
    ensures Carries(B, S, handed, Heard(next, n, speech, vad), Packets(B, S, buffer, ring, n, speech, vad, count),
                    count)
    decreases n
  {
    if n > 0 {
      var m := n - 1;
      assert Span(S, next + n) == Span(S, next + m) + S;
      PassCarries(B, S, ring, buffer, handed, next, m, speech, vad, count);
      var before, hs, ps := Encode(B, S, ring, m), Heard(next, m, speech, vad),
                            Packets(B, S, buffer, ring, m, speech, vad, count);
      var sent := Voiced(speech, m) || !vad;
      var p := PacketFor(B, S, buffer, before.read, sent, count + |ps|);
      FrameCarries(B, S, before, buffer, handed, next + m, hs, ps, count, sent);
      NextPackets(B, S, buffer, ring, m, speech, vad, count, ps, p, before,
                  Ring(Wrap(Total(B), before.read + S), before.write));
      assert Heard(next, n, speech, vad) == hs + if sent then [next + m] else [];
    }
  }

  // ------------------------------------------------------------ whole runs

  // The channel is where the log says.
  ghost predicate Agrees(B: nat, S: nat, s: Sender, l: Log) {
    && Ready(B, S, s) && Behind(B, S, s.ring, s.buffer, l.handed, l.next) && s.lastSend == l.lastSend
    && s.count == |s.packets| && Carries(B, S, l.handed, l.heard, s.packets, 0)
  }

  lemma {:induction false} CarriesOn(B: nat, S: nat, handed: seq<byte>, data: seq<byte>, heard: seq<nat>,
                                     packets: seq<Packet>, count: nat)
    requires B > 0 && Carries(B, S, handed, heard, packets, count)
    ensures Carries(B, S, handed + data, heard, packets, count)
  {
    forall i | 0 <= i < |heard|
      ensures CarriesAt(B, S, handed + data, heard[i], packets[i], count + i)
    {
      var at := Span(S, heard[i]);
      assert CarriesAt(B, S, handed, heard[i], packets[i], count + i);
      assert (handed + data)[at..at + S] == handed[at..at + S];
    }
  }

  lemma {:induction false} BehindIs(B: nat, S: nat, ring: Ring, buffer: seq<byte>, handed: seq<byte>, next: nat,
                                    at: nat, rest: seq<byte>)
    requires 0 < B <= S <= Total(B) && at == Span(S, next) <= |handed| && ring.read == Wrap(Total(B), at)
    requires rest == handed[at..] && Bears(B, ring, buffer, rest)
    ensures Behind(B, S, ring, buffer, handed, next)
  {
  }

  // A block is handed over.
  lemma {:induction false} HandBehind(B: nat, S: nat, ring: Ring, buffer: seq<byte>, handed: seq<byte>, next: nat,
                                      data: seq<byte>)
    requires Behind(B, S, ring, buffer, handed, next) && Aligned(B, ring.write) && |data| == B
    ensures ring.write + B <= |buffer|
    ensures Behind(B, S, Send(B, S, ring), VoiceQueue.Store(buffer, ring.write, data), handed + data,
                   if |handed| - Span(S, next) + B >= Total(B) then next + 1 else next)
  {
    var at, rest := Span(S, next), handed[Span(S, next)..];
    var gone := if |rest| + B >= Total(B) then S else 0;
    HandBears(B, S, ring, buffer, rest, data, gone);
    SendRead(B, S, ring, at, gone);
    RestWith(handed, data, at, gone);
    BehindIs(B, S, Send(B, S, ring), VoiceQueue.Store(buffer, ring.write, data), handed + data,
             if gone == 0 then next else next + 1, at + gone, (rest + data)[gone..]);
  }

  lemma {:induction false} SendRead(B: nat, S: nat, ring: Ring, at: nat, gone: nat)
    requires 0 < B && Placed(B, ring) && ring.read == Wrap(Total(B), at)
    requires gone == if Waiting(B, ring) + B >= Total(B) then S else 0
    ensures Send(B, S, ring).read == Wrap(Total(B), at + gone)
  {
    WrapPlus(Total(B), at, S);
  }

  lemma {:induction false} RestWith(handed: seq<byte>, data: seq<byte>, at: nat, gone: nat)
    requires at <= |handed| && at + gone <= |handed| + |data|
    ensures (handed[at..] + data)[gone..] == (handed + data)[at + gone..]
  {
  }

  lemma {:induction false} HandAgrees(B: nat, S: nat, s: Sender, l: Log, data: seq<byte>)
    requires Agrees(B, S, s, l) && |data| == B
    ensures Agrees(B, S, StepSender(B, S, s, Hand(data)), StepLog(B, S, l, Hand(data)))
  {
    StepReady(B, S, s, Hand(data));
    SpanIsTimes(S, l.next);
    HandBehind(B, S, s.ring, s.buffer, l.handed, l.next, data);
    CarriesOn(B, S, l.handed, data, l.heard, s.packets, 0);
  }

  // Packets behind packets.
  lemma {:induction false} CarriesBoth(B: nat, S: nat, handed: seq<byte>, h: seq<nat>, p: seq<Packet>, g: seq<nat>,
                                       q: seq<Packet>)
    requires B > 0 && Carries(B, S, handed, h, p, 0) && Carries(B, S, handed, g, q, |p|)
    ensures Carries(B, S, handed, h + g, p + q, 0)
  {
  }

  // A pass encodes the whole codec blocks that wait.
  lemma {:induction false} PassBehind(B: nat, S: nat, ring: Ring, buffer: seq<byte>, handed: seq<byte>, next: nat,
                                      n: nat, speech: seq<bool>, vad: bool, count: nat)
    requires Behind(B, S, ring, buffer, handed, next) && n == Frames(B, S, ring)
    ensures n == (|handed| - Span(S, next)) / S
    ensures Behind(B, S, OutStep(B, S, ring, Pass), buffer, handed, next + n)
    ensures Carries(B, S, handed, Heard(next, n, speech, vad), PassPackets(B, S, buffer, ring, speech, vad, count),
                    count)
  {
    var w := |handed| - Span(S, next);
    FullBlocks(w, S);
    SpanSum(S, next, n);
    PassCarries(B, S, ring, buffer, handed, next, n, speech, vad, count);
  }

  lemma {:induction false} SpanSum(S: nat, m: nat, n: nat)
    ensures Span(S, m + n) == Span(S, m) + Span(S, n)
    decreases n
  {
    if n > 0 {
      SpanSum(S, m, n - 1);
    }
  }

  lemma {:induction false} UpdateAgrees(B: nat, S: nat, s: Sender, l: Log, c: Call)
    requires Agrees(B, S, s, l) && c.Updated?
    ensures Agrees(B, S, StepSender(B, S, s, c), StepLog(B, S, l, c))
  {
    var n := Frames(B, S, s.ring);
    StepReady(B, S, s, c);
    SpanIsTimes(S, l.next);
    PassBehind(B, S, s.ring, s.buffer, l.handed, l.next, n, c.speech, c.vad, s.count);
    CarriesBoth(B, S, l.handed, l.heard, s.packets, Heard(l.next, n, c.speech, c.vad),
                PassPackets(B, S, s.buffer, s.ring, c.speech, c.vad, s.count));
  }

  lemma {:induction false} RunAgrees(B: nat, S: nat, memory: seq<byte>, calls: seq<Call>)
    requires Sizes(B, S, calls) && |memory| == Total(B)
    ensures Agrees(B, S, SenderAfter(B, S, memory, calls), LogAfter(B, S, calls))
  {
    if |calls| > 0 {
      var before, c := calls[..|calls| - 1], calls[|calls| - 1];
      RunAgrees(B, S, memory, before);
      match c
      case Hand(data) => HandAgrees(B, S, SenderAfter(B, S, memory, before), LogAfter(B, S, before), data);
      case Updated(_, _, _) => UpdateAgrees(B, S, SenderAfter(B, S, memory, before), LogAfter(B, S, before), c);
    }
  }

  // Over every run, the packets are those of the log, numbered from 0 modulo
  // 65536.  Each carries the bytes handed over from its codec block on, if that
  // does not reach the end of the ring.
  lemma {:induction false} SentAsHanded(B: nat, S: nat, memory: seq<byte>, calls: seq<Call>)
    requires Sizes(B, S, calls) && |memory| == Total(B)
    ensures var packets, l := SenderAfter(B, S, memory, calls).packets, LogAfter(B, S, calls);
      && |packets| == |l.heard|
      && forall i :: 0 <= i < |l.heard| ==>
           var at := l.heard[i] * S;
           && packets[i].number == i % 65536 && 0 <= at && at + S <= |l.handed|
           && (at % (100 * B) + S < 100 * B || at % (100 * B) == 0 ==> packets[i].frame == l.handed[at..at + S])
  {
    RunAgrees(B, S, memory, calls);
    var packets, l := SenderAfter(B, S, memory, calls).packets, LogAfter(B, S, calls);
    forall i | 0 <= i < |l.heard|
      ensures Span(S, l.heard[i]) == l.heard[i] * S
      ensures Wrap(Total(B), Span(S, l.heard[i])) == Span(S, l.heard[i]) % Total(B)
      ensures CarriesAt(B, S, l.handed, l.heard[i], packets[i], i)
    {
      SpanIsTimes(S, l.heard[i]);
      WrapIsMod(Total(B), Span(S, l.heard[i]));
      assert CarriesAt(B, S, l.handed, l.heard[i], packets[i], 0 + i);
    }
  }

  ghost predicate Increasing(heard: seq<nat>, next: nat) {
    (forall i :: 0 <= i < |heard| ==> heard[i] < next) && (forall i, j :: 0 <= i < j < |heard| ==> heard[i] < heard[j])
  }

  lemma {:induction false} HeardIncreasing(next: nat, n: nat, speech: seq<bool>, vad: bool)
    ensures Increasing(Heard(next, n, speech, vad), next + n)
    ensures forall i :: 0 <= i < |Heard(next, n, speech, vad)| ==> next <= Heard(next, n, speech, vad)[i]
    decreases n
  {
    if n > 0 {
      HeardIncreasing(next, n - 1, speech, vad);
    }
  }

  // They are sent in the order of handing over, and none twice.
  lemma {:induction false} SentInOrder(B: nat, S: nat, calls: seq<Call>)
    requires S > 0
    ensures Increasing(LogAfter(B, S, calls).heard, LogAfter(B, S, calls).next)
  {
    if |calls| > 0 {
      var before, c := calls[..|calls| - 1], calls[|calls| - 1];
      SentInOrder(B, S, before);
      if c.Updated? {
        var l := LogAfter(B, S, before);
        var n := LogAfter(B, S, calls).next - l.next;
        HeardIncreasing(l.next, n, c.speech, c.vad);
      }
    }
  }

  // Without voice detection nothing that is encoded is left out.
  lemma {:induction false} AllHeard(next: nat, n: nat, speech: seq<bool>)
    ensures Heard(next, n, speech, false) == seq(n, i requires 0 <= i < n => next + i)
    decreases n
  {
    if n > 0 {
      AllHeard(next, n - 1, speech);
    }
  }

  // ------------------------------------------------------------ the class

  // What Update does with a channel, and what SendFrame does, are the steps of
  // these runs.
  lemma {:induction false} UpdateIsStep(B: nat, S: nat, c: View, d: View, buffer: seq<byte>, currentTime: int,
                                        speech: seq<bool>, vad: bool, more: seq<Packet>, sent: seq<Packet>)
    requires Passed(B, S, c, d, buffer, currentTime, speech, vad, more)
    requires B > 0 && S > 0 && |buffer| == Total(B) && Placed(B, c.ring)
    ensures StepSender(B, S, Sender(c.ring, buffer, c.count, c.lastSend, sent), Call.Updated(currentTime, speech, vad))
         == Sender(d.ring, buffer, d.count, d.lastSend, sent + more)
  {
  }

  twostate lemma {:induction false} SendIsStep(B: nat, c: VoiceChannel, data: seq<byte>, sent: seq<Packet>)
    requires SentOne(B, c, c.guid, data) && old(c.Valid(B)) && |data| == B
    ensures StepSender(B, c.OutSize(), Sender(old(c.Outgoing()), old(c.outgoingBuffer[..]), old(c.sentCount),
                                              old(c.lastSend), sent), Hand(data))
         == Sender(c.Outgoing(), c.outgoingBuffer[..], c.sentCount, c.lastSend, sent)
  {
  }
}
