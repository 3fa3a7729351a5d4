// One voice channel: the fields that OpenChannel sets up.
module VoiceChannels {
  import opened Bytes
  import opened VoiceRings
  import opened VoiceSequence
  import opened VoiceQueue

  // What changes over time about a channel, apart from its buffers.
  datatype View = View(incoming: Incoming, ring: Ring, sending: bool, number: int, expected: int, lastSend: int,
                       count: nat)

  // The state of the incoming ring and its buffer.
  datatype Held = Held(state: Incoming, buffer: seq<byte>)

  ghost predicate HeldWell(B: nat, h: Held) {
    B > 0 && |h.buffer| == Total(B) && Placed(B, h.state.ring) && Aligned(B, h.state.ring.read)
  }

  ghost function Fill(B: nat, S: nat, h: Held, data: seq<byte>): (r: Held)
    requires HeldWell(B, h) && |data| <= Total(B)
    ensures HeldWell(B, r)
  {
    StepPlaced(B, S, h.state, VoiceRings.Block);
    Held(Step(B, S, h.state, VoiceRings.Block), Store(h.buffer, h.state.ring.write, data))
  }

  // How the indices move when a block is written.
  lemma {:induction false} FillIs(B: nat, S: nat, h: Held, data: seq<byte>, r: nat, w: nat, g: Held)
    requires HeldWell(B, h) && |data| <= Total(B)
    requires r == if B >= Remaining(B, h.state.ring) then Advance(B, h.state.ring.read) else h.state.ring.read
    requires w == (h.state.ring.write + S) % Total(B)
    requires g
         == Held(Incoming(Ring(r, w), h.state.buffering, h.state.copied), Store(h.buffer, h.state.ring.write, data))
    ensures g == Fill(B, S, h, data) && HeldWell(B, g)
  {
    WrapIsMod(Total(B), h.state.ring.write + S);
  }

  ghost function Filled(B: nat, S: nat, h: Held, data: seq<byte>, n: nat): (r: Held)
    requires HeldWell(B, h) && |data| <= Total(B)
    ensures HeldWell(B, r)
    decreases n
  {
    if n == 0 then h else Fill(B, S, Filled(B, S, h, data, n - 1), data)
  }

  lemma {:induction false} FilledMore(B: nat, S: nat, h: Held, data: seq<byte>, n: nat, now: Held, next: Held)
    requires HeldWell(B, h) && |data| <= Total(B)
    requires now == Filled(B, S, h, data, n) && next == Fill(B, S, now, data)
    ensures next == Filled(B, S, h, data, n + 1)
  {
  }

  // With equal block sizes, what a message does to a channel is a step of the
  // runs that are described for its ring.
  lemma {:induction false} ReceivedIsStep(B: nat, sampleRate: int, h: Held, expected: int, place: nat,
                                          decoded: seq<byte>, interpolated: seq<byte>)
    requires HeldWell(B, h) && |decoded| == |interpolated| == B
    requires sampleRate == 8000 || sampleRate == 16000 || sampleRate == 32000
    ensures var number := Number(place);
      var n := Concealed(number, expected, sampleRate);
      var g := Fill(B, B, Filled(B, B, h, interpolated, n), decoded);
      StepChannel(B, Channel(h.state, h.buffer, expected), Message(place, decoded))
      == if Accepts(number, expected) then Channel(g.state, g.buffer, Next(number))
         else Channel(h.state, h.buffer, expected)
  {
    NeverConceals(Number(place), expected, sampleRate);
  }

  class VoiceChannel {
    const guid: int
    const speexOutgoingFrameSampleCount: nat
    const speexIncomingFrameSampleCount: nat
    const outgoingBuffer: array<byte>
    const incomingBuffer: array<byte>
    var outgoingReadIndex: nat
    var outgoingWriteIndex: nat
    var isSendingVoiceData: bool
    var bufferOutput: bool
    var copiedOutgoingBufferToBufferedOutput: bool
    var outgoingMessageNumber: int
    var incomingReadIndex: nat
    var incomingWriteIndex: nat
    var incomingMessageNumber: int
    var lastSend: int
    // How many messages were sent in all.
    ghost var sentCount: nat

    constructor (guid: int, frameSampleCount: nat, bufferSizeBytes: nat)
      requires frameSampleCount > 0 && bufferSizeBytes > 0
      ensures Valid(bufferSizeBytes) && fresh(outgoingBuffer) && fresh(incomingBuffer)
      ensures this.guid == guid && OutSize() == InSize() == frameSampleCount * 2
      ensures Incoming() == OPENED && Outgoing() == Ring(0, 0)
      ensures outgoingMessageNumber == incomingMessageNumber == sentCount == 0 && lastSend == 0 && !isSendingVoiceData
    {
      this.guid := guid;
      isSendingVoiceData := false;
      speexOutgoingFrameSampleCount := frameSampleCount;
      outgoingBuffer := new byte[bufferSizeBytes * BLOCKS];
      outgoingReadIndex, outgoingWriteIndex := 0, 0;
      bufferOutput := true;
      outgoingMessageNumber := 0;
      copiedOutgoingBufferToBufferedOutput := false;
      speexIncomingFrameSampleCount := frameSampleCount;
      incomingBuffer := new byte[bufferSizeBytes * BLOCKS];
      incomingReadIndex, incomingWriteIndex := 0, 0;
      lastSend := 0;
      incomingMessageNumber := 0;
      sentCount := 0;
    }

    function OutSize(): nat {
      speexOutgoingFrameSampleCount * SAMPLESIZE
    }

    function InSize(): nat {
      speexIncomingFrameSampleCount * SAMPLESIZE
    }

    function Incoming(): Incoming
      reads this
    {
      VoiceRings.Incoming(Ring(incomingReadIndex, incomingWriteIndex), bufferOutput,
                          copiedOutgoingBufferToBufferedOutput)
    }

    ghost function Contents(): Held
      reads this, incomingBuffer
    {
      Held(Incoming(), incomingBuffer[..])
    }

    function Outgoing(): Ring
      reads this
    {
      Ring(outgoingReadIndex, outgoingWriteIndex)
    }

    ghost function Now(): View
      reads this
    {
      View(Incoming(), Outgoing(), isSendingVoiceData, outgoingMessageNumber, incomingMessageNumber, lastSend,
           sentCount)
    }

    ghost predicate Valid(B: nat)
      reads this
    {
      && B > 0 && OutSize() > 0 && InSize() > 0
      && outgoingBuffer.Length == incomingBuffer.Length == Total(B) && outgoingBuffer != incomingBuffer
      && Placed(B, Incoming().ring) && Aligned(B, incomingReadIndex)
      && Placed(B, Outgoing()) && Aligned(B, outgoingWriteIndex)
      && outgoingMessageNumber == Number(sentCount)
      && 0 <= incomingMessageNumber < WRAP
    }
  }

  // A voice packet: its number and the frame that was encoded into it.
  datatype Packet = Packet(number: int, frame: seq<byte>)

  // The frame that Update hands to the encoder.  One that reaches the end of
  // the ring is taken from the start of the buffer.
  function FrameAt(B: nat, S: nat, buffer: seq<byte>, read: nat): seq<byte>
    requires |buffer| == Total(B) && S <= Total(B)
  {
    if read + S >= Total(B) then buffer[..S] else buffer[read..read + S]
  }

  // The encoder is given the oldest bytes, whatever they are, exactly when the
  // frame ends before the end of the ring, or the read index is at its start.
  lemma {:induction false} FrameIsOldestIff(B: nat, S: nat, read: nat)
    requires 0 < S <= Total(B) && read < Total(B)
    ensures (forall buffer: seq<byte> | |buffer| == Total(B) :: FrameAt(B, S, buffer, read) == Oldest(buffer, read, S))
      <==> read + S < Total(B) || read == 0
  {
    if read + S >= Total(B) && read != 0 {
      var buffer := Marked(Total(B), read);
      assert FrameAt(B, S, buffer, read)[0] == buffer[0] == 0;
      assert Oldest(buffer, read, S)[0] == buffer[read] == 1;
    } else {
      forall buffer: seq<byte> | |buffer| == Total(B)
        ensures FrameAt(B, S, buffer, read) == Oldest(buffer, read, S)
      {
      }
    }
  }
}
