// RakVoice: voice frames in and out of the ring buffers of the open channels.
module RakVoice {
  import opened Bytes
  import opened VoiceRings
  import opened VoiceSequence
  import opened VoiceQueue
  import opened VoiceMix
  import opened VoiceChannels

  const TIME: int := 0x1_0000_0000

  // UNASSIGNED_RAKNET_GUID stands for all users.
  const UNASSIGNED: int := 0xFFFF_FFFF_FFFF_FFFF

  // No channel sends more than 20 times a second.
  predicate Throttled(currentTime: int, lastSend: int) {
    (currentTime - lastSend) % TIME <= 50
  }

  // What is heard of the k-th frame: the encoder's answer.
  predicate Voiced(speech: seq<bool>, k: nat) {
    k >= |speech| || speech[k]
  }

  // The packet for a frame, if it is sent.
  function PacketFor(B: nat, S: nat, buffer: seq<byte>, read: nat, sent: bool, count: nat): seq<Packet>
    requires |buffer| == Total(B) && S <= Total(B)
  {
    if sent then [Packet(Number(count), FrameAt(B, S, buffer, read))] else []
  }

  // The packets for the next n frames.
  function Packets(B: nat, S: nat, buffer: seq<byte>, ring: Ring, n: nat, speech: seq<bool>, vad: bool,
                   count: nat): seq<Packet>
    requires B > 0 && |buffer| == Total(B) && S <= Total(B)
    decreases n
  {
    if n == 0 then []
    else
      var before := Packets(B, S, buffer, ring, n - 1, speech, vad, count);
      before + PacketFor(B, S, buffer, Encode(B, S, ring, n - 1).read, Voiced(speech, n - 1) || !vad, count + |before|)
  }

  lemma {:induction false} NextPackets(B: nat, S: nat, buffer: seq<byte>, ring: Ring, n: nat, speech: seq<bool>,
                                       vad: bool, count: nat, sofar: seq<Packet>, packet: seq<Packet>, before: Ring,
                                       after: Ring)
    requires B > 0 && |buffer| == Total(B) && S <= Total(B)
    requires sofar == Packets(B, S, buffer, ring, n, speech, vad, count) && before == Encode(B, S, ring, n)
    requires packet == PacketFor(B, S, buffer, before.read, Voiced(speech, n) || !vad, count + |sofar|)
    requires after == Ring(Wrap(Total(B), before.read + S), before.write)
    ensures sofar + packet == Packets(B, S, buffer, ring, n + 1, speech, vad, count)
    ensures after == Encode(B, S, ring, n + 1)
  {
  }

  // The packets of one pass over the ring.
  function PassPackets(B: nat, S: nat, buffer: seq<byte>, ring: Ring, speech: seq<bool>, vad: bool,
                       count: nat): seq<Packet>
    requires B > 0 && S > 0 && |buffer| == Total(B) && Placed(B, ring)
  {
    if Frames(B, S, ring) == 0 then []
    else
      BlockFits(Waiting(B, ring), S);
      Packets(B, S, buffer, ring, Frames(B, S, ring), speech, vad, count)
  }

  lemma {:induction false} SmallMod(j: nat, m: nat)
    requires j < m
    ensures j % m == j
  {
  }

  ghost function Nothing(n: nat): (blocks: seq<seq<byte>>)
    ensures |blocks| == n && forall i :: 0 <= i < n ==> blocks[i] == []
  {
    if n == 0 then [] else Nothing(n - 1) + [[]]
  }

  lemma {:induction false} BlockFits(w: nat, S: nat)
    requires S > 0 && w / S > 0
    ensures S <= w
  {
  }

  // How the indices move when a frame is taken from the user.
  lemma {:induction false} SendIs(B: nat, S: nat, ring: Ring, r: nat, w: nat)
    requires B > 0 && Placed(B, ring) && Aligned(B, ring.write)
    requires w == if ring.write + B == Total(B) then 0 else ring.write + B
    requires r == if B >= Remaining(B, ring) then (ring.read + S) % Total(B) else ring.read
    ensures Ring(r, w) == Send(B, S, ring) && Placed(B, Ring(r, w)) && Aligned(B, w)
  {
    AlignedFits(B, ring.write);
    WrapIsMod(Total(B), ring.read + S);
  }

  // The output stays the sum when one more block is added to it.
  lemma {:induction false} OutputUpdated(was: seq<int>, now: seq<int>, given: seq<seq<byte>>, k: nat, block: seq<byte>)
    requires |was| == |now| && k < |given| && given[k] == []
    requires forall j :: 0 <= j < |was| ==> was[j] == SumAt(given, j)
    requires forall j :: 0 <= j < |was| ==> now[j] == was[j] + SampleAt(block, j)
    ensures forall j :: 0 <= j < |now| ==> now[j] == SumAt(given[k := block], j)
  {
    forall j | 0 <= j < |now|
      ensures now[j] == SumAt(given[k := block], j)
    {
      SumUpdated(given, k, block, j);
    }
  }

  class RakVoice {
    const sampleRate: int
    const bufferSizeBytes: nat
    const bufferedOutput: array<int>
    var zeroBufferedOutput: bool
    var defaultVADState: bool
    var voiceChannels: seq<VoiceChannel>
    // What each channel has given since the output was last zeroed.
    ghost var given: seq<seq<byte>>

    constructor (speexSampleRate: int, newBufferSizeBytes: nat)
      requires speexSampleRate > 0 && newBufferSizeBytes > 0
      ensures Valid() && fresh(bufferedOutput) && voiceChannels == [] && !zeroBufferedOutput
      ensures sampleRate == speexSampleRate && bufferSizeBytes == newBufferSizeBytes && defaultVADState
      ensures bufferedOutput.Length == newBufferSizeBytes / 2
    {
      sampleRate := speexSampleRate;
      bufferSizeBytes := newBufferSizeBytes;
      bufferedOutput := new int[newBufferSizeBytes / SAMPLESIZE](_ => 0);
      zeroBufferedOutput := false;
      defaultVADState := true;
      voiceChannels := [];
      given := [];
    }

    ghost predicate ChannelsValid()
      reads this, voiceChannels
    {
      && sampleRate > 0 && bufferSizeBytes > 0 && bufferedOutput.Length == bufferSizeBytes / SAMPLESIZE
      && Distinct(voiceChannels)
      && (forall k :: 0 <= k < |voiceChannels| ==> voiceChannels[k].Valid(bufferSizeBytes))
    }

    // A channel that has not played since the output was zeroed has given nothing.
    ghost predicate GivenValid()
      reads this, voiceChannels
    {
      && |given| == |voiceChannels|
      && (forall k :: 0 <= k < |given| && !voiceChannels[k].copiedOutgoingBufferToBufferedOutput ==> given[k] == [])
    }

    // The output is the sum of what the channels have given.
    ghost predicate OutputIs(blocks: seq<seq<byte>>)
      reads bufferedOutput
    {
      forall j :: 0 <= j < bufferedOutput.Length ==> bufferedOutput[j] == SumAt(blocks, j)
    }

    ghost predicate Valid()
      reads this, bufferedOutput, voiceChannels
    {
      ChannelsValid() && GivenValid() && OutputIs(given)
    }

    method WriteOutputToChannel(channel: VoiceChannel, dataToWrite: seq<byte>)
      requires channel.Valid(bufferSizeBytes) && |dataToWrite| == channel.InSize() <= Total(bufferSizeBytes)
      modifies channel`incomingReadIndex, channel`incomingWriteIndex, channel.incomingBuffer
      ensures channel.Valid(bufferSizeBytes)
      ensures channel.Contents() == Fill(bufferSizeBytes, channel.InSize(), old(channel.Contents()), dataToWrite)
    {
      var totalBufferSize := bufferSizeBytes * BLOCKS;
      var remainingBufferSize;
      if channel.incomingWriteIndex >= channel.incomingReadIndex {
        remainingBufferSize := totalBufferSize - (channel.incomingWriteIndex - channel.incomingReadIndex);
      } else {
        remainingBufferSize := channel.incomingReadIndex - channel.incomingWriteIndex;
      }
      var speexBlockSize := channel.speexIncomingFrameSampleCount * SAMPLESIZE;
      ghost var held := channel.Contents();
      CopyToRing(channel.incomingBuffer, channel.incomingWriteIndex, dataToWrite);
      channel.incomingWriteIndex := (channel.incomingWriteIndex + speexBlockSize) % totalBufferSize;
      if bufferSizeBytes >= remainingBufferSize {
        channel.incomingReadIndex := channel.incomingReadIndex + bufferSizeBytes;
        if channel.incomingReadIndex == totalBufferSize {
          channel.incomingReadIndex := 0;
        }
      }
      FillIs(bufferSizeBytes, channel.InSize(), held, dataToWrite, channel.incomingReadIndex,
             channel.incomingWriteIndex, channel.Contents());
    }

    // Fill in for missing messages.
    method Conceal(channel: VoiceChannel, messagesSkipped: nat, maxSkip: nat, interpolated: seq<byte>)
      requires channel.Valid(bufferSizeBytes)
      requires |interpolated| == channel.InSize() <= Total(bufferSizeBytes)
      modifies channel`incomingReadIndex, channel`incomingWriteIndex, channel.incomingBuffer
      ensures channel.Valid(bufferSizeBytes)
      ensures channel.Contents() == Filled(bufferSizeBytes, channel.InSize(), old(channel.Contents()), interpolated,
                                             Least(messagesSkipped, maxSkip))
    {
      var i := 0;
      ghost var B, S, start := bufferSizeBytes, channel.InSize(), channel.Contents();
      ghost var now := start;
      while i < messagesSkipped && i < maxSkip
        invariant 0 <= i <= Least(messagesSkipped, maxSkip) && channel.Valid(bufferSizeBytes)
        invariant now == channel.Contents() && now == Filled(B, S, start, interpolated, i)
      {
        WriteOutputToChannel(channel, interpolated);
        FilledMore(B, S, start, interpolated, i, now, channel.Contents());
        i := i + 1;
        now := channel.Contents();
      }
      assert i == Least(messagesSkipped, maxSkip);
    }

    // One voice packet of a channel: its number, and what the codec makes of it
    // and of a message that is missing.
    method OnChannelData(channel: VoiceChannel, packetMessageNumber: int, decoded: seq<byte>, interpolated: seq<byte>)
      requires sampleRate > 0 && channel.Valid(bufferSizeBytes) && 0 <= packetMessageNumber < WRAP
      requires |decoded| == |interpolated| == channel.InSize() <= Total(bufferSizeBytes)
      modifies channel`incomingReadIndex, channel`incomingWriteIndex, channel`incomingMessageNumber,
               channel.incomingBuffer
      ensures channel.Valid(bufferSizeBytes)
      ensures Accepts(packetMessageNumber, old(channel.incomingMessageNumber)) ==>
        var n := Concealed(packetMessageNumber, old(channel.incomingMessageNumber), sampleRate);
        var filled := Filled(bufferSizeBytes, channel.InSize(), old(channel.Contents()), interpolated, n);
        && channel.Contents() == Fill(bufferSizeBytes, channel.InSize(), filled, decoded)
        && channel.incomingMessageNumber == Next(packetMessageNumber)
      ensures !Accepts(packetMessageNumber, old(channel.incomingMessageNumber)) ==>
        && channel.Contents() == old(channel.Contents())
        && channel.incomingMessageNumber == old(channel.incomingMessageNumber)
    {
      var messagesSkipped := (packetMessageNumber - channel.incomingMessageNumber) % WRAP;
      if messagesSkipped > 65535 / 2 {
        return;
      }
      var maxSkip := 100 / sampleRate;
      Conceal(channel, messagesSkipped, maxSkip, interpolated);
      channel.incomingMessageNumber := (packetMessageNumber + 1) % WRAP;
      WriteOutputToChannel(channel, decoded);
    }

    // SendFrame, once the channel is found.
    method SendTo(channel: VoiceChannel, inputBuffer: seq<byte>)
      requires channel.Valid(bufferSizeBytes) && |inputBuffer| == bufferSizeBytes
      modifies channel`outgoingReadIndex, channel`outgoingWriteIndex, channel.outgoingBuffer
      ensures channel.Valid(bufferSizeBytes)
      ensures channel.Outgoing() == Send(bufferSizeBytes, channel.OutSize(), old(channel.Outgoing()))
      ensures channel.outgoingBuffer[..]
           == Store(old(channel.outgoingBuffer[..]), old(channel.outgoingWriteIndex), inputBuffer)
      ensures old(channel.outgoingWriteIndex) + bufferSizeBytes <= channel.outgoingBuffer.Length
    {
      var totalBufferSize := bufferSizeBytes * BLOCKS;
      var remainingBufferSize;
      if channel.outgoingWriteIndex >= channel.outgoingReadIndex {
        remainingBufferSize := totalBufferSize - (channel.outgoingWriteIndex - channel.outgoingReadIndex);
      } else {
        remainingBufferSize := channel.outgoingReadIndex - channel.outgoingWriteIndex;
      }
      AlignedFits(bufferSizeBytes, channel.outgoingWriteIndex);
      ghost var ring := channel.Outgoing();
      CopyFrame(channel.outgoingBuffer, channel.outgoingWriteIndex, inputBuffer);
      channel.outgoingWriteIndex := channel.outgoingWriteIndex + bufferSizeBytes;
      if channel.outgoingWriteIndex == totalBufferSize {
        channel.outgoingWriteIndex := 0;
      }
      if bufferSizeBytes >= remainingBufferSize {
        var speexBlockSize := channel.speexOutgoingFrameSampleCount * SAMPLESIZE;
        channel.outgoingReadIndex := (channel.outgoingReadIndex + speexBlockSize) % totalBufferSize;
      }
      SendIs(bufferSizeBytes, channel.OutSize(), ring, channel.outgoingReadIndex, channel.outgoingWriteIndex);
    }

    method BytesAvailable(channel: VoiceChannel) returns (n: int)
      requires channel.Valid(bufferSizeBytes)
      ensures n == Waiting(bufferSizeBytes, channel.Outgoing())
    {
      if channel.outgoingWriteIndex >= channel.outgoingReadIndex {
        n := channel.outgoingWriteIndex - channel.outgoingReadIndex;
      } else {
        n := channel.outgoingWriteIndex + (bufferSizeBytes * BLOCKS - channel.outgoingReadIndex);
      }
    }

    // Update's encoding of the frames that are waiting on a channel.
    method SendPass(channel: VoiceChannel, currentTime: int, speech: seq<bool>) returns (packets: seq<Packet>)
      requires channel.Valid(bufferSizeBytes)
      modifies channel`outgoingReadIndex, channel`isSendingVoiceData, channel`outgoingMessageNumber,
               channel`lastSend, channel`sentCount
      ensures channel.Valid(bufferSizeBytes)
      ensures Passed(bufferSizeBytes, channel.OutSize(), old(channel.Now()), channel.Now(),
                     channel.outgoingBuffer[..], currentTime, speech, defaultVADState, packets)
    {
      packets := [];
      if (currentTime - channel.lastSend) % TIME > 50 {
        channel.isSendingVoiceData := false;
        var bytesAvailable := BytesAvailable(channel);
        var speexBlockSize := channel.speexOutgoingFrameSampleCount * SAMPLESIZE;
        var speexFramesAvailable := bytesAvailable / speexBlockSize;
        if speexFramesAvailable > 0 {
          BlockFits(bytesAvailable, speexBlockSize);
          packets := EncodeFrames(channel, speexFramesAvailable, speech);
          channel.lastSend := currentTime;
        }
      }
    }

    // The encoding loop.
    method EncodeFrames(channel: VoiceChannel, n: nat, speech: seq<bool>) returns (packets: seq<Packet>)
      requires channel.Valid(bufferSizeBytes) && channel.OutSize() <= Total(bufferSizeBytes)
      modifies channel`outgoingReadIndex, channel`isSendingVoiceData, channel`outgoingMessageNumber, channel`sentCount
      ensures channel.Valid(bufferSizeBytes)
      ensures channel.Outgoing() == Encode(bufferSizeBytes, channel.OutSize(), old(channel.Outgoing()), n)
      ensures packets == Packets(bufferSizeBytes, channel.OutSize(), channel.outgoingBuffer[..],
                                 old(channel.Outgoing()), n, speech, defaultVADState, old(channel.sentCount))
      ensures channel.isSendingVoiceData == (old(channel.isSendingVoiceData) || packets != [])
      ensures channel.sentCount == old(channel.sentCount) + |packets|
    {
      packets := [];
      ghost var ring, count := channel.Outgoing(), channel.sentCount;
      for k := 0 to n
        invariant channel.Valid(bufferSizeBytes)
        invariant Encoded(channel, ring, count, k, speech, packets)
        invariant channel.isSendingVoiceData == (old(channel.isSendingVoiceData) || packets != [])
      {
        packets := EncodeMore(channel, k, speech, packets, ring, count);
      }
    }

    // The first k frames have been taken off the ring, and packets sent for them.
    ghost predicate Encoded(channel: VoiceChannel, ring: Ring, count: nat, k: nat, speech: seq<bool>,
                            packets: seq<Packet>)
      requires channel.Valid(bufferSizeBytes) && channel.OutSize() <= Total(bufferSizeBytes)
      reads `defaultVADState, channel, channel.outgoingBuffer
    {
      && channel.Outgoing() == Encode(bufferSizeBytes, channel.OutSize(), ring, k)
      && channel.sentCount == count + |packets|
      && packets == Packets(bufferSizeBytes, channel.OutSize(), channel.outgoingBuffer[..], ring, k, speech,
                            defaultVADState, count)
    }

    // The k-th frame.
    method EncodeMore(channel: VoiceChannel, k: nat, speech: seq<bool>, packets: seq<Packet>, ghost ring: Ring,
                      ghost count: nat)
      returns (more: seq<Packet>)
      requires channel.Valid(bufferSizeBytes) && channel.OutSize() <= Total(bufferSizeBytes)
      requires Encoded(channel, ring, count, k, speech, packets)
      modifies channel`outgoingReadIndex, channel`isSendingVoiceData, channel`outgoingMessageNumber, channel`sentCount
      ensures channel.Valid(bufferSizeBytes)
      ensures Encoded(channel, ring, count, k + 1, speech, more)
      ensures |more| >= |packets|
      ensures channel.isSendingVoiceData == (old(channel.isSendingVoiceData) || |more| > |packets|)
    {
      ghost var before, buffer := channel.Outgoing(), channel.outgoingBuffer[..];
      var packet := EncodeNext(channel, Voiced(speech, k));
      NextPackets(bufferSizeBytes, channel.OutSize(), buffer, ring, k, speech, defaultVADState, count, packets, packet,
                  before, channel.Outgoing());
      more := packets + packet;
    }

    // Encode the next frame, and send it if something is heard in it.
    method EncodeNext(channel: VoiceChannel, isSpeech: bool) returns (packet: seq<Packet>)
      requires channel.Valid(bufferSizeBytes) && channel.OutSize() <= Total(bufferSizeBytes)
      modifies channel`outgoingReadIndex, channel`isSendingVoiceData, channel`outgoingMessageNumber, channel`sentCount
      ensures channel.Valid(bufferSizeBytes)
      ensures channel.outgoingReadIndex
           == Wrap(Total(bufferSizeBytes), old(channel.outgoingReadIndex) + channel.OutSize())
      ensures packet
           == PacketFor(bufferSizeBytes, channel.OutSize(), channel.outgoingBuffer[..], old(channel.outgoingReadIndex),
                                  isSpeech || !defaultVADState, old(channel.sentCount))
      ensures channel.isSendingVoiceData == (old(channel.isSendingVoiceData) || packet != [])
      ensures channel.sentCount == old(channel.sentCount) + |packet|
    {
      var inputBuffer := NextFrame(channel);
      if !isSpeech && defaultVADState {
        return [];
      }
      var sent := SendPacket(channel, inputBuffer);
      packet := [sent];
    }

    // Number a frame and send it.
    method SendPacket(channel: VoiceChannel, inputBuffer: seq<byte>) returns (packet: Packet)
      requires channel.Valid(bufferSizeBytes)
      modifies channel`isSendingVoiceData, channel`outgoingMessageNumber, channel`sentCount
      ensures channel.Valid(bufferSizeBytes) && channel.isSendingVoiceData
      ensures packet == Packet(Number(old(channel.sentCount)), inputBuffer)
      ensures channel.sentCount == old(channel.sentCount) + 1
    {
      channel.isSendingVoiceData := true;
      packet := Packet(channel.outgoingMessageNumber, inputBuffer);
      channel.outgoingMessageNumber := (channel.outgoingMessageNumber + 1) % WRAP;
      channel.sentCount := channel.sentCount + 1;
    }

    // Take the next frame off the ring.
    method NextFrame(channel: VoiceChannel) returns (inputBuffer: seq<byte>)
      requires channel.Valid(bufferSizeBytes) && channel.OutSize() <= Total(bufferSizeBytes)
      modifies channel`outgoingReadIndex
      ensures channel.Valid(bufferSizeBytes)
      ensures channel.outgoingReadIndex
           == Wrap(Total(bufferSizeBytes), old(channel.outgoingReadIndex) + channel.OutSize())
      ensures inputBuffer
           == FrameAt(bufferSizeBytes, channel.OutSize(), channel.outgoingBuffer[..], old(channel.outgoingReadIndex))
    {
      var totalBufferSize := bufferSizeBytes * BLOCKS;
      var speexBlockSize := channel.speexOutgoingFrameSampleCount * SAMPLESIZE;
      if channel.outgoingReadIndex + speexBlockSize >= totalBufferSize {
        inputBuffer := channel.outgoingBuffer[..speexBlockSize];
      } else {
        inputBuffer := channel.outgoingBuffer[channel.outgoingReadIndex..channel.outgoingReadIndex + speexBlockSize];
      }
      WrapIsMod(totalBufferSize, channel.outgoingReadIndex + speexBlockSize);
      channel.outgoingReadIndex := (channel.outgoingReadIndex + speexBlockSize) % totalBufferSize;
    }

    method BytesWaitingToReturn(channel: VoiceChannel) returns (n: int)
      requires channel.Valid(bufferSizeBytes)
      ensures n == Waiting(bufferSizeBytes, channel.Incoming().ring)
    {
      if channel.incomingReadIndex <= channel.incomingWriteIndex {
        n := channel.incomingWriteIndex - channel.incomingReadIndex;
      } else {
        n := bufferSizeBytes * BLOCKS - channel.incomingReadIndex + channel.incomingWriteIndex;
      }
    }

    // Add n bytes of samples to the output.
    method AddSamples(buffer: array<byte>, read: nat, n: nat)
      requires bufferedOutput.Length == bufferSizeBytes / SAMPLESIZE && n <= bufferSizeBytes
      requires buffer.Length == Total(bufferSizeBytes) && read + bufferSizeBytes <= buffer.Length
      modifies bufferedOutput
      ensures forall j :: 0 <= j < bufferedOutput.Length ==>
        bufferedOutput[j] == old(bufferedOutput[j]) + SampleAt(buffer[read..read + n], j)
    {
      var block := buffer[read..read + n];
      var j := 0;
      while j < n / SAMPLESIZE
        invariant 0 <= j <= n / SAMPLESIZE
        invariant forall i :: 0 <= i < j ==> bufferedOutput[i] == old(bufferedOutput[i]) + SampleAt(block, i)
        invariant forall i :: j <= i < bufferedOutput.Length ==> bufferedOutput[i] == old(bufferedOutput[i])
      {
        var i := j % (bufferSizeBytes * BLOCKS / SAMPLESIZE);
        SmallMod(j, bufferSizeBytes * BLOCKS / SAMPLESIZE);
        bufferedOutput[j] := bufferedOutput[j] + Sample(buffer[read + 2 * i], buffer[read + 2 * i + 1]);
        j := j + 1;
      }
    }

    // Play the channel's next block: the indices and flags.
    method PlayBlock(channel: VoiceChannel) returns (n: nat)
      requires bufferedOutput.Length == bufferSizeBytes / SAMPLESIZE
      requires channel.Valid(bufferSizeBytes) && Plays(bufferSizeBytes, channel.Incoming())
      modifies channel`incomingReadIndex, channel`incomingWriteIndex, channel`bufferOutput,
               channel`copiedOutgoingBufferToBufferedOutput, bufferedOutput
      ensures channel.Valid(bufferSizeBytes)
      ensures channel.Incoming() == Turn(bufferSizeBytes, old(channel.Incoming()))
      ensures old(channel.incomingReadIndex) + bufferSizeBytes <= channel.incomingBuffer.Length
      ensures forall j :: 0 <= j < bufferedOutput.Length ==>
        bufferedOutput[j] == old(bufferedOutput[j])
                             + SampleAt(Contribution(bufferSizeBytes, old(channel.Incoming().ring),
                                                     channel.incomingBuffer[..]), j)
    {
      AlignedFits(bufferSizeBytes, channel.incomingReadIndex);
      n := TakeBlock(channel);
      AddSamples(channel.incomingBuffer, channel.incomingReadIndex, n);
      channel.incomingReadIndex := channel.incomingReadIndex + bufferSizeBytes;
      if channel.incomingReadIndex == bufferSizeBytes * BLOCKS {
        channel.incomingReadIndex := 0;
      }
    }

    // The flags, and how many bytes there are of the block; if it is the last
    // one, the ring will be empty behind it.
    method TakeBlock(channel: VoiceChannel) returns (n: nat)
      requires channel.Valid(bufferSizeBytes) && Plays(bufferSizeBytes, channel.Incoming())
      modifies channel`incomingWriteIndex, channel`bufferOutput, channel`copiedOutgoingBufferToBufferedOutput
      ensures channel.Valid(bufferSizeBytes) && n <= bufferSizeBytes
      ensures n == Least(Waiting(bufferSizeBytes, old(channel.Incoming().ring)), bufferSizeBytes)
      ensures !channel.bufferOutput && channel.copiedOutgoingBufferToBufferedOutput
      ensures channel.incomingWriteIndex == Play(bufferSizeBytes, old(channel.Incoming().ring)).write
    {
      n := BytesWaitingToReturn(channel);
      StepPlaced(bufferSizeBytes, 0, channel.Incoming(), VoiceRings.Update(false));
      channel.copiedOutgoingBufferToBufferedOutput := true;
      channel.bufferOutput := false;
      if n > bufferSizeBytes {
        n := bufferSizeBytes;
      } else {
        channel.incomingWriteIndex := channel.incomingReadIndex + bufferSizeBytes;
        if channel.incomingWriteIndex == bufferSizeBytes * BLOCKS {
          channel.incomingWriteIndex := 0;
        }
      }
    }

    // The k-th channel's turn to play.
    method PlayTurn(channel: VoiceChannel, ghost k: nat)
      requires Valid() && k < |voiceChannels| && channel == voiceChannels[k]
      modifies channel`incomingReadIndex, channel`incomingWriteIndex, channel`bufferOutput,
               channel`copiedOutgoingBufferToBufferedOutput, bufferedOutput, `given
      ensures Valid()
      ensures channel.Incoming() == Turn(bufferSizeBytes, old(channel.Incoming()))
      ensures old(channel.incomingReadIndex) + bufferSizeBytes <= channel.incomingBuffer.Length
      ensures given == if Plays(bufferSizeBytes, old(channel.Incoming()))
                       then old(given)[k := Contribution(bufferSizeBytes, old(channel.Incoming().ring),
                                                         channel.incomingBuffer[..])]
                       else old(given)
    {
      AlignedFits(bufferSizeBytes, channel.incomingReadIndex);
      if !channel.copiedOutgoingBufferToBufferedOutput {
        var bytesWaitingToReturn := BytesWaitingToReturn(channel);
        if bytesWaitingToReturn == 0 {
          channel.bufferOutput := true;
        } else if !channel.bufferOutput || bytesWaitingToReturn > bufferSizeBytes * 2 {
          GiveBlock(channel, k);
        }
      }
    }

    // Play the block, and note that the channel gave it.
    method GiveBlock(channel: VoiceChannel, ghost k: nat)
      requires Valid() && k < |voiceChannels| && channel == voiceChannels[k]
      requires Plays(bufferSizeBytes, channel.Incoming())
      modifies channel`incomingReadIndex, channel`incomingWriteIndex, channel`bufferOutput,
               channel`copiedOutgoingBufferToBufferedOutput, bufferedOutput, `given
      ensures Valid()
      ensures channel.Incoming() == Turn(bufferSizeBytes, old(channel.Incoming()))
      ensures old(channel.incomingReadIndex) + bufferSizeBytes <= channel.incomingBuffer.Length
      ensures given == old(given)[k := Contribution(bufferSizeBytes, old(channel.Incoming().ring),
                                                    channel.incomingBuffer[..])]
    {
      AlignedFits(bufferSizeBytes, channel.incomingReadIndex);
      ghost var block := Contribution(bufferSizeBytes, channel.Incoming().ring, channel.incomingBuffer[..]);
      ghost var was := bufferedOutput[..];
      var n := PlayBlock(channel);
      OutputUpdated(was, bufferedOutput[..], given, k, block);
      given := given[k := block];
    }

    method ZeroSamples()
      modifies bufferedOutput
      ensures forall j :: 0 <= j < bufferedOutput.Length ==> bufferedOutput[j] == 0
    {
      for i := 0 to bufferedOutput.Length
        invariant forall j :: 0 <= j < i ==> bufferedOutput[j] == 0
      {
        bufferedOutput[i] := 0;
      }
    }

    method ClearCopied()
      requires ChannelsValid()
      modifies voiceChannels
      ensures ChannelsValid()
      ensures forall k :: 0 <= k < |voiceChannels| ==> ZeroedOnly(voiceChannels[k])
    {
      for i := 0 to |voiceChannels|
        invariant ChannelsValid()
        invariant forall k :: 0 <= k < i ==> ZeroedOnly(voiceChannels[k])
        invariant forall k :: i <= k < |voiceChannels| ==> unchanged(voiceChannels[k])
      {
        voiceChannels[i].copiedOutgoingBufferToBufferedOutput := false;
      }
    }

    // The user took the output: start again from zero.
    method ZeroOutput()
      requires Valid()
      modifies `zeroBufferedOutput, `given, bufferedOutput, voiceChannels
      ensures Valid() && !zeroBufferedOutput
      ensures forall k :: 0 <= k < |voiceChannels| ==> given[k] == []
      ensures forall k :: 0 <= k < |voiceChannels| ==> ZeroedOnly(voiceChannels[k])
    {
      ZeroSamples();
      ClearCopied();
      ForgetGiven();
      zeroBufferedOutput := false;
    }

    // With no sample left, nothing counts as given.
    ghost method ForgetGiven()
      requires ChannelsValid() && forall j :: 0 <= j < bufferedOutput.Length ==> bufferedOutput[j] == 0
      modifies `given
      ensures given == Nothing(|voiceChannels|) && GivenValid() && OutputIs(given)
    {
      given := Nothing(|voiceChannels|);
      forall j | 0 <= j < bufferedOutput.Length
        ensures bufferedOutput[j] == SumAt(given, j)
      {
        SumOfEmpty(given, j);
      }
    }

    // The k-th channel's share of Update, after start was zeroed or not.
    method ChannelTurn(channel: VoiceChannel, currentTime: int, speech: seq<bool>, ghost k: nat, ghost zeroed: bool,
                       ghost start: View, ghost was: seq<byte>)
      returns (packets: seq<Packet>)
      requires Valid() && k < |voiceChannels| && channel == voiceChannels[k]
      requires Pending(channel, start, was, given[k], zeroed)
      modifies channel, bufferedOutput, `given
      ensures Valid()
      ensures Done(channel, start, was, given[k], zeroed, currentTime, speech, packets)
      ensures given == old(given)[k := given[k]]
    {
      packets := SendPass(channel, currentTime, speech);
      PlayTurn(channel, k);
    }

    // Where a channel stands in the course of Update: before its turn, and after it.
    ghost predicate Pending(c: VoiceChannel, start: View, was: seq<byte>, now: seq<byte>, zeroed: bool)
      reads c
    {
      && c.Now() == start.(incoming := Zeroed(start.incoming, VoiceRings.Update(zeroed)))
      && now == if zeroed then [] else was
    }

    ghost predicate Done(c: VoiceChannel, start: View, was: seq<byte>, now: seq<byte>, zeroed: bool, currentTime: int,
                         speech: seq<bool>, packets: seq<Packet>)
      reads `defaultVADState, c, c.outgoingBuffer, c.incomingBuffer
    {
      && HadTurn(bufferSizeBytes, c.InSize(), c.OutSize(), start, c.Now(), c.outgoingBuffer[..], zeroed, currentTime,
                 speech, defaultVADState, packets)
      && GivenBy(bufferSizeBytes, start.incoming, c.incomingBuffer[..], zeroed, was, now)
    }

    // The i-th channel's share; the others stay where they are.
    method NextTurn(i: nat, currentTime: int, speech: seq<seq<bool>>, ghost zeroed: bool, ghost start: seq<View>,
                    ghost was: seq<seq<byte>>, packets: seq<seq<Packet>>)
      returns (more: seq<seq<Packet>>)
      requires Valid() && |speech| == |voiceChannels| == |start| == |was| && |packets| == i < |start|
      requires forall k :: 0 <= k < i ==>
          Done(voiceChannels[k], start[k], was[k], given[k], zeroed, currentTime, speech[k], packets[k])
      requires forall k :: i <= k < |start| ==> Pending(voiceChannels[k], start[k], was[k], given[k], zeroed)
      modifies `given, bufferedOutput, voiceChannels[i]
      ensures Valid() && |more| == i + 1
      ensures forall k :: 0 <= k < i + 1 ==>
          Done(voiceChannels[k], start[k], was[k], given[k], zeroed, currentTime, speech[k], more[k])
      ensures forall k :: i + 1 <= k < |start| ==> Pending(voiceChannels[k], start[k], was[k], given[k], zeroed)
    {
      var sent := ChannelTurn(voiceChannels[i], currentTime, speech[i], i, zeroed, start[i], was[i]);
      more := packets + [sent];
    }

    // The loop over the channels.
    method TurnAll(currentTime: int, speech: seq<seq<bool>>, ghost zeroed: bool, ghost start: seq<View>,
                   ghost was: seq<seq<byte>>)
      returns (packets: seq<seq<Packet>>)
      requires Valid() && |speech| == |voiceChannels| == |start| == |was|
      requires forall k :: 0 <= k < |start| ==> Pending(voiceChannels[k], start[k], was[k], given[k], zeroed)
      modifies `given, bufferedOutput, voiceChannels
      ensures Valid() && |packets| == |start|
      ensures forall k :: 0 <= k < |start| ==>
          Done(voiceChannels[k], start[k], was[k], given[k], zeroed, currentTime, speech[k], packets[k])
    {
      packets := [];
      for i := 0 to |voiceChannels|
        invariant Valid() && |packets| == i
        invariant forall k :: 0 <= k < i ==>
            Done(voiceChannels[k], start[k], was[k], given[k], zeroed, currentTime, speech[k], packets[k])
        invariant forall k :: i <= k < |start| ==> Pending(voiceChannels[k], start[k], was[k], given[k], zeroed)
      {
        packets := NextTurn(i, currentTime, speech, zeroed, start, was, packets);
      }
    }

    // Every channel sends what it has to send, and plays a block if it may.
    method Update(currentTime: int, speech: seq<seq<bool>>) returns (packets: seq<seq<Packet>>)
      requires Valid() && |speech| == |voiceChannels|
      modifies `zeroBufferedOutput, `given, bufferedOutput, voiceChannels
      ensures Valid() && !zeroBufferedOutput && |packets| == |voiceChannels|
      ensures forall k :: 0 <= k < |voiceChannels| ==>
        Done(voiceChannels[k], old(voiceChannels[k].Now()), old(given[k]), given[k], old(zeroBufferedOutput),
             currentTime, speech[k], packets[k])
    {
      ghost var zeroed, was := zeroBufferedOutput, given;
      ghost var start := Views(voiceChannels);
      if zeroBufferedOutput {
        ZeroOutput();
      }
      packets := TurnAll(currentTime, speech, zeroed, start, was);
    }

    method AllToSend() returns (n: int)
      requires forall k :: 0 <= k < |voiceChannels| ==> voiceChannels[k].Valid(bufferSizeBytes)
      ensures n == SumOfWaiting(bufferSizeBytes, OutRings(voiceChannels))
    {
      n := 0;
      for i := 0 to |voiceChannels|
        invariant n == SumOfWaiting(bufferSizeBytes, OutRings(voiceChannels[..i]))
      {
        var bytes := BytesAvailable(voiceChannels[i]);
        n := n + bytes;
        OutWaiting(bufferSizeBytes, voiceChannels, i);
      }
      assert voiceChannels[..|voiceChannels|] == voiceChannels;
    }

    method AllToReturn() returns (n: int)
      requires forall k :: 0 <= k < |voiceChannels| ==> voiceChannels[k].Valid(bufferSizeBytes)
      ensures n == SumOfWaiting(bufferSizeBytes, InRings(voiceChannels))
    {
      n := 0;
      for i := 0 to |voiceChannels|
        invariant n == SumOfWaiting(bufferSizeBytes, InRings(voiceChannels[..i]))
      {
        var bytes := BytesWaitingToReturn(voiceChannels[i]);
        n := n + bytes;
        InWaiting(bufferSizeBytes, voiceChannels, i);
      }
      assert voiceChannels[..|voiceChannels|] == voiceChannels;
    }

    // Bytes waiting to be encoded for one user, or for all.
    method GetBufferedBytesToSend(guid: int) returns (n: int)
      requires Valid()
      ensures guid == UNASSIGNED ==> n == SumOfWaiting(bufferSizeBytes, OutRings(voiceChannels))
      ensures guid != UNASSIGNED ==>
          (forall c :: c in voiceChannels && c.guid == guid ==> n == Waiting(bufferSizeBytes, c.Outgoing()))
      ensures guid != UNASSIGNED && (forall c :: c in voiceChannels ==> c.guid != guid) ==> n == 0
    {
      n := 0;
      if guid != UNASSIGNED {
        var index := IndexOf(guid);
        if index < |voiceChannels| {
          n := BytesAvailable(voiceChannels[index]);
        }
      } else {
        n := AllToSend();
      }
    }

    // Bytes waiting to be played, from one user or from all.
    method GetBufferedBytesToReturn(guid: int) returns (n: int)
      requires Valid()
      ensures guid == UNASSIGNED ==> n == SumOfWaiting(bufferSizeBytes, InRings(voiceChannels))
      ensures guid != UNASSIGNED ==>
          (forall c :: c in voiceChannels && c.guid == guid ==> n == Waiting(bufferSizeBytes, c.Incoming().ring))
      ensures guid != UNASSIGNED && (forall c :: c in voiceChannels ==> c.guid != guid) ==> n == 0
    {
      n := 0;
      if guid != UNASSIGNED {
        var index := IndexOf(guid);
        if index < |voiceChannels| {
          n := BytesWaitingToReturn(voiceChannels[index]);
        }
      } else {
        n := AllToReturn();
      }
    }

    // The output block, clamped to 16 bits; Update will start a new one.
    method ReceiveFrame(outputBuffer: array<int>)
      requires Valid() && outputBuffer.Length == bufferedOutput.Length && outputBuffer != bufferedOutput
      modifies outputBuffer, `zeroBufferedOutput
      ensures Valid() && zeroBufferedOutput
      ensures forall i :: 0 <= i < outputBuffer.Length ==> outputBuffer[i] == Clamp(SumAt(given, i))
    {
      for i := 0 to bufferSizeBytes / SAMPLESIZE
        invariant forall j :: 0 <= j < i ==> outputBuffer[j] == Clamp(bufferedOutput[j])
      {
        if bufferedOutput[i] > 32767 {
          outputBuffer[i] := 32767;
        } else if bufferedOutput[i] < -32768 {
          outputBuffer[i] := -32768;
        } else {
          outputBuffer[i] := bufferedOutput[i];
        }
      }
      zeroBufferedOutput := true;
    }

    // The channel of a user, if there is one.
    method IndexOf(guid: int) returns (index: nat)
      ensures index <= |voiceChannels| && forall k :: 0 <= k < index ==> voiceChannels[k].guid != guid
      ensures index < |voiceChannels| ==> voiceChannels[index].guid == guid
    {
      index := 0;
      while index < |voiceChannels| && voiceChannels[index].guid != guid
        invariant index <= |voiceChannels| && forall k :: 0 <= k < index ==> voiceChannels[k].guid != guid
      {
        index := index + 1;
      }
    }

    method SendFrame(recipient: int, inputBuffer: seq<byte>) returns (ok: bool)
      requires Valid() && |inputBuffer| == bufferSizeBytes
      modifies voiceChannels, set c | c in voiceChannels :: c.outgoingBuffer
      ensures Valid()
      ensures ok <==> exists k :: 0 <= k < |voiceChannels| && voiceChannels[k].guid == recipient
      ensures forall k :: 0 <= k < |voiceChannels| ==>
          SentOne(bufferSizeBytes, voiceChannels[k], recipient, inputBuffer)
    {
      var index := IndexOf(recipient);
      if index < |voiceChannels| {
        SendTo(voiceChannels[index], inputBuffer);
        return true;
      }
      return false;
    }

    method OnVoiceData(sender: int, packetMessageNumber: int, decoded: seq<byte>, interpolated: seq<byte>)
      requires Valid() && 0 <= packetMessageNumber < WRAP
      requires forall c :: c in voiceChannels && c.guid == sender ==>
        |decoded| == |interpolated| == c.InSize() <= Total(bufferSizeBytes)
      modifies voiceChannels, set c | c in voiceChannels :: c.incomingBuffer
      ensures Valid()
      ensures forall k :: 0 <= k < |voiceChannels| ==>
        ReceivedOne(bufferSizeBytes, sampleRate, voiceChannels[k], sender, packetMessageNumber, decoded, interpolated)
    {
      var index := IndexOf(sender);
      if index < |voiceChannels| {
        var channel := voiceChannels[index];
        OnChannelData(channel, packetMessageNumber, decoded, interpolated);
        forall k | 0 <= k < |voiceChannels|
          ensures ReceivedOne(bufferSizeBytes, sampleRate, voiceChannels[k], sender, packetMessageNumber, decoded,
                              interpolated)
        {
          if k != index {
            OthersApart(voiceChannels, index, k);
          }
        }
      }
    }

    method OpenChannel(guid: int, frameSampleCount: nat)
      requires Valid() && frameSampleCount > 0
      requires forall k :: 0 <= k < |voiceChannels| ==> voiceChannels[k].guid != guid
      modifies `voiceChannels, `given
      ensures Valid() && |voiceChannels| == |old(voiceChannels)| + 1
      ensures voiceChannels[..|old(voiceChannels)|] == old(voiceChannels) && given == old(given) + [[]]
      ensures var c := voiceChannels[|old(voiceChannels)|];
        && fresh(c) && c.guid == guid && c.OutSize() == c.InSize() == frameSampleCount * 2
        && c.Now() == View(OPENED, Ring(0, 0), false, 0, 0, 0, 0)
    {
      var channel := new VoiceChannel(guid, frameSampleCount, bufferSizeBytes);
      voiceChannels := voiceChannels + [channel];
      given := given + [[]];
      assert given[..|given| - 1] == old(given);
    }
  }

  // With equal block sizes, a channel's share of Update is a step of the runs
  // that are described for its ring, and what it gives is what they play.
  lemma {:induction false} TurnIsStep(B: nat, c: View, d: View, outBuffer: seq<byte>, inBuffer: seq<byte>,
                                      zeroed: bool, currentTime: int, speech: seq<bool>, vad: bool,
                                      packets: seq<Packet>, outSize: nat, was: seq<byte>, now: seq<byte>, h: History)
    requires HadTurn(B, B, outSize, c, d, outBuffer, zeroed, currentTime, speech, vad, packets)
    requires GivenBy(B, c.incoming, inBuffer, zeroed, was, now)
    requires Sized(B, Channel(c.incoming, inBuffer, c.expected))
    ensures StepChannel(B, Channel(c.incoming, inBuffer, c.expected), Updated(zeroed))
         == Channel(d.incoming, inBuffer, d.expected)
    ensures Plays(B, Zeroed(c.incoming, VoiceRings.Update(zeroed))) ==>
      Record(B, Channel(c.incoming, inBuffer, c.expected), h, Updated(zeroed)).played == h.played + [now]
  {
  }

  // What SendFrame does to a channel.
  twostate predicate SentOne(B: nat, c: VoiceChannel, recipient: int, inputBuffer: seq<byte>)
    reads c, c.outgoingBuffer
  {
    && B > 0
    && (if c.guid == recipient then
          && old(c.outgoingWriteIndex) < c.outgoingBuffer.Length && |inputBuffer| <= c.outgoingBuffer.Length
          && c.Now() == old(c.Now()).(ring := Send(B, c.OutSize(), old(c.Outgoing())))
          && c.outgoingBuffer[..] == Store(old(c.outgoingBuffer[..]), old(c.outgoingWriteIndex), inputBuffer)
        else c.Now() == old(c.Now()) && c.outgoingBuffer[..] == old(c.outgoingBuffer[..]))
  }

  // What a voice packet does to a channel.
  twostate predicate ReceivedOne(B: nat, sampleRate: int, c: VoiceChannel, sender: int, number: int,
                                 decoded: seq<byte>, interpolated: seq<byte>)
    reads c, c.incomingBuffer
  {
    if c.guid == sender && Accepts(number, old(c.incomingMessageNumber)) then
      && B > 0 && sampleRate > 0 && HeldWell(B, old(c.Contents())) && |decoded| == |interpolated| <= Total(B)
      && var n := Concealed(number, old(c.incomingMessageNumber), sampleRate);
      && c.Contents() == Fill(B, c.InSize(), Filled(B, c.InSize(), old(c.Contents()), interpolated, n), decoded)
      && c.Now() == old(c.Now()).(incoming := c.Incoming(), expected := Next(number))
    else c.Now() == old(c.Now()) && c.incomingBuffer[..] == old(c.incomingBuffer[..])
  }

  lemma {:induction false} OutWaiting(B: nat, channels: seq<VoiceChannel>, i: nat)
    requires i < |channels|
    ensures SumOfWaiting(B, OutRings(channels[..i + 1]))
         == SumOfWaiting(B, OutRings(channels[..i])) + Waiting(B, channels[i].Outgoing())
  {
    assert channels[..i + 1][..i] == channels[..i];
    var rings := OutRings(channels[..i]);
    assert (rings + [channels[i].Outgoing()])[..|rings|] == rings;
  }

  ghost function OutRings(channels: seq<VoiceChannel>): seq<Ring>
    reads channels
  {
    if |channels| == 0 then [] else OutRings(channels[..|channels| - 1]) + [channels[|channels| - 1].Outgoing()]
  }

  lemma {:induction false} InWaiting(B: nat, channels: seq<VoiceChannel>, i: nat)
    requires i < |channels|
    ensures SumOfWaiting(B, InRings(channels[..i + 1]))
         == SumOfWaiting(B, InRings(channels[..i])) + Waiting(B, channels[i].Incoming().ring)
  {
    assert channels[..i + 1][..i] == channels[..i];
    var rings := InRings(channels[..i]);
    assert (rings + [channels[i].Incoming().ring])[..|rings|] == rings;
  }

  ghost function InRings(channels: seq<VoiceChannel>): seq<Ring>
    reads channels
  {
    if |channels| == 0 then [] else InRings(channels[..|channels| - 1]) + [channels[|channels| - 1].Incoming().ring]
  }

  function SumOfWaiting(B: nat, rings: seq<Ring>): int {
    if |rings| == 0 then 0 else SumOfWaiting(B, rings[..|rings| - 1]) + Waiting(B, rings[|rings| - 1])
  }

  ghost function Views(channels: seq<VoiceChannel>): (views: seq<View>)
    reads channels
    ensures |views| == |channels|
    ensures forall k :: 0 <= k < |channels| ==> views[k] == channels[k].Now()
  {
    if |channels| == 0 then [] else Views(channels[..|channels| - 1]) + [channels[|channels| - 1].Now()]
  }

  // What Update does to the outgoing ring, unless it is too early to send.
  ghost predicate Passed(B: nat, S: nat, c: View, d: View, buffer: seq<byte>, currentTime: int, speech: seq<bool>,
                         vad: bool, packets: seq<Packet>)
  {
    && d.count == c.count + |packets|
    && (Throttled(currentTime, c.lastSend) ==>
          packets == [] && d.ring == c.ring && d.sending == c.sending && d.lastSend == c.lastSend)
    && (!Throttled(currentTime, c.lastSend) ==>
          && B > 0 && S > 0 && |buffer| == Total(B) && Placed(B, c.ring)
          && d.ring == OutStep(B, S, c.ring, Pass)
          && d.sending == (packets != [])
          && d.lastSend == (if Frames(B, S, c.ring) > 0 then currentTime else c.lastSend)
          && packets == PassPackets(B, S, buffer, c.ring, speech, vad, c.count))
  }

  // What Update does to a channel.
  ghost predicate HadTurn(B: nat, inSize: nat, outSize: nat, c: View, d: View, buffer: seq<byte>, zeroed: bool,
                          currentTime: int, speech: seq<bool>, vad: bool, packets: seq<Packet>)
  {
    && B > 0 && d.incoming == Step(B, inSize, c.incoming, VoiceRings.Update(zeroed)) && d.expected == c.expected
    && Passed(B, outSize, c, d, buffer, currentTime, speech, vad, packets)
  }

  // The channel may play again; nothing else about it has changed.
  twostate predicate ZeroedOnly(c: VoiceChannel)
    reads c
  {
    c.Now() == old(c.Now()).(incoming := Zeroed(old(c.Incoming()), VoiceRings.Update(true)))
  }

  // No two channels have the same user, or share a buffer.
  ghost predicate Distinct(channels: seq<VoiceChannel>) {
    forall i, j :: 0 <= i < j < |channels| ==> Apart(channels[i], channels[j])
  }

  ghost predicate Apart(c: VoiceChannel, d: VoiceChannel) {
    c.guid != d.guid && {c.outgoingBuffer, c.incomingBuffer} !! {d.outgoingBuffer, d.incomingBuffer}
  }

  lemma {:induction false} OthersApart(channels: seq<VoiceChannel>, i: nat, k: nat)
    requires Distinct(channels) && i < |channels| && k < |channels| && i != k
    ensures channels[i] != channels[k] && Apart(channels[k], channels[i])
  {
    assert if i < k then Apart(channels[i], channels[k]) else Apart(channels[k], channels[i]);
  }

  // memcpy of the first n bytes of data.
  method CopyTo(buffer: array<byte>, at: nat, data: seq<byte>, n: nat)
    requires at + n <= buffer.Length && n <= |data|
    modifies buffer
    ensures buffer[..] == old(buffer[..at]) + data[..n] + old(buffer[at + n..])
  {
    for i := 0 to n
      invariant buffer[..at] == old(buffer[..at]) && buffer[at + n..] == old(buffer[at + n..])
      invariant buffer[at..at + i] == data[..i]
    {
      buffer[at + i] := data[i];
    }
    assert buffer[..] == buffer[..at] + buffer[at..at + n] + buffer[at + n..];
  }

  // Copy a block that fits before the end of the ring.
  method CopyFrame(buffer: array<byte>, write: nat, data: seq<byte>)
    requires write < buffer.Length && write + |data| <= buffer.Length
    modifies buffer
    ensures buffer[..] == Store(old(buffer[..]), write, data)
  {
    CopyTo(buffer, write, data, |data|);
  }

  // Copy a block to the ring, in two parts if it does not fit before its end.
  method CopyToRing(buffer: array<byte>, write: nat, data: seq<byte>)
    requires write < buffer.Length && |data| <= buffer.Length
    modifies buffer
    ensures buffer[..] == Store(old(buffer[..]), write, data)
  {
    if write + |data| <= buffer.Length {
      CopyFrame(buffer, write, data);
    } else {
      var fits := buffer.Length - write;
      CopyTo(buffer, write, data, fits);
      CopyTo(buffer, 0, data, |data| - fits);
    }
  }
}
