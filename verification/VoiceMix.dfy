// What the listener hears: the sum of the blocks that the channels have given
// since the output was last taken, clamped to 16 bits.
module VoiceMix {
  import opened Bytes
  import opened VoiceRings

  // A little-endian 16-bit sample.
  function Sample(lo: byte, hi: byte): (r: int)
    ensures -32768 <= r <= 32767
  {
    if hi < 128 then lo + 256 * hi else lo + 256 * hi - 65536
  }

  function SampleAt(block: seq<byte>, j: nat): int {
    if 2 * j + 1 < |block| then Sample(block[2 * j], block[2 * j + 1]) else 0
  }

  // A 16-bit sample as two bytes, the low one first.
  lemma {:induction false} SampleIs(lo: byte, hi: byte, x: int)
    requires -32768 <= x <= 32767
    ensures Sample(lo, hi) == x <==> lo == x % 256 && hi == x / 256 % 256
  {
  }

  // The j-th sample of a block.
  lemma {:induction false} SampleAtIs(block: seq<byte>, j: nat, x: int)
    requires -32768 <= x <= 32767 && 2 * j + 1 < |block| && block[2 * j] == x % 256 && block[2 * j + 1] == x / 256 % 256
    ensures SampleAt(block, j) == x
  {
    SampleIs(block[2 * j], block[2 * j + 1], x);
  }

  function SumAt(given: seq<seq<byte>>, j: nat): int {
    if |given| == 0 then 0 else SumAt(given[..|given| - 1], j) + SampleAt(given[|given| - 1], j)
  }

  lemma {:induction false} SumOfEmpty(given: seq<seq<byte>>, j: nat)
    requires forall i :: 0 <= i < |given| ==> given[i] == []
    ensures SumAt(given, j) == 0
  {
    if |given| > 0 {
      SumOfEmpty(given[..|given| - 1], j);
    }
  }

  lemma {:induction false} SumUpdated(given: seq<seq<byte>>, i: nat, block: seq<byte>, j: nat)
    requires i < |given|
    ensures SumAt(given[i := block], j) == SumAt(given, j) - SampleAt(given[i], j) + SampleAt(block, j)
  {
    var n := |given| - 1;
    if i < n {
      SumUpdated(given[..n], i, block, j);
      assert given[i := block][..n] == given[..n][i := block];
    } else {
      assert given[i := block][..n] == given[..n];
    }
  }

  // What a channel gives when it plays: one block, or what there is of it.
  function Contribution(B: nat, ring: Ring, buffer: seq<byte>): seq<byte>
    requires ring.read + B <= |buffer|
  {
    var n := if Waiting(B, ring) > B then B else Waiting(B, ring);
    if n < 0 then [] else buffer[ring.read..ring.read + n]
  }

  // What a channel has given after Update, by its state before: a block if it
  // plays now, else nothing if the output was zeroed, else what it had given.
  ghost predicate GivenBy(B: nat, c: Incoming, buffer: seq<byte>, zeroed: bool, was: seq<byte>, now: seq<byte>) {
    && c.ring.read + B <= |buffer|
    && now == if Plays(B, Zeroed(c, Update(zeroed))) then Contribution(B, c.ring, buffer)
              else if zeroed then []
              else was
  }

  function Clamp(x: int): (r: int)
    ensures -32768 <= r <= 32767
    ensures forall y :: -32768 <= y <= 32767 ==> Distance(x, r) <= Distance(x, y)
  {
    if x > 32767 then 32767 else if x < -32768 then -32768 else x
  }

  function Distance(x: int, y: int): nat {
    if x < y then y - x else x - y
  }
}
