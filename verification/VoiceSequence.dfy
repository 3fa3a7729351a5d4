// Numbering of voice messages: the sender counts in 16 bits, and the receiver
// drops what it takes to be old.
module VoiceSequence {
  const WRAP: int := 0x1_0000

  // The sender's n-th message carries this number.
  function Number(n: nat): (r: int)
    ensures 0 <= r < WRAP
  {
    n % WRAP
  }

  // packetMessageNumber - incomingMessageNumber, in 16 bits.
  function Skipped(number: int, expected: int): (r: int)
    ensures 0 <= r < WRAP
  {
    (number - expected) % WRAP
  }

  // (unsigned short)-1 / 2 is 32767.
  predicate Accepts(number: int, expected: int) {
    Skipped(number, expected) <= 32767
  }

  function Next(number: int): int {
    (number + 1) % WRAP
  }

  // The messages to conceal are capped by (int)(100.0f / sampleRate).
  function MaxSkip(sampleRate: int): nat
    requires sampleRate > 0
  {
    100 / sampleRate
  }

  function Concealed(number: int, expected: int, sampleRate: int): (n: int)
    requires sampleRate > 0
    ensures 0 <= n <= Skipped(number, expected)
  {
    Least(Skipped(number, expected), MaxSkip(sampleRate))
  }

  function Least(a: nat, b: nat): nat {
    if a < b then a else b
  }

  // At the three sample rates there are, no message is ever concealed.
  lemma {:induction false} NeverConceals(number: int, expected: int, sampleRate: int)
    requires sampleRate == 8000 || sampleRate == 16000 || sampleRate == 32000
    ensures Concealed(number, expected, sampleRate) == 0
  {
    assert 100 / 8000 == 0 && 100 / 16000 == 0 && 100 / 32000 == 0;
  }

  // ----------------------------------------------------------- whole runs

  // The receiver after a run of arrivals, each given by the place of its
  // message among all the messages sent, from 0.
  datatype Receiver = Receiver(counter: int, accepted: seq<nat>)

  function Receive(r: Receiver, n: nat): Receiver {
    if Accepts(Number(n), r.counter) then Receiver(Next(Number(n)), r.accepted + [n]) else r
  }

  function Run(arrivals: seq<nat>): Receiver {
    if |arrivals| == 0 then Receiver(0, [])
    else Receive(Run(arrivals[..|arrivals| - 1]), arrivals[|arrivals| - 1])
  }

  // The message that the receiver is waiting for.
  function Expected(accepted: seq<nat>): nat {
    if |accepted| == 0 then 0 else accepted[|accepted| - 1] + 1
  }

  // No arrival is further ahead of the expected message, or further behind it,
  // than 16 bits can tell.
  ghost predicate Close(arrivals: seq<nat>) {
    |arrivals| > 0 ==>
      var before, n := arrivals[..|arrivals| - 1], arrivals[|arrivals| - 1];
      Close(before) && Expected(Run(before).accepted) - 32768 <= n <= Expected(Run(before).accepted) + 32767
  }

  ghost predicate Increasing(s: seq<nat>) {
    forall i, j :: 0 <= i < j < |s| ==> s[i] < s[j]
  }

  // What the receiver should accept: whatever is not behind what it expects.
  function Wanted(arrivals: seq<nat>): seq<nat> {
    if |arrivals| == 0 then []
    else
      var sofar, n := Wanted(arrivals[..|arrivals| - 1]), arrivals[|arrivals| - 1];
      if n >= Expected(sofar) then sofar + [n] else sofar
  }

  lemma {:induction false} WantedIncreasing(arrivals: seq<nat>)
    ensures Increasing(Wanted(arrivals))
  {
    if |arrivals| > 0 {
      WantedIncreasing(arrivals[..|arrivals| - 1]);
    }
  }

  lemma {:induction false} ModShift(a: int, k: int)
    ensures (a + k * WRAP) % WRAP == a % WRAP
  {
  }

  // The 16-bit difference is the true one, or off by one turn.
  lemma {:induction false} TrueDifference(n: nat, e: nat)
    requires -32768 <= n - e <= 32767
    ensures Skipped(Number(n), Number(e)) == if n >= e then n - e else n - e + WRAP
    ensures Accepts(Number(n), Number(e)) <==> n >= e
    ensures Next(Number(n)) == Number(n + 1)
  {
    var k := e / WRAP - n / WRAP;
    assert Number(n) - Number(e) == (n - e) + k * WRAP;
    ModShift(n - e, k);
  }

  // Over every run of close arrivals the receiver accepts exactly the messages
  // that are not behind; so it accepts them in the order of sending, each once.
  lemma {:induction false} FilterExact(arrivals: seq<nat>)
    requires Close(arrivals)
    ensures Run(arrivals).accepted == Wanted(arrivals)
    ensures Run(arrivals).counter == Number(Expected(Wanted(arrivals)))
    ensures Increasing(Run(arrivals).accepted)
  {
    WantedIncreasing(arrivals);
    if |arrivals| > 0 {
      var before, n := arrivals[..|arrivals| - 1], arrivals[|arrivals| - 1];
      FilterExact(before);
      TrueDifference(n, Expected(Wanted(before)));
    }
  }

  // Whether all arrivals at most ahead and behind the expected message are told
  // apart correctly.
  ghost predicate Tells(ahead: nat, behind: nat) {
    forall n: nat, e: nat :: e - behind <= n <= e + ahead ==> (Accepts(Number(n), Number(e)) <==> n >= e)
  }

  // The bounds are the best possible.
  lemma {:induction false} TellsIff(ahead: nat, behind: nat)
    ensures Tells(ahead, behind) <==> ahead <= 32767 && behind <= 32768
  {
    if ahead <= 32767 && behind <= 32768 {
      forall n: nat, e: nat | e - behind <= n <= e + ahead
        ensures Accepts(Number(n), Number(e)) <==> n >= e
      {
        TrueDifference(n, e);
      }
    } else if ahead > 32767 {
      assert !Accepts(Number(32768), Number(0));
    } else {
      assert Accepts(Number(0), Number(32769));
    }
  }
}
