// offtout and offtin: 64-bit offsets as eight bytes, least significant first,
// with the sign in the top bit.
module OffT {
  import opened Bytes

  const LIMIT: int := 0x8000_0000_0000_0000

  // The n low bytes of y, least significant first.
  function Little(y: nat, n: nat): (s: seq<byte>)
    ensures |s| == n
  {
    if n == 0 then [] else [y % 256] + Little(y / 256, n - 1)
  }

  function Value(s: seq<byte>): nat {
    if |s| == 0 then 0 else s[0] + 256 * Value(s[1..])
  }

  function Power256(n: nat): nat {
    if n == 0 then 1 else 256 * Power256(n - 1)
  }

  lemma {:induction false} ValueOfLittle(y: nat, n: nat)
    requires y < Power256(n)
    ensures Value(Little(y, n)) == y
  {
    if n > 0 {
      ValueOfLittle(y / 256, n - 1);
    }
  }

  lemma {:induction false} LittleOfValue(s: seq<byte>)
    ensures Value(s) < Power256(|s|)
    ensures Little(Value(s), |s|) == s
  {
    if |s| > 0 {
      LittleOfValue(s[1..]);
      assert Value(s) % 256 == s[0] && Value(s) / 256 == Value(s[1..]);
    }
  }

  function Abs(x: int): nat {
    if x < 0 then -x else x
  }

  // buf[7] |= 0x80
  function WithSign(s: seq<byte>): seq<byte>
    requires |s| == 8
  {
    s[7 := if s[7] < 128 then s[7] + 128 else s[7]]
  }

  function Encode(x: int): (s: seq<byte>)
    ensures |s| == 8
  {
    if x < 0 then WithSign(Little(Abs(x), 8)) else Little(Abs(x), 8)
  }

  // The magnitude is read with the top bit masked off.
  function Decode(s: seq<byte>): int
    requires |s| == 8
  {
    var y: int := Value(s[7 := s[7] % 128]);
    if s[7] >= 128 then -y else y
  }

  // Four bytes of y, and what is left of it.
  method PutFour(y0: nat, buf: array<byte>, at: nat) returns (y: nat)
    requires at + 4 <= buf.Length
    modifies buf
    ensures buf[..] == old(buf[..at]) + Little(y0, 4) + old(buf[at + 4..])
    ensures forall n: nat :: Little(y0, n + 4) == Little(y0, 4) + Little(y, n)
  {
    y := y0;
    buf[at] := y % 256; y := y / 256;
    buf[at + 1] := y % 256; y := y / 256;
    buf[at + 2] := y % 256; y := y / 256;
    buf[at + 3] := y % 256; y := y / 256;
    LittleSplit(y0, y);
  }

  lemma {:induction false} LittleSplit(y0: nat, y: nat)
    requires y == y0 / 256 / 256 / 256 / 256
    ensures Little(y0, 4) == [y0 % 256, y0 / 256 % 256, y0 / 256 / 256 % 256, y0 / 256 / 256 / 256 % 256]
    ensures forall n: nat :: Little(y0, n + 4) == Little(y0, 4) + Little(y, n)
  {
    LittleFour(y0, 0);
    assert Little(y, 0) == [];
    forall n: nat
      ensures Little(y0, n + 4) == Little(y0, 4) + Little(y, n)
    {
      LittleFour(y0, n);
    }
  }

  lemma {:induction false} LittleFour(y: nat, n: nat)
    ensures Little(y, n + 4) == [y % 256, y / 256 % 256, y / 256 / 256 % 256, y / 256 / 256 / 256 % 256]
                                + Little(y / 256 / 256 / 256 / 256, n)
  {
    assert Little(y, n + 4) == [y % 256] + Little(y / 256, n + 3);
    assert Little(y / 256, n + 3) == [y / 256 % 256] + Little(y / 256 / 256, n + 2);
    assert Little(y / 256 / 256, n + 2) == [y / 256 / 256 % 256] + Little(y / 256 / 256 / 256, n + 1);
  }

  // Write the bytes of x to buf at the given offset.
  method OffTOut(x: int, buf: array<byte>, at: nat)
    requires at + 8 <= buf.Length && -LIMIT < x < LIMIT
    modifies buf
    ensures buf[..] == old(buf[..at]) + Encode(x) + old(buf[at + 8..])
  {
    ghost var head, tail := buf[..at], buf[at + 8..];
    var y: nat := if x < 0 then -x else x;
    var z := PutFour(y, buf, at);
    PutEight(buf, at, z, head, Little(y, 4), tail);
    assert Little(y, 8) == Little(y, 4) + Little(z, 4);
    if x < 0 {
      SetSign(buf, at, head, Little(y, 8), tail);
    }
  }

  method PutEight(buf: array<byte>, at: nat, z: nat, ghost head: seq<byte>, ghost low: seq<byte>, ghost tail: seq<byte>)
    requires |head| == at && |low| == 4 && at + 8 <= buf.Length
    requires buf[..at + 4] == head + low && buf[at + 8..] == tail
    modifies buf
    ensures buf[..] == head + (low + Little(z, 4)) + tail
  {
    var rest := PutFour(z, buf, at + 4);
  }

  method SetSign(buf: array<byte>, at: nat, ghost head: seq<byte>, ghost s: seq<byte>, ghost tail: seq<byte>)
    requires |head| == at && |s| == 8 && buf[..] == head + s + tail
    modifies buf
    ensures buf[..] == head + WithSign(s) + tail
  {
    assert buf[at + 7] == s[7];
    buf[at + 7] := if buf[at + 7] < 128 then buf[at + 7] + 128 else buf[at + 7];
  }

  method OffTIn(buf: seq<byte>) returns (y: int)
    requires |buf| == 8
    ensures y == Decode(buf)
  {
    y := buf[7] % 128;
    y := y * 256; y := y + buf[6];
    y := y * 256; y := y + buf[5];
    y := y * 256; y := y + buf[4];
    y := y * 256; y := y + buf[3];
    y := y * 256; y := y + buf[2];
    y := y * 256; y := y + buf[1];
    y := y * 256; y := y + buf[0];
    ghost var s := buf[7 := buf[7] % 128];
    ValueFour(s);
    ValueFour(s[4..]);
    if buf[7] >= 128 {
      y := -y;
    }
  }

  lemma {:induction false} ValueFour(s: seq<byte>)
    requires |s| >= 4
    ensures Value(s)
         == s[0] as int + 256 * (s[1] as int + 256 * (s[2] as int + 256 * (s[3] as int + 256 * Value(s[4..]))))
  {
    assert s[1..][1..] == s[2..] && s[2..][1..] == s[3..] && s[3..][1..] == s[4..];
    assert Value(s[3..]) == s[3] as int + 256 * Value(s[4..]);
    assert Value(s[2..]) == s[2] as int + 256 * Value(s[3..]);
    assert Value(s[1..]) == s[1] as int + 256 * Value(s[2..]);
  }

  lemma {:induction false} Power256Of8()
    ensures Power256(8) == 2 * LIMIT && Power256(7) * 128 == LIMIT
  {
    assert Power256(4) == 0x1_0000_0000;
    assert Power256(8) == 256 * (256 * (256 * (256 * Power256(4))));
  }

  // offtin undoes offtout.
  lemma {:induction false} DecodeEncode(x: int)
    requires -LIMIT < x < LIMIT
    ensures Decode(Encode(x)) == x
  {
    Power256Of8();
    var s := Little(Abs(x), 8);
    ValueOfLittle(Abs(x), 8);
    TopByte(s);
    assert Encode(x)[7 := Encode(x)[7] % 128] == s;
  }

  // Below the sign bit means below LIMIT, and the other way round.
  lemma {:induction false} TopByte(s: seq<byte>)
    requires |s| == 8
    ensures s[7] < 128 <==> Value(s) < LIMIT
  {
    Power256Of8();
    LittleOfValue(s[..7]);
    ValueLast(s);
  }

  lemma {:induction false} ValueLast(s: seq<byte>)
    requires |s| > 0
    ensures Value(s) == Value(s[..|s| - 1]) + Power256(|s| - 1) * s[|s| - 1]
  {
    if |s| > 1 {
      ValueLast(s[1..]);
      assert s[1..][..|s| - 2] == s[..|s| - 1][1..];
    }
  }

  predicate NegativeZero(s: seq<byte>) {
    s == [0, 0, 0, 0, 0, 0, 0, 128]
  }

  lemma {:induction false} ZeroBytes(t: seq<byte>)
    requires |t| == 8
    ensures Value(t) == 0 <==> t == [0, 0, 0, 0, 0, 0, 0, 0]
  {
    ValueFour(t);
    ValueFour(t[4..]);
    assert Value(t[4..][4..]) == 0;
  }

  // offtout undoes offtin, except on the one encoding of negative zero.
  lemma {:induction false} EncodeDecode(s: seq<byte>)
    requires |s| == 8
    ensures -LIMIT < Decode(s) < LIMIT
    ensures Encode(Decode(s)) == s <==> !NegativeZero(s)
  {
    var t := s[7 := s[7] % 128];
    TopByte(t);
    LittleOfValue(t);
    ZeroBytes(t);
    assert s[7] < 128 ==> t == s;
    assert s[7] >= 128 ==> WithSign(t) == s;
    assert NegativeZero(s) <==> s[7] >= 128 && t == [0, 0, 0, 0, 0, 0, 0, 0];
  }

  // The number that eight bytes stand for.
  lemma {:induction false} DecodeIs(s: seq<byte>)
    requires |s| == 8
    ensures var y := s[0] as int + 0x100 * s[1] as int + 0x1_0000 * s[2] as int + 0x100_0000 * s[3] as int
                     + 0x1_0000_0000 * s[4] as int + 0x100_0000_0000 * s[5] as int
                     + 0x1_0000_0000_0000 * s[6] as int + 0x100_0000_0000_0000 * (s[7] as int % 128);
      Decode(s) == if s[7] >= 128 then -y else y
  {
    var t := s[7 := s[7] % 128];
    ValueFour(t);
    ValueFour(t[4..]);
    assert Value(t[4..][4..]) == 0;
  }
}
