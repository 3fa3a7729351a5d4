// Bytes, their wrap-around arithmetic, and the order of byte strings that
// memcmp and the suffix sort rely on.
module Bytes {

  type byte = x: int | 0 <= x < 256

  // u_char addition and subtraction wrap around modulo 256.
  function AddByte(a: byte, b: byte): byte {
    (a + b) % 256
  }

  function SubByte(a: byte, b: byte): byte {
    (a - b) % 256
  }

  lemma {:induction false} AddUndoesSub(a: byte, b: byte)
    ensures AddByte(SubByte(a, b), b) == a
  {
  }

  // The difference is the one byte that takes b to a, going past 255 if need be.
  lemma {:induction false} SubByteIs(a: byte, b: byte, d: byte)
    ensures SubByte(a, b) == d <==> b + d == a || b + d == a + 256
    ensures AddByte(d, b) == a <==> b + d == a || b + d == a + 256
    ensures a == b ==> SubByte(a, b) == 0
  {
  }

  // Lexicographic order; a proper prefix comes first.
  ghost predicate LexLess(s: seq<byte>, t: seq<byte>) {
    |t| > 0 && (|s| == 0 || s[0] < t[0] || (s[0] == t[0] && LexLess(s[1..], t[1..])))
  }

  // Length of the longest common prefix.
  function CommonPrefix(s: seq<byte>, t: seq<byte>): (k: nat)
    ensures k <= |s| && k <= |t|
  {
    if |s| == 0 || |t| == 0 || s[0] != t[0] then 0 else 1 + CommonPrefix(s[1..], t[1..])
  }

  // The common prefix is common, and cannot be extended.
  lemma {:induction false} CommonPrefixExact(s: seq<byte>, t: seq<byte>, k: nat)
    requires k <= |s| && k <= |t|
    ensures k == CommonPrefix(s, t) <==>
            s[..k] == t[..k] && (k < |s| && k < |t| ==> s[k] != t[k])
  {
    if |s| == 0 || |t| == 0 {
    } else if s[0] != t[0] {
      assert k > 0 ==> s[..k][0] != t[..k][0];
    } else if k > 0 {
      CommonPrefixExact(s[1..], t[1..], k - 1);
      assert s[..k] == [s[0]] + s[1..][..k - 1];
      assert t[..k] == [t[0]] + t[1..][..k - 1];
      assert s[..k] == t[..k] ==> s[1..][..k - 1] == s[..k][1..] == t[..k][1..] == t[1..][..k - 1];
    }
  }

  // Suffix a of base precedes suffix b; position |base| is the empty suffix.
  ghost predicate SuffixLess(base: seq<byte>, a: int, b: int)
    requires 0 <= a <= |base| && 0 <= b <= |base|
    decreases |base| - a
  {
    && b < |base|
    && (a == |base| || base[a] < base[b] || (base[a] == base[b] && SuffixLess(base, a + 1, b + 1)))
  }

  // It is the lexicographic order of the suffixes as byte strings.
  lemma {:induction false} SuffixLessIsLexLess(base: seq<byte>, a: int, b: int)
    requires 0 <= a <= |base| && 0 <= b <= |base|
    ensures SuffixLess(base, a, b) <==> LexLess(base[a..], base[b..])
    decreases |base| - a
  {
    if a < |base| && b < |base| {
      assert base[a..][1..] == base[a + 1..] && base[b..][1..] == base[b + 1..];
      SuffixLessIsLexLess(base, a + 1, b + 1);
    }
  }

  // Suffixes a and b both have at least h bytes, and agree on the first h.
  ghost predicate Share(base: seq<byte>, a: int, b: int, h: int) {
    0 <= h && 0 <= a && 0 <= b && a + h <= |base| && b + h <= |base| &&
    base[a..a + h] == base[b..b + h]
  }

  // Suffixes that agree on h bytes are ordered by what follows.
  lemma {:induction false} SkipShared(base: seq<byte>, a: int, b: int, h: int)
    requires Share(base, a, b, h)
    ensures SuffixLess(base, a, b) <==> SuffixLess(base, a + h, b + h)
    decreases h
  {
    if h > 0 {
      assert base[a] == base[a..a + h][0] == base[b..b + h][0] == base[b];
      assert base[a + 1..a + h] == base[a..a + h][1..] == base[b..b + h][1..] == base[b + 1..b + h];
      SkipShared(base, a + 1, b + 1, h - 1);
    }
  }

  // Agreement on h bytes, and again on h bytes after that, is agreement on 2h.
  lemma {:induction false} ShareDouble(base: seq<byte>, a: int, b: int, h: int)
    requires Share(base, a, b, h) && Share(base, a + h, b + h, h)
    ensures Share(base, a, b, 2 * h)
  {
    assert base[a..a + 2 * h] == base[a..a + h] + base[a + h..a + h + h];
    assert base[b..b + 2 * h] == base[b..b + h] + base[b + h..b + h + h];
  }
}
