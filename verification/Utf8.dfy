/**
 UTF-8, between Go's string bytes and the Unicode scalar values this project
 writes strings with. Decoding is total, as in unicode/utf8: an octet that
 starts no well-formed sequence reads as U+FFFD and is skipped alone.
 */
module Utf8 {
  import opened Common

  const REPLACEMENT: char := 0xFFFD as char

  function EncodeChar(c: char): (b: seq<byte>)
    ensures |b| > 0
  {
    var n := c as int;
    if n < 0x80 then [n]
    else if n < 0x800 then [0xC0 + n / 64, 0x80 + n % 64]
    else if n < 0x1_0000 then [0xE0 + n / 4096, 0x80 + n / 64 % 64, 0x80 + n % 64]
    else [0xF0 + n / 262144, 0x80 + n / 4096 % 64, 0x80 + n / 64 % 64, 0x80 + n % 64]
  }

  function Encode(s: string): seq<byte> {
    if s == [] then [] else EncodeChar(s[0]) + Encode(s[1..])
  }

  predicate Continuation(b: byte) {
    0x80 <= b < 0xC0
  }

  predicate IsScalar(n: int) {
    0 <= n < 0xD800 || 0xE000 <= n < 0x11_0000
  }

  /** utf8.DecodeRune: the next character and how many octets it takes. */
  function DecodeChar(b: seq<byte>): (r: (char, nat))
    requires b != []
    ensures 1 <= r.1 <= |b|
  {
    if b[0] < 0x80 then (b[0] as char, 1)
    else if 0xC2 <= b[0] < 0xE0 && |b| >= 2 && Continuation(b[1]) then
      (Two(b[0], b[1]) as char, 2)
    else if 0xE0 <= b[0] < 0xF0 && |b| >= 3 && Continuation(b[1]) && Continuation(b[2])
            && Three(b[0], b[1], b[2]) >= 0x800 && IsScalar(Three(b[0], b[1], b[2])) then
      (Three(b[0], b[1], b[2]) as char, 3)
    else if 0xF0 <= b[0] < 0xF5 && |b| >= 4 && Continuation(b[1]) && Continuation(b[2]) && Continuation(b[3])
            && Four(b[0], b[1], b[2], b[3]) >= 0x1_0000 && IsScalar(Four(b[0], b[1], b[2], b[3])) then
      (Four(b[0], b[1], b[2], b[3]) as char, 4)
    else (REPLACEMENT, 1)
  }

  function Two(a: int, b: int): int { (a - 0xC0) * 64 + (b - 0x80) }

  function Three(a: int, b: int, c: int): int { ((a - 0xE0) * 64 + (b - 0x80)) * 64 + (c - 0x80) }

  function Four(a: int, b: int, c: int, d: int): int {
    (((a - 0xF0) * 64 + (b - 0x80)) * 64 + (c - 0x80)) * 64 + (d - 0x80)
  }

  function Decode(b: seq<byte>): string {
    if b == [] then [] else var (c, k) := DecodeChar(b); [c] + Decode(b[k..])
  }

  lemma TwoParts(n: int)
    requires 0x80 <= n < 0x800
    ensures Two(0xC0 + n / 64, 0x80 + n % 64) == n
  {
  }

  lemma ThreeParts(n: int)
    requires 0x800 <= n < 0x1_0000
    ensures Three(0xE0 + n / 4096, 0x80 + n / 64 % 64, 0x80 + n % 64) == n
  {
    assert n / 64 / 64 == n / 4096;
  }

  lemma FourParts(n: int)
    requires 0x1_0000 <= n < 0x11_0000
    ensures Four(0xF0 + n / 262144, 0x80 + n / 4096 % 64, 0x80 + n / 64 % 64, 0x80 + n % 64) == n
  {
    assert n / 64 / 64 == n / 4096;
    assert n / 4096 / 64 == n / 262144;
  }

  lemma DecodeEncodeChar(c: char, rest: seq<byte>)
    ensures DecodeChar(EncodeChar(c) + rest) == (c, |EncodeChar(c)|)
  {
    hide Two, Three, Four;
    var n := c as int;
    if 0x80 <= n < 0x800 {
      TwoParts(n);
    } else if 0x800 <= n < 0x1_0000 {
      ThreeParts(n);
    } else if n >= 0x1_0000 {
      FourParts(n);
    }
  }

  /** The two octets after a lead octet, and what they add up to. */
  lemma TwoBack(a: byte, b: byte)
    requires 0xC2 <= a < 0xE0 && Continuation(b)
    ensures var n := Two(a, b);
            0x80 <= n < 0x800 && 0xC0 + n / 64 == a && 0x80 + n % 64 == b
  {
  }

  lemma ThreeBack(a: byte, b: byte, c: byte)
    requires 0xE0 <= a < 0xF0 && Continuation(b) && Continuation(c)
    ensures var n := Three(a, b, c);
            0 <= n < 0x1_0000 && 0xE0 + n / 4096 == a && 0x80 + n / 64 % 64 == b && 0x80 + n % 64 == c
  {
    var n := Three(a, b, c);
    assert n / 64 == (a - 0xE0) * 64 + (b - 0x80);
    assert n / 64 / 64 == n / 4096;
  }

  lemma FourBack(a: byte, b: byte, c: byte, d: byte)
    requires 0xF0 <= a < 0xF5 && Continuation(b) && Continuation(c) && Continuation(d)
    ensures var n := Four(a, b, c, d);
            && 0 <= n && 0xF0 + n / 262144 == a && 0x80 + n / 4096 % 64 == b
            && 0x80 + n / 64 % 64 == c && 0x80 + n % 64 == d
  {
    var n := Four(a, b, c, d);
    assert n / 64 == ((a - 0xF0) * 64 + (b - 0x80)) * 64 + (c - 0x80);
    assert n / 64 / 64 == n / 4096;
    assert n / 4096 / 64 == n / 262144;
  }

  /** A character is read only where its own encoding stands. */
  lemma DecodedStands(b: seq<byte>)
    requires b != []
    ensures DecodeChar(b) == (REPLACEMENT, 1) || EncodeChar(DecodeChar(b).0) <= b
  {
    hide Two, Three, Four;
    var (c, k) := DecodeChar(b);
    if k == 2 {
      TwoBack(b[0], b[1]);
    } else if k == 3 {
      ThreeBack(b[0], b[1], b[2]);
    } else if k == 4 {
      FourBack(b[0], b[1], b[2], b[3]);
    }
  }

  /**
   Exactly what one step of decoding makes of any octets: the character whose
   encoding they start with, or U+FFFD for one octet when they start with none.
   */
  lemma DecodeCharExactly(b: seq<byte>, c: char)
    requires b != []
    ensures EncodeChar(c) <= b ==> DecodeChar(b) == (c, |EncodeChar(c)|)
    ensures (forall d :: !(EncodeChar(d) <= b)) ==> DecodeChar(b) == (REPLACEMENT, 1)
  {
    hide DecodeChar, EncodeChar;
    if EncodeChar(c) <= b {
      var k := |EncodeChar(c)|;
      assert b == EncodeChar(c) + b[k..];
      DecodeEncodeChar(c, b[k..]);
    }
    DecodedStands(b);
  }

  /** No text is lost: decoding the UTF-8 of any string gives the string. */
  lemma {:induction false} DecodeEncode(s: string)
    ensures Decode(Encode(s)) == s
  {
    hide DecodeChar, EncodeChar;
    if s != [] {
      var head, tail := EncodeChar(s[0]), Encode(s[1..]);
      DecodeEncodeChar(s[0], tail);
      assert (head + tail)[|head|..] == tail;
      DecodeEncode(s[1..]);
    }
  }

  // ----- byte order -----

  /** The order in which Go compares strings: octet by octet, a prefix first. */
  predicate BytesLess(a: seq<byte>, b: seq<byte>) {
    b != [] && (a == [] || a[0] < b[0] || (a[0] == b[0] && BytesLess(a[1..], b[1..])))
  }

  /** Two octet strings agree up to i and part there. */
  predicate PartAt(a: seq<byte>, b: seq<byte>, i: nat) {
    i < |a| && i < |b| && a[..i] == b[..i] && a[i] < b[i]
  }

  lemma {:induction false} PartedOrder(a: seq<byte>, b: seq<byte>, i: nat, s: seq<byte>, t: seq<byte>)
    requires PartAt(a, b, i)
    ensures BytesLess(a + s, b + t) && !BytesLess(b + t, a + s)
  {
    if i > 0 {
      assert a[0] == a[..i][0] && b[0] == b[..i][0];
      assert a[1..][..i - 1] == a[..i][1..] && b[1..][..i - 1] == b[..i][1..];
      PartedOrder(a[1..], b[1..], i - 1, s, t);
      assert (a + s)[1..] == a[1..] + s && (b + t)[1..] == b[1..] + t;
    }
  }

  lemma {:induction false} CommonPrefixOrder(p: seq<byte>, s: seq<byte>, t: seq<byte>)
    ensures BytesLess(p + s, p + t) <==> BytesLess(s, t)
  {
    if p == [] {
      assert p + s == s && p + t == t;
    } else {
      CommonPrefixOrder(p[1..], s, t);
      assert (p + s)[1..] == p[1..] + s && (p + t)[1..] == p[1..] + t;
    }
  }

  lemma SixBits(m: nat, n: nat)
    requires m < n
    ensures m / 64 < n / 64 || (m / 64 == n / 64 && m % 64 < n % 64)
  {
  }

  lemma Shift(n: nat)
    ensures n / 64 / 64 == n / 4096 && n / 4096 / 64 == n / 262144
  {
  }

  /** Texts of one length: the first group of six bits that differs decides. */
  lemma SixBitGroups(m: nat, n: nat)
    requires m < n
    ensures m / 262144 < n / 262144
      || (m / 262144 == n / 262144 && m / 4096 % 64 < n / 4096 % 64)
      || (m / 4096 == n / 4096 && m / 64 % 64 < n / 64 % 64)
      || (m / 64 == n / 64 && m % 64 < n % 64)
    ensures m / 4096 < n / 4096 || (m / 4096 == n / 4096 && m / 64 % 64 < n / 64 % 64)
      || (m / 64 == n / 64 && m % 64 < n % 64)
    ensures m / 64 < n / 64 || (m / 64 == n / 64 && m % 64 < n % 64)
    ensures m / 64 == n / 64 ==> m / 4096 == n / 4096
    ensures m / 4096 == n / 4096 ==> m / 262144 == n / 262144
  {
    Shift(m);
    Shift(n);
    SixBits(m, n);
    if m / 64 < n / 64 {
      SixBits(m / 64, n / 64);
      if m / 4096 < n / 4096 {
        SixBits(m / 4096, n / 4096);
      }
    }
  }

  lemma LongerIsGreater(c: char, d: char)
    requires c < d
    ensures |EncodeChar(c)| == |EncodeChar(d)| || EncodeChar(c)[0] < EncodeChar(d)[0]
  {
  }

  lemma TwoOrder(a: byte, b: byte, a': byte, b': byte)
    requires a < a' || (a == a' && b < b')
    ensures exists i :: PartAt([a, b], [a', b'], i)
  {
    assert PartAt([a, b], [a', b'], if a < a' then 0 else 1);
  }

  lemma ThreeOrder(a: byte, b: byte, c: byte, a': byte, b': byte, c': byte)
    requires a < a' || (a == a' && (b < b' || (b == b' && c < c')))
    ensures exists i :: PartAt([a, b, c], [a', b', c'], i)
  {
    assert PartAt([a, b, c], [a', b', c'], if a < a' then 0 else if b < b' then 1 else 2);
  }

  lemma FourOrder(a: byte, b: byte, c: byte, d: byte, a': byte, b': byte, c': byte, d': byte)
    requires a < a' || (a == a' && (b < b' || (b == b' && (c < c' || (c == c' && d < d')))))
    ensures exists i :: PartAt([a, b, c, d], [a', b', c', d'], i)
  {
    assert PartAt([a, b, c, d], [a', b', c', d'], if a < a' then 0 else if b < b' then 1 else if c < c' then 2 else 3);
  }

  /** A smaller scalar value has a smaller encoding, which is no prefix of the other. */
  lemma EncodeCharOrder(c: char, d: char)
    requires c < d
    ensures exists i :: PartAt(EncodeChar(c), EncodeChar(d), i)
  {
    hide PartAt;
    var m, n := c as int, d as int;
    LongerIsGreater(c, d);
    SixBitGroups(m, n);
    if EncodeChar(c)[0] < EncodeChar(d)[0] {
      LeadDecides(EncodeChar(c), EncodeChar(d));
    } else if n < 0x800 {
      TwoOrder(0xC0 + m / 64, 0x80 + m % 64, 0xC0 + n / 64, 0x80 + n % 64);
    } else if n < 0x1_0000 {
      ThreeOrder(0xE0 + m / 4096, 0x80 + m / 64 % 64, 0x80 + m % 64,
                 0xE0 + n / 4096, 0x80 + n / 64 % 64, 0x80 + n % 64);
    } else {
      FourOrder(0xF0 + m / 262144, 0x80 + m / 4096 % 64, 0x80 + m / 64 % 64, 0x80 + m % 64,
                0xF0 + n / 262144, 0x80 + n / 4096 % 64, 0x80 + n / 64 % 64, 0x80 + n % 64);
    }
  }

  lemma LeadDecides(a: seq<byte>, b: seq<byte>)
    requires a != [] && b != [] && a[0] < b[0]
    ensures exists i :: PartAt(a, b, i)
  {
    assert PartAt(a, b, 0);
  }
}
