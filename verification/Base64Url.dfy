/**
 Base64url without padding (section 2 of RFC 7515, alphabet of section 5 of
 RFC 4648), as base64.RawURLEncoding encodes and decodes it. The decoder is the
 library's lenient one: it skips CR and LF and ignores unused trailing bits.
 */
module Base64Url {
  import opened Common

  type sextet = i: int | 0 <= i < 64

  function Letter(i: sextet): char {
    if i < 26 then ('A' as int + i) as char
    else if i < 52 then ('a' as int + i - 26) as char
    else if i < 62 then ('0' as int + i - 52) as char
    else if i == 62 then '-'
    else '_'
  }

  function Index(c: char): Option<sextet> {
    if 'A' <= c <= 'Z' then Some(c as int - 'A' as int)
    else if 'a' <= c <= 'z' then Some(c as int - 'a' as int + 26)
    else if '0' <= c <= '9' then Some(c as int - '0' as int + 52)
    else if c == '-' then Some(62)
    else if c == '_' then Some(63)
    else None
  }

  const UPPER := "ABCDEFGHIJKLMNOPQRSTUVWXYZ"
  const LOWER := "abcdefghijklmnopqrstuvwxyz"
  const DIGITS := "0123456789"

  /** The URL-safe alphabet, section 5 of RFC 4648. */
  const ALPHABET := UPPER + LOWER + DIGITS + "-_"

  lemma UpperAt(i: nat)
    requires i < 26
    ensures UPPER[i] == ('A' as int + i) as char
  {
  }

  lemma LowerAt(i: nat)
    requires i < 26
    ensures LOWER[i] == ('a' as int + i) as char
  {
  }

  lemma LetterAt(i: sextet)
    ensures |ALPHABET| == 64 && Letter(i) == ALPHABET[i]
  {
    if i < 26 {
      UpperAt(i);
    } else if i < 52 {
      LowerAt(i - 26);
    }
  }

  /** A letter is the one the alphabet has at its place, and only those have a value. */
  lemma AlphabetExactly(i: sextet, c: char)
    ensures |ALPHABET| == 64 && Letter(i) == ALPHABET[i]
    ensures Index(c) == Some(i) <==> c == ALPHABET[i]
    ensures Index(c).Some? <==> c in ALPHABET
  {
    hide ALPHABET, Letter, Index;
    LetterAt(i);
    IndexOfLetter(i);
    if Index(c).Some? {
      LetterOfIndex(c);
      LetterAt(Index(c).value);
    }
    if c in ALPHABET {
      var j: int :| 0 <= j < 64 && ALPHABET[j] == c;
      LetterAt(j);
      IndexOfLetter(j);
    }
  }

  predicate InAlphabet(s: string) {
    forall i :: 0 <= i < |s| ==> Index(s[i]).Some?
  }

  /** EncodeToString. */
  function Encode(b: seq<byte>): string {
    if |b| == 0 then []
    else if |b| == 1 then Letters(Quantum(b[0], 0, 0)[..2])
    else if |b| == 2 then Letters(Quantum(b[0], b[1], 0)[..3])
    else Letters(Quantum(b[0], b[1], b[2])) + Encode(b[3..])
  }

  /** Three octets cut into four sextets. */
  function Quantum(a: byte, b: byte, c: byte): (q: seq<sextet>)
    ensures |q| == 4
  {
    [a / 4, a % 4 * 16 + b / 16, b % 16 * 4 + c / 64, c % 64]
  }

  function Letters(q: seq<sextet>): (s: string)
    ensures |s| == |q|
  {
    seq(|q|, i requires 0 <= i < |q| => Letter(q[i]))
  }

  function StripNewlines(s: string): string {
    if s == [] then []
    else if s[0] == '\n' || s[0] == '\r' then StripNewlines(s[1..])
    else [s[0]] + StripNewlines(s[1..])
  }

  /** The sextets of a text, if every character is in the alphabet. */
  function Indices(s: string): Option<seq<sextet>> {
    if s == [] then Some([])
    else
      var i :- Index(s[0]);
      var rest :- Indices(s[1..]);
      Some([i] + rest)
  }

  /** Whole quanta of four sextets, then a quantum of two or three; one left over is an error. */
  function Octets(q: seq<sextet>): Option<seq<byte>> {
    if |q| == 0 then Some([])
    else if |q| == 1 then None
    else if |q| == 2 then Some([High(q[0], q[1])])
    else if |q| == 3 then Some([High(q[0], q[1]), Middle(q[1], q[2])])
    else
      var rest :- Octets(q[4..]);
      Some([High(q[0], q[1]), Middle(q[1], q[2]), Low(q[2], q[3])] + rest)
  }

  function High(a: int, b: int): (o: byte)
    requires 0 <= a < 64 && 0 <= b < 64
  {
    a * 4 + b / 16
  }

  function Middle(a: int, b: int): (o: byte)
    requires 0 <= a < 64 && 0 <= b < 64
  {
    a % 16 * 16 + b / 4
  }

  function Low(a: int, b: int): (o: byte)
    requires 0 <= a < 64 && 0 <= b < 64
  {
    a % 4 * 64 + b
  }

  /** DecodeString. */
  function Decode(s: string): Option<seq<byte>> {
    var q :- Indices(StripNewlines(s));
    Octets(q)
  }

  /** The bits of the last sextet that carry no data are zero. */
  predicate TrailingBitsZero(q: seq<sextet>) {
    && (|q| % 4 == 2 ==> q[|q| - 1] % 16 == 0)
    && (|q| % 4 == 3 ==> q[|q| - 1] % 4 == 0)
  }

  lemma IndexOfLetter(i: sextet)
    ensures Index(Letter(i)) == Some(i)
  {
  }

  lemma LetterOfIndex(c: char)
    requires Index(c).Some?
    ensures Letter(Index(c).value) == c
  {
  }

  lemma {:induction false} IndicesOfLetters(q: seq<sextet>)
    ensures Indices(Letters(q)) == Some(q)
  {
    if q != [] {
      var s := Letters(q);
      IndexOfLetter(q[0]);
      assert s[1..] == Letters(q[1..]);
      IndicesOfLetters(q[1..]);
      assert q == [q[0]] + q[1..];
    }
  }

  lemma {:induction false} LettersOfIndices(s: string)
    ensures Indices(s).Some? <==> InAlphabet(s)
    ensures Indices(s).Some? ==> |Indices(s).value| == |s| && Letters(Indices(s).value) == s
  {
    if s != [] {
      LettersOfIndices(s[1..]);
      assert InAlphabet(s) <==> Index(s[0]).Some? && InAlphabet(s[1..]);
      if Indices(s).Some? {
        LetterOfIndex(s[0]);
      }
    }
  }

  /** The sextets an octet string is cut into. */
  ghost function Sextets(b: seq<byte>): seq<sextet> {
    if |b| == 0 then []
    else if |b| == 1 then Quantum(b[0], 0, 0)[..2]
    else if |b| == 2 then Quantum(b[0], b[1], 0)[..3]
    else Quantum(b[0], b[1], b[2]) + Sextets(b[3..])
  }

  lemma LettersConcat(p: seq<sextet>, q: seq<sextet>)
    ensures Letters(p + q) == Letters(p) + Letters(q)
  {
  }

  lemma {:induction false} EncodeIsLetters(b: seq<byte>)
    ensures Encode(b) == Letters(Sextets(b))
  {
    if |b| >= 3 {
      EncodeIsLetters(b[3..]);
      LettersConcat(Quantum(b[0], b[1], b[2]), Sextets(b[3..]));
    }
  }

  lemma QuantumOctets(a: byte, b: byte, c: byte)
    ensures var q := Quantum(a, b, c); High(q[0], q[1]) == a && Middle(q[1], q[2]) == b && Low(q[2], q[3]) == c
  {
  }

  lemma QuantumOfOctets(p: sextet, q: sextet, r: sextet, s: sextet)
    ensures Quantum(High(p, q), Middle(q, r), Low(r, s)) == [p, q, r, s]
  {
    HighParts(p, q);
    MiddleParts(q, r);
    LowParts(r, s);
  }

  lemma HighParts(p: sextet, q: sextet)
    ensures High(p, q) / 4 == p && High(p, q) % 4 == q / 16
  {
  }

  lemma MiddleParts(q: sextet, r: sextet)
    ensures Middle(q, r) / 16 == q % 16 && Middle(q, r) % 16 == r / 4
  {
  }

  lemma LowParts(r: sextet, s: sextet)
    ensures Low(r, s) / 64 == r % 4 && Low(r, s) % 64 == s
  {
  }

  lemma OneOctet(a: byte)
    ensures Octets(Quantum(a, 0, 0)[..2]) == Some([a])
    ensures Quantum(a, 0, 0)[1] % 16 == 0
  {
    QuantumOctets(a, 0, 0);
  }

  lemma TwoOctets(a: byte, b: byte)
    ensures Octets(Quantum(a, b, 0)[..3]) == Some([a, b])
    ensures Quantum(a, b, 0)[2] % 4 == 0
  {
    QuantumOctets(a, b, 0);
  }

  lemma ShortOctets(b: seq<byte>)
    requires |b| < 3
    ensures Octets(Sextets(b)) == Some(b) && TrailingBitsZero(Sextets(b))
  {
    hide Quantum, Octets;
    if |b| == 0 {
      EmptyOctets();
    } else if |b| == 1 {
      OneOctet(b[0]);
      assert b == [b[0]];
    } else {
      TwoOctets(b[0], b[1]);
      assert b == [b[0], b[1]];
    }
  }

  lemma EmptyOctets()
    ensures Octets([]) == Some([])
  {
  }

  lemma {:induction false} SextetsCount(b: seq<byte>)
    ensures |Sextets(b)| == (4 * |b| + 2) / 3 && |Sextets(b)| % 4 != 1
  {
    if |b| >= 3 {
      SextetsCount(b[3..]);
    }
  }

  lemma OctetsOfQuantum(a: byte, b: byte, c: byte, q: seq<sextet>)
    requires Octets(q).Some?
    ensures Octets(Quantum(a, b, c) + q) == Some([a, b, c] + Octets(q).value)
  {
    assert (Quantum(a, b, c) + q)[4..] == q;
    QuantumOctets(a, b, c);
  }

  lemma {:induction false} OctetsOfSextets(b: seq<byte>)
    ensures Octets(Sextets(b)) == Some(b)
    ensures TrailingBitsZero(Sextets(b))
  {
    SextetsCount(b);
    if |b| < 3 {
      ShortOctets(b);
    } else {
      OctetsOfSextets(b[3..]);
      OctetsOfQuantum(b[0], b[1], b[2], Sextets(b[3..]));
      assert b == [b[0], b[1], b[2]] + b[3..];
      assert Sextets(b)[4..] == Sextets(b[3..]);
      TrailingBitsOfTail(Sextets(b));
    }
  }

  lemma TrailingBitsOfTail(q: seq<sextet>)
    requires |q| >= 4
    ensures |q| % 4 != 1 ==> (TrailingBitsZero(q) <==> TrailingBitsZero(q[4..]))
  {
  }

  lemma SextetsOfQuantum(p: sextet, q: sextet, r: sextet, t: sextet, rest: seq<byte>)
    ensures Sextets([High(p, q), Middle(q, r), Low(r, t)] + rest) == [p, q, r, t] + Sextets(rest)
  {
    hide High, Middle, Low, Quantum;
    var b := [High(p, q), Middle(q, r), Low(r, t)] + rest;
    assert b[3..] == rest;
    QuantumOfOctets(p, q, r, t);
  }

  lemma {:induction false} SextetsOfOctets(q: seq<sextet>)
    ensures Octets(q).Some? <==> |q| % 4 != 1
    ensures Octets(q).Some? ==> (Sextets(Octets(q).value) == q <==> TrailingBitsZero(q))
  {
    hide Quantum, High, Middle, Low, Sextets, TrailingBitsZero;
    if |q| < 4 {
      ShortSextets(q);
    } else {
      SextetsOfOctets(q[4..]);
      if Octets(q).Some? {
        var head, rest := [q[0], q[1], q[2], q[3]], Octets(q[4..]).value;
        SextetsOfQuantum(q[0], q[1], q[2], q[3], rest);
        assert q == head + q[4..];
        assert head + Sextets(rest) == head + q[4..] <==> Sextets(rest) == q[4..] by {
          SamePrefix(head, Sextets(rest), q[4..]);
        }
        TrailingBitsOfTail(q);
      }
    }
  }

  lemma SamePrefix(p: seq<sextet>, s: seq<sextet>, t: seq<sextet>)
    ensures p + s == p + t <==> s == t
  {
    assert s == (p + s)[|p|..] && t == (p + t)[|p|..];
  }

  lemma TwoSextets(p: sextet, q: sextet)
    ensures Sextets([High(p, q)]) == [p, q / 16 * 16]
  {
    HighParts(p, q);
  }

  lemma ThreeSextets(p: sextet, q: sextet, r: sextet)
    ensures Sextets([High(p, q), Middle(q, r)]) == [p, q, r / 4 * 4]
  {
    HighParts(p, q);
    MiddleParts(q, r);
  }

  lemma TwoLeft(q: seq<sextet>)
    requires |q| == 2
    ensures Octets(q).Some? && (Sextets(Octets(q).value) == q <==> TrailingBitsZero(q))
  {
    hide Sextets, High;
    TwoSextets(q[0], q[1]);
    assert q == [q[0], q[1]];
  }

  lemma ThreeLeft(q: seq<sextet>)
    requires |q| == 3
    ensures Octets(q).Some? && (Sextets(Octets(q).value) == q <==> TrailingBitsZero(q))
  {
    hide Sextets, High, Middle;
    ThreeSextets(q[0], q[1], q[2]);
    assert q == [q[0], q[1], q[2]];
  }

  lemma ShortSextets(q: seq<sextet>)
    requires |q| < 4
    ensures Octets(q).Some? <==> |q| != 1
    ensures Octets(q).Some? ==> (Sextets(Octets(q).value) == q <==> TrailingBitsZero(q))
  {
    if |q| == 0 {
      assert Sextets([]) == [] by { SextetsCount([]); }
    } else if |q| == 2 {
      TwoLeft(q);
    } else if |q| == 3 {
      ThreeLeft(q);
    }
  }

  lemma {:induction false} StripClean(s: string)
    requires InAlphabet(s)
    ensures StripNewlines(s) == s
  {
    if s != [] {
      assert Index(s[0]).Some?;
      assert forall i :: 0 <= i < |s[1..]| ==> s[1..][i] == s[i + 1];
      StripClean(s[1..]);
    }
  }

  /** Only line breaks are skipped, wherever they stand. */
  lemma {:induction false} StripExactly(a: string, c: char, b: string)
    ensures StripNewlines(a + [c] + b) == StripNewlines(a) + (if c in {'\r', '\n'} then [] else [c]) + StripNewlines(b)
    ensures StripNewlines([]) == []
  {
    var s := a + [c] + b;
    if a == [] {
      assert s[0] == c && s[1..] == b;
    } else {
      assert s[0] == a[0] && s[1..] == a[1..] + [c] + b;
      StripExactly(a[1..], c, b);
    }
  }

  /** The octets of a text with spare bits are those of the text with the bits cleared. */
  lemma {:induction false} SpareBitsIgnored(q: seq<sextet>, t: seq<sextet>)
    requires |q| == |t| && (forall i :: 0 <= i < |q| - 1 ==> q[i] == t[i])
    requires |q| % 4 == 0 ==> q == t
    requires |q| % 4 == 2 ==> q[|q| - 1] / 16 == t[|q| - 1] / 16
    requires |q| % 4 == 3 ==> q[|q| - 1] / 4 == t[|q| - 1] / 4
    ensures |q| % 4 != 1 ==> Octets(q) == Octets(t)
  {
    if |q| >= 4 {
      SpareBitsIgnored(q[4..], t[4..]);
    }
  }

  lemma EncodeInAlphabet(b: seq<byte>)
    ensures InAlphabet(Encode(b))
    ensures |Encode(b)| == (4 * |b| + 2) / 3
  {
    EncodeIsLetters(b);
    IndicesOfLetters(Sextets(b));
    LettersOfIndices(Encode(b));
    SextetsCount(b);
  }

  /** Decoding undoes encoding, for octet strings of every length. */
  lemma DecodeEncode(b: seq<byte>)
    ensures Decode(Encode(b)) == Some(b)
  {
    EncodeInAlphabet(b);
    StripClean(Encode(b));
    EncodeIsLetters(b);
    IndicesOfLetters(Sextets(b));
    OctetsOfSextets(b);
  }

  lemma EncodeInjective(a: seq<byte>, b: seq<byte>)
    requires Encode(a) == Encode(b)
    ensures a == b
  {
    DecodeEncode(a);
    DecodeEncode(b);
  }

  /**
   Exactly what the decoder takes, and exactly when re-encoding gives the text
   back: a text with non-zero spare bits, or with line breaks, is a second
   spelling of the same octets.
   */
  lemma DecodeCharacterised(s: string)
    ensures var t := StripNewlines(s);
            && (Decode(s).Some? <==> InAlphabet(t) && |t| % 4 != 1)
            && (Decode(s).Some? ==>
                  (Encode(Decode(s).value) == s <==> t == s && TrailingBitsZero(Indices(t).value)))
  {
    var t := StripNewlines(s);
    LettersOfIndices(t);
    if Indices(t).Some? {
      var q := Indices(t).value;
      SextetsOfOctets(q);
      if Octets(q).Some? {
        var b := Octets(q).value;
        EncodeIsLetters(b);
        EncodeInAlphabet(b);
        StripClean(Encode(b));
        IndicesOfLetters(Sextets(b));
      }
    }
  }
}
