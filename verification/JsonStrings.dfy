/**
 The string literals of section 7 of RFC 8259, character by character: which
 texts they are, and what each stands for to encoding/json, which reads a
 surrogate escape without its partner as U+FFFD.
 */
module JsonStrings {
  import opened Common
  import opened JsonParser
  import Utf8

  /** The spellings of one character. */
  datatype Spelling =
    | Bare(c: char)
    | Short(letter: char)
    | Unit(digits: string)
    | Pair(high: string, low: string)

  const SHORT_LETTERS := "\"\\/bfnrt"
  const SHORT_CHARS := ['\"', '\\', '/', 8 as char, 12 as char, '\n', '\r', '\t']

  const LOWER_HEX := "0123456789abcdef"
  const UPPER_HEX := "0123456789ABCDEF"

  /** A hexadecimal digit of either case and its value. */
  predicate HexOf(c: char, v: int) { 0 <= v < 16 && (c == LOWER_HEX[v] || c == UPPER_HEX[v]) }

  /** The code unit four hexadecimal digits spell. */
  ghost predicate Spells(digits: string, n: int) {
    |digits| == 4 &&
    exists a, b, c, d ::
      HexOf(digits[0], a) && HexOf(digits[1], b) && HexOf(digits[2], c) && HexOf(digits[3], d)
      && n == ((a * 16 + b) * 16 + c) * 16 + d
  }

  predicate HighHalf(n: int) { 0xD800 <= n < 0xDC00 }

  predicate LowHalf(n: int) { 0xDC00 <= n < 0xE000 }

  ghost predicate CharSpelt(p: Spelling, c: char) {
    match p
    case Bare(d) => d == c && c >= ' ' && c != '\"' && c != '\\'
    case Short(letter) => exists i :: 0 <= i < 8 && SHORT_LETTERS[i] == letter && SHORT_CHARS[i] == c
    case Unit(digits) =>
      exists n :: Spells(digits, n) && c as int == if HighHalf(n) || LowHalf(n) then 0xFFFD else n
    case Pair(high, low) =>
      exists m, n ::
        Spells(high, m) && HighHalf(m) && Spells(low, n) && LowHalf(n)
        && c as int == 0x1_0000 + (m - 0xD800) * 0x400 + (n - 0xDC00)
  }

  function SpellingText(p: Spelling): string {
    match p
    case Bare(c) => [c]
    case Short(letter) => ['\\', letter]
    case Unit(digits) => ['\\', 'u'] + digits
    case Pair(high, low) => ['\\', 'u'] + high + (['\\', 'u'] + low)
  }

  ghost predicate HighUnit(p: Spelling) { p.Unit? && exists n :: Spells(p.digits, n) && HighHalf(n) }

  ghost predicate LowUnit(p: Spelling) { p.Unit? && exists n :: Spells(p.digits, n) && LowHalf(n) }

  /** Spellings of s. A high half right before a low half would be a pair. */
  ghost predicate StringSpelt(ps: seq<Spelling>, s: string) {
    && |ps| == |s|
    && (forall i :: 0 <= i < |ps| ==> CharSpelt(ps[i], s[i]))
    && (forall i :: 0 <= i < |ps| - 1 ==> !(HighUnit(ps[i]) && LowUnit(ps[i + 1])))
  }

  function StringText(ps: seq<Spelling>): string {
    if ps == [] then [] else SpellingText(ps[0]) + StringText(ps[1..])
  }

  // ----- one character -----

  lemma HexValueExactly(c: char, v: int)
    ensures HexValue(c) == Some(v) <==> HexOf(c, v)
  {
  }

  lemma CodeUnitSpells(s: string, n: int)
    ensures CodeUnit(s) == Some(n) ==> |s| >= 5 && s[0] == 'u' && Spells(s[1..5], n)
    ensures |s| >= 5 && s[0] == 'u' && Spells(s[1..5], n) ==> CodeUnit(s) == Some(n)
  {
    hide HexOf, HexValue;
    if |s| >= 5 {
      var d := s[1..5];
      assert d[0] == s[1] && d[1] == s[2] && d[2] == s[3] && d[3] == s[4];
      forall c, v ensures HexValue(c) == Some(v) <==> HexOf(c, v) {
        HexValueExactly(c, v);
      }
    }
  }

  /** What ParseChars does with the character in front. */
  function Step(t: string): Option<Parsed<char>>
    requires t != []
  {
    if t[0] == '\\' then ParseEscape(t[1..]) else Some(Parsed(t[0], t[1..]))
  }

  /** An escape of a low half stands in front. */
  ghost predicate LowAhead(t: string) {
    |t| >= 6 && t[0] == '\\' && t[1] == 'u' && exists n :: Spells(t[2..6], n) && LowHalf(n)
  }

  lemma ShortParses(letter: char, c: char, rest: string)
    ensures CharSpelt(Short(letter), c) ==> ParseEscape([letter] + rest) == Some(Parsed(c, rest))
    ensures letter != 'u' && ParseEscape([letter] + rest) == Some(Parsed(c, rest)) ==> CharSpelt(Short(letter), c)
  {
    var t := [letter] + rest;
    assert t[0] == letter && t[1..] == rest;
    var i := ShortIndex(letter);
    hide CodeUnit;
    if letter != 'u' {
      assert CodeUnit(t).None? by { NoCodeUnit(t); }
    }
  }

  lemma NoCodeUnit(t: string)
    requires t == [] || t[0] != 'u'
    ensures CodeUnit(t).None?
  {
  }

  /** Where a letter stands among the short escapes, or past their end. */
  function ShortIndex(letter: char): (i: nat)
    ensures i <= 8
    ensures i < 8 ==> SHORT_LETTERS[i] == letter
    ensures i == 8 ==> forall j :: 0 <= j < 8 ==> SHORT_LETTERS[j] != letter
  {
    if letter == '\"' then 0
    else if letter == '\\' then 1
    else if letter == '/' then 2
    else if letter == 'b' then 3
    else if letter == 'f' then 4
    else if letter == 'n' then 5
    else if letter == 'r' then 6
    else if letter == 't' then 7
    else 8
  }

  lemma UnitAhead(digits: string, n: int, rest: string)
    requires Spells(digits, n)
    ensures var t := ['u'] + digits + rest;
            && CodeUnit(t) == Some(n) && t[5..] == rest && t[1..5] == digits && |t| == 5 + |rest| && t[0] == 'u'
            && 0 <= n < 0x1_0000
  {
    var t := ['u'] + digits + rest;
    assert t[1..5] == digits;
    CodeUnitSpells(t, n);
  }

  lemma LowAheadIsCode(t: string)
    ensures LowAhead(t) <==> t != [] && t[0] == '\\' && CodeUnit(t[1..]).Some? && LowHalf(CodeUnit(t[1..]).value)
  {
    if t != [] && t[0] == '\\' {
      var u := t[1..];
      if |t| >= 6 {
        assert u[1..5] == t[2..6];
      }
      if CodeUnit(u).Some? {
        CodeUnitSpells(u, CodeUnit(u).value);
      }
      if LowAhead(t) {
        var n :| Spells(t[2..6], n) && LowHalf(n);
        CodeUnitSpells(u, n);
      }
    }
  }

  /** The escapes of a code unit. */
  lemma EscapeOfUnit(t: string, n: int)
    requires t != [] && t[0] == 'u' && CodeUnit(t) == Some(n)
    ensures ParseEscape(t)
         == Some(if HighHalf(n) || LowHalf(n) then ParseSurrogate(n, t[5..]) else Parsed(n as char, t[5..]))
  {
    hide CodeUnit, ParseSurrogate;
  }

  lemma SurrogateAlone(n: int, rest: string)
    requires (HighHalf(n) && !LowAhead(rest)) || LowHalf(n)
    ensures ParseSurrogate(n, rest) == Parsed(Utf8.REPLACEMENT, rest)
  {
    LowAheadIsCode(rest);
    hide CodeUnit, LowAhead;
  }

  lemma SurrogatePaired(m: int, tail: string, n: int)
    requires HighHalf(m) && LowHalf(n) && |tail| >= 6 && tail[0] == '\\' && CodeUnit(tail[1..]) == Some(n)
    ensures ParseSurrogate(m, tail) == Parsed((0x1_0000 + (m - 0xD800) * 0x400 + (n - 0xDC00)) as char, tail[6..])
  {
    hide CodeUnit;
  }

  lemma UnitParses(digits: string, n: int, c: char, rest: string)
    requires Spells(digits, n) && c as int == if HighHalf(n) || LowHalf(n) then 0xFFFD else n
    requires HighHalf(n) ==> !LowAhead(rest)
    ensures ParseEscape(['u'] + digits + rest) == Some(Parsed(c, rest))
  {
    hide Spells, CodeUnit, LowAhead, ParseEscape, ParseSurrogate;
    UnitAhead(digits, n, rest);
    EscapeOfUnit(['u'] + digits + rest, n);
    if HighHalf(n) || LowHalf(n) {
      SurrogateAlone(n, rest);
    }
  }

  lemma PairParses(high: string, low: string, m: int, n: int, c: char, rest: string)
    requires Spells(high, m) && HighHalf(m) && Spells(low, n) && LowHalf(n)
    requires c as int == 0x1_0000 + (m - 0xD800) * 0x400 + (n - 0xDC00)
    ensures ParseEscape(['u'] + high + (['\\', 'u'] + low + rest)) == Some(Parsed(c, rest))
  {
    hide Spells, CodeUnit, ParseEscape, ParseSurrogate;
    var tail := ['\\', 'u'] + low + rest;
    UnitAhead(high, m, tail);
    EscapeOfUnit(['u'] + high + tail, m);
    EscapedTail(low, rest);
    UnitAhead(low, n, rest);
    SurrogatePaired(m, tail, n);
    assert tail[6..] == (['u'] + low + rest)[5..];
  }

  lemma EscapedTail(low: string, rest: string)
    ensures var tail := ['\\', 'u'] + low + rest; tail[0] == '\\' && tail[1..] == ['u'] + low + rest
  {
  }

  /** Every spelling is read as its character. */
  lemma StepParses(p: Spelling, c: char, rest: string)
    requires CharSpelt(p, c) && (HighUnit(p) ==> !LowAhead(rest))
    ensures SpellingText(p) != []
    ensures var t := SpellingText(p) + rest;
            t[0] >= ' ' && t[0] != '\"' && Step(t) == Some(Parsed(c, rest))
  {
    hide ParseEscape, Spells, LowAhead;
    SpellingTail(p, rest);
    match p {
      case Bare(d) =>
      case Short(letter) =>
        ShortParses(letter, c, rest);
      case Unit(digits) =>
        var n :| Spells(digits, n) && c as int == if HighHalf(n) || LowHalf(n) then 0xFFFD else n;
        UnitParses(digits, n, c, rest);
      case Pair(high, low) =>
        var m, n :| Spells(high, m) && HighHalf(m) && Spells(low, n) && LowHalf(n)
                    && c as int == 0x1_0000 + (m - 0xD800) * 0x400 + (n - 0xDC00);
        PairParses(high, low, m, n, c, rest);
    }
  }

  lemma SpellingTail(p: Spelling, rest: string)
    ensures SpellingText(p) != []
    ensures var t := SpellingText(p) + rest;
            match p
            case Bare(c) => t[0] == c && t[1..] == rest
            case Short(letter) => t[0] == '\\' && t[1..] == [letter] + rest
            case Unit(digits) => t[0] == '\\' && t[1..] == ['u'] + digits + rest
            case Pair(high, low) => t[0] == '\\' && t[1..] == ['u'] + high + (['\\', 'u'] + low + rest)
  {
    match p {
      case Pair(high, low) => PairTail(high, low, rest);
      case _ =>
    }
  }

  lemma PairTail(high: string, low: string, rest: string)
    ensures var t := ['\\', 'u'] + high + (['\\', 'u'] + low) + rest;
            t[0] == '\\' && t[1..] == ['u'] + high + (['\\', 'u'] + low + rest)
  {
    EscapedTail(high, ['\\', 'u'] + low + rest);
    Grouped(['\\', 'u'] + high, ['\\', 'u'] + low, rest);
  }

  lemma Grouped(a: string, b: string, c: string)
    ensures a + b + c == a + (b + c)
  {
  }

  /** Whatever is read as a character is one of its spellings. */
  lemma StepParts(t: string, c: char, rest: string) returns (p: Spelling)
    requires t != [] && t[0] >= ' ' && t[0] != '\"' && Step(t) == Some(Parsed(c, rest))
    ensures CharSpelt(p, c) && t == SpellingText(p) + rest && (HighUnit(p) ==> !LowAhead(rest))
  {
    if t[0] != '\\' {
      p := Bare(t[0]);
      assert t == [t[0]] + t[1..];
    } else if t[1..] != [] && t[1] != 'u' {
      p := Short(t[1]);
      assert t[1..] == [t[1]] + t[2..];
      assert t == ['\\', t[1]] + t[2..];
      ShortStep(t, c, rest);
    } else {
      p := UnitParts(t, c, rest);
    }
  }

  lemma ShortStep(t: string, c: char, rest: string)
    requires |t| >= 2 && t[0] == '\\' && t[1] != 'u' && ParseEscape(t[1..]) == Some(Parsed(c, rest))
    ensures rest == t[2..] && CharSpelt(Short(t[1]), c)
  {
    assert t[1..] == [t[1]] + t[2..];
    NoCodeUnit(t[1..]);
    hide CodeUnit;
    assert t[1..][1..] == t[2..];
    ShortParses(t[1], c, rest);
  }

  lemma UnitParts(t: string, c: char, rest: string) returns (p: Spelling)
    requires |t| >= 1 && t[0] == '\\' && (t[1..] != [] ==> t[1] == 'u')
    requires ParseEscape(t[1..]) == Some(Parsed(c, rest))
    ensures CharSpelt(p, c) && t == SpellingText(p) + rest && (HighUnit(p) ==> !LowAhead(rest))
  {
    var u := t[1..];
    UnitInFront(u);
    var n := CodeUnit(u).value;
    var digits, after := u[1..5], u[5..];
    UnitOutcome(u, n, c, rest);
    LowAheadIsCode(after);
    SpellsOnce(digits, n);
    hide Spells, CodeUnit, LowAhead, ParseEscape;
    assert t == ['\\', 'u'] + digits + after;
    if HighHalf(n) && LowAhead(after) {
      UnitInFront(after[1..]);
      var low := after[1..][1..5];
      Escaped(after);
      p := Pair(digits, low);
      Grouped(['\\', 'u'] + digits, ['\\', 'u'] + low, rest);
    } else {
      p := Unit(digits);
    }
  }

  lemma Escaped(t: string)
    requires |t| >= 6 && t[0] == '\\' && t[1] == 'u'
    ensures t == ['\\', 'u'] + t[1..][1..5] + t[6..]
  {
  }

  lemma UnitInFront(u: string)
    requires CodeUnit(u).Some? || (ParseEscape(u).Some? && (u != [] ==> u[0] == 'u'))
    ensures CodeUnit(u).Some? && u[0] == 'u' && Spells(u[1..5], CodeUnit(u).value) && u == ['u'] + u[1..5] + u[5..]
  {
    hide CodeUnit;
    CodeUnitSpells(u, CodeUnit(u).value);
  }

  /** Either a pair, or the one unit. */
  lemma UnitOutcome(u: string, n: int, c: char, rest: string)
    requires u != [] && u[0] == 'u' && CodeUnit(u) == Some(n) && ParseEscape(u) == Some(Parsed(c, rest))
    ensures var after := u[5..];
            if HighHalf(n) && LowAhead(after) then
              rest == after[6..] && c as int == 0x1_0000 + (n - 0xD800) * 0x400 + (CodeUnit(after[1..]).value - 0xDC00)
            else rest == after && c as int == if HighHalf(n) || LowHalf(n) then 0xFFFD else n
  {
    LowAheadIsCode(u[5..]);
    hide CodeUnit, LowAhead;
  }

  lemma SpellsOnce(digits: string, n: int)
    requires Spells(digits, n)
    ensures forall m :: Spells(digits, m) ==> m == n
  {
    var s := ['u'] + digits;
    assert |s| == 5 && s[1..5] == digits;
    hide Spells, CodeUnit;
    forall m | Spells(digits, m) ensures m == n {
      CodeUnitSpells(s, m);
      CodeUnitSpells(s, n);
    }
  }

  // ----- whole literals -----

  lemma LowAheadIsLow(p: Spelling, c: char, rest: string)
    requires CharSpelt(p, c)
    ensures LowAhead(SpellingText(p) + rest) <==> LowUnit(p)
  {
    var t := SpellingText(p) + rest;
    SpellingTail(p, rest);
    LowAheadIsCode(t);
    hide LowAhead, Spells, CodeUnit;
    match p {
      case Bare(_) =>
      case Short(letter) =>
        assert t[1..][0] == letter;
        NoCodeUnit(t[1..]);
      case Unit(digits) =>
        var n :| Spells(digits, n) && c as int == if HighHalf(n) || LowHalf(n) then 0xFFFD else n;
        UnitAhead(digits, n, rest);
        SpellsOnce(digits, n);
      case Pair(high, low) =>
        var m, n :| Spells(high, m) && HighHalf(m) && Spells(low, n) && LowHalf(n)
                    && c as int == 0x1_0000 + (m - 0xD800) * 0x400 + (n - 0xDC00);
        UnitAhead(high, m, ['\\', 'u'] + low + rest);
    }
  }

  lemma LiteralStep(t: string, c: char, after: string, s: string, rest: string)
    requires t != [] && t[0] >= ' ' && t[0] != '\"' && Step(t) == Some(Parsed(c, after))
    ensures ParseChars(after) == Some(Parsed(s, rest)) ==> ParseChars(t) == Some(Parsed([c] + s, rest))
  {
    hide ParseEscape;
  }

  lemma {:induction false} StringParses(ps: seq<Spelling>, s: string, rest: string)
    requires StringSpelt(ps, s)
    ensures ParseChars(StringText(ps) + ['\"'] + rest) == Some(Parsed(s, rest))
  {
    hide CharSpelt, SpellingText, ParseChars, LowAhead, Step, HighUnit, LowUnit;
    var t := StringText(ps) + ['\"'] + rest;
    if ps == [] {
      assert t == ['\"'] + rest;
      ClosingQuote(rest);
    } else {
      var tail := StringText(ps[1..]) + ['\"'] + rest;
      assert t == SpellingText(ps[0]) + tail by { Joined4(SpellingText(ps[0]), StringText(ps[1..]), ['\"'], rest); }
      TailSpelt(ps, s);
      StringParses(ps[1..], s[1..], rest);
      if HighUnit(ps[0]) {
        NoLowAhead(ps, s, rest);
      }
      StepParses(ps[0], s[0], tail);
      LiteralStep(t, s[0], tail, s[1..], rest);
      assert s == [s[0]] + s[1..];
    }
  }

  lemma Joined4(a: string, b: string, c: string, d: string)
    ensures (a + b) + c + d == a + (b + c + d)
  {
  }

  lemma ClosingQuote(rest: string)
    ensures ParseChars(['\"'] + rest) == Some(Parsed([], rest))
  {
    assert (['\"'] + rest)[1..] == rest;
  }

  lemma TailSpelt(ps: seq<Spelling>, s: string)
    requires StringSpelt(ps, s) && ps != []
    ensures StringSpelt(ps[1..], s[1..]) && CharSpelt(ps[0], s[0])
  {
    hide CharSpelt, HighUnit, LowUnit;
    forall i | 0 <= i < |ps| - 2 ensures !(HighUnit(ps[1..][i]) && LowUnit(ps[1..][i + 1])) {
      assert ps[1..][i] == ps[i + 1] && ps[1..][i + 1] == ps[i + 2];
    }
  }

  lemma NoLowAhead(ps: seq<Spelling>, s: string, rest: string)
    requires StringSpelt(ps, s) && ps != [] && HighUnit(ps[0])
    ensures !LowAhead(StringText(ps[1..]) + ['\"'] + rest)
  {
    hide CharSpelt, SpellingText, HighUnit, LowUnit;
    if |ps| == 1 {
      assert (StringText(ps[1..]) + ['\"'] + rest)[0] == '\"';
    } else {
      hide LowAhead;
      var more := StringText(ps[1..][1..]) + ['\"'] + rest;
      Joined4(SpellingText(ps[1]), StringText(ps[1..][1..]), ['\"'], rest);
      LowAheadIsLow(ps[1], s[1], more);
    }
  }

  lemma {:induction false} StringParts(t: string, s: string, rest: string) returns (ps: seq<Spelling>)
    requires ParseChars(t) == Some(Parsed(s, rest))
    ensures StringSpelt(ps, s) && t == StringText(ps) + ['\"'] + rest
    decreases |t|
  {
    hide CharSpelt, SpellingText, LowAhead, ParseEscape, HighUnit, LowUnit;
    if t[0] == '\"' {
      ps := [];
      assert t == ['\"'] + rest;
    } else {
      var c := Step(t).value;
      var p := StepParts(t, c.value, c.rest);
      var qs := StringParts(c.rest, s[1..], rest);
      ps := [p] + qs;
      Joined4(SpellingText(p), StringText(qs), ['\"'], rest);
      Prepended(p, c.value, qs, s[1..], rest);
      assert s == [s[0]] + s[1..] && s[0] == c.value;
    }
  }

  lemma Prepended(p: Spelling, c: char, qs: seq<Spelling>, s: string, rest: string)
    requires CharSpelt(p, c) && StringSpelt(qs, s)
    requires HighUnit(p) ==> !LowAhead(StringText(qs) + ['\"'] + rest)
    ensures StringSpelt([p] + qs, [c] + s)
  {
    hide CharSpelt, SpellingText, LowAhead, HighUnit, LowUnit;
    if qs != [] && HighUnit(p) {
      Joined4(SpellingText(qs[0]), StringText(qs[1..]), ['\"'], rest);
      LowAheadIsLow(qs[0], s[0], StringText(qs[1..]) + ['\"'] + rest);
    }
  }

  /** Exactly which texts after an opening quote are read as s: the spellings of s and a closing quote. */
  lemma StringsReadExactly(t: string, s: string, rest: string)
    ensures ParseChars(t) == Some(Parsed(s, rest))
       <==> exists ps :: StringSpelt(ps, s) && t == StringText(ps) + ['\"'] + rest
  {
    hide StringSpelt, StringText, ParseChars;
    if ParseChars(t) == Some(Parsed(s, rest)) {
      var ps := StringParts(t, s, rest);
    }
    if ps :| StringSpelt(ps, s) && t == StringText(ps) + ['\"'] + rest {
      StringParses(ps, s, rest);
    }
  }
}
