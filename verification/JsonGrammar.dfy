/**
 The grammar of RFC 8259 with everything the compact form leaves out: blanks
 between tokens and every spelling of a string. A document is read exactly when
 the grammar has a text for it, and as what that text says.
 */
module JsonGrammar {
  import opened Common
  import opened Number
  import opened Json
  import opened JsonParser
  import opened JsonStrings

  /** A string literal and what it says. */
  datatype Literally = Literally(spellings: seq<Spelling>, s: string)

  datatype Node =
    | NullNode
    | BoolNode(b: bool)
    | NumNode(lit: Literal)
    | StrNode(text: Literally)
    | ArrNode(items: seq<Item>, blank: string)
    | ObjNode(entries: seq<Pairing>, gap: string)

  /** A value between blanks. */
  datatype Item = Item(before: string, node: Node, after: string)

  datatype Pairing = Pairing(before: string, key: Literally, between: string, item: Item)

  predicate Blank(s: string) { forall i :: 0 <= i < |s| ==> s[i] in {' ', '\t', '\n', '\r'} }

  ghost predicate WellFormed(n: Node)
    decreases n, 0
  {
    match n
    case StrNode(text) => StringSpelt(text.spellings, text.s)
    case ArrNode(items, blank) => Blank(blank) && forall i :: 0 <= i < |items| ==> WellFormedItem(items[i])
    case ObjNode(entries, gap) => Blank(gap) && forall i :: 0 <= i < |entries| ==> WellFormedPairing(entries[i])
    case _ => true
  }

  ghost predicate WellFormedItem(i: Item)
    decreases i, 1
  {
    Blank(i.before) && WellFormed(i.node) && Blank(i.after)
  }

  ghost predicate WellFormedPairing(p: Pairing)
    decreases p, 2
  {
    && Blank(p.before) && StringSpelt(p.key.spellings, p.key.s) && Blank(p.between)
    && WellFormedItem(p.item)
  }

  function Text(n: Node): string
    decreases n, 0
  {
    match n
    case NullNode => "null"
    case BoolNode(b) => if b then "true" else "false"
    case NumNode(lit) => lit
    case StrNode(text) => LiteralText(text)
    case ArrNode(items, blank) => ['['] + ((if items == [] then blank else ItemsText(items)) + [']'])
    case ObjNode(entries, gap) => ['{'] + ((if entries == [] then gap else EntriesText(entries)) + ['}'])
  }

  function LiteralText(l: Literally): string { ['\"'] + (StringText(l.spellings) + ['\"']) }

  function ItemText(i: Item): string
    decreases i, 1
  {
    i.before + (Text(i.node) + i.after)
  }

  function ItemsText(items: seq<Item>): string
    requires items != []
    decreases items, 0
  {
    if |items| == 1 then ItemText(items[0]) else ItemText(items[0]) + ([','] + ItemsText(items[1..]))
  }

  function PairingText(p: Pairing): string
    decreases p, 2
  {
    p.before + (LiteralText(p.key) + (p.between + ([':'] + ItemText(p.item))))
  }

  function EntriesText(entries: seq<Pairing>): string
    requires entries != []
    decreases entries, 0
  {
    if |entries| == 1 then PairingText(entries[0])
    else PairingText(entries[0]) + ([','] + EntriesText(entries[1..]))
  }

  /** What a text says. */
  function Meaning(n: Node): Value {
    match n
    case NullNode => Null
    case BoolNode(b) => Bool(b)
    case NumNode(lit) => Num(lit)
    case StrNode(text) => Str(text.s)
    case ArrNode(items, _) => Arr(Meanings(items))
    case ObjNode(entries, _) => Obj(MembersOf(Entries(entries)))
  }

  function Meanings(items: seq<Item>): seq<Value> {
    if items == [] then [] else [Meaning(items[0].node)] + Meanings(items[1..])
  }

  /** The members of an object's text, each with the text of its value. */
  function Entries(entries: seq<Pairing>): seq<Entry> {
    if entries == [] then []
    else
      var p := entries[0];
      [Entry(Member(p.key.s, Meaning(p.item.node)), Text(p.item.node))] + Entries(entries[1..])
  }

  // ----- every text is read -----

  /** What may follow a value: nothing that could continue a number. */
  predicate Delimited(rest: string) { rest == [] || !IsNumberChar(rest[0]) }

  lemma {:induction false} SkipBlank(b: string, rest: string)
    requires Blank(b) && (rest == [] || !IsSpace(rest[0]))
    ensures SkipSpace(b + rest) == rest
  {
    if b == [] {
      assert b + rest == rest;
    } else {
      assert (b + rest)[1..] == b[1..] + rest;
      SkipBlank(b[1..], rest);
    }
  }

  lemma {:induction false} NumberSpanOfLiteral(lit: string, rest: string)
    requires forall i :: 0 <= i < |lit| ==> IsNumberChar(lit[i])
    requires Delimited(rest)
    ensures NumberSpan(lit + rest) == |lit|
  {
    if lit == [] {
      assert lit + rest == rest;
    } else {
      assert (lit + rest)[1..] == lit[1..] + rest;
      NumberSpanOfLiteral(lit[1..], rest);
    }
  }

  lemma LiteralHead(lit: Literal)
    ensures lit[0] == '-' || IsDigit(lit[0])
  {
  }

  lemma NumberRead(lit: Literal, rest: string)
    requires Delimited(rest)
    ensures ParseToken(lit + rest) == Some(Parsed(Num(lit), rest))
  {
    hide IsUnsigned;
    NumberSpanOfLiteral(lit, rest);
    LiteralHead(lit);
    var t := lit + rest;
    assert t[0] == lit[0] && t[..|lit|] == lit && t[|lit|..] == rest;
  }

  lemma Joined3(a: string, b: string, c: string)
    ensures (a + b) + c == a + (b + c)
  {
  }

  /** The first character of a value's text is no blank and closes nothing. */
  lemma TextHead(n: Node)
    ensures Text(n) != [] && !IsSpace(Text(n)[0]) && Text(n)[0] != ']' && Text(n)[0] != '}'
  {
    if n.NumNode? {
      LiteralHead(n.lit);
    }
  }

  lemma LiteralRead(l: Literally, rest: string)
    requires StringSpelt(l.spellings, l.s)
    ensures var t := LiteralText(l) + rest; t != [] && t[0] == '\"' && ParseChars(t[1..]) == Some(Parsed(l.s, rest))
  {
    hide StringSpelt, StringText, ParseChars;
    var t := LiteralText(l) + rest;
    assert t[1..] == StringText(l.spellings) + ['\"'] + rest;
    StringParses(l.spellings, l.s, rest);
  }

  lemma {:induction false} TextRead(n: Node, rest: string)
    requires WellFormed(n) && (n.NumNode? ==> Delimited(rest))
    ensures ParseToken(Text(n) + rest) == Some(Parsed(Meaning(n), rest))
    decreases n, 1
  {
    hide ItemsText, EntriesText, ParseArray, ParseObject, ParseChars, MembersOf, Entries, Meanings, LiteralText;
    hide StringSpelt, WellFormedItem, WellFormedPairing;
    var t := Text(n) + rest;
    match n {
      case NullNode => assert t[4..] == rest && "null" <= t;
      case BoolNode(b) =>
        if b {
          assert t[4..] == rest && "true" <= t;
        } else {
          assert t[5..] == rest && "false" <= t;
        }
      case NumNode(lit) => NumberRead(lit, rest);
      case StrNode(text) => LiteralRead(text, rest);
      case ArrNode(items, blank) =>
        ArrayRead(items, blank, rest);
        assert t[1..] == (if items == [] then blank else ItemsText(items)) + [']'] + rest;
      case ObjNode(entries, gap) =>
        ObjectRead(entries, gap, rest);
        assert t[1..] == (if entries == [] then gap else EntriesText(entries)) + ['}'] + rest;
    }
  }

  /** A value between blanks, up to the blanks after it. */
  lemma {:induction false} ItemRead(i: Item, rest: string)
    requires WellFormedItem(i) && Delimited(i.after + rest)
    ensures ParseValue(ItemText(i) + rest) == Some(Parsed(Meaning(i.node), i.after + rest))
    ensures SkipSpace(ItemText(i) + rest) == Text(i.node) + (i.after + rest)
    decreases i, 2
  {
    hide Text, ParseToken, WellFormed;
    TextHead(i.node);
    var tail := Text(i.node) + (i.after + rest);
    assert ItemText(i) + rest == i.before + tail;
    SkipBlank(i.before, tail);
    TextRead(i.node, i.after + rest);
  }

  lemma AfterBlank(b: string, c: char, rest: string)
    requires Blank(b) && !IsSpace(c) && !IsNumberChar(c)
    ensures Delimited(b + ([c] + rest)) && SkipSpace(b + ([c] + rest)) == [c] + rest
  {
    SkipBlank(b, [c] + rest);
  }

  lemma {:induction false} ArrayRead(items: seq<Item>, blank: string, rest: string)
    requires WellFormed(ArrNode(items, blank))
    ensures ParseArray((if items == [] then blank else ItemsText(items)) + [']'] + rest)
         == Some(Parsed(Arr(Meanings(items)), rest))
    decreases items, 4
  {
    hide ParseItems, ItemsText;
    var t := (if items == [] then blank else ItemsText(items)) + [']'] + rest;
    if items == [] {
      assert t == blank + ([']'] + rest);
      AfterBlank(blank, ']', rest);
      assert ([']'] + rest)[1..] == rest;
    } else {
      ItemsStart(items, rest);
      ItemsRead(items, rest);
    }
  }

  lemma ItemsStart(items: seq<Item>, rest: string)
    requires items != [] && Blank(items[0].before)
    ensures !StartsWith(SkipSpace(ItemsText(items) + [']'] + rest), ']')
  {
    hide Text;
    var i := items[0];
    TextHead(i.node);
    var more := i.after + (if |items| == 1 then [']'] + rest else [','] + ItemsText(items[1..]) + [']'] + rest);
    assert ItemsText(items) + [']'] + rest == i.before + (Text(i.node) + more);
    SkipBlank(i.before, Text(i.node) + more);
  }

  /** One item and the closing bracket, or one item, a comma and the items after it. */
  lemma ItemsStep(s: string, v: Value, more: seq<Value>, after: string, tail: string, rest: string)
    requires ParseValue(s) == Some(Parsed(v, after))
    requires more == [] ==> SkipSpace(after) == [']'] + rest
    requires more != [] ==> SkipSpace(after) == [','] + tail && ParseItems(tail) == Some(Parsed(more, rest))
    ensures ParseItems(s) == Some(Parsed([v] + more, rest))
  {
    hide ParseValue, SkipSpace;
    assert ([']'] + rest)[1..] == rest && ([','] + tail)[1..] == tail;
    assert [v] + [] == [v];
  }

  lemma {:induction false} ItemsRead(items: seq<Item>, rest: string)
    requires items != [] && forall i :: 0 <= i < |items| ==> WellFormedItem(items[i])
    ensures ParseItems(ItemsText(items) + [']'] + rest) == Some(Parsed(Meanings(items), rest))
    decreases items, 3
  {
    hide ParseItems, ParseValue, Text, ItemText, WellFormed, Meaning;
    var i := items[0];
    assert WellFormedItem(i);
    if |items| == 1 {
      Joined3(ItemText(i), [']'], rest);
      AfterBlank(i.after, ']', rest);
      ItemRead(i, [']'] + rest);
      assert Meanings(items[1..]) == [];
      ItemsStep(ItemsText(items) + [']'] + rest, Meaning(i.node), [], i.after + ([']'] + rest), [], rest);
    } else {
      var tail := ItemsText(items[1..]) + [']'] + rest;
      assert ItemsText(items) + [']'] + rest == ItemText(i) + ([','] + tail);
      AfterBlank(i.after, ',', tail);
      ItemRead(i, [','] + tail);
      ItemsRead(items[1..], rest);
      var s := ItemsText(items) + [']'] + rest;
      ItemsStep(s, Meaning(i.node), Meanings(items[1..]), i.after + ([','] + tail), tail, rest);
    }
  }

  lemma {:induction false} ObjectRead(entries: seq<Pairing>, gap: string, rest: string)
    requires WellFormed(ObjNode(entries, gap))
    ensures ParseObject((if entries == [] then gap else EntriesText(entries)) + ['}'] + rest)
         == Some(Parsed(Entries(entries), rest))
    decreases entries, 6
  {
    hide ParseEntries, EntriesText;
    var t := (if entries == [] then gap else EntriesText(entries)) + ['}'] + rest;
    if entries == [] {
      assert t == gap + (['}'] + rest);
      AfterBlank(gap, '}', rest);
      assert (['}'] + rest)[1..] == rest;
    } else {
      EntriesStart(entries, rest);
      EntriesParse(entries, rest);
    }
  }

  lemma EntriesStart(entries: seq<Pairing>, rest: string)
    requires entries != [] && Blank(entries[0].before)
    ensures !StartsWith(SkipSpace(EntriesText(entries) + ['}'] + rest), '}')
  {
    var p := entries[0];
    var more := (if |entries| == 1 then [] else [','] + EntriesText(entries[1..])) + ['}'] + rest;
    assert EntriesText(entries) + ['}'] + rest == PairingText(p) + more by { hide PairingText; }
    PairingStart(p, more);
  }

  lemma PairingStart(p: Pairing, more: string)
    requires Blank(p.before)
    ensures !StartsWith(SkipSpace(PairingText(p) + more), '}')
  {
    hide ItemText, StringText, SkipSpace;
    var tail := LiteralText(p.key) + (p.between + ([':'] + ItemText(p.item))) + more;
    assert PairingText(p) + more == p.before + tail;
    assert tail[0] == '\"';
    SkipBlank(p.before, tail);
  }

  /** One entry and the closing brace, or one entry, a comma and the entries after it. */
  lemma EntriesStep(s: string, e: Entry, more: seq<Entry>, after: string, tail: string, rest: string)
    requires ParseEntry(s) == Some(Parsed(e, after))
    requires more == [] ==> SkipSpace(after) == ['}'] + rest
    requires more != [] ==> SkipSpace(after) == [','] + tail && ParseEntries(tail) == Some(Parsed(more, rest))
    ensures ParseEntries(s) == Some(Parsed([e] + more, rest))
  {
    hide ParseEntry, SkipSpace;
    assert (['}'] + rest)[1..] == rest && ([','] + tail)[1..] == tail;
    assert [e] + [] == [e];
  }

  lemma PairingBlanks(p: Pairing)
    requires WellFormedPairing(p)
    ensures Blank(p.item.after)
  {
    hide WellFormed, StringSpelt;
    assert WellFormedItem(p.item);
  }

  lemma {:induction false} EntriesParse(entries: seq<Pairing>, rest: string)
    requires entries != [] && forall i :: 0 <= i < |entries| ==> WellFormedPairing(entries[i])
    ensures ParseEntries(EntriesText(entries) + ['}'] + rest) == Some(Parsed(Entries(entries), rest))
    decreases entries, 5
  {
    hide ParseEntries, ParseEntry, Text, PairingText, WellFormed, Meaning, StringSpelt;
    var p := entries[0];
    PairingBlanks(p);
    var e := Entry(Member(p.key.s, Meaning(p.item.node)), Text(p.item.node));
    if |entries| == 1 {
      Joined3(PairingText(p), ['}'], rest);
      AfterBlank(p.item.after, '}', rest);
      PairingRead(p, ['}'] + rest);
      assert Entries(entries[1..]) == [];
      EntriesStep(EntriesText(entries) + ['}'] + rest, e, [], p.item.after + (['}'] + rest), [], rest);
    } else {
      var tail := EntriesText(entries[1..]) + ['}'] + rest;
      assert EntriesText(entries) + ['}'] + rest == PairingText(p) + ([','] + tail);
      AfterBlank(p.item.after, ',', tail);
      PairingRead(p, [','] + tail);
      EntriesParse(entries[1..], rest);
      var s := EntriesText(entries) + ['}'] + rest;
      EntriesStep(s, e, Entries(entries[1..]), p.item.after + ([','] + tail), tail, rest);
    }
  }

  lemma {:induction false} PairingRead(p: Pairing, rest: string)
    requires WellFormedPairing(p) && Delimited(p.item.after + rest)
    ensures ParseEntry(PairingText(p) + rest)
         == Some(Parsed(Entry(Member(p.key.s, Meaning(p.item.node)), Text(p.item.node)), p.item.after + rest))
    decreases p, 3
  {
    hide ParseToken, Text, ParseChars, WellFormed, Meaning, LiteralText, StringSpelt;
    var item, after := p.item, p.item.after + rest;
    var value := Text(item.node) + after;
    var colon := p.between + ([':'] + (item.before + value));
    var t := LiteralText(p.key) + colon;
    assert PairingText(p) + rest == p.before + t;
    LiteralRead(p.key, colon);
    SkipBlank(p.before, t);
    SkipBlank(p.between, [':'] + (item.before + value));
    assert ([':'] + (item.before + value))[1..] == item.before + value;
    TextHead(item.node);
    SkipBlank(item.before, value);
    TextRead(item.node, after);
    assert value[..|value| - |after|] == Text(item.node);
  }

  // ----- only texts are read -----

  lemma {:induction false} SkippedParts(s: string) returns (b: string)
    ensures Blank(b) && s == b + SkipSpace(s) && (SkipSpace(s) == [] || !IsSpace(SkipSpace(s)[0]))
  {
    if s != [] && IsSpace(s[0]) {
      var rest := SkippedParts(s[1..]);
      b := [s[0]] + rest;
    } else {
      b := [];
    }
  }

  lemma {:induction false} SpanMaximal(s: string)
    ensures Delimited(s[NumberSpan(s)..])
  {
    if s != [] && IsNumberChar(s[0]) {
      SpanMaximal(s[1..]);
      assert s[NumberSpan(s)..] == s[1..][NumberSpan(s[1..])..];
    }
  }

  lemma LiteralParts(t: string, s: string, rest: string) returns (l: Literally)
    requires t != [] && t[0] == '\"' && ParseChars(t[1..]) == Some(Parsed(s, rest))
    ensures StringSpelt(l.spellings, l.s) && l.s == s && t == LiteralText(l) + rest
  {
    hide StringSpelt, StringText, ParseChars;
    var ps := StringParts(t[1..], s, rest);
    l := Literally(ps, s);
    assert t == ['\"'] + t[1..];
  }

  lemma Opened(t: string, inner: string, close: string, rest: string)
    requires t != [] && t[1..] == inner + close + rest
    ensures t == [t[0]] + (inner + close) + rest
  {
    assert t == [t[0]] + t[1..];
  }

  /** What is read as a value is a text of it. */
  lemma {:induction false} TokenParts(t: string, v: Value, rest: string) returns (n: Node)
    requires ParseToken(t) == Some(Parsed(v, rest))
    ensures WellFormed(n) && Meaning(n) == v && t == Text(n) + rest && (n.NumNode? ==> Delimited(rest))
    decreases |t|, 1
  {
    hide ParseChars, ParseArray, ParseObject, LiteralText, StringSpelt, WellFormedItem, WellFormedPairing, IsNumber;
    hide ItemsText, EntriesText, Meanings, Entries, MembersOf;
    if t[0] == '{' {
      var entries := ParseObject(t[1..]).value;
      n := ObjectParts(t[1..], entries.value, rest);
      Opened(t, if n.entries == [] then n.gap else EntriesText(n.entries), ['}'], rest);
    } else if t[0] == '[' {
      n := ArrayParts(t[1..], v, rest);
      Opened(t, if n.items == [] then n.blank else ItemsText(n.items), [']'], rest);
    } else if t[0] == '\"' {
      var l := LiteralParts(t, v.s, rest);
      n := StrNode(l);
    } else if t[0] == 't' {
      n := BoolNode(true);
    } else if t[0] == 'f' {
      n := BoolNode(false);
    } else if t[0] == 'n' {
      n := NullNode;
    } else {
      SpanMaximal(t);
      n := NumNode(v.lit);
      assert t == t[..NumberSpan(t)] + t[NumberSpan(t)..];
    }
  }

  /** A value between blanks, in front of what follows the blanks. */
  lemma {:induction false} ItemParts(s: string, v: Value, after: string) returns (i: Item)
    requires ParseValue(s) == Some(Parsed(v, after))
    ensures WellFormedItem(i) && Meaning(i.node) == v && s == ItemText(i) + SkipSpace(after)
    ensures after == i.after + SkipSpace(after)
    decreases |s|, 2
  {
    hide Text, ParseToken, WellFormed, Meaning, SkipSpace;
    var before := SkippedParts(s);
    var n := TokenParts(SkipSpace(s), v, after);
    var behind := SkippedParts(after);
    i := Item(before, n, behind);
    assert s == before + (Text(n) + (behind + SkipSpace(after)));
    Joined3(before, Text(n) + behind, SkipSpace(after));
    Joined3(Text(n), behind, SkipSpace(after));
  }

  lemma {:induction false} ArrayParts(s: string, v: Value, rest: string) returns (n: Node)
    requires ParseArray(s) == Some(Parsed(v, rest))
    ensures WellFormed(n) && n.ArrNode? && Meaning(n) == v
    ensures s == (if n.items == [] then n.blank else ItemsText(n.items)) + [']'] + rest
    decreases |s|, 4
  {
    hide ParseItems, ItemsText, WellFormedItem, SkipSpace, Meaning, Meanings, Blank;
    var t := SkipSpace(s);
    if StartsWith(t, ']') {
      var b := SkippedParts(s);
      n := ArrNode([], b);
      ClosedEmpty(s, b, t, ']');
      EmptyMeaning(b);
    } else {
      var items := ItemsParts(s, v.items, rest);
      n := ArrNode(items, []);
      ItemsMeaning(items);
    }
  }

  lemma ClosedEmpty(s: string, b: string, t: string, c: char)
    requires s == b + t && StartsWith(t, c)
    ensures s == b + [c] + t[1..]
  {
    assert t == [c] + t[1..];
  }

  lemma EmptyMeaning(b: string)
    ensures Meaning(ArrNode([], b)) == Arr([]) && (Blank(b) ==> WellFormed(ArrNode([], b)))
    ensures Entries([]) == [] && (Blank(b) ==> WellFormed(ObjNode([], b)))
  {
  }

  lemma ItemsMeaning(items: seq<Item>)
    ensures Meaning(ArrNode(items, [])) == Arr(Meanings(items))
    ensures (forall i :: 0 <= i < |items| ==> WellFormedItem(items[i])) ==> WellFormed(ArrNode(items, []))
  {
    hide WellFormedItem;
  }

  lemma EntriesWellFormed(entries: seq<Pairing>)
    ensures (forall i :: 0 <= i < |entries| ==> WellFormedPairing(entries[i])) ==> WellFormed(ObjNode(entries, []))
  {
    hide WellFormedPairing;
  }

  lemma {:induction false} ItemsParts(s: string, vs: seq<Value>, rest: string) returns (items: seq<Item>)
    requires ParseItems(s) == Some(Parsed(vs, rest))
    ensures items != [] && Meanings(items) == vs && s == ItemsText(items) + [']'] + rest
    ensures forall i :: 0 <= i < |items| ==> WellFormedItem(items[i])
    decreases |s|, 3
  {
    hide ParseValue, WellFormedItem, ItemText, Meaning, SkipSpace;
    var v := ParseValue(s).value;
    var i := ItemParts(s, v.value, v.rest);
    var t := SkipSpace(v.rest);
    if StartsWith(t, ']') {
      items := [i];
      assert t == [']'] + rest;
      assert Meanings(items) == [Meaning(i.node)] + Meanings(items[1..]);
      Joined3(ItemText(i), [']'], rest);
    } else {
      var more := ParseItems(t[1..]).value;
      var others := ItemsParts(t[1..], more.value, rest);
      items := [i] + others;
      assert items[1..] == others;
      assert t == [','] + (ItemsText(others) + [']'] + rest);
      assert s == ItemText(i) + ([','] + ItemsText(others)) + [']'] + rest;
    }
  }

  lemma {:induction false} ObjectParts(s: string, es: seq<Entry>, rest: string) returns (n: Node)
    requires ParseObject(s) == Some(Parsed(es, rest))
    ensures WellFormed(n) && n.ObjNode? && Entries(n.entries) == es
    ensures s == (if n.entries == [] then n.gap else EntriesText(n.entries)) + ['}'] + rest
    decreases |s|, 5
  {
    hide ParseEntries, EntriesText, WellFormedPairing, SkipSpace, Entries, Blank, WellFormed;
    var t := SkipSpace(s);
    if StartsWith(t, '}') {
      var b := SkippedParts(s);
      n := ObjNode([], b);
      ClosedEmpty(s, b, t, '}');
      EmptyMeaning(b);
    } else {
      var entries := EntriesParts(s, es, rest);
      n := ObjNode(entries, []);
      EntriesWellFormed(entries);
    }
  }

  lemma {:induction false} EntriesParts(s: string, es: seq<Entry>, rest: string) returns (entries: seq<Pairing>)
    requires ParseEntries(s) == Some(Parsed(es, rest))
    ensures entries != [] && Entries(entries) == es && s == EntriesText(entries) + ['}'] + rest
    ensures forall i :: 0 <= i < |entries| ==> WellFormedPairing(entries[i])
    decreases |s|, 4
  {
    hide ParseEntry, WellFormedPairing, PairingText, Meaning, Text, SkipSpace;
    var e := ParseEntry(s).value;
    var p := PairingParts(s, e.value, e.rest);
    var t := SkipSpace(e.rest);
    if StartsWith(t, '}') {
      entries := [p];
      assert t == ['}'] + rest;
      assert Entries(entries[1..]) == [];
      Joined3(PairingText(p), ['}'], rest);
    } else {
      var more := ParseEntries(t[1..]).value;
      var others := EntriesParts(t[1..], more.value, rest);
      entries := [p] + others;
      assert entries[1..] == others;
      assert t == [','] + (EntriesText(others) + ['}'] + rest);
      assert s == PairingText(p) + ([','] + EntriesText(others)) + ['}'] + rest;
    }
  }

  lemma {:induction false} PairingParts(s: string, e: Entry, after: string) returns (p: Pairing)
    requires ParseEntry(s) == Some(Parsed(e, after))
    ensures WellFormedPairing(p) && s == PairingText(p) + SkipSpace(after)
    ensures e == Entry(Member(p.key.s, Meaning(p.item.node)), Text(p.item.node))
    decreases |s|, 3
  {
    hide ParseToken, ParseChars, Text, WellFormed, Meaning, SkipSpace, LiteralText, StringSpelt;
    var before := SkippedParts(s);
    var t := SkipSpace(s);
    var key := ParseChars(t[1..]).value;
    var l := LiteralParts(t, key.value, key.rest);
    var between := SkippedParts(key.rest);
    var u := SkipSpace(key.rest);
    var blank := SkippedParts(u[1..]);
    var w := SkipSpace(u[1..]);
    assert |w| < |s|;
    var n := TokenParts(w, e.member.value, after);
    var behind := SkippedParts(after);
    p := Pairing(before, l, between, Item(blank, n, behind));
    assert w[..|w| - |after|] == Text(n);
    assert u == [':'] + u[1..];
    PairingJoined(p, s, t, key.rest, u, w, after, SkipSpace(after));
  }

  lemma PairingJoined(
    p: Pairing, s: string, t: string, k: string, u: string, w: string, after: string, rest: string)
    requires s == p.before + t && t == LiteralText(p.key) + k && k == p.between + u
    requires u == [':'] + (p.item.before + w) && w == Text(p.item.node) + after && after == p.item.after + rest
    ensures s == PairingText(p) + rest
  {
    hide Text, LiteralText;
  }

  // ----- documents -----

  /**
   Exactly which texts are documents of v: a text of v between blanks. Nothing
   else is read, and nothing else is made of it.
   */
  lemma DocumentsReadExactly(s: string, v: Value)
    ensures ParseDocument(s) == Some(v)
       <==> exists i :: WellFormedItem(i) && Meaning(i.node) == v && ItemText(i) == s
  {
    hide ParseValue, Text, Meaning, WellFormed, ItemText;
    if ParseDocument(s) == Some(v) {
      var r := ParseValue(s).value;
      var i := ItemParts(s, v, r.rest);
      assert ItemText(i) + [] == ItemText(i);
    }
    if i :| WellFormedItem(i) && Meaning(i.node) == v && ItemText(i) == s {
      assert i.after + [] == i.after && s + [] == s;
      assert Delimited(i.after);
      ItemRead(i, []);
      SkipBlank(i.after, []);
    }
  }
}
