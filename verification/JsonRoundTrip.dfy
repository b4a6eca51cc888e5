/**
 Printing: which of the texts of a value encoding/json writes, that reading it
 gives the value back, and the raw text of every member.
 */
module JsonRoundTrip {
  import opened Common
  import opened Json
  import opened JsonParser
  import opened JsonStrings
  import opened JsonGrammar

  // ----- strings -----

  /** The characters printed as they are. */
  predicate Plain(c: char) {
    c >= ' ' && c !in {'\"', '\\', '<', '>', '&'} && c as int != 0x2028 && c as int != 0x2029
  }

  /** The characters with a short escape that printing uses. */
  predicate ShortEscaped(c: char) { c in {'\"', '\\', '\n', '\r', '\t'} || c as int == 8 || c as int == 12 }

  /** Printing writes a plain character bare, and any other in the two or six characters of its escape. */
  lemma EscapedExactly(c: char)
    ensures EscapeChar(c) == [c] <==> Plain(c)
    ensures |EscapeChar(c)| == 2 <==> ShortEscaped(c)
    ensures |EscapeChar(c)| == 6 <==> !Plain(c) && !ShortEscaped(c)
    ensures !Plain(c) ==> forall i :: 0 <= i < |EscapeChar(c)| ==> !('A' <= EscapeChar(c)[i] <= 'Z')
    ensures forall i :: 0 <= i < |EscapeChar(c)| ==> Plain(EscapeChar(c)[i]) || EscapeChar(c)[i] in {'\"', '\\'}
  {
    hide HexDigit;
    HexDigitsPlain();
  }

  lemma HexDigitsPlain()
    ensures forall d :: 0 <= d < 16 ==> Plain(HexDigit(d)) && !('A' <= HexDigit(d) <= 'Z')
  {
  }

  /** A string of plain characters prints as itself between quotes. */
  lemma {:induction false} PlainPrintsBare(s: string)
    requires forall i :: 0 <= i < |s| ==> Plain(s[i])
    ensures PrintString(s) == ['\"'] + s + ['\"']
  {
    if s != [] {
      EscapedExactly(s[0]);
      PlainPrintsBare(s[1..]);
      assert PrintChars(s[1..]) == s[1..] by {
        assert PrintString(s[1..])[1..|s[1..]| + 1] == s[1..];
        assert |PrintChars(s[1..])| == |s[1..]|;
      }
      assert s == [s[0]] + s[1..];
    }
  }

  /** No printed string holds a character special to HTML, a line separator or a control character. */
  lemma {:induction false} PrintedCharsPlain(s: string)
    ensures forall i :: 0 <= i < |PrintChars(s)| ==> Plain(PrintChars(s)[i]) || PrintChars(s)[i] in {'\"', '\\'}
  {
    hide EscapeChar;
    if s != [] {
      EscapedExactly(s[0]);
      PrintedCharsPlain(s[1..]);
    }
  }

  lemma PrintedStringPlain(s: string)
    ensures forall i :: 0 <= i < |PrintString(s)| ==> Plain(PrintString(s)[i]) || PrintString(s)[i] in {'\"', '\\'}
  {
    PrintedCharsPlain(s);
  }

  /** The spelling printing uses for a character. */
  function Printed(c: char): Spelling {
    if |EscapeChar(c)| == 1 then Bare(c)
    else if |EscapeChar(c)| == 2 then Short(EscapeChar(c)[1])
    else Unit(EscapeChar(c)[2..])
  }

  lemma HexDigitOf(d: int)
    requires 0 <= d < 16
    ensures HexOf(HexDigit(d), d)
  {
  }

  lemma UnicodeEscapeSpells(n: int)
    requires 0 <= n < 0x1_0000
    ensures Spells(UnicodeEscape(n)[2..], n) && UnicodeEscape(n)[..2] == ['\\', 'u']
  {
    var a, b, c, d := n / 4096, n / 256 % 16, n / 16 % 16, n % 16;
    HexDigitOf(a);
    HexDigitOf(b);
    HexDigitOf(c);
    HexDigitOf(d);
    HexParts(n);
    hide HexOf, HexDigit;
    assert UnicodeEscape(n)[2..] == [HexDigit(a), HexDigit(b), HexDigit(c), HexDigit(d)];
    FourSpell(HexDigit(a), a, HexDigit(b), b, HexDigit(c), c, HexDigit(d), d);
  }

  lemma FourSpell(p: char, a: int, q: char, b: int, r: char, c: int, s: char, d: int)
    requires HexOf(p, a) && HexOf(q, b) && HexOf(r, c) && HexOf(s, d)
    ensures Spells([p, q, r, s], a * 4096 + b * 256 + c * 16 + d)
  {
    hide HexOf;
    var t := [p, q, r, s];
    assert HexOf(t[0], a) && HexOf(t[1], b) && HexOf(t[2], c) && HexOf(t[3], d);
    assert ((a * 16 + b) * 16 + c) * 16 + d == a * 4096 + b * 256 + c * 16 + d;
  }

  lemma HexParts(n: int)
    requires 0 <= n < 0x1_0000
    ensures n / 4096 * 4096 + n / 256 % 16 * 256 + n / 16 % 16 * 16 + n % 16 == n
  {
    assert n / 256 / 16 == n / 4096;
    assert n / 16 / 16 == n / 256;
  }

  lemma PrintedSpells(c: char)
    ensures CharSpelt(Printed(c), c) && SpellingText(Printed(c)) == EscapeChar(c)
    ensures !HighUnit(Printed(c))
  {
    EscapedExactly(c);
    hide Spells, UnicodeEscape;
    if Plain(c) {
    } else if ShortEscaped(c) {
      ShortPrinted(c);
    } else {
      assert EscapeChar(c) == UnicodeEscape(c as int);
      UnicodeEscapeSpells(c as int);
      SpellsOnce(UnicodeEscape(c as int)[2..], c as int);
      assert UnicodeEscape(c as int) == UnicodeEscape(c as int)[..2] + UnicodeEscape(c as int)[2..];
    }
  }

  lemma ShortPrinted(c: char)
    requires ShortEscaped(c)
    ensures CharSpelt(Short(EscapeChar(c)[1]), c) && EscapeChar(c) == ['\\', EscapeChar(c)[1]]
  {
    var i := if c == '\"' then 0 else if c == '\\' then 1 else if c as int == 8 then 3 else if c as int == 12 then 4
    else if c == '\n' then 5 else if c == '\r' then 6 else 7;
    assert SHORT_LETTERS[i] == EscapeChar(c)[1] && SHORT_CHARS[i] == c;
  }

  function PrintedSpellings(s: string): (ps: seq<Spelling>)
    ensures |ps| == |s| && forall i :: 0 <= i < |s| ==> ps[i] == Printed(s[i])
  {
    seq(|s|, i requires 0 <= i < |s| => Printed(s[i]))
  }

  lemma {:induction false} PrintedText(s: string)
    ensures StringText(PrintedSpellings(s)) == PrintChars(s)
  {
    hide EscapeChar, Printed, SpellingText;
    if s != [] {
      PrintedSpells(s[0]);
      assert PrintedSpellings(s)[1..] == PrintedSpellings(s[1..]);
      PrintedText(s[1..]);
    }
  }

  lemma PrintedSpelt(s: string)
    ensures StringSpelt(PrintedSpellings(s), s)
  {
    hide CharSpelt, HighUnit, Printed;
    forall i | 0 <= i < |s| ensures CharSpelt(Printed(s[i]), s[i]) && !HighUnit(Printed(s[i])) {
      PrintedSpells(s[i]);
    }
  }

  /** No two strings print alike. */
  lemma PrintStringInjective(a: string, b: string)
    requires PrintString(a) == PrintString(b)
    ensures a == b
  {
    hide PrintChars, ParseChars, StringText, StringSpelt;
    PrintedSpelt(a);
    PrintedSpelt(b);
    PrintedText(a);
    PrintedText(b);
    StringParses(PrintedSpellings(a), a, []);
    StringParses(PrintedSpellings(b), b, []);
    assert PrintString(a)[1..] == PrintChars(a) + ['\"'] + [];
    assert PrintString(b)[1..] == PrintChars(b) + ['\"'] + [];
  }

  // ----- values -----

  function LiteralOf(s: string): Literally { Literally(PrintedSpellings(s), s) }

  /** The text printing chooses: no blanks, and the spellings above. */
  function Chosen(v: Value): Node
    decreases v, 0
  {
    match v
    case Null => NullNode
    case Bool(b) => BoolNode(b)
    case Num(lit) => NumNode(lit)
    case Str(s) => StrNode(LiteralOf(s))
    case Arr(items) => ArrNode(ChosenItems(items), "")
    case Obj(members) => ObjNode(ChosenEntries(members), "")
  }

  function ChosenItems(items: seq<Value>): (r: seq<Item>)
    ensures |r| == |items|
    decreases items, 0
  {
    if items == [] then [] else [Item("", Chosen(items[0]), "")] + ChosenItems(items[1..])
  }

  function ChosenEntries(members: seq<Member>): (r: seq<Pairing>)
    ensures |r| == |members|
    decreases members, 0
  {
    if members == [] then []
    else
      var m := members[0];
      [Pairing("", LiteralOf(m.key), "", Item("", Chosen(m.value), ""))] + ChosenEntries(members[1..])
  }

  /** No blank anywhere between tokens. */
  predicate Compact(n: Node) {
    match n
    case ArrNode(items, blank) => blank == "" && forall i :: 0 <= i < |items| ==> CompactItem(items[i])
    case ObjNode(entries, gap) =>
      gap == "" && forall i :: 0 <= i < |entries| ==>
        entries[i].before == "" && entries[i].between == "" && CompactItem(entries[i].item)
    case _ => true
  }

  predicate CompactItem(i: Item) { i.before == "" && i.after == "" && Compact(i.node) }

  /** The entries an object's printed text is read as. */
  function EntriesOf(members: seq<Member>): seq<Entry> {
    if members == [] then []
    else [Entry(members[0], Print(members[0].value))] + EntriesOf(members[1..])
  }

  lemma {:induction false} EntriesMembers(members: seq<Member>)
    ensures |EntriesOf(members)| == |members|
    ensures forall i :: 0 <= i < |members| ==> EntriesOf(members)[i] == Entry(members[i], Print(members[i].value))
    ensures MembersOf(EntriesOf(members)) == members
  {
    if members != [] {
      EntriesMembers(members[1..]);
    }
  }

  /** Printing writes the compact text of the value: one of its texts, with no blank. */
  lemma {:induction false} PrintChosen(v: Value)
    ensures WellFormed(Chosen(v)) && Compact(Chosen(v)) && Meaning(Chosen(v)) == v && Text(Chosen(v)) == Print(v)
    decreases v, 1
  {
    hide PrintItems, PrintMembers, ChosenItems, ChosenEntries, ItemsText, EntriesText, Meanings, Entries, MembersOf;
    hide EntriesOf, StringSpelt, StringText, PrintChars, PrintedSpellings;
    hide WellFormedItem, WellFormedPairing, CompactItem;
    match v {
      case Str(s) =>
        LiteralChosen(s);
      case Arr(items) =>
        ItemsChosen(items);
        assert ['['] + PrintItems(items) + [']'] == ['['] + (PrintItems(items) + [']']);
      case Obj(members) =>
        EntriesChosen(members);
        EntriesMembers(members);
        assert ['{'] + PrintMembers(members) + ['}'] == ['{'] + (PrintMembers(members) + ['}']);
      case _ =>
    }
  }

  lemma LiteralChosen(s: string)
    ensures StringSpelt(LiteralOf(s).spellings, s) && LiteralText(LiteralOf(s)) == PrintString(s)
  {
    hide StringSpelt, StringText, PrintChars, PrintedSpellings;
    PrintedSpelt(s);
    PrintedText(s);
    assert ['\"'] + PrintChars(s) + ['\"'] == ['\"'] + (PrintChars(s) + ['\"']);
  }

  lemma ItemChosen(v: Value)
    requires WellFormed(Chosen(v)) && Compact(Chosen(v)) && Text(Chosen(v)) == Print(v)
    ensures var i := Item("", Chosen(v), ""); WellFormedItem(i) && CompactItem(i) && ItemText(i) == Print(v)
  {
    hide Text, Print, WellFormed, Compact, Chosen;
    assert "" + (Print(v) + "") == Print(v);
  }

  lemma {:induction false} ItemsChosen(items: seq<Value>)
    ensures forall i :: 0 <= i < |items| ==> WellFormedItem(ChosenItems(items)[i]) && CompactItem(ChosenItems(items)[i])
    ensures Meanings(ChosenItems(items)) == items
    ensures (if ChosenItems(items) == [] then "" else ItemsText(ChosenItems(items))) == PrintItems(items)
    decreases items, 0
  {
    hide Text, Print, WellFormed, Compact, Chosen, Meaning, ItemText, WellFormedItem, CompactItem;
    if items != [] {
      var c := ChosenItems(items);
      PrintChosen(items[0]);
      ItemChosen(items[0]);
      ItemsChosen(items[1..]);
      assert c[1..] == ChosenItems(items[1..]);
      assert items == [items[0]] + items[1..];
      if |items| > 1 {
        Joined3(Print(items[0]), [','], PrintItems(items[1..]));
      }
    }
  }

  lemma {:induction false} EntriesChosen(members: seq<Member>)
    ensures forall i :: 0 <= i < |members| ==> WellFormedPairing(ChosenEntries(members)[i])
    ensures forall i :: 0 <= i < |members| ==>
              var e := ChosenEntries(members)[i]; e.before == "" && e.between == "" && CompactItem(e.item)
    ensures Entries(ChosenEntries(members)) == EntriesOf(members)
    ensures (if ChosenEntries(members) == [] then "" else EntriesText(ChosenEntries(members))) == PrintMembers(members)
    decreases members, 0
  {
    hide Text, Print, WellFormed, Compact, Chosen, Meaning, PairingText, PrintMember, CompactItem, LiteralOf;
    hide WellFormedPairing, StringSpelt;
    if members != [] {
      var c := ChosenEntries(members);
      PrintChosen(members[0].value);
      MemberChosen(members[0]);
      EntriesChosen(members[1..]);
      assert c[1..] == ChosenEntries(members[1..]);
      if |members| > 1 {
        Joined3(PrintMember(members[0]), [','], PrintMembers(members[1..]));
      }
    }
  }

  lemma MemberChosen(m: Member)
    requires WellFormed(Chosen(m.value)) && Compact(Chosen(m.value)) && Text(Chosen(m.value)) == Print(m.value)
    requires Meaning(Chosen(m.value)) == m.value
    ensures var p := Pairing("", LiteralOf(m.key), "", Item("", Chosen(m.value), ""));
            && WellFormedPairing(p) && CompactItem(p.item) && PairingText(p) == PrintMember(m)
            && LiteralOf(m.key).s == m.key
  {
    hide Text, Print, WellFormed, Compact, Chosen, Meaning, StringSpelt, LiteralText, PrintString, PrintedSpellings;
    ItemChosen(m.value);
    LiteralChosen(m.key);
    assert PrintString(m.key) + [':'] + Print(m.value) == PrintString(m.key) + ([':'] + Print(m.value));
  }

  /** Printed text: exactly one text of the value, without a blank outside its strings. */
  lemma PrintedCompact(v: Value)
    ensures exists n :: WellFormed(n) && Compact(n) && Meaning(n) == v && Text(n) == Print(v)
  {
    PrintChosen(v);
  }

  // ----- documents -----

  /** Every value survives printing and reading. */
  lemma ParseDocumentPrint(v: Value)
    ensures ParseDocument(Print(v)) == Some(v)
  {
    hide Print, Chosen, Text, WellFormed, Meaning, Compact, ParseDocument;
    PrintChosen(v);
    ItemChosen(v);
    DocumentsReadExactly(Print(v), v);
  }

  lemma UnmarshalMapPrint(members: seq<Member>)
    ensures UnmarshalMap(Print(Obj(members))) == Some(ToMap(members))
  {
    ParseDocumentPrint(Obj(members));
  }

  predicate DistinctKeys(members: seq<Member>) {
    forall i, j :: 0 <= i < j < |members| ==> members[i].key != members[j].key
  }

  lemma {:induction false} ToMapKeys(members: seq<Member>)
    ensures forall k :: k in ToMap(members) <==> exists i :: 0 <= i < |members| && members[i].key == k
  {
    if members != [] {
      ToMapKeys(members[..|members| - 1]);
    }
  }

  lemma {:induction false} RawMapOf(members: seq<Member>, n: nat)
    requires n <= |members|
    ensures |EntriesOf(members)| == |members|
    ensures RawMap(EntriesOf(members)[..n]).Keys == ToMap(members[..n]).Keys
    ensures forall k :: k in ToMap(members[..n]) ==> RawMap(EntriesOf(members)[..n])[k] == Print(ToMap(members[..n])[k])
  {
    EntriesMembers(members);
    if n > 0 {
      RawMapOf(members, n - 1);
      assert EntriesOf(members)[..n][..n - 1] == EntriesOf(members)[..n - 1];
      assert members[..n][..n - 1] == members[..n - 1];
    }
  }

  lemma PrintedObjectRead(members: seq<Member>)
    ensures ParseObject(PrintMembers(members) + ['}'] + []) == Some(Parsed(EntriesOf(members), []))
  {
    hide PrintMembers, EntriesOf, ChosenEntries, EntriesText, Entries, ParseObject, WellFormedPairing, CompactItem;
    EntriesChosen(members);
    ObjectRead(ChosenEntries(members), "", []);
  }

  /** Reading a printed object into raw messages keeps, under each key, the printed text of its value. */
  lemma UnmarshalRawPrint(members: seq<Member>)
    ensures UnmarshalRaw(Print(Obj(members))).Some?
    ensures UnmarshalRaw(Print(Obj(members))).value == map k | k in ToMap(members) :: Print(ToMap(members)[k])
  {
    hide PrintMembers, ParseObject, EntriesOf, ToMap, RawMap;
    var t := Print(Obj(members));
    PrintedObjectRead(members);
    assert SkipSpace(t) == t;
    assert t[1..] == PrintMembers(members) + ['}'] + [];
    EntriesMembers(members);
    RawMapOf(members, |members|);
    assert EntriesOf(members)[..|members|] == EntriesOf(members) && members[..|members|] == members;
  }
}
