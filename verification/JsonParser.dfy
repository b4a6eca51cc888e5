/**
 The reader side of encoding/json: blanks allowed between tokens, every escape
 of section 7 of RFC 8259, a lone surrogate escape read as U+FFFD. Each object
 member also keeps the source text of its value, which is what decoding into a
 map of raw messages stores.
 */
module JsonParser {
  import opened Common
  import opened Number
  import opened Json
  import Utf8

  datatype Parsed<+T> = Parsed(value: T, rest: string)

  datatype Entry = Entry(member: Member, raw: string)

  predicate IsSpace(c: char) { c == ' ' || c == '\t' || c == '\n' || c == '\r' }

  function SkipSpace(s: string): (r: string)
    ensures |r| <= |s|
  {
    if s != [] && IsSpace(s[0]) then SkipSpace(s[1..]) else s
  }

  function HexValue(c: char): (r: Option<int>)
    ensures r.Some? ==> 0 <= r.value < 16
  {
    if '0' <= c <= '9' then Some(c as int - '0' as int)
    else if 'a' <= c <= 'f' then Some(c as int - 'a' as int + 10)
    else if 'A' <= c <= 'F' then Some(c as int - 'A' as int + 10)
    else None
  }

  /** The code unit of `uXXXX` at the start of s, after the backslash. */
  function CodeUnit(s: string): (r: Option<int>)
    ensures r.Some? ==> |s| >= 5 && 0 <= r.value < 0x1_0000
  {
    if |s| < 5 || s[0] != 'u' then None
    else
      var a :- HexValue(s[1]);
      var b :- HexValue(s[2]);
      var c :- HexValue(s[3]);
      var d :- HexValue(s[4]);
      Some(a * 4096 + b * 256 + c * 16 + d)
  }

  /** What one escape stands for; s starts after the backslash. */
  function ParseEscape(s: string): (r: Option<Parsed<char>>)
    ensures r.Some? ==> |r.value.rest| < |s|
  {
    if s == [] then None
    else if s[0] == '\"' || s[0] == '\\' || s[0] == '/' then Some(Parsed(s[0], s[1..]))
    else if s[0] == 'b' then Some(Parsed(8 as char, s[1..]))
    else if s[0] == 'f' then Some(Parsed(12 as char, s[1..]))
    else if s[0] == 'n' then Some(Parsed('\n', s[1..]))
    else if s[0] == 'r' then Some(Parsed('\r', s[1..]))
    else if s[0] == 't' then Some(Parsed('\t', s[1..]))
    else
      var n :- CodeUnit(s);
      Some(if !(0xD800 <= n < 0xE000) then Parsed(n as char, s[5..]) else ParseSurrogate(n, s[5..]))
  }

  function ParseSurrogate(n: int, s: string): (r: Parsed<char>)
    requires 0xD800 <= n < 0xE000
    ensures |r.rest| <= |s|
  {
    var low := if n < 0xDC00 && s != [] && s[0] == '\\' then CodeUnit(s[1..]) else None;
    if low.Some? && 0xDC00 <= low.value < 0xE000 then
      Parsed((0x1_0000 + (n - 0xD800) * 0x400 + (low.value - 0xDC00)) as char, s[6..])
    else Parsed(Utf8.REPLACEMENT, s)
  }

  /** A string literal after its opening quote. */
  function ParseChars(s: string): (r: Option<Parsed<string>>)
    ensures r.Some? ==> |r.value.rest| < |s|
    decreases |s|
  {
    if s == [] || s[0] < ' ' then None
    else if s[0] == '\"' then Some(Parsed([], s[1..]))
    else
      var c :- if s[0] == '\\' then ParseEscape(s[1..]) else Some(Parsed(s[0], s[1..]));
      var tail :- ParseChars(c.rest);
      Some(Parsed([c.value] + tail.value, tail.rest))
  }

  function NumberSpan(s: string): (n: nat)
    ensures n <= |s|
  {
    if s != [] && IsNumberChar(s[0]) then 1 + NumberSpan(s[1..]) else 0
  }

  predicate StartsWith(s: string, c: char) { s != [] && s[0] == c }

  function ParseLiteral(s: string, word: string, v: Value): (r: Option<Parsed<Value>>)
    requires word != []
    ensures r.Some? ==> |r.value.rest| < |s|
  {
    if word <= s then Some(Parsed(v, s[|word|..])) else None
  }

  function ParseValue(s: string): (r: Option<Parsed<Value>>)
    ensures r.Some? ==> |r.value.rest| < |s|
    decreases |s|, 2
  {
    ParseToken(SkipSpace(s))
  }

  function ParseToken(t: string): (r: Option<Parsed<Value>>)
    ensures r.Some? ==> |r.value.rest| < |t|
    decreases |t|, 1
  {
    if t == [] then None
    else if t[0] == '{' then
      var entries :- ParseObject(t[1..]);
      Some(Parsed(Obj(MembersOf(entries.value)), entries.rest))
    else if t[0] == '[' then ParseArray(t[1..])
    else if t[0] == '\"' then
      var s :- ParseChars(t[1..]);
      Some(Parsed(Str(s.value), s.rest))
    else if t[0] == 't' then ParseLiteral(t, "true", Bool(true))
    else if t[0] == 'f' then ParseLiteral(t, "false", Bool(false))
    else if t[0] == 'n' then ParseLiteral(t, "null", Null)
    else
      var n := NumberSpan(t);
      if IsNumber(t[..n]) then Some(Parsed(Num(t[..n]), t[n..])) else None
  }

  function ParseArray(s: string): (r: Option<Parsed<Value>>)
    ensures r.Some? ==> |r.value.rest| < |s|
    decreases |s|, 4
  {
    var t := SkipSpace(s);
    if StartsWith(t, ']') then Some(Parsed(Arr([]), t[1..]))
    else
      var items :- ParseItems(s);
      Some(Parsed(Arr(items.value), items.rest))
  }

  function ParseItems(s: string): (r: Option<Parsed<seq<Value>>>)
    ensures r.Some? ==> |r.value.rest| < |s|
    decreases |s|, 3
  {
    var v :- ParseValue(s);
    var t := SkipSpace(v.rest);
    if StartsWith(t, ']') then Some(Parsed([v.value], t[1..]))
    else if StartsWith(t, ',') then
      var more :- ParseItems(t[1..]);
      Some(Parsed([v.value] + more.value, more.rest))
    else None
  }

  /** An object after its opening brace. */
  function ParseObject(s: string): (r: Option<Parsed<seq<Entry>>>)
    ensures r.Some? ==> |r.value.rest| < |s|
    decreases |s|, 5
  {
    var t := SkipSpace(s);
    if StartsWith(t, '}') then Some(Parsed([], t[1..])) else ParseEntries(s)
  }

  function ParseEntries(s: string): (r: Option<Parsed<seq<Entry>>>)
    ensures r.Some? ==> |r.value.rest| < |s|
    decreases |s|, 4
  {
    var e :- ParseEntry(s);
    var t := SkipSpace(e.rest);
    if StartsWith(t, '}') then Some(Parsed([e.value], t[1..]))
    else if StartsWith(t, ',') then
      var more :- ParseEntries(t[1..]);
      Some(Parsed([e.value] + more.value, more.rest))
    else None
  }

  function ParseEntry(s: string): (r: Option<Parsed<Entry>>)
    ensures r.Some? ==> |r.value.rest| < |s|
    decreases |s|, 3
  {
    var t := SkipSpace(s);
    if !StartsWith(t, '\"') then None
    else
      var key :- ParseChars(t[1..]);
      var u := SkipSpace(key.rest);
      if !StartsWith(u, ':') then None
      else
        var w := SkipSpace(u[1..]);
        var v :- ParseToken(w);
        Some(Parsed(Entry(Member(key.value, v.value), w[..|w| - |v.rest|]), v.rest))
  }

  function MembersOf(entries: seq<Entry>): (m: seq<Member>)
    ensures |m| == |entries|
  {
    seq(|entries|, i requires 0 <= i < |entries| => entries[i].member)
  }

  /** A whole document: one value and nothing but blanks after it. */
  function ParseDocument(s: string): Option<Value> {
    var v :- ParseValue(s);
    if SkipSpace(v.rest) == [] then Some(v.value) else None
  }

  /** The members of an object, its numbers kept as literals. The document null leaves the map empty. */
  function UnmarshalMap(s: string): Option<map<string, Value>> {
    var v :- ParseDocument(s);
    match v
    case Obj(members) => Some(ToMap(members))
    case Null => Some(map[])
    case _ => None
  }

  /** json.Unmarshal into a map of raw messages. */
  function UnmarshalRaw(s: string): Option<map<string, string>> {
    var t := SkipSpace(s);
    if StartsWith(t, '{') then
      var entries :- ParseObject(t[1..]);
      if SkipSpace(entries.rest) == [] then Some(RawMap(entries.value)) else None
    else
      var v :- ParseDocument(s);
      if v.Null? then Some(map[]) else None
  }

  function RawMap(entries: seq<Entry>): map<string, string> {
    if entries == [] then map[]
    else RawMap(entries[..|entries| - 1])[entries[|entries| - 1].member.key := entries[|entries| - 1].raw]
  }
}
