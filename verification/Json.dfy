/**
 JSON values and their compact text, as encoding/json writes it: no blanks,
 and the characters that matter in HTML escaped inside strings.
 */
module Json {
  import opened Number

  datatype Member = Member(key: string, value: Value)

  datatype Value =
    | Null
    | Bool(b: bool)
    | Num(lit: Literal)
    | Str(s: string)
    | Arr(items: seq<Value>)
    | Obj(members: seq<Member>)

  function HexDigit(d: int): char
    requires 0 <= d < 16
  {
    if d < 10 then ('0' as int + d) as char else ('a' as int + d - 10) as char
  }

  function UnicodeEscape(n: int): (e: string)
    requires 0 <= n < 0x1_0000
    ensures |e| == 6
  {
    ['\\', 'u', HexDigit(n / 4096), HexDigit(n / 256 % 16), HexDigit(n / 16 % 16), HexDigit(n % 16)]
  }

  /** One character of a string literal (section 7 of RFC 8259, plus the HTML-sensitive characters). */
  function EscapeChar(c: char): (e: string)
    ensures e != []
  {
    if c == '\"' || c == '\\' then ['\\', c]
    else if c as int == 8 then "\\b"
    else if c as int == 12 then "\\f"
    else if c == '\n' then "\\n"
    else if c == '\r' then "\\r"
    else if c == '\t' then "\\t"
    else if c < ' ' || c == '<' || c == '>' || c == '&' || c as int == 0x2028 || c as int == 0x2029 then
      UnicodeEscape(c as int)
    else [c]
  }

  function PrintChars(s: string): string {
    if s == [] then [] else EscapeChar(s[0]) + PrintChars(s[1..])
  }

  function PrintString(s: string): string { ['\"'] + PrintChars(s) + ['\"'] }

  /** json.Marshal. */
  function Print(v: Value): string
    decreases v, 1
  {
    match v
    case Null => "null"
    case Bool(b) => if b then "true" else "false"
    case Num(lit) => lit
    case Str(s) => PrintString(s)
    case Arr(items) => ['['] + PrintItems(items) + [']']
    case Obj(members) => ['{'] + PrintMembers(members) + ['}']
  }

  function PrintItems(items: seq<Value>): string
    decreases items, 0
  {
    if items == [] then []
    else if |items| == 1 then Print(items[0])
    else Print(items[0]) + [','] + PrintItems(items[1..])
  }

  function PrintMembers(members: seq<Member>): string
    decreases members, 0
  {
    if members == [] then []
    else if |members| == 1 then PrintMember(members[0])
    else PrintMember(members[0]) + [','] + PrintMembers(members[1..])
  }

  function PrintMember(m: Member): string
    decreases m, 2
  {
    PrintString(m.key) + [':'] + Print(m.value)
  }

  /** Reading members into a Go map: the last of two equal keys wins. */
  function ToMap(members: seq<Member>): map<string, Value> {
    if members == [] then map[]
    else ToMap(members[..|members| - 1])[members[|members| - 1].key := members[|members| - 1].value]
  }

  /** Every number in the value has a double, as reading it into an any requires. */
  predicate FiniteValue(v: Value) {
    match v
    case Num(lit) => Finite(lit)
    case Arr(items) => forall i :: 0 <= i < |items| ==> FiniteValue(items[i])
    case Obj(members) => forall i :: 0 <= i < |members| ==> FiniteValue(members[i].value)
    case _ => true
  }

  predicate FiniteMap(m: map<string, Value>) { forall k :: k in m ==> FiniteValue(m[k]) }
}
