/**
 How encoding/json prints a Go map: members in ascending key order. The order
 below compares scalar values; LessIsByteOrder shows it is the byte order of the
 UTF-8 keys, in which Go sorts.
 */
module SortedObject {
  import opened Common
  import opened Json
  import opened JsonRoundTrip
  import JsonParser
  import Utf8

  predicate Less(a: string, b: string) {
    b != [] && (a == [] || a[0] < b[0] || (a[0] == b[0] && Less(a[1..], b[1..])))
  }

  predicate Ascending(keys: seq<string>) {
    forall i, j :: 0 <= i < j < |keys| ==> Less(keys[i], keys[j])
  }

  lemma {:induction false} LessTrichotomy(a: string, b: string)
    ensures a == b || Less(a, b) || Less(b, a)
    ensures !(Less(a, b) && Less(b, a)) && (a == b ==> !Less(a, b))
  {
    if a != [] && b != [] {
      LessTrichotomy(a[1..], b[1..]);
      assert a == [a[0]] + a[1..] && b == [b[0]] + b[1..];
    }
  }

  lemma {:induction false} LessTransitive(a: string, b: string, c: string)
    requires Less(a, b) && Less(b, c)
    ensures Less(a, c)
  {
    if a != [] && a[0] == b[0] == c[0] {
      LessTransitive(a[1..], b[1..], c[1..]);
    }
  }

  /** The order of scalar values is the order of the UTF-8 octets. */
  lemma {:induction false} LessIsByteOrder(a: string, b: string)
    ensures Less(a, b) <==> Utf8.BytesLess(Utf8.Encode(a), Utf8.Encode(b))
  {
    hide Utf8.EncodeChar, Utf8.PartAt;
    if a != [] && b != [] {
      var p, q, s, t := Utf8.EncodeChar(a[0]), Utf8.EncodeChar(b[0]), Utf8.Encode(a[1..]), Utf8.Encode(b[1..]);
      if a[0] < b[0] {
        Utf8.EncodeCharOrder(a[0], b[0]);
        var i :| Utf8.PartAt(p, q, i);
        Utf8.PartedOrder(p, q, i, s, t);
      } else if b[0] < a[0] {
        Utf8.EncodeCharOrder(b[0], a[0]);
        var i :| Utf8.PartAt(q, p, i);
        Utf8.PartedOrder(q, p, i, t, s);
      } else {
        Utf8.CommonPrefixOrder(p, s, t);
        LessIsByteOrder(a[1..], b[1..]);
      }
    }
  }

  predicate IsLeast(m: string, keys: set<string>) {
    m in keys && forall k :: k in keys ==> k == m || Less(m, k)
  }

  lemma {:induction false} LeastExists(keys: set<string>)
    requires keys != {}
    ensures exists m :: IsLeast(m, keys)
    ensures forall m, n :: IsLeast(m, keys) && IsLeast(n, keys) ==> m == n
    decreases |keys|
  {
    var k :| k in keys;
    if keys == {k} {
      assert IsLeast(k, keys);
    } else {
      LeastExists(keys - {k});
      var m :| IsLeast(m, keys - {k});
      LessTrichotomy(m, k);
      if Less(m, k) {
        assert IsLeast(m, keys);
      } else {
        forall j | j in keys ensures j == k || Less(k, j) {
          if j != k && j != m {
            LessTransitive(k, m, j);
          }
        }
        assert IsLeast(k, keys);
      }
    }
    forall m, n | IsLeast(m, keys) && IsLeast(n, keys) ensures m == n {
      LessTrichotomy(m, n);
    }
  }

  function Least(keys: set<string>): (m: string)
    requires keys != {}
    ensures IsLeast(m, keys)
  {
    LeastExists(keys);
    var m :| m in keys && IsLeast(m, keys);
    m
  }

  function SortedKeys(keys: set<string>): seq<string>
    decreases |keys|
  {
    if keys == {} then [] else var m := Least(keys); [m] + SortedKeys(keys - {m})
  }

  function KeySet(keys: seq<string>): set<string> { set k | k in keys }

  lemma {:induction false} SortedKeysSorted(keys: set<string>)
    ensures Ascending(SortedKeys(keys)) && KeySet(SortedKeys(keys)) == keys
    decreases |keys|
  {
    if keys != {} {
      var m := Least(keys);
      var tail := SortedKeys(keys - {m});
      SortedKeysSorted(keys - {m});
      LeastFirst(m, tail, keys - {m});
      hide Least, SortedKeys, Less, Ascending, KeySet;
    }
  }

  lemma LeastFirst(m: string, tail: seq<string>, rest: set<string>)
    requires Ascending(tail) && KeySet(tail) == rest
    requires forall k :: k in rest ==> Less(m, k)
    ensures Ascending([m] + tail) && KeySet([m] + tail) == {m} + rest
  {
    hide Less;
    forall j | 0 <= j < |tail| ensures Less(m, tail[j]) {
      assert tail[j] in KeySet(tail);
    }
    forall k ensures k in KeySet([m] + tail) <==> k in {m} + rest {
      assert k in [m] + tail <==> k == m || k in tail;
    }
  }

  /** A set of keys has one ascending listing. */
  lemma {:induction false} AscendingUnique(a: seq<string>, b: seq<string>)
    requires Ascending(a) && Ascending(b) && KeySet(a) == KeySet(b)
    ensures a == b
  {
    KeySetEmpty(a);
    KeySetEmpty(b);
    if a != [] {
      assert a[0] in KeySet(b);
      assert b[0] in KeySet(a);
      FirstIsLeast(a, b);
      TailKeys(a);
      TailKeys(b);
      AscendingUnique(a[1..], b[1..]);
      assert a == [a[0]] + a[1..] && b == [b[0]] + b[1..];
    }
  }

  lemma KeySetEmpty(keys: seq<string>)
    ensures KeySet(keys) == {} <==> keys == []
  {
    if keys != [] {
      assert keys[0] in KeySet(keys);
    }
  }

  lemma FirstIsLeast(a: seq<string>, b: seq<string>)
    requires Ascending(a) && Ascending(b) && a != [] && b != []
    requires a[0] in b && b[0] in a
    ensures a[0] == b[0]
  {
    LessTrichotomy(a[0], b[0]);
  }

  lemma TailKeys(a: seq<string>)
    requires Ascending(a) && a != []
    ensures KeySet(a[1..]) == KeySet(a) - {a[0]}
  {
    LessTrichotomy(a[0], a[0]);
    forall k | k in KeySet(a) - {a[0]} ensures k in a[1..] {
      var i :| 0 <= i < |a| && a[i] == k;
      assert a[1..][i - 1] == k;
    }
    forall k | k in a[1..] ensures k != a[0] {
      var i :| 0 <= i < |a| - 1 && a[1..][i] == k;
      assert Less(a[0], a[i + 1]);
    }
  }

  // ----- printing maps -----

  function MembersFor(keys: seq<string>, m: map<string, Value>): (ms: seq<Member>)
    requires forall k :: k in keys ==> k in m
    ensures |ms| == |keys|
    ensures forall i :: 0 <= i < |ms| ==> ms[i] == Member(keys[i], m[keys[i]])
  {
    if keys == [] then [] else [Member(keys[0], m[keys[0]])] + MembersFor(keys[1..], m)
  }

  function SortedMembers(m: map<string, Value>): seq<Member> {
    SortedKeysSorted(m.Keys);
    KeySetContains(SortedKeys(m.Keys));
    MembersFor(SortedKeys(m.Keys), m)
  }

  lemma KeySetContains(keys: seq<string>)
    ensures forall k :: k in keys <==> k in KeySet(keys)
  {
  }

  /** json.Marshal of a map of values. */
  function PrintMap(m: map<string, Value>): string { Print(Obj(SortedMembers(m))) }

  /** json.Marshal of a map of raw messages. */
  function PrintRawMap(m: map<string, string>): string {
    SortedKeysSorted(m.Keys);
    KeySetContains(SortedKeys(m.Keys));
    ['{'] + PrintRawMembers(SortedKeys(m.Keys), m) + ['}']
  }

  function PrintRawMembers(keys: seq<string>, m: map<string, string>): string
    requires forall k :: k in keys ==> k in m
  {
    if keys == [] then []
    else if |keys| == 1 then PrintRawMember(keys[0], m[keys[0]])
    else PrintRawMember(keys[0], m[keys[0]]) + [','] + PrintRawMembers(keys[1..], m)
  }

  function PrintRawMember(key: string, raw: string): string { PrintString(key) + [':'] + raw }

  lemma {:induction false} RawMembersPrint(keys: seq<string>, m: map<string, Value>, raw: map<string, string>)
    requires forall k :: k in keys ==> k in m && k in raw && raw[k] == Print(m[k])
    ensures PrintRawMembers(keys, raw) == PrintMembers(MembersFor(keys, m))
  {
    hide Print, PrintString;
    if |keys| == 1 {
      assert PrintMembers(MembersFor(keys, m)) == PrintMember(MembersFor(keys, m)[0]);
    } else if |keys| > 1 {
      RawMembersPrint(keys[1..], m, raw);
      assert MembersFor(keys, m)[1..] == MembersFor(keys[1..], m);
    }
  }

  /** Re-printing kept value texts is the same as printing the values. */
  lemma PrintRawMapIsPrintMap(m: map<string, Value>, raw: map<string, string>)
    requires raw.Keys == m.Keys && forall k :: k in m ==> raw[k] == Print(m[k])
    ensures PrintRawMap(raw) == PrintMap(m)
  {
    hide PrintRawMembers, PrintMembers, SortedKeys;
    SortedKeysSorted(m.Keys);
    KeySetContains(SortedKeys(m.Keys));
    RawMembersPrint(SortedKeys(m.Keys), m, raw);
  }

  lemma {:induction false} ToMapMembersFor(keys: seq<string>, m: map<string, Value>)
    requires forall k :: k in keys ==> k in m
    ensures ToMap(MembersFor(keys, m)) == map k | k in keys :: m[k]
  {
    hide MembersFor;
    var ms := MembersFor(keys, m);
    if keys == [] {
      assert ms == [];
    } else {
      var init, last := keys[..|keys| - 1], keys[|keys| - 1];
      assert ms[..|ms| - 1] == MembersFor(init, m);
      ToMapMembersFor(init, m);
      assert keys == init + [last];
      assert ToMap(ms) == ToMap(MembersFor(init, m))[last := m[last]];
    }
  }

  lemma ToMapSorted(m: map<string, Value>)
    ensures ToMap(SortedMembers(m)) == m
  {
    SortedKeysSorted(m.Keys);
    KeySetContains(SortedKeys(m.Keys));
    ToMapMembersFor(SortedKeys(m.Keys), m);
  }

  /** The text of a map reads back as the map, so maps with the same text are the same map. */
  lemma UnmarshalPrintMap(m: map<string, Value>)
    ensures JsonParser.UnmarshalMap(PrintMap(m)) == Some(m)
  {
    UnmarshalMapPrint(SortedMembers(m));
    ToMapSorted(m);
  }

  /**
   The text is determined by the map: any object text with ascending keys that
   reads as m is, member for member, the printed text of m.
   */
  lemma PrintMapCanonical(members: seq<Member>, m: map<string, Value>)
    requires Ascending(KeysOf(members)) && ToMap(members) == m
    ensures Print(Obj(members)) == PrintMap(m)
  {
    var keys := KeysOf(members);
    SortedKeysSorted(m.Keys);
    ToMapKeys(members);
    forall k ensures k in KeySet(keys) <==> k in m.Keys {
      if k in m.Keys {
        var i :| 0 <= i < |members| && members[i].key == k;
        assert keys[i] == k;
      }
    }
    assert KeySet(keys) == m.Keys;
    AscendingUnique(keys, SortedKeys(m.Keys));
    forall i | 0 <= i < |members| ensures members[i] == SortedMembers(m)[i] {
      assert members[i].key == keys[i];
      AscendingDistinct(members);
      ToMapAt(members, i);
    }
    assert members == SortedMembers(m);
  }

  function KeysOf(members: seq<Member>): (keys: seq<string>)
    ensures |keys| == |members|
  {
    seq(|members|, i requires 0 <= i < |members| => members[i].key)
  }

  lemma AscendingDistinct(members: seq<Member>)
    requires Ascending(KeysOf(members))
    ensures DistinctKeys(members)
  {
    forall i, j | 0 <= i < j < |members| ensures members[i].key != members[j].key {
      assert Less(KeysOf(members)[i], KeysOf(members)[j]);
      LessTrichotomy(members[i].key, members[j].key);
    }
  }

  lemma {:induction false} ToMapAt(members: seq<Member>, i: nat)
    requires DistinctKeys(members) && i < |members|
    ensures members[i].key in ToMap(members) && ToMap(members)[members[i].key] == members[i].value
  {
    if i < |members| - 1 {
      ToMapAt(members[..|members| - 1], i);
    }
  }
}
