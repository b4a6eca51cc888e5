/**
 What encoding/json makes of a value in an any: objects become maps and numbers
 become doubles. A value first stands for what it says exactly; reading then
 rounds every number.
 */
module GoValue {
  import opened Double
  import opened Number
  import opened Numerals
  import opened Json

  datatype Any =
    | GoNil
    | GoBool(b: bool)
    | GoFloat(x: real)
    | GoString(s: string)
    | GoSlice(items: seq<Any>)
    | GoMap(fields: map<string, Any>)

  /** A value with its numbers as they are written. */
  function Exact(v: Value): Any {
    match v
    case Null => GoNil
    case Bool(b) => GoBool(b)
    case Num(lit) => GoFloat(RealOf(lit))
    case Str(s) => GoString(s)
    case Arr(items) => GoSlice(seq(|items|, i requires 0 <= i < |items| => Exact(items[i])))
    case Obj(members) => GoMap(ExactMembers(members))
  }

  /** The last of two equal keys wins. */
  function ExactMembers(members: seq<Member>): map<string, Any> {
    if members == [] then map[]
    else
      var last := members[|members| - 1];
      ExactMembers(members[..|members| - 1])[last.key := Exact(last.value)]
  }

  function ExactMap(m: map<string, Value>): map<string, Any> { map k | k in m :: Exact(m[k]) }

  /** a is what v says: every member under its last key, every number with the value of its parts. */
  ghost predicate Says(a: Any, v: Value)
    decreases v, 1
  {
    match v
    case Null => a == GoNil
    case Bool(b) => a == GoBool(b)
    case Num(lit) => exists n :: WellSpelt(n) && Spelt(n) == lit && a == GoFloat(ValueOf(n))
    case Str(s) => a == GoString(s)
    case Arr(items) => a.GoSlice? && |a.items| == |items| && forall i :: 0 <= i < |items| ==> Says(a.items[i], items[i])
    case Obj(members) => a.GoMap? && SaysAll(a.fields, members)
  }

  predicate LastOf(members: seq<Member>, i: nat, k: string) {
    i < |members| && members[i].key == k && forall j :: i < j < |members| ==> members[j].key != k
  }

  /** Exact gives the one thing a value says. */
  lemma {:induction false} SaysExactly(v: Value)
    ensures Says(Exact(v), v)
    decreases v, 0
  {
    match v {
      case Num(lit) =>
        var n := NumberParts(lit);
        RealOfSpelt(n);
      case Arr(items) =>
        forall i | 0 <= i < |items| ensures Says(Exact(items[i]), items[i]) {
          SaysExactly(items[i]);
        }
      case Obj(members) =>
        SaysMembers(members);
      case _ =>
    }
  }

  /** Under each key stands what its last member's value says, and under no other. */
  ghost predicate SaysAll(fields: map<string, Any>, members: seq<Member>)
    decreases members, 1
  {
    && (forall i :: 0 <= i < |members| ==> members[i].key in fields)
    && (forall k :: k in fields ==> SaysLast(fields[k], members, k))
  }

  ghost predicate SaysLast(a: Any, members: seq<Member>, k: string)
    decreases members, 0
  {
    exists i :: 0 <= i < |members| && LastOf(members, i, k) && Says(a, members[i].value)
  }

  lemma {:induction false} SaysMembers(members: seq<Member>)
    ensures SaysAll(ExactMembers(members), members)
    decreases members, 0
  {
    hide Says, Exact, SaysAll;
    if members == [] {
      SaysNone();
    } else {
      var init, last := members[..|members| - 1], members[|members| - 1];
      SaysMembers(init);
      SaysExactly(last.value);
      SaysOneMore(ExactMembers(init), init, last, Exact(last.value));
      assert members == init + [last];
    }
  }

  lemma SaysNone()
    ensures SaysAll(map[], [])
  {
  }

  lemma SaysOneMore(fields: map<string, Any>, init: seq<Member>, last: Member, a: Any)
    requires SaysAll(fields, init) && Says(a, last.value)
    ensures SaysAll(fields[last.key := a], init + [last])
  {
    hide Says, SaysLast;
    var more, all := fields[last.key := a], init + [last];
    forall i | 0 <= i < |all| ensures all[i].key in more {
      assert i < |init| ==> init[i].key in fields;
    }
    forall k | k in more ensures SaysLast(more[k], all, k) {
      if k == last.key {
        SaysNew(init, last, a);
      } else {
        SaysOld(init, last, k, fields[k]);
      }
    }
  }

  lemma SaysNew(init: seq<Member>, last: Member, a: Any)
    requires Says(a, last.value)
    ensures SaysLast(a, init + [last], last.key)
  {
    hide Says;
    var all := init + [last];
    assert LastOf(all, |init|, last.key) && all[|init|] == last;
  }

  lemma SaysOld(init: seq<Member>, last: Member, k: string, a: Any)
    requires SaysLast(a, init, k) && k != last.key
    ensures SaysLast(a, init + [last], k)
  {
    hide Says;
    var all := init + [last];
    var i :| 0 <= i < |init| && LastOf(init, i, k) && Says(a, init[i].value);
    assert LastOf(all, i, k) && all[i] == init[i];
  }

  /** Every number rounded to a double. */
  function Rounded(a: Any): Any {
    match a
    case GoFloat(x) => GoFloat(Round(x))
    case GoSlice(items) => GoSlice(seq(|items|, i requires 0 <= i < |items| => Rounded(items[i])))
    case GoMap(fields) => GoMap(map k | k in fields :: Rounded(fields[k]))
    case _ => a
  }

  function RoundedMap(m: map<string, Any>): map<string, Any> { map k | k in m :: Rounded(m[k]) }

  /** Every number is a double already. */
  ghost predicate AllDoubles(a: Any) {
    match a
    case GoFloat(x) => IsDouble(x)
    case GoSlice(items) => forall i :: 0 <= i < |items| ==> AllDoubles(items[i])
    case GoMap(fields) => forall k :: k in fields ==> AllDoubles(fields[k])
    case _ => true
  }

  ghost predicate AllDoublesMap(m: map<string, Any>) { forall k :: k in m ==> AllDoubles(m[k]) }

  predicate AllInRange(a: Any) {
    match a
    case GoFloat(x) => InRange(x)
    case GoSlice(items) => forall i :: 0 <= i < |items| ==> AllInRange(items[i])
    case GoMap(fields) => forall k :: k in fields ==> AllInRange(fields[k])
    case _ => true
  }

  /** r is a with every number replaced by a double, and no double is nearer to it. */
  ghost predicate RoundsTo(a: Any, r: Any) {
    match a
    case GoFloat(x) =>
      r.GoFloat? && IsDouble(r.x) && forall d :: IsDouble(d) ==> Magnitude(x - r.x) <= Magnitude(x - d)
    case GoSlice(items) =>
      r.GoSlice? && |r.items| == |items| && forall i :: 0 <= i < |items| ==> RoundsTo(items[i], r.items[i])
    case GoMap(fields) =>
      r.GoMap? && r.fields.Keys == fields.Keys && forall k :: k in fields ==> RoundsTo(fields[k], r.fields[k])
    case _ => r == a
  }

  lemma {:induction false} RoundedToNearest(a: Any)
    requires AllInRange(a)
    ensures RoundsTo(a, Rounded(a))
  {
    hide Round, InRange, IsDouble, Magnitude;
    match a {
      case GoFloat(x) =>
        RoundIsDouble(x);
        forall d | IsDouble(d) ensures Magnitude(x - Round(x)) <= Magnitude(x - d) {
          RoundNearest(x, d);
        }
      case GoSlice(items) =>
        forall i | 0 <= i < |items| ensures RoundsTo(items[i], Rounded(items[i])) {
          RoundedToNearest(items[i]);
        }
      case GoMap(fields) =>
        forall k | k in fields ensures RoundsTo(fields[k], Rounded(fields[k])) {
          RoundedToNearest(fields[k]);
        }
      case _ =>
    }
  }

  /** Rounding keeps a value exactly when its numbers are doubles. */
  lemma {:induction false} RoundedFixesExactly(a: Any)
    requires AllInRange(a)
    ensures Rounded(a) == a <==> AllDoubles(a)
  {
    hide Round, InRange, IsDouble;
    match a {
      case GoFloat(x) =>
        RoundFixesExactly(x);
      case GoSlice(items) =>
        forall i | 0 <= i < |items| ensures Rounded(items[i]) == items[i] <==> AllDoubles(items[i]) {
          RoundedFixesExactly(items[i]);
        }
        var r := Rounded(a).items;
        assert r == items <==> forall i :: 0 <= i < |items| ==> r[i] == items[i];
      case GoMap(fields) =>
        forall k | k in fields ensures Rounded(fields[k]) == fields[k] <==> AllDoubles(fields[k]) {
          RoundedFixesExactly(fields[k]);
        }
        var r := Rounded(a).fields;
        assert r == fields <==> forall k :: k in fields ==> r[k] == fields[k];
      case _ =>
    }
  }

  lemma RoundedMapFixesExactly(m: map<string, Any>)
    requires AllInRange(GoMap(m))
    ensures RoundedMap(m) == m <==> AllDoublesMap(m)
  {
    RoundedFixesExactly(GoMap(m));
  }

  lemma {:induction false} FiniteInRange(v: Value)
    requires FiniteValue(v)
    ensures AllInRange(Exact(v))
  {
    match v {
      case Arr(items) =>
        forall i | 0 <= i < |items| ensures AllInRange(Exact(items[i])) {
          FiniteInRange(items[i]);
        }
      case Obj(members) =>
        FiniteMembers(members);
      case _ =>
    }
  }

  lemma {:induction false} FiniteMembers(members: seq<Member>)
    requires forall i :: 0 <= i < |members| ==> FiniteValue(members[i].value)
    ensures forall k :: k in ExactMembers(members) ==> AllInRange(ExactMembers(members)[k])
  {
    if members != [] {
      FiniteMembers(members[..|members| - 1]);
      FiniteInRange(members[|members| - 1].value);
    }
  }

  lemma {:induction false} ExactMembersMap(members: seq<Member>)
    ensures ExactMembers(members) == ExactMap(ToMap(members))
  {
    if members != [] {
      ExactMembersMap(members[..|members| - 1]);
    }
  }

  // ----- reading a printed map -----

  /** What reading the text of a map into a map of any gives. */
  function ReadBack(m: map<string, Value>): map<string, Any> { RoundedMap(ExactMap(m)) }

  lemma ReadBackAt(m: map<string, Value>, name: string)
    ensures name in ReadBack(m) <==> name in m
    ensures name in m ==> ReadBack(m)[name] == Rounded(Exact(m[name]))
  {
  }

  lemma ReadBackString(m: map<string, Value>, name: string, s: string)
    requires name in m && m[name] == Str(s)
    ensures name in ReadBack(m) && ReadBack(m)[name] == GoString(s)
  {
  }

  lemma ReadBackNumber(m: map<string, Value>, name: string, n: int)
    requires name in m && m[name] == Num(FormatInt(n))
    ensures name in ReadBack(m) && ReadBack(m)[name] == GoFloat(Round(n as real))
  {
    hide FormatInt, RealOf, Round;
    RealOfFormatInt(n);
  }

  /** The text says what the map says exactly when all its numbers are doubles. */
  lemma ReadBackExactly(m: map<string, Value>)
    requires FiniteMap(m)
    ensures ReadBack(m) == ExactMap(m) <==> AllDoublesMap(ExactMap(m))
  {
    forall k | k in m ensures AllInRange(Exact(m[k])) {
      FiniteInRange(m[k]);
    }
    RoundedMapFixesExactly(ExactMap(m));
  }

  /** An identifier above 2^53 comes back as another. */
  lemma InexactIdentifier()
    ensures Rounded(Exact(Num(FormatInt(9007199254740993)))) == Exact(Num(FormatInt(9007199254740992)))
  {
    hide FormatInt, RealOf, Round;
    RealOfFormatInt(9007199254740993);
    RealOfFormatInt(9007199254740992);
    FirstGap();
  }

  /** Integers up to 2^53 come back as they are. */
  lemma SmallNumberKept(n: int)
    requires IsSmall(n)
    ensures AllDoubles(Exact(Num(FormatInt(n))))
  {
    hide FormatInt, RealOf, IsDouble;
    RealOfFormatInt(n);
    SmallIntegers(n);
  }
}
