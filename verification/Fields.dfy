/** Struct fields with omitempty: the absent ones are left out of the printed object. */
module Fields {
  import opened Common
  import opened Json

  datatype Field = Field(name: string, value: Option<Value>)

  /** A string field, omitted when empty. */
  function Text(name: string, s: string): Field { Field(name, if s == "" then None else Some(Str(s))) }

  /** The members an object prints for its fields. */
  function Present(fields: seq<Field>): seq<Member> {
    if fields == [] then []
    else
      var init, last := fields[..|fields| - 1], fields[|fields| - 1];
      if last.value.None? then Present(init) else Present(init) + [Member(last.name, last.value.value)]
  }

  function Lookup(m: map<string, Value>, name: string): Option<Value> { if name in m then Some(m[name]) else None }

  predicate DistinctNames(fields: seq<Field>) {
    forall i, j :: 0 <= i < j < |fields| ==> fields[i].name != fields[j].name
  }

  /** With distinct names every field reads back, the omitted ones as absent, and no other name appears. */
  lemma {:induction false} PresentReadsBack(fields: seq<Field>)
    requires DistinctNames(fields)
    ensures forall i :: 0 <= i < |fields| ==> Lookup(ToMap(Present(fields)), fields[i].name) == fields[i].value
    ensures forall k :: k in ToMap(Present(fields)) ==> exists i :: 0 <= i < |fields| && fields[i].name == k
  {
    if fields != [] {
      var init, last := fields[..|fields| - 1], fields[|fields| - 1];
      PresentReadsBack(init);
      var all := Present(fields);
      if last.value.Some? {
        assert all[..|all| - 1] == Present(init);
      }
    }
  }

  /** The members printed keep the order of their fields. */
  lemma {:induction false} PresentOrdered(fields: seq<Field>) returns (at: seq<nat>)
    ensures |at| == |Present(fields)|
    ensures forall i :: 0 <= i < |at| ==> at[i] < |fields| && fields[at[i]].name == Present(fields)[i].key
    ensures forall i, j :: 0 <= i < j < |at| ==> at[i] < at[j]
  {
    at := [];
    if fields != [] {
      var init, last := fields[..|fields| - 1], fields[|fields| - 1];
      at := PresentOrdered(init);
      if last.value.Some? {
        at := at + [|fields| - 1];
      }
    }
  }
}
