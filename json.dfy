/**
 * A loosely typed JSON value, with the six value kinds of section 3 of RFC 8259.
 * Numbers are carried as an opaque tag: nothing in the workflow core looks inside them.
 * An object is the list of its members as the document writes them, so a key may repeat;
 * Collapse gives the members the parser's map keeps (the last member per key).
 */
module JsonModel {

  datatype Value =
    | JNull
    | JBool(b: bool)
    | JNumber(tag: int)
    | JString(s: string)
    | JArray(items: seq<Value>)
    | JObject(members: seq<(string, Value)>)

  /** The keys an object's members name. */
  function KeysOf(members: seq<(string, Value)>): set<string> {
    set i | 0 <= i < |members| :: members[i].0
  }

  /** The keys of a non-empty member list: its first member's key and the rest's keys. */
  lemma KeysOfFirstAndRest(members: seq<(string, Value)>)
    requires members != []
    ensures KeysOf(members) == {members[0].0} + KeysOf(members[1..])
  {
    forall k | k in KeysOf(members) ensures k in {members[0].0} + KeysOf(members[1..]) {
      var i :| 0 <= i < |members| && members[i].0 == k;
      if i > 0 { assert members[1..][i - 1] == members[i]; }
    }
    forall k | k in KeysOf(members[1..]) ensures k in KeysOf(members) {
      var i :| 0 <= i < |members[1..]| && members[1..][i].0 == k;
      assert members[i + 1] == members[1..][i];
    }
  }

  /** Member i is the last member of the object with its key. */
  predicate IsLastWithKey(members: seq<(string, Value)>, i: int) {
    0 <= i < |members| && forall j :: i < j < |members| ==> members[j].0 != members[i].0
  }

  /**
   * The members of the map a parser builds by inserting the written members in order: a later
   * member overwrites an earlier one with the same key, so exactly the last member per key
   * survives, and no key repeats.
   */
  function Collapse(members: seq<(string, Value)>): (r: seq<(string, Value)>)
    ensures forall a, b :: 0 <= a < b < |r| ==> r[a].0 != r[b].0
    ensures KeysOf(r) == KeysOf(members)
    ensures forall i :: IsLastWithKey(members, i) ==> members[i] in r
    ensures forall m :: m in r ==> exists i :: IsLastWithKey(members, i) && members[i] == m
  {
    if members == [] then []
    else
      var rest := Collapse(members[1..]);
      KeysOfFirstAndRest(members);
      if members[0].0 in KeysOf(members[1..]) then rest
      else
        KeysOfFirstAndRest([members[0]] + rest);
        assert ([members[0]] + rest)[1..] == rest;
        [members[0]] + rest
  }

  /** No key repeats among the members. */
  predicate DistinctKeys(members: seq<(string, Value)>) {
    forall a, b :: 0 <= a < b < |members| ==> members[a].0 != members[b].0
  }

  /** Members whose keys are already distinct are kept as they are, in order. */
  lemma {:induction false} CollapseKeepsDistinct(members: seq<(string, Value)>)
    requires DistinctKeys(members)
    ensures Collapse(members) == members
  {
    if members != [] {
      assert members[0].0 !in KeysOf(members[1..]) by {
        forall i | 0 <= i < |members[1..]| ensures members[1..][i].0 != members[0].0 {
          assert members[1..][i] == members[i + 1];
        }
      }
      assert DistinctKeys(members[1..]) by {
        forall a, b | 0 <= a < b < |members[1..]| ensures members[1..][a].0 != members[1..][b].0 {
          assert members[1..][a] == members[a + 1] && members[1..][b] == members[b + 1];
        }
      }
      CollapseKeepsDistinct(members[1..]);
    }
  }
}
