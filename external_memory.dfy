/**
 * The external-memory normaliser of src/program/workflow.rs: it turns the optional, loosely
 * typed `external_memory` field of a workflow document into an optional map from memory keys
 * to MemoryInputType, failing as a whole when any value has a shape outside
 * {string, object, array of (string | object)}.
 *
 * The specification functions ClassifyItems, ClassifyValue and InsertAll recurse on the last
 * element of their input, so that the loops of DeserializeExternalMemory can be proved against
 * them prefix by prefix.
 */
module ExternalMemory {
  import opened Wrappers
  import opened JsonModel
  import opened MemoryTypes

  /** The two failures the normaliser reports. */
  datatype Error =
    | ExpectedMap          // the field is present, not null, and not a JSON object
    | InvalidEntryFormat   // some value, or some array element, has a refused shape

  type MemoryMap = map<ID, MemoryInputType>

  /** A value that may stand as one element of a page: a string or an object. */
  predicate IsEntryShape(v: Value) {
    v.JString? || v.JObject?
  }

  /** A value that may stand under a memory key. */
  predicate IsMemoryShape(v: Value) {
    v.JString? || v.JObject? ||
    (v.JArray? && forall i :: 0 <= i < |v.items| ==> IsEntryShape(v.items[i]))
  }

  /** Every value of the object's members may stand under a memory key. */
  predicate AllMemoryShaped(members: seq<(string, Value)>) {
    forall i :: 0 <= i < |members| ==> IsMemoryShape(members[i].1)
  }

  /** The entries of a page, one per array element, in array order. */
  function ClassifyItems(items: seq<Value>): (r: Result<seq<Entry>, Error>)
    ensures r.Ok? <==> forall i :: 0 <= i < |items| ==> IsEntryShape(items[i])
    ensures r.Ok? ==> |r.value| == |items|
    ensures r.Ok? ==> forall i :: 0 <= i < |items| ==>
      (items[i].JString? ==> r.value[i] == String(items[i].s)) &&
      (items[i].JObject? ==> r.value[i] == Json(items[i]))
    ensures r.Err? ==> r.error == InvalidEntryFormat
  {
    if items == [] then Ok([])
    else
      var item := items[|items| - 1];
      match ClassifyItems(items[..|items| - 1])
      case Err(e) => Err(e)
      case Ok(page) =>
        if item.JString? then Ok(page + [String(item.s)])
        else if item.JObject? then Ok(page + [Json(item)])
        else Err(InvalidEntryFormat)
  }

  /** The memory slot one value under a key becomes. */
  function ClassifyValue(v: Value): (r: Result<MemoryInputType, Error>)
    ensures r.Ok? <==> IsMemoryShape(v)
    ensures v.JString? ==> r == Ok(Entry(String(v.s)))
    ensures v.JObject? ==> r == Ok(Entry(Json(v)))
    ensures v.JArray? && r.Ok? ==>
      r.value.Page? && |r.value.entries| == |v.items| &&
      forall i :: 0 <= i < |v.items| ==>
        (v.items[i].JString? ==> r.value.entries[i] == String(v.items[i].s)) &&
        (v.items[i].JObject? ==> r.value.entries[i] == Json(v.items[i]))
    ensures r.Err? ==> r.error == InvalidEntryFormat
  {
    if v.JArray? then
      match ClassifyItems(v.items)
      case Ok(page) => Ok(Page(page))
      case Err(e) => Err(e)
    else if v.JString? then Ok(Entry(String(v.s)))
    else if v.JObject? then Ok(Entry(Json(v)))
    else Err(InvalidEntryFormat)
  }

  /** The map built by inserting the members' classified values in order (later keys overwrite). */
  function InsertAll(members: seq<(string, Value)>): (r: Result<MemoryMap, Error>)
    ensures r.Err? ==> r.error == InvalidEntryFormat
  {
    if members == [] then Ok(map[])
    else
      var (key, val) := members[|members| - 1];
      match InsertAll(members[..|members| - 1])
      case Err(e) => Err(e)
      case Ok(m) =>
        match ClassifyValue(val)
        case Err(e) => Err(e)
        case Ok(slot) => Ok(m[key := slot])
  }

  /**
   * The field as the normaliser sees it. Input None stands for an absent field: the field's
   * `default` attribute stores None for it and the hook never runs. A present field is read as
   * an optional value, which turns an explicit JSON null into no value.
   */
  function AsOptional(input: Option<Value>): (r: Option<Value>)
    ensures r.None? <==> input.None? || input == Some(JNull)
    ensures r.Some? ==> r == input
  {
    match input
    case Some(JNull) => None
    case _ => input
  }

  /**
   * What the normaliser computes for the raw field: None when there is no value, ExpectedMap
   * when the value is not an object, and otherwise the insertion of the members of the parsed
   * map (the last member per key).
   */
  function Normalised(input: Option<Value>): Result<Option<MemoryMap>, Error> {
    match AsOptional(input)
    case None => Ok(None)
    case Some(JObject(members)) =>
      (match InsertAll(Collapse(members))
       case Ok(m) => Ok(Some(m))
       case Err(e) => Err(e))
    case Some(_) => Err(ExpectedMap)
  }

  /** The insertion succeeds exactly when every member's value has an accepted shape. */
  lemma {:induction false} InsertAllOkIff(members: seq<(string, Value)>)
    ensures InsertAll(members).Ok? <==> AllMemoryShaped(members)
  {
    if members != [] {
      var n := |members| - 1;
      InsertAllOkIff(members[..n]);
      assert forall i :: 0 <= i < n ==> members[..n][i] == members[i];
    }
  }

  /** A successful insertion has exactly one key per distinct member key. */
  lemma {:induction false} InsertAllKeys(members: seq<(string, Value)>)
    requires InsertAll(members).Ok?
    ensures InsertAll(members).value.Keys == KeysOf(members)
  {
    if members != [] {
      var n := |members| - 1;
      InsertAllKeys(members[..n]);
      assert KeysOf(members) == KeysOf(members[..n]) + {members[n].0} by {
        forall k | k in KeysOf(members) ensures k in KeysOf(members[..n]) + {members[n].0} {
          var i :| 0 <= i < |members| && members[i].0 == k;
          if i < n { assert members[..n][i] == members[i]; }
        }
        forall k | k in KeysOf(members[..n]) ensures k in KeysOf(members) {
          var i :| 0 <= i < n && members[..n][i].0 == k;
          assert members[i] == members[..n][i];
        }
      }
    }
  }

  /** Under each key sits the classified value of the LAST member with that key. */
  lemma {:induction false} InsertAllLastWins(members: seq<(string, Value)>, i: int)
    requires InsertAll(members).Ok?
    requires IsLastWithKey(members, i)
    ensures ClassifyValue(members[i].1).Ok?
    ensures members[i].0 in InsertAll(members).value
    ensures InsertAll(members).value[members[i].0] == ClassifyValue(members[i].1).value
  {
    var n := |members| - 1;
    if i < n {
      assert members[..n][i] == members[i];
      InsertAllLastWins(members[..n], i);
    }
  }

  /** An absent or null field gives None, never an empty map. */
  lemma AbsentStaysAbsent()
    ensures Normalised(None) == Ok(None)
    ensures Normalised(Some(JNull)) == Ok(None)
  {
  }

  /** A present, non-null field that is not an object is refused with ExpectedMap. */
  lemma NotObjectIsRefused(v: Value)
    requires !v.JObject? && !v.JNull?
    ensures Normalised(Some(v)) == Err(ExpectedMap)
  {
  }

  /** Every member that survives in the parsed map has a value with an accepted shape. */
  predicate LastMembersShaped(members: seq<(string, Value)>) {
    forall i :: 0 <= i < |members| && IsLastWithKey(members, i) ==> IsMemoryShape(members[i].1)
  }

  /**
   * The whole contract for an object: it is accepted exactly when the last member of every key
   * has an accepted shape (earlier members with the same key are overwritten by the parser and
   * never examined), and then the map has one key per member key, holding the classified value
   * of the last member with that key.
   */
  lemma {:induction false} NormalisedObject(members: seq<(string, Value)>)
    ensures Normalised(Some(JObject(members))).Ok? <==> LastMembersShaped(members)
    ensures Normalised(Some(JObject(members))).Err? ==>
      Normalised(Some(JObject(members))) == Err(InvalidEntryFormat)
    ensures Normalised(Some(JObject(members))).Ok? ==>
      Normalised(Some(JObject(members))).value.Some? &&
      Normalised(Some(JObject(members))).value.value.Keys == KeysOf(members)
    ensures Normalised(Some(JObject(members))).Ok? ==>
      forall i :: IsLastWithKey(members, i) ==>
        ClassifyValue(members[i].1).Ok? &&
        Normalised(Some(JObject(members))).value.value[members[i].0] == ClassifyValue(members[i].1).value
  {
    var kept := Collapse(members);
    InsertAllOkIff(kept);
    if AllMemoryShaped(kept) {
      forall i | IsLastWithKey(members, i) ensures IsMemoryShape(members[i].1) {
        assert members[i] in kept;
        var p :| 0 <= p < |kept| && kept[p] == members[i];
      }
    } else {
      var p :| 0 <= p < |kept| && !IsMemoryShape(kept[p].1);
      assert kept[p] in kept;
      var i :| IsLastWithKey(members, i) && members[i] == kept[p];
    }
    if InsertAll(kept).Ok? {
      InsertAllKeys(kept);
      forall i | IsLastWithKey(members, i)
        ensures ClassifyValue(members[i].1).Ok?
        ensures InsertAll(kept).value[members[i].0] == ClassifyValue(members[i].1).value
      {
        assert members[i] in kept;
        var p :| 0 <= p < |kept| && kept[p] == members[i];
        assert IsLastWithKey(kept, p);
        InsertAllLastWins(kept, p);
      }
    }
  }

  /**
   * Atomicity: one refused value that survives in the parsed map (the last member with its
   * key) fails the whole field, with no partial map.
   */
  lemma {:induction false} OneBadValueFailsAll(members: seq<(string, Value)>, i: int)
    requires IsLastWithKey(members, i) && !IsMemoryShape(members[i].1)
    ensures Normalised(Some(JObject(members))) == Err(InvalidEntryFormat)
  {
    NormalisedObject(members);
  }

  /**
   * The normaliser as the source runs it: the field read as an optional value, then a loop over
   * the members of the parsed map that inserts into a growing map, with an inner loop that
   * pushes the elements of an array onto a page, and an early return on the first refused shape.
   */
  method DeserializeExternalMemory(input: Option<Value>) returns (r: Result<Option<MemoryMap>, Error>)
    ensures r == Normalised(input)
    ensures input.None? || input == Some(JNull) ==> r == Ok(None)
    ensures r.Ok? && r.value.Some? ==> input.Some? && input.value.JObject?
  {
    var optional := AsOptional(input);
    if optional.None? {
      return Ok(None);
    }
    var value := optional.value;
    if !value.JObject? {
      return Err(ExpectedMap);
    }
    var members := Collapse(value.members);
    var externalMemory: MemoryMap := map[];
    var i := 0;
    while i < |members|
      invariant 0 <= i <= |members|
      invariant InsertAll(members[..i]) == Ok(externalMemory)
    {
      var (key, val) := members[i];
      assert members[..i + 1][..i] == members[..i];
      if val.JArray? {
        var elems := val.items;
        var stackPage: seq<Entry> := [];
        var j := 0;
        while j < |elems|
          invariant 0 <= j <= |elems|
          invariant ClassifyItems(elems[..j]) == Ok(stackPage)
        {
          var item := elems[j];
          assert elems[..j + 1][..j] == elems[..j];
          if item.JString? {
            stackPage := stackPage + [String(item.s)];
          } else if item.JObject? {
            stackPage := stackPage + [Json(item)];
          } else {
            InsertAllOkIff(members);
            return Err(InvalidEntryFormat);
          }
          j := j + 1;
        }
        assert elems[..|elems|] == elems;
        externalMemory := externalMemory[key := Page(stackPage)];
      } else if val.JString? {
        externalMemory := externalMemory[key := Entry(String(val.s))];
      } else if val.JObject? {
        externalMemory := externalMemory[key := Entry(Json(val))];
      } else {
        InsertAllOkIff(members);
        return Err(InvalidEntryFormat);
      }
      i := i + 1;
    }
    assert members[..|members|] == members;
    return Ok(Some(externalMemory));
  }

  /** The first example document: a string value becomes a single String entry. */
  lemma StringExample()
    ensures Normalised(Some(JObject([("m1", JString("hello"))]))) ==
      Ok(Some(map["m1" := Entry(String("hello"))]))
  {
    CollapseKeepsDistinct([("m1", JString("hello"))]);
  }

  /** The second example document: an array becomes a page in array order. */
  lemma PageExample(obj: Value)
    requires obj.JObject?
    ensures Normalised(Some(JObject([("m2", JArray([obj, JString("x")]))]))) ==
      Ok(Some(map["m2" := Page([Json(obj), String("x")])]))
  {
    var items := [obj, JString("x")];
    assert IsEntryShape(items[0]) && IsEntryShape(items[1]);
    var page := ClassifyItems(items).value;
    assert page[0] == Json(obj) && page[1] == String("x");
    assert page == [Json(obj), String("x")];
    var members := [("m2", JArray(items))];
    CollapseKeepsDistinct(members);
    assert members[..0] == [];
    assert InsertAll(members) == Ok(map["m2" := Page(page)]);
  }

  /** The third example document: a number under a key fails the whole field. */
  lemma NumberExample(tag: int)
    ensures Normalised(Some(JObject([("m3", JNumber(tag))]))) == Err(InvalidEntryFormat)
  {
    CollapseKeepsDistinct([("m3", JNumber(tag))]);
  }

  /**
   * A repeated key: the number under the first "k" is overwritten by the parser before the
   * normaliser runs, so the field is accepted and "k" holds the later string.
   */
  lemma RepeatedKeyExample(tag: int)
    ensures Normalised(Some(JObject([("k", JNumber(tag)), ("k", JString("x"))]))) ==
      Ok(Some(map["k" := Entry(String("x"))]))
  {
    var members := [("k", JNumber(tag)), ("k", JString("x"))];
    assert members[1..] == [("k", JString("x"))];
    assert members[1..][0].0 == "k";
    assert "k" in KeysOf(members[1..]);
    assert Collapse(members[1..]) == [("k", JString("x"))] by {
      assert members[1..][1..] == [];
    }
    var kept := [("k", JString("x"))];
    assert kept[..0] == [];
  }
}
