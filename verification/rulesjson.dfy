/**
 * `parse_rules_json` in organizer.py, working on the value `json.loads` decodes
 * from the `--rules-json` option. Decoding itself is not modelled: the input
 * says whether the option was empty, failed to decode, or decoded to a value.
 */
module RulesJson {
  import opened Wrappers
  import opened PyStr
  import opened PyDict
  import opened Rules

  /** A decoded JSON value; an object keeps its members in document order. */
  datatype Json =
    | JNull
    | JBool(b: bool)
    | JInt(i: int)
    | JString(s: string)
    | JArray(elems: seq<Json>)
    | JObject(members: seq<(string, Json)>)

  /** The rules option as it reaches the parser. */
  datatype RulesJsonInput =
    | NoText              // `None` or the empty string
    | Malformed           // `json.loads` raised
    | Decoded(doc: Json)

  /** `ValueError("Invalid rules JSON: ...")`. */
  datatype RulesJsonError = InvalidRulesJson

  /** `str(v)` for a decoded JSON value. Python's rendering of a nested list or dict is
      supplied by `containerRepr`. */
  function ToPyStr(v: Json, containerRepr: Json -> string): (r: string)
    ensures v.JString? ==> r == v.s
    ensures v.JInt? ==>
      && r != [] && (v.i < 0 <==> r[0] == '-')
      && var digits := if v.i < 0 then r[1..] else r;
         && (forall j :: 0 <= j < |digits| ==> '0' <= digits[j] <= '9')
         && DecimalValue(digits) == if v.i < 0 then -v.i else v.i
  {
    match v
    case JNull => "None"
    case JBool(b) => if b then "True" else "False"
    case JInt(i) =>
      DecimalRoundTrip(if i < 0 then -i else i);
      assert i < 0 ==> IntToString(i)[1..] == NatToString(-i);
      IntToString(i)
    case JString(s) => s
    case JArray(_) => containerRepr(v)
    case JObject(_) => containerRepr(v)
  }

  /** `[str(x) for x in exts]`. */
  function StrList(elems: seq<Json>, containerRepr: Json -> string): (r: seq<string>)
    ensures |r| == |elems|
    ensures forall i :: 0 <= i < |elems| && elems[i].JString? ==> r[i] == elems[i].s
  {
    seq(|elems|, i requires 0 <= i < |elems| => ToPyStr(elems[i], containerRepr))
  }

  /** The dict `json.loads` builds from an object's members: a later duplicate overwrites an earlier one in place. */
  function DecodeObject(members: seq<(string, Json)>): (r: Dict<Json>)
    ensures DistinctKeys(r)
    ensures Keys(r) == NewKeys([], Keys(members))
  {
    PutAllKeys([], members);
    PutAllDistinct([], members);
    assert Keys<Json>([]) == [];
    PutAll([], members)
  }

  /** Each key of the decoded dict holds the value of its last member. */
  lemma DecodeObjectGet(members: seq<(string, Json)>, k: string)
    ensures Get(DecodeObject(members), k) == LastFor(members, k)
  {
    PutAllGet([], members, k);
  }

  /** The members whose value is a list, with the list stringified, in order. */
  function ListItems(data: Dict<Json>, containerRepr: Json -> string): (r: RuleTable)
    ensures |r| <= |data|
  {
    if data == [] then []
    else
      var rest := ListItems(data[1..], containerRepr);
      match data[0].1
      case JArray(elems) => [(data[0].0, StrList(elems, containerRepr))] + rest
      case _ => rest
  }

  /** `parse_rules_json`. */
  function ParseRulesJson(input: RulesJsonInput, containerRepr: Json -> string): (r: Result<Option<RuleTable>, RulesJsonError>)
    ensures r.Err? <==> input.Malformed? || (input.Decoded? && !input.doc.JObject?)
    ensures r.Ok? && r.value.Some? ==> r.value.value != [] && DistinctKeys(r.value.value)
  {
    match input
    case NoText => Ok(None)
    case Malformed => Err(InvalidRulesJson)
    case Decoded(doc) =>
      if !doc.JObject? then Err(InvalidRulesJson)
      else
        PutAllDistinct([], ListItems(DecodeObject(doc.members), containerRepr));
        var parsed := PutAll([], ListItems(DecodeObject(doc.members), containerRepr));
        Ok(if parsed == [] then None else Some(parsed))
  }

  /** The stringified list a looked-up value contributes, if it is a list. */
  function ListValue(v: Option<Json>, containerRepr: Json -> string): Option<seq<string>> {
    if v.Some? && v.value.JArray? then Some(StrList(v.value.elems, containerRepr)) else None
  }

  /** Whether `k` maps to a list in `data`. */
  predicate IsListKey(data: Dict<Json>, k: string) {
    Get(data, k).Some? && Get(data, k).value.JArray?
  }

  /** The keys of `ks` that map to a list in `data`, in the order of `ks`. */
  function ListValuedKeys(ks: seq<string>, data: Dict<Json>): seq<string> {
    if ks == [] then []
    else (if IsListKey(data, ks[0]) then [ks[0]] else []) + ListValuedKeys(ks[1..], data)
  }

  /** Two dicts that agree on the keys `ks` pick the same list-valued keys among them. */
  lemma {:induction false} ListValuedKeysAgree(ks: seq<string>, a: Dict<Json>, b: Dict<Json>)
    requires forall k :: k in ks ==> Get(a, k) == Get(b, k)
    ensures ListValuedKeys(ks, a) == ListValuedKeys(ks, b)
  {
    if ks != [] {
      assert ks[0] in ks;
      assert forall k :: k in ks[1..] ==> k in ks;
      ListValuedKeysAgree(ks[1..], a, b);
    }
  }

  /** On a real dict, `ListItems` keeps the list-valued keys in their order. */
  lemma {:induction false} ListItemsOrder(data: Dict<Json>, containerRepr: Json -> string)
    requires DistinctKeys(data)
    ensures Keys(ListItems(data, containerRepr)) == ListValuedKeys(Keys(data), data)
  {
    if data != [] {
      var tail := data[1..];
      var k0 := data[0].0;
      assert DistinctKeys(tail);
      ListItemsOrder(tail, containerRepr);
      assert Keys(data) == [k0] + Keys(tail);
      assert forall k :: k in Keys(tail) ==> Get(data, k) == Get(tail, k) by {
        forall k | k in Keys(tail) ensures Get(data, k) == Get(tail, k) {
          var i :| 0 <= i < |tail| && Keys(tail)[i] == k;
          assert data[i + 1].0 == k;
        }
      }
      ListValuedKeysAgree(Keys(tail), data, tail);
      assert IsListKey(data, k0) <==> data[0].1.JArray?;
      var rest := ListItems(tail, containerRepr);
      if data[0].1.JArray? {
        assert Keys([(k0, StrList(data[0].1.elems, containerRepr))] + rest) == [k0] + Keys(rest);
      }
    }
  }

  /** What `ListItems` keeps: a key maps to its stringified list exactly when its value is a list. */
  ghost predicate KeepsListsOf(data: Dict<Json>, r: RuleTable, containerRepr: Json -> string) {
    forall k :: Get(r, k) == ListValue(Get(data, k), containerRepr)
  }

  /** On a real dict, `ListItems` keeps exactly the list-valued keys, each once, in their order. */
  lemma ListItemsSpec(data: Dict<Json>, containerRepr: Json -> string)
    requires DistinctKeys(data)
    ensures DistinctKeys(ListItems(data, containerRepr))
    ensures KeepsListsOf(data, ListItems(data, containerRepr), containerRepr)
    ensures forall k :: k in Keys(ListItems(data, containerRepr)) ==> k in Keys(data)
    ensures Keys(ListItems(data, containerRepr)) == ListValuedKeys(Keys(data), data)
  {
    ListItemsContents(data, containerRepr);
    ListItemsOrder(data, containerRepr);
  }

  /** On a real dict, `ListItems` keeps exactly the list-valued keys, each once. */
  lemma {:induction false} ListItemsContents(data: Dict<Json>, containerRepr: Json -> string)
    requires DistinctKeys(data)
    ensures DistinctKeys(ListItems(data, containerRepr))
    ensures KeepsListsOf(data, ListItems(data, containerRepr), containerRepr)
    ensures forall k :: k in Keys(ListItems(data, containerRepr)) ==> k in Keys(data)
  {
    if data != [] {
      var tail := data[1..];
      assert DistinctKeys(tail);
      ListItemsContents(tail, containerRepr);
      var rest := ListItems(tail, containerRepr);
      var k0 := data[0].0;
      assert Keys(data) == [k0] + Keys(tail);
      assert k0 !in Keys(tail) by {
        forall i | 0 <= i < |tail| ensures Keys(tail)[i] != k0 {
          assert tail[i] == data[i + 1];
        }
      }
      assert k0 !in Keys(rest);
      var r := ListItems(data, containerRepr);
      if data[0].1.JArray? {
        assert r == [(k0, StrList(data[0].1.elems, containerRepr))] + rest;
        assert Keys(r) == [k0] + Keys(rest);
        assert DistinctKeys(r) by {
          forall i, j | 0 <= i < j < |r| ensures r[i].0 != r[j].0 {
            if i == 0 {
              assert r[j].0 == Keys(rest)[j - 1];
            } else {
              assert r[i] == rest[i - 1] && r[j] == rest[j - 1];
            }
          }
        }
      }
    }
  }

  /** `parse_rules_json` on an object: the list-valued keys of the decoded dict, stringified, in
      order of first appearance in the document, or `None` when there is no such key; every other
      input is an error except an empty option. */
  lemma ParseRulesJsonSpec(input: RulesJsonInput, containerRepr: Json -> string)
    ensures input.NoText? ==> ParseRulesJson(input, containerRepr) == Ok(None)
    ensures input.Malformed? || (input.Decoded? && !input.doc.JObject?) ==>
              ParseRulesJson(input, containerRepr) == Err(InvalidRulesJson)
    ensures input.Decoded? && input.doc.JObject? ==>
              var data := DecodeObject(input.doc.members);
              var r := ParseRulesJson(input, containerRepr);
              && r.Ok?
              && (r.value.None? <==> forall k :: Get(data, k).Some? ==> !Get(data, k).value.JArray?)
              && (r.value.Some? ==> DistinctKeys(r.value.value) && KeepsListsOf(data, r.value.value, containerRepr))
              && (r.value.Some? ==> Keys(r.value.value) == ListValuedKeys(NewKeys([], Keys(input.doc.members)), data))
  {
    if input.Decoded? && input.doc.JObject? {
      var data := DecodeObject(input.doc.members);
      ListItemsSpec(data, containerRepr);
      var items := ListItems(data, containerRepr);
      assert [] + items == items;
      PutAllCopies([], items);
      if items != [] {
        var k := items[0].0;
        assert Keys(items)[0] == k;
        assert Get(items, k).Some?;
        assert ListValue(Get(data, k), containerRepr).Some?;
        assert Get(data, k).Some? && Get(data, k).value.JArray?;
        assert ParseRulesJson(input, containerRepr) == Ok(Some(items));
      } else {
        forall k | Get(data, k).Some? ensures !Get(data, k).value.JArray? {
          assert Get(items, k).None?;
        }
        assert ParseRulesJson(input, containerRepr) == Ok(None);
      }
    }
  }
}
