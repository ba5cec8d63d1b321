/**
 * A Python `dict` with string keys, as the organizer builds them: a sequence of
 * items in insertion order. Assigning to a key that is already present replaces
 * its value where it stands; a new key goes to the end.
 */
module PyDict {
  import opened Wrappers

  /** The items of a dict, in iteration order. */
  type Dict<V> = seq<(string, V)>

  /** `list(d.keys())`. */
  function Keys<V>(d: Dict<V>): seq<string> {
    seq(|d|, i requires 0 <= i < |d| => d[i].0)
  }

  /** No key occurs twice: what every real dict satisfies. */
  predicate DistinctKeys<V>(d: Dict<V>) {
    forall i, j :: 0 <= i < j < |d| ==> d[i].0 != d[j].0
  }

  /** `d.get(k)`: the value of the first item with key `k`. */
  function Get<V>(d: Dict<V>, k: string): (r: Option<V>)
    ensures r.Some? <==> k in Keys(d)
  {
    if d == [] then None
    else if d[0].0 == k then assert Keys(d)[0] == k; Some(d[0].1)
    else
      assert Keys(d) == [d[0].0] + Keys(d[1..]);
      Get(d[1..], k)
  }

  /** In a real dict, looking up the key of an item finds that item's value. */
  lemma {:induction false} GetDistinct<V>(d: Dict<V>, i: nat)
    requires DistinctKeys(d) && i < |d|
    ensures Get(d, d[i].0) == Some(d[i].1)
  {
    if i > 0 {
      assert d[1..][i - 1] == d[i];
      assert d[0].0 != d[i].0;
      GetDistinct(d[1..], i - 1);
    }
  }

  /** `d[k] = v`: replaces the value in place when `k` is present, appends otherwise. */
  function Put<V>(d: Dict<V>, k: string, v: V): (r: Dict<V>)
    ensures Get(r, k) == Some(v)
    ensures forall k' :: k' != k ==> Get(r, k') == Get(d, k')
    ensures k in Keys(d) ==> Keys(r) == Keys(d)
    ensures k !in Keys(d) ==> Keys(r) == Keys(d) + [k]
  {
    if d == [] then [(k, v)]
    else if d[0].0 == k then
      assert Keys([(k, v)] + d[1..]) == Keys(d);
      [(k, v)] + d[1..]
    else
      var rest := Put(d[1..], k, v);
      assert Keys(d) == [d[0].0] + Keys(d[1..]);
      assert Keys([d[0]] + rest) == [d[0].0] + Keys(rest);
      [d[0]] + rest
  }

  /** Assigning a key that is not present appends one item and leaves the rest as it was. */
  lemma {:induction false} PutFresh<V>(d: Dict<V>, k: string, v: V)
    requires k !in Keys(d)
    ensures Put(d, k, v) == d + [(k, v)]
  {
    if d != [] {
      assert Keys(d) == [d[0].0] + Keys(d[1..]);
      PutFresh(d[1..], k, v);
      assert d == [d[0]] + d[1..];
    }
  }

  /** Assigning a key that is present changes that one item and nothing else. */
  lemma {:induction false} PutPresent<V>(d: Dict<V>, k: string, v: V, i: nat)
    requires i < |d| && d[i].0 == k && k !in Keys(d[..i])
    ensures Put(d, k, v) == d[i := (k, v)]
  {
    if i > 0 {
      assert Keys(d[..i]) == [d[0].0] + Keys(d[1..][..i - 1]);
      PutPresent(d[1..], k, v, i - 1);
    }
  }

  /** A dict stays a dict under assignment. */
  lemma PutDistinct<V>(d: Dict<V>, k: string, v: V)
    requires DistinctKeys(d)
    ensures DistinctKeys(Put(d, k, v))
  {
    var r := Put(d, k, v);
    forall i, j | 0 <= i < j < |r| ensures r[i].0 != r[j].0 {
      assert Keys(r)[i] == r[i].0 && Keys(r)[j] == r[j].0;
      if j < |d| {
        assert Keys(d)[i] == d[i].0 && Keys(d)[j] == d[j].0;
      } else {
        assert Keys(d)[i] == d[i].0;
      }
    }
  }

  /** A run of assignments `d[k1] = v1; d[k2] = v2; ...` in order. */
  function PutAll<V>(d: Dict<V>, items: seq<(string, V)>): (r: Dict<V>)
    ensures |r| >= |d|
    ensures items != [] ==> r != []
    decreases |items|
  {
    if items == [] then d
    else
      var d' := Put(d, items[0].0, items[0].1);
      assert |Keys(d')| >= |Keys(d)|;
      PutAll(d', items[1..])
  }

  /** The keys of `ks` not already in `seen`, each at its first occurrence, in order. */
  function NewKeys(seen: seq<string>, ks: seq<string>): seq<string>
    decreases |ks|
  {
    if ks == [] then []
    else if ks[0] in seen then NewKeys(seen, ks[1..])
    else [ks[0]] + NewKeys(seen + [ks[0]], ks[1..])
  }

  /** A key is new exactly when it occurs in `ks` and not in `seen`. */
  lemma {:induction false} NewKeysMembers(seen: seq<string>, ks: seq<string>)
    ensures forall k :: k in NewKeys(seen, ks) <==> k in ks && k !in seen
    decreases |ks|
  {
    if ks != [] {
      NewKeysMembers(seen, ks[1..]);
      NewKeysMembers(seen + [ks[0]], ks[1..]);
      assert ks == [ks[0]] + ks[1..];
    }
  }

  /** The value of the last item of `items` with key `k`. */
  function LastFor<V>(items: seq<(string, V)>, k: string): (r: Option<V>)
    ensures r.None? <==> k !in Keys(items)
    ensures r.Some? ==> exists i :: 0 <= i < |items| && items[i] == (k, r.value) && k !in Keys(items[i + 1..])
  {
    if items == [] then None
    else
      assert Keys(items) == [items[0].0] + Keys(items[1..]);
      match LastFor(items[1..], k)
      case Some(v) =>
        LastInTail(items, k, v);
        Some(v)
      case None =>
        if items[0].0 == k then
          assert items[1..] == items[0 + 1..];
          Some(items[0].1)
        else None
  }

  /** A last occurrence in the tail of `items` is a last occurrence in `items`. */
  lemma LastInTail<V>(items: seq<(string, V)>, k: string, v: V)
    requires items != []
    requires exists i :: 0 <= i < |items[1..]| && items[1..][i] == (k, v) && k !in Keys(items[1..][i + 1..])
    ensures exists i :: 0 <= i < |items| && items[i] == (k, v) && k !in Keys(items[i + 1..])
  {
    var i :| 0 <= i < |items[1..]| && items[1..][i] == (k, v) && k !in Keys(items[1..][i + 1..]);
    assert items[i + 1] == (k, v) && items[i + 2..] == items[1..][i + 1..];
  }

  /** After a run of assignments the keys are the old ones followed by the new ones in order of first assignment. */
  lemma {:induction false} PutAllKeys<V>(d: Dict<V>, items: seq<(string, V)>)
    ensures Keys(PutAll(d, items)) == Keys(d) + NewKeys(Keys(d), Keys(items))
    decreases |items|
  {
    if items != [] {
      var (k, v) := items[0];
      var d' := Put(d, k, v);
      var ks := Keys(items[1..]);
      assert Keys(items) == [k] + ks;
      assert PutAll(d, items) == PutAll(d', items[1..]);
      PutAllKeys(d', items[1..]);
      if k in Keys(d) {
        assert NewKeys(Keys(d), [k] + ks) == NewKeys(Keys(d), ks);
      } else {
        assert NewKeys(Keys(d), [k] + ks) == [k] + NewKeys(Keys(d) + [k], ks);
      }
    }
  }

  /** After a run of assignments a key holds its last assigned value, or its old value when never assigned. */
  lemma {:induction false} PutAllGet<V>(d: Dict<V>, items: seq<(string, V)>, k: string)
    ensures Get(PutAll(d, items), k) == if LastFor(items, k).Some? then LastFor(items, k) else Get(d, k)
    decreases |items|
  {
    if items != [] {
      PutAllGet(Put(d, items[0].0, items[0].1), items[1..], k);
    }
  }

  /** A run of assignments keeps keys distinct. */
  lemma {:induction false} PutAllDistinct<V>(d: Dict<V>, items: seq<(string, V)>)
    requires DistinctKeys(d)
    ensures DistinctKeys(PutAll(d, items))
    decreases |items|
  {
    if items != [] {
      PutDistinct(d, items[0].0, items[0].1);
      PutAllDistinct(Put(d, items[0].0, items[0].1), items[1..]);
    }
  }

  /** Assigning the items of a real dict one by one to an empty dict copies it exactly. */
  lemma {:induction false} PutAllCopies<V>(d: Dict<V>, items: seq<(string, V)>)
    requires DistinctKeys(d + items)
    ensures PutAll(d, items) == d + items
    decreases |items|
  {
    if items != [] {
      var (k, v) := items[0];
      assert k !in Keys(d) by {
        forall i | 0 <= i < |d| ensures Keys(d)[i] != k {
          assert (d + items)[i] == d[i] && (d + items)[|d|] == items[0];
        }
      }
      PutFresh(d, k, v);
      assert d + items == (d + [(k, v)]) + items[1..];
      PutAllCopies(d + [(k, v)], items[1..]);
    }
  }
}
