/** A plain JavaScript object used as a dictionary with string keys: its own
    properties in insertion order, each key at most once. Assigning
    `obj[key] = value` replaces the value of a present key in place and
    appends a new key at the end. */
module JsObject {
  import opened Maybe

  predicate DistinctKeys<V>(d: seq<(string, V)>) {
    forall i, j :: 0 <= i < j < |d| ==> d[i].0 != d[j].0
  }

  type Dict<V> = d: seq<(string, V)> | DistinctKeys(d) witness []

  function Keys<V>(d: seq<(string, V)>): (ks: seq<string>)
    ensures |ks| == |d| && forall i :: 0 <= i < |d| ==> ks[i] == d[i].0
  {
    seq(|d|, i requires 0 <= i < |d| => d[i].0)
  }

  /** `obj[key]` for a key that may be absent. */
  function Get<V>(d: seq<(string, V)>, key: string): Option<V> {
    if d == [] then None
    else if d[0].0 == key then Some(d[0].1)
    else Get(d[1..], key)
  }

  /** A key is found exactly when some entry has it, and then its value is
      the value of such an entry. */
  lemma {:induction false} GetSpec<V>(d: seq<(string, V)>, key: string)
    ensures Get(d, key).None? <==> forall i :: 0 <= i < |d| ==> d[i].0 != key
    ensures Get(d, key).Some? ==> exists i :: 0 <= i < |d| && d[i] == (key, Get(d, key).value)
  {
    if d != [] && d[0].0 != key {
      GetSpec(d[1..], key);
      if Get(d, key).Some? {
        var i :| 0 <= i < |d[1..]| && d[1..][i] == (key, Get(d, key).value);
        assert d[i + 1] == d[1..][i];
      }
      assert forall i :: 0 <= i < |d[1..]| ==> d[1..][i] == d[i + 1];
    }
  }

  /** The position of `key`, or `|d|` when it is absent. */
  function IndexOf<V>(d: seq<(string, V)>, key: string): (i: nat)
    ensures i <= |d|
    ensures i < |d| ==> d[i].0 == key
    ensures forall j :: 0 <= j < i ==> d[j].0 != key
  {
    if d == [] then 0
    else if d[0].0 == key then 0
    else 1 + IndexOf(d[1..], key)
  }

  /** In a dictionary a key's lookup finds its own entry. */
  lemma GetAt<V>(d: Dict<V>, i: nat)
    requires i < |d|
    ensures Get(d, d[i].0) == Some(d[i].1)
  {
    GetSpec(d, d[i].0);
    var r := Get(d, d[i].0);
    var j :| 0 <= j < |d| && d[j] == (d[i].0, r.value);
    assert j == i;
  }

  /** Looking a key up in a dictionary split before its last entry. */
  lemma GetLast<V>(d: Dict<V>, key: string)
    requires d != []
    ensures DistinctKeys(d[..|d| - 1])
    ensures Get(d, key) ==
      if key == d[|d| - 1].0 then Some(d[|d| - 1].1) else Get(d[..|d| - 1], key)
  {
    var n := |d| - 1;
    GetSpec(d, key);
    GetSpec(d[..n], key);
    if key == d[n].0 {
      GetAt(d, n);
    } else if Get(d, key).Some? {
      var j :| 0 <= j < |d| && d[j] == (key, Get(d, key).value);
      assert d[..n][j] == d[j];
      GetAt(d[..n], j);
    } else {
      assert forall i :: 0 <= i < n ==> d[..n][i] == d[i];
    }
  }

  /** The lookups of `d`, with `key` now found at `value`. */
  lemma GetUpdated<V>(d: Dict<V>, r: Dict<V>, key: string, value: V, i: nat)
    requires i <= |d|
    requires i == |d| ==> r == d + [(key, value)]
    requires i < |d| ==> d[i].0 == key && r == d[i := (key, value)]
    requires i == |d| ==> forall j :: 0 <= j < |d| ==> d[j].0 != key
    ensures forall k {:trigger Get(r, k)} :: Get(r, k) == if k == key then Some(value) else Get(d, k)
  {
    forall k ensures Get(r, k) == if k == key then Some(value) else Get(d, k) {
      GetSpec(d, k);
      GetSpec(r, k);
      if k == key {
        GetAt(r, i);
      } else if Get(d, k).Some? {
        var j :| 0 <= j < |d| && d[j] == (k, Get(d, k).value);
        GetAt(r, j);
      } else {
        assert forall j :: 0 <= j < |r| ==> r[j].0 != k;
      }
    }
  }

  /** `obj[key] = value`. */
  function Set<V>(d: Dict<V>, key: string, value: V): (r: Dict<V>)
    ensures forall k {:trigger Get(r, k)} :: Get(r, k) == if k == key then Some(value) else Get(d, k)
    ensures Get(d, key).None? ==> r == d + [(key, value)]
    ensures Get(d, key).Some? ==> Keys(r) == Keys(d)
  {
    GetSpec(d, key);
    var i := IndexOf(d, key);
    var r := if i == |d| then d + [(key, value)] else d[i := (key, value)];
    GetUpdated(d, r, key, value, i);
    r
  }

  /** `values.join(sep)`: the values with `sep` between them, "" for none. */
  function Join(values: seq<string>, sep: string): string {
    if values == [] then ""
    else if |values| == 1 then values[0]
    else Join(values[..|values| - 1], sep) + sep + values[|values| - 1]
  }
}
