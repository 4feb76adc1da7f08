/** Python dictionaries as the program uses them: insertion-ordered key/value
    pairs whose keys are distinct. */
module Dicts {
  import opened Base

  /** Key/value pairs in insertion order. */
  type Dict<K, V> = seq<(K, V)>

  /** `list(d.keys())`. */
  function Keys<K, V>(d: Dict<K, V>): seq<K> {
    seq(|d|, i requires 0 <= i < |d| => d[i].0)
  }

  /** What every Python dict satisfies: no key is stored twice. */
  predicate IsDict<K(==), V>(d: Dict<K, V>) {
    forall i, j :: 0 <= i < j < |d| ==> d[i].0 != d[j].0
  }

  /** `k in d`. */
  predicate HasKey<K(==), V>(d: Dict<K, V>, k: K)
    decreases |d|
  {
    |d| > 0 && (d[0].0 == k || HasKey(d[1..], k))
  }

  /** `k in d` holds exactly when some entry carries the key. */
  lemma {:induction false} HasKeyAt<K, V>(d: Dict<K, V>, k: K)
    ensures HasKey(d, k) <==> exists i :: 0 <= i < |d| && d[i].0 == k
    decreases |d|
  {
    if |d| > 0 {
      HasKeyAt(d[1..], k);
      if exists i :: 0 <= i < |d| && d[i].0 == k {
        var i :| 0 <= i < |d| && d[i].0 == k;
        if i > 0 {
          assert d[1..][i - 1].0 == k;
        }
      }
    }
  }

  /** `d[k]`; `None` where Python raises `KeyError`. */
  function Get<K(==), V>(d: Dict<K, V>, k: K): (r: Option<V>)
    ensures r.Some? <==> HasKey(d, k)
    decreases |d|
  {
    if |d| == 0 then None
    else if d[0].0 == k then Some(d[0].1)
    else Get(d[1..], k)
  }

  /** Looking up the i-th key of a dict gives the i-th value. */
  lemma {:induction false} GetAt<K, V>(d: Dict<K, V>, i: nat)
    requires IsDict(d) && i < |d|
    ensures Get(d, d[i].0) == Some(d[i].1)
    decreases i
  {
    if i > 0 {
      assert d[0].0 != d[i].0;
      assert d[1..][i - 1] == d[i];
      GetAt(d[1..], i - 1);
    }
  }

  /** `d[k] = v`: afterwards the key maps to the new value; a key not yet
      present is appended at the end. */
  function Put<K(==), V>(d: Dict<K, V>, k: K, v: V): (r: Dict<K, V>)
    ensures Get(r, k) == Some(v)
    ensures !HasKey(d, k) ==> r == d + [(k, v)]
    decreases |d|
  {
    if |d| == 0 then [(k, v)]
    else if d[0].0 == k then [(k, v)] + d[1..]
    else
      var rest := Put(d[1..], k, v);
      var r := [d[0]] + rest;
      assert r[1..] == rest;
      r
  }

  /** The dict comprehension `{k: v for (k, v) in pairs}`: a later pair
      whose key is already present overwrites that entry in place. */
  function Comprehension<K(==), V>(pairs: seq<(K, V)>): Dict<K, V>
    decreases |pairs|
  {
    if |pairs| == 0 then []
    else
      var n := |pairs| - 1;
      Put(Comprehension(pairs[..n]), pairs[n].0, pairs[n].1)
  }

  /** With distinct keys nothing is overwritten: the dict holds every pair,
      in order. */
  lemma {:induction false} ComprehensionOfDistinctKeys<K, V>(pairs: seq<(K, V)>)
    requires IsDict(pairs)
    ensures Comprehension(pairs) == pairs
    decreases |pairs|
  {
    if |pairs| > 0 {
      var n := |pairs| - 1;
      var prefix := pairs[..n];
      assert IsDict(prefix);
      ComprehensionOfDistinctKeys(prefix);
      HasKeyAt(prefix, pairs[n].0);
      assert prefix + [pairs[n]] == pairs;
    }
  }
}
