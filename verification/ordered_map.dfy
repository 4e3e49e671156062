/** JavaScript `Map`: a finite map that remembers the order in which keys were first set.
    Setting an existing key replaces its value in place; a new key goes to the end. */
module OrderedMap {
  import opened Wrappers

  /** Every key occurs at most once. */
  predicate DistinctKeys<K(==), V>(m: seq<(K, V)>) {
    forall i, j :: 0 <= i < j < |m| ==> m[i].0 != m[j].0
  }

  /** The position of `k`, if it is a key. */
  function KeyIndex<K(==), V>(m: seq<(K, V)>, k: K): (r: Option<nat>)
    ensures r.Some? ==> r.value < |m| && m[r.value].0 == k
    ensures r.Some? ==> forall j :: 0 <= j < r.value ==> m[j].0 != k
    ensures r.None? ==> forall j :: 0 <= j < |m| ==> m[j].0 != k
  {
    if |m| == 0 then None
    else if m[0].0 == k then Some(0)
    else match KeyIndex(m[1..], k)
      case None => None
      case Some(i) => Some(i + 1)
  }

  /** `Map.prototype.get`. */
  function Get<K(==), V>(m: seq<(K, V)>, k: K): Option<V> {
    match KeyIndex(m, k)
    case None => None
    case Some(i) => Some(m[i].1)
  }

  /** `k` first occurs at `i`. */
  lemma KeyIndexAt<K, V>(m: seq<(K, V)>, k: K, i: nat)
    requires i < |m| && m[i].0 == k
    requires forall j :: 0 <= j < i ==> m[j].0 != k
    ensures KeyIndex(m, k) == Some(i)
  {
  }

  /** Replacing or appending an entry under `k` leaves the lookup of every other key alone. */
  lemma KeyIndexOther<K, V>(m: seq<(K, V)>, r: seq<(K, V)>, k: K, j: K)
    requires j != k && |m| <= |r|
    requires forall t :: 0 <= t < |m| ==> r[t].0 == m[t].0 || (m[t].0 == k && r[t].0 == k)
    requires forall t :: |m| <= t < |r| ==> r[t].0 == k
    ensures KeyIndex(r, j) == KeyIndex(m, j)
  {
    match KeyIndex(m, j)
    case Some(b) => KeyIndexAt(r, j, b);
    case None =>
  }

  /** `Map.prototype.set`. */
  function Set<K(==,!new), V>(m: seq<(K, V)>, k: K, v: V): (r: seq<(K, V)>)
    ensures DistinctKeys(m) ==> DistinctKeys(r)
    ensures Get(r, k) == Some(v)
    ensures forall j :: j != k ==> Get(r, j) == Get(m, j)
    ensures KeyIndex(m, k).Some? ==> |r| == |m|
    ensures KeyIndex(m, k).None? ==> r == m + [(k, v)]
    ensures forall i :: 0 <= i < |m| ==> r[i].0 == m[i].0
    ensures forall i :: 0 <= i < |r| ==> r[i] == (k, v) || (i < |m| && r[i] == m[i])
  {
    match KeyIndex(m, k)
    case Some(i) =>
      var r := m[i := (k, v)];
      KeyIndexAt(r, k, i);
      assert forall j :: j != k ==> KeyIndex(r, j) == KeyIndex(m, j) by {
        forall j | j != k ensures KeyIndex(r, j) == KeyIndex(m, j) {
          KeyIndexOther(m, r, k, j);
        }
      }
      r
    case None =>
      var r := m + [(k, v)];
      KeyIndexAt(r, k, |m|);
      assert forall j :: j != k ==> KeyIndex(r, j) == KeyIndex(m, j) by {
        forall j | j != k ensures KeyIndex(r, j) == KeyIndex(m, j) {
          KeyIndexOther(m, r, k, j);
        }
      }
      r
  }

  /** `Array.from(map.keys())`. */
  function Keys<K, V>(m: seq<(K, V)>): (r: seq<K>)
    ensures |r| == |m| && forall i :: 0 <= i < |m| ==> r[i] == m[i].0
  {
    if |m| == 0 then [] else [m[0].0] + Keys(m[1..])
  }

  /** `Array.from(map.values())`. */
  function Values<K, V>(m: seq<(K, V)>): (r: seq<V>)
    ensures |r| == |m| && forall i :: 0 <= i < |m| ==> r[i] == m[i].1
  {
    if |m| == 0 then [] else [m[0].1] + Values(m[1..])
  }

  /** With distinct keys, every entry is what `Get` finds under its key. */
  lemma GetEntry<K, V>(m: seq<(K, V)>, i: nat)
    requires DistinctKeys(m) && i < |m|
    ensures Get(m, m[i].0) == Some(m[i].1)
  {
  }
}
