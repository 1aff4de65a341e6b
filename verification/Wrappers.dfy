/** Small definitions that the other modules share. */
module Wrappers {

  datatype Option<+T> = None | Some(value: T)

  /** The images of the keys, in order. */
  function MapAll<K, V>(m: map<K, V>, keys: seq<K>): (values: seq<V>)
    requires forall k <- keys :: k in m
    ensures |values| == |keys| && forall i | 0 <= i < |keys| :: values[i] == m[keys[i]]
  {
    seq(|keys|, i requires 0 <= i < |keys| => m[keys[i]])
  }

  /** Looks a value up; one without an entry stands for itself. */
  function MapOrSelf<T>(m: map<T, T>, x: T): T {
    if x in m then m[x] else x
  }

  /** Every entry of `m` is in `n`, with the same value. */
  ghost predicate Submap<K, V>(m: map<K, V>, n: map<K, V>) {
    forall k <- m :: k in n && n[k] == m[k]
  }

  lemma SplitLast<T>(s: seq<T>)
    requires s != []
    ensures s == s[..|s| - 1] + [s[|s| - 1]]
  {
  }
}
