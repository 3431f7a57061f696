/** Vocabulary shared by the distance-vector and link-state engines. */
module Common {

  /** Router identities. The engines only ever compare them for equality. */
  type RouterId = int

  /** Link costs are nonnegative; a missing map key stands for infinity. */
  type Cost = nat

  /** A router's direct links: neighbour id to link cost. */
  type Links = map<RouterId, Cost>

  datatype Option<+T> = None | Some(value: T)

  /** Some element of a nonempty set. */
  lemma Pick<T>(s: set<T>) returns (x: T)
    requires s != {}
    ensures x in s
  {
    x :| x in s;
  }

  /** The entry for `k` survived from `m` to `m'` as it was: it is present in
      both or in neither, and when present its value is the same. */
  predicate KeptAt<K, V(==)>(m: map<K, V>, m': map<K, V>, k: K)
  {
    (k in m <==> k in m') && (k in m ==> m[k] == m'[k])
  }

  /** True iff the entry for `k` was added or rewritten between `m` and `m'`. */
  predicate Changed<K, V(==)>(m: map<K, V>, m': map<K, V>, k: K)
  {
    k in m' && (k !in m || m'[k] != m[k])
  }
}
