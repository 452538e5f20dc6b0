/** Facts about sets, maps and sequences that the loops over the constant
    tables and over the PublicationIDs rely on. */
module Collections {
  /** Updating after a merge is merging the update. */
  lemma MergeUpdate<K, V>(a: map<K, V>, m: map<K, V>, k: K, v: V)
    ensures a + m[k := v] == (a + m)[k := v]
  {
  }

  /** The entries `k := f(k)` for the keys `k` of `keys` that satisfy `p`. */
  function Select<K, V>(keys: set<K>, p: K -> bool, f: K -> V): map<K, V>
  {
    map k | k in keys && p(k) :: f(k)
  }

  /** Selecting over one more key adds that key exactly when it qualifies. */
  lemma SelectOneMore<K, V>(keys: set<K>, k: K, p: K -> bool, f: K -> V)
    requires k !in keys
    ensures Select(keys + {k}, p, f) == if p(k) then Select(keys, p, f)[k := f(k)] else Select(keys, p, f)
  {
  }

  /** Merging in a map with no keys changes nothing. */
  lemma MergeNothing<K, V>(a: map<K, V>, m: map<K, V>)
    requires m.Keys == {}
    ensures a + m == a
  {
  }

  /** Moving one key from the keys still to do to the keys done keeps the
      two a partition of the same set. */
  lemma MoveKey<K>(done: set<K>, todo: set<K>, keys: set<K>, k: K)
    requires done + todo == keys && done !! todo && k in todo
    ensures (done + {k}) + (todo - {k}) == keys && (done + {k}) !! (todo - {k})
  {
  }

  /** Nothing done yet: the keys to do are all the keys. */
  lemma NoKeysDone<K>(keys: set<K>)
    ensures {} + keys == keys && {} !! keys
  {
  }

  /** Every element of a suffix is in the suffix one position longer, and so
      is the element at that position. */
  lemma SuffixGrows<T>(s: seq<T>, i: nat)
    requires i < |s|
    ensures s[i] in s[i..]
    ensures forall x :: x in s[i + 1..] ==> x in s[i..]
  {
    assert s[i..] == [s[i]] + s[i + 1..];
  }
}
