/** The JavaScript values the helpers work on: `null`, and plain objects used as
    in-memory tables keyed by strings. */
module Objects {

  /** A result that is either `null` or a reference to a value. */
  datatype Option<T> = None | Some(value: T)

  /** A plain object used as a dictionary: its own keys in the order
      `Object.keys` enumerates them, and the value stored under each key. */
  datatype Dict<V> = Dict(keys: seq<string>, entries: map<string, V>) {

    /** Every object satisfies this: its keys are enumerated once each, and
        exactly the keys it holds are enumerated. */
    ghost predicate Valid() {
      && (forall i, j | 0 <= i < j < |keys| :: keys[i] != keys[j])
      && (forall k :: k in entries <==> k in keys)
      && |keys| == |entries|
    }

    /** The assignment `obj[k] = v`: a new key that is not an array index is
        enumerated after all the existing ones; an existing key keeps its place
        and gets the new value. */
    function Put(k: string, v: V): (d: Dict<V>)
      ensures Valid() ==> d.Valid()
      ensures d.entries == entries[k := v]
      ensures k in entries ==> d.keys == keys
      ensures k !in entries ==> d.keys == keys + [k]
    {
      if k in entries then Dict(keys, entries[k := v]) else Dict(keys + [k], entries[k := v])
    }
  }

  /** Two objects with the same keys in the same order, holding the same
      value under each key, are the same object value. */
  lemma SameContents<V>(a: Dict<V>, b: Dict<V>)
    requires a.Valid() && b.Valid() && a.keys == b.keys
    requires forall k | k in a.entries :: a.entries[k] == b.entries[k]
    ensures a == b
  {
    assert a.entries == b.entries;
  }

  /** The object literal `{}`. */
  function EmptyDict<V>(): (d: Dict<V>)
    ensures d.Valid() && d.entries == map[]
  {
    Dict([], map[])
  }
}
