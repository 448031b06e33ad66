/**
 * The page's `localStorage` as the import scripts use it: `length`, `key(i)`,
 * `getItem` and `setItem`. Keys are listed once each; a key written for the
 * first time goes to the end of the list.
 */
module WebStorage {
  import opened Wrappers

  /** A stored item: a record saveTrack wrote, or anything else the page keeps. */
  datatype Value = Saved(data: string, saveTime: int) | Other(text: string)

  /** The storage's contents: its keys in `key(i)` order and the item under each. */
  datatype Store = Store(keys: seq<string>, items: map<string, Value>)

  /** Every key is listed exactly once, and the listed keys are the stored ones. */
  predicate WellFormed(st: Store) {
    && (forall i, j | 0 <= i < j < |st.keys| :: st.keys[i] != st.keys[j])
    && st.items.Keys == set k | k in st.keys
  }

  /** The item under key, or None: `getItem(key)`, which returns null for a missing key. */
  function GetItem(st: Store, key: string): (r: Option<Value>)
    ensures r.Some? <==> key in st.items
  {
    if key in st.items then Some(st.items[key]) else None
  }

  /** `setItem(key, value)`: the item under key is replaced or added, nothing else changes. */
  function Stored(st: Store, key: string, value: Value): (r: Store)
    ensures r.items == st.items[key := value]
  {
    Store(if key in st.keys then st.keys else st.keys + [key], st.items[key := value])
  }

  /** setItem keeps the storage well formed: an existing key keeps its place in the list and a new one is listed last. */
  lemma StoredWellFormed(st: Store, key: string, value: Value)
    requires WellFormed(st)
    ensures WellFormed(Stored(st, key, value))
    ensures key in st.items ==> Stored(st, key, value).keys == st.keys
    ensures key !in st.items ==> Stored(st, key, value).keys == st.keys + [key]
  {
  }

  /** The storage object itself, which setItem changes in place. */
  class LocalStorage {
    var keys: seq<string>
    var items: map<string, Value>

    /** The current contents. */
    function State(): Store
      reads this
    {
      Store(keys, items)
    }

    /** An empty storage. */
    constructor ()
      ensures State() == Store([], map[])
      ensures WellFormed(State())
    {
      keys := [];
      items := map[];
    }

    /** `key(i)`: the i-th key, or null past the end. */
    function Key(i: nat): (r: Option<string>)
      reads this
      ensures r.Some? <==> i < |keys|
      ensures r.Some? ==> r.value == keys[i]
    {
      if i < |keys| then Some(keys[i]) else None
    }

    /** `setItem(key, value)`. */
    method SetItem(key: string, value: Value)
      modifies this
      ensures State() == Stored(old(State()), key, value)
    {
      if key !in keys {
        keys := keys + [key];
      }
      items := items[key := value];
    }
  }
}
