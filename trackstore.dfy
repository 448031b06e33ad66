/**
 * The storage helpers content.js and injector.js share word for word:
 * getExistingTracks, trackExists and saveTrack, over the key prefix the game
 * uses for saved tracks.
 */
module TrackStore {
  import opened Wrappers
  import opened JsText
  import opened WebStorage

  /** The prefix of the game's track keys (content.js:9, injector.js:13). */
  const TRACK_KEY_PREFIX: string := "polytrack_v4_prod_track_"

  /** The key a track is saved under: the prefix followed by its name. */
  function TrackKey(name: string): (key: string)
    ensures StartsWith(key, TRACK_KEY_PREFIX) && key[|TRACK_KEY_PREFIX|..] == name
  {
    TRACK_KEY_PREFIX + name
  }

  /**
   * What getExistingTracks returns: for each key in order that starts with
   * the prefix, the key with the prefix removed (`replace` removes the first
   * occurrence, which for such a key is the prefix itself).
   */
  function TrackNames(keys: seq<string>): seq<string>
    decreases |keys|
  {
    if keys == [] then []
    else
      var key := keys[|keys| - 1];
      TrackNames(keys[..|keys| - 1]) + if StartsWith(key, TRACK_KEY_PREFIX) then [key[|TRACK_KEY_PREFIX|..]] else []
  }

  /** getExistingTracks (content.js:30-40, injector.js:39-49). */
  method GetExistingTracks(storage: LocalStorage) returns (tracks: seq<string>)
    ensures tracks == TrackNames(storage.keys)
  {
    tracks := [];
    for i := 0 to |storage.keys|
      invariant tracks == TrackNames(storage.keys[..i])
    {
      var key := storage.Key(i);
      assert storage.keys[..i + 1][..i] == storage.keys[..i];
      if key.Some? && key.value != [] && StartsWith(key.value, TRACK_KEY_PREFIX) {
        tracks := tracks + [key.value[|TRACK_KEY_PREFIX|..]];
      }
    }
    assert storage.keys[..|storage.keys|] == storage.keys;
  }

  /** A name is listed exactly when its key is. */
  lemma {:induction false} ListedIffKey(keys: seq<string>, name: string)
    ensures name in TrackNames(keys) <==> TrackKey(name) in keys
    decreases |keys|
  {
    if keys != [] {
      var front, key := keys[..|keys| - 1], keys[|keys| - 1];
      ListedIffKey(front, name);
      assert keys == front + [key];
      if StartsWith(key, TRACK_KEY_PREFIX) {
        assert key == TRACK_KEY_PREFIX + key[|TRACK_KEY_PREFIX|..];
      }
    }
  }

  /** trackExists (content.js:45-48, injector.js:51-54): getItem of the name's key is not null. */
  function TrackExists(st: Store, name: string): (present: bool)
    ensures present <==> GetItem(st, TrackKey(name)).Some?
  {
    TrackKey(name) in st.items
  }

  /** In a well-formed storage a track exists exactly when getExistingTracks lists its name. */
  lemma ExistsIffListed(st: Store, name: string)
    requires WellFormed(st)
    ensures TrackExists(st, name) <==> name in TrackNames(st.keys)
  {
    ListedIffKey(st.keys, name);
  }

  /** The storage after saveTrack(name, data) at time now. */
  function Save(st: Store, name: string, data: string, now: int): Store {
    Stored(st, TrackKey(name), Saved(data, now))
  }

  /** saveTrack (content.js:71-79, injector.js:69-76), with Date.now() given as now. */
  method SaveTrack(storage: LocalStorage, name: string, data: string, now: int)
    modifies storage
    ensures storage.State() == Save(old(storage.State()), name, data, now)
  {
    storage.SetItem(TrackKey(name), Saved(data, now));
  }

  /**
   * After saveTrack the name exists and holds the data and time; every other
   * key is untouched; getExistingTracks lists the name once more only if it
   * was new.
   */
  lemma SaveEffect(st: Store, name: string, data: string, now: int)
    requires WellFormed(st)
    ensures var r := Save(st, name, data, now);
      && WellFormed(r)
      && TrackExists(r, name)
      && r.items[TrackKey(name)] == Saved(data, now)
      && (forall k | k != TrackKey(name) :: GetItem(r, k) == GetItem(st, k))
      && TrackNames(r.keys) == if TrackExists(st, name) then TrackNames(st.keys) else TrackNames(st.keys) + [name]
  {
    var r := Save(st, name, data, now);
    StoredWellFormed(st, TrackKey(name), Saved(data, now));
    ExistsIffListed(st, name);
    if !TrackExists(st, name) {
      assert (st.keys + [TrackKey(name)])[..|st.keys|] == st.keys;
    }
  }

  /** Names of different tracks are listed once each: getExistingTracks has no duplicate. */
  lemma {:induction false} TrackNamesDistinct(keys: seq<string>)
    requires forall i, j | 0 <= i < j < |keys| :: keys[i] != keys[j]
    ensures var names := TrackNames(keys);
      forall i, j | 0 <= i < j < |names| :: names[i] != names[j]
    decreases |keys|
  {
    if keys != [] {
      var front, key := keys[..|keys| - 1], keys[|keys| - 1];
      TrackNamesDistinct(front);
      if StartsWith(key, TRACK_KEY_PREFIX) {
        var name := key[|TRACK_KEY_PREFIX|..];
        assert key == TrackKey(name);
        assert key !in front;
        ListedIffKey(front, name);
        assert TrackNames(keys) == TrackNames(front) + [name];
      } else {
        assert TrackNames(keys) == TrackNames(front);
      }
    }
  }

  /** The name generateUniqueName tries with a counter: `${baseName} (${counter})`. */
  function Numbered(baseName: string, counter: nat): (name: string)
    ensures |name| > |baseName|
  {
    baseName + " (" + DecimalString(counter) + ")"
  }

  /** The k-th name generateUniqueName tries: the base name itself, then `base (1)`, `base (2)`, and so on. */
  function Candidate(baseName: string, k: nat): string {
    if k == 0 then baseName else Numbered(baseName, k)
  }

  /** Different counters give different names, and none of them is the base name. */
  lemma CandidatesDistinct(baseName: string, j: nat, k: nat)
    requires j != k
    ensures Candidate(baseName, j) != Candidate(baseName, k)
  {
    if j != 0 && k != 0 {
      var a, b := Numbered(baseName, j), Numbered(baseName, k);
      if a == b {
        var dj, dk := DecimalString(j), DecimalString(k);
        assert a == baseName + " (" + dj + ")";
        assert b == baseName + " (" + dk + ")";
        assert |dj| == |dk|;
        assert dj == a[|baseName| + 2..|a| - 1];
        assert dk == b[|baseName| + 2..|b| - 1];
        DecimalStringInjective(j, k);
      }
    }
  }

  /** The collision mode of the message: `skip`, `overwrite`, `rename`, or any other value. */
  datatype Mode = Skip | Overwrite | Rename | Unknown

  /** Every item of st is still in r, unchanged. */
  ghost predicate Keeps(st: Store, r: Store) {
    forall k | k in st.items :: k in r.items && r.items[k] == st.items[k]
  }

  /** Every key of st is still stored in r: nothing was removed. */
  ghost predicate KeysKept(st: Store, r: Store) {
    forall k | k in st.items :: k in r.items
  }

  /** Keys outside the track prefix are the same in st and r. */
  ghost predicate OnlyTracks(st: Store, r: Store) {
    forall k | !StartsWith(k, TRACK_KEY_PREFIX) :: GetItem(r, k) == GetItem(st, k)
  }
}
