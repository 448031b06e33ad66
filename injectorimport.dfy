/**
 * The page-context import of injector.js (injector.js:56-124): the same
 * collision modes as the content script, but generateUniqueName stops after
 * `base (1000)` without testing it, only export strings are stored, and no
 * warnings or progress messages are produced.
 */
module Injector {
  import opened Wrappers
  import opened JsText
  import opened WebStorage
  import opened TrackStore
  import TrackInput

  // ---------------------------------------------------------------------------
  // generateUniqueName
  // ---------------------------------------------------------------------------

  /** The loop of generateUniqueName from the point where counter has the given value and its candidate is being tested. */
  function NameSearch(st: Store, baseName: string, counter: nat): string
    requires 1 <= counter <= 1000
    decreases 1000 - counter
  {
    if !TrackExists(st, Candidate(baseName, counter - 1)) then Candidate(baseName, counter - 1)
    else if counter + 1 > 1000 then Candidate(baseName, counter)
    else NameSearch(st, baseName, counter + 1)
  }

  /** What generateUniqueName(baseName) returns. */
  function UniqueName(st: Store, baseName: string): string {
    NameSearch(st, baseName, 1)
  }

  /** generateUniqueName (injector.js:56-67). */
  method GenerateUniqueName(storage: LocalStorage, baseName: string) returns (newName: string)
    ensures newName == UniqueName(storage.State(), baseName)
  {
    var counter := 1;
    newName := baseName;
    while TrackExists(storage.State(), newName)
      invariant 1 <= counter <= 1000
      invariant newName == Candidate(baseName, counter - 1)
      invariant NameSearch(storage.State(), baseName, counter) == UniqueName(storage.State(), baseName)
      decreases 1000 - counter
    {
      newName := Numbered(baseName, counter);
      counter := counter + 1;
      if counter > 1000 {
        break;
      }
    }
  }

  /** The search from counter on gives the first free candidate from counter - 1 to 999, or `base (1000)` when there is none. */
  lemma {:induction false} NameSearchFirstFree(st: Store, baseName: string, counter: nat)
    requires 1 <= counter <= 1000
    ensures var r := NameSearch(st, baseName, counter);
      exists k | counter - 1 <= k <= 1000 ::
        && r == Candidate(baseName, k)
        && (k < 1000 ==> !TrackExists(st, r))
        && forall j | counter - 1 <= j < k :: TrackExists(st, Candidate(baseName, j))
    decreases 1000 - counter
  {
    var r := NameSearch(st, baseName, counter);
    var name := Candidate(baseName, counter - 1);
    if !TrackExists(st, name) {
      assert r == Candidate(baseName, counter - 1);
    } else if counter + 1 > 1000 {
      assert r == Candidate(baseName, 1000);
    } else {
      NameSearchFirstFree(st, baseName, counter + 1);
      var k :| counter <= k <= 1000
        && r == Candidate(baseName, k)
        && (k < 1000 ==> !TrackExists(st, r))
        && forall j | counter <= j < k :: TrackExists(st, Candidate(baseName, j));
      assert forall j | counter - 1 <= j < k :: TrackExists(st, Candidate(baseName, j));
    }
  }

  /**
   * generateUniqueName returns the first of `base`, `base (1)`, ...,
   * `base (999)` that is not stored; when all are stored it returns
   * `base (1000)`, which is never tested.
   */
  lemma UniqueNameFirstFree(st: Store, baseName: string)
    ensures exists k | 0 <= k <= 1000 ::
      && UniqueName(st, baseName) == Candidate(baseName, k)
      && (k < 1000 ==> !TrackExists(st, UniqueName(st, baseName)))
      && forall j | 0 <= j < k :: TrackExists(st, Candidate(baseName, j))
    ensures (exists j | 0 <= j < 1000 :: !TrackExists(st, Candidate(baseName, j))) ==> !TrackExists(st, UniqueName(st, baseName))
  {
    NameSearchFirstFree(st, baseName, 1);
    var k :| 0 <= k <= 1000
      && UniqueName(st, baseName) == Candidate(baseName, k)
      && (k < 1000 ==> !TrackExists(st, UniqueName(st, baseName)))
      && forall j | 0 <= j < k :: TrackExists(st, Candidate(baseName, j));
    if exists j | 0 <= j < 1000 :: !TrackExists(st, Candidate(baseName, j)) {
      var j :| 0 <= j < 1000 && !TrackExists(st, Candidate(baseName, j));
      assert k <= j;
    }
  }

  /** When `base` to `base (999)` are all stored, the name returned is `base (1000)` whether or not it is stored too. */
  lemma UniqueNameAtCap(st: Store, baseName: string)
    requires forall j | 0 <= j < 1000 :: TrackExists(st, Candidate(baseName, j))
    ensures UniqueName(st, baseName) == Numbered(baseName, 1000)
  {
    UniqueNameFirstFree(st, baseName);
    var k :| 0 <= k <= 1000
      && UniqueName(st, baseName) == Candidate(baseName, k)
      && (k < 1000 ==> !TrackExists(st, UniqueName(st, baseName)))
      && forall j | 0 <= j < k :: TrackExists(st, Candidate(baseName, j));
    assert k == 1000;
  }

  // ---------------------------------------------------------------------------
  // importTracks
  // ---------------------------------------------------------------------------

  /** The results object importTracks returns (injector.js:79-87). */
  datatype Results = Results(success: bool, imported: nat, skipped: nat, renamed: nat, overwritten: nat,
                             total: nat, errors: seq<string>)

  /** The storage and the results so far. */
  datatype Run = Run(store: Store, results: Results)

  /** The error for a record without an export string. */
  function InvalidDataError(name: string): string {
    "Invalid track data for \"" + name + "\""
  }

  /** A record's data is an export string: present, non-empty and starting with `PolyTrack`. */
  predicate HasExport(track: TrackInput.Track) {
    track.data.Some? && track.data.value != [] && StartsWith(track.data.value, "PolyTrack")
  }

  /** The rest of a record's turn once its final name is known (injector.js:110-116). */
  function StoreData(run: Run, track: TrackInput.Track, finalName: string, now: int): Run {
    if HasExport(track) then
      Run(Save(run.store, finalName, track.data.value, now), run.results.(imported := run.results.imported + 1))
    else
      Run(run.store, run.results.(errors := run.results.errors + [InvalidDataError(track.name)]))
  }

  /** One turn of the loop of importTracks (injector.js:89-121) at time now. */
  function ImportOne(run: Run, track: TrackInput.Track, mode: Mode, now: int): Run {
    var results := run.results;
    if !TrackExists(run.store, track.name) then
      StoreData(run, track, track.name, now)
    else
      match mode
      case Skip => Run(run.store, results.(skipped := results.skipped + 1))
      case Overwrite => StoreData(run.(results := results.(overwritten := results.overwritten + 1)), track, track.name, now)
      case Rename =>
        StoreData(run.(results := results.(renamed := results.renamed + 1)), track, UniqueName(run.store, track.name), now)
      case Unknown => StoreData(run, track, track.name, now)
  }

  /** The loop from the i-th record on; now gives Date.now() at each record. */
  function ImportFrom(tracks: seq<TrackInput.Track>, mode: Mode, now: nat -> int, i: nat, run: Run): Run
    requires i <= |tracks|
    decreases |tracks| - i
  {
    if i == |tracks| then run
    else ImportFrom(tracks, mode, now, i + 1, ImportOne(run, tracks[i], mode, now(i)))
  }

  /** The results before the first record. */
  function Initial(total: nat): Results {
    Results(true, 0, 0, 0, 0, total, [])
  }

  /** The final storage and the results of importTracks(tracks, mode) on storage st. */
  function ImportRun(st: Store, tracks: seq<TrackInput.Track>, mode: Mode, now: nat -> int): Run {
    ImportFrom(tracks, mode, now, 0, Run(st, Initial(|tracks|)))
  }

  /** importTracks (injector.js:78-124). */
  method ImportTracks(storage: LocalStorage, tracks: seq<TrackInput.Track>, mode: Mode, now: nat -> int)
    returns (results: Results)
    modifies storage
    ensures Run(storage.State(), results) == ImportRun(old(storage.State()), tracks, mode, now)
  {
    results := Initial(|tracks|);
    for i := 0 to |tracks|
      invariant ImportFrom(tracks, mode, now, i, Run(storage.State(), results)) == ImportRun(old(storage.State()), tracks, mode, now)
    {
      results := ImportRecord(storage, results, tracks[i], mode, now(i));
    }
  }

  /** The body of the loop of importTracks (injector.js:90-120) at time now. */
  method ImportRecord(storage: LocalStorage, resultsIn: Results, track: TrackInput.Track, mode: Mode, now: int)
    returns (results: Results)
    modifies storage
    ensures Run(storage.State(), results) == ImportOne(Run(old(storage.State()), resultsIn), track, mode, now)
  {
    results := resultsIn;
    var finalName := track.name;
    var present := TrackExists(storage.State(), track.name);
    if present {
      match mode {
        case Skip =>
          results := results.(skipped := results.skipped + 1);
          return;
        case Overwrite =>
          results := results.(overwritten := results.overwritten + 1);
        case Rename =>
          finalName := GenerateUniqueName(storage, track.name);
          results := results.(renamed := results.renamed + 1);
        case Unknown =>
      }
    }
    if !HasExport(track) {
      results := results.(errors := results.errors + [InvalidDataError(track.name)]);
      return;
    }
    SaveTrack(storage, finalName, track.data.value, now);
    results := results.(imported := results.imported + 1);
  }

  // ---------------------------------------------------------------------------
  // Properties of importTracks
  // ---------------------------------------------------------------------------

  /** One record is imported, skipped or reported as an error, exactly one of the three; success and total stay. */
  lemma ImportOneCounts(run: Run, track: TrackInput.Track, mode: Mode, now: int)
    ensures var r, s := ImportOne(run, track, mode, now).results, run.results;
      && r.success == s.success && r.total == s.total
      && s.imported <= r.imported && s.skipped <= r.skipped && s.errors <= r.errors
      && (r.imported - s.imported) + (r.skipped - s.skipped) + (|r.errors| - |s.errors|) == 1
  {
  }

  /** The loop accounts for every remaining record. */
  lemma {:induction false} ImportFromCounts(tracks: seq<TrackInput.Track>, mode: Mode, now: nat -> int, i: nat, run: Run)
    requires i <= |tracks|
    ensures var r, s := ImportFrom(tracks, mode, now, i, run).results, run.results;
      && r.success == s.success && r.total == s.total
      && r.imported + r.skipped + |r.errors| == s.imported + s.skipped + |s.errors| + |tracks| - i
    decreases |tracks| - i
  {
    if i < |tracks| {
      ImportOneCounts(run, tracks[i], mode, now(i));
      ImportFromCounts(tracks, mode, now, i + 1, ImportOne(run, tracks[i], mode, now(i)));
    }
  }

  /** importTracks accounts for every record: imported + skipped + errors is the total, and success is always true. */
  lemma ImportAccounting(st: Store, tracks: seq<TrackInput.Track>, mode: Mode, now: nat -> int)
    ensures var r := ImportRun(st, tracks, mode, now).results;
      && r.success && r.total == |tracks|
      && r.imported + r.skipped + |r.errors| == |tracks|
  {
    ImportFromCounts(tracks, mode, now, 0, Run(st, Initial(|tracks|)));
  }

  /** One record writes only a track key, removes no key, and in skip mode writes only a free one. */
  lemma ImportOneWrites(run: Run, track: TrackInput.Track, mode: Mode, now: int)
    requires WellFormed(run.store)
    ensures var r := ImportOne(run, track, mode, now).store;
      && WellFormed(r)
      && OnlyTracks(run.store, r)
      && KeysKept(run.store, r)
      && (mode == Skip ==> Keeps(run.store, r))
  {
    var st := run.store;
    forall name, data, time
      ensures WellFormed(Save(st, name, data, time)) && OnlyTracks(st, Save(st, name, data, time)) && KeysKept(st, Save(st, name, data, time))
      ensures !TrackExists(st, name) ==> Keeps(st, Save(st, name, data, time))
    {
      SaveEffect(st, name, data, time);
    }
  }

  /** The loop keeps the storage well formed, writes only track keys, removes no key, and in skip mode overwrites nothing. */
  lemma {:induction false} ImportFromWrites(tracks: seq<TrackInput.Track>, mode: Mode, now: nat -> int, i: nat, run: Run)
    requires i <= |tracks| && WellFormed(run.store)
    ensures var r := ImportFrom(tracks, mode, now, i, run).store;
      && WellFormed(r)
      && OnlyTracks(run.store, r)
      && KeysKept(run.store, r)
      && (mode == Skip ==> Keeps(run.store, r))
    decreases |tracks| - i
  {
    if i < |tracks| {
      ImportOneWrites(run, tracks[i], mode, now(i));
      ImportFromWrites(tracks, mode, now, i + 1, ImportOne(run, tracks[i], mode, now(i)));
    }
  }

  /** importTracks writes only keys under the track prefix, removes no key, and in skip mode every stored track keeps its contents. */
  lemma ImportWrites(st: Store, tracks: seq<TrackInput.Track>, mode: Mode, now: nat -> int)
    requires WellFormed(st)
    ensures var r := ImportRun(st, tracks, mode, now).store;
      && WellFormed(r)
      && OnlyTracks(st, r)
      && KeysKept(st, r)
      && (mode == Skip ==> Keeps(st, r))
  {
    ImportFromWrites(tracks, mode, now, 0, Run(st, Initial(|tracks|)));
  }

  /**
   * One record either leaves the storage alone or saves its export string
   * under its final name, which is its own name except for a stored name in
   * rename mode; it is saved, and counted as imported, exactly when it has an
   * export string and is not a stored name in skip mode.
   */
  lemma ImportOneStore(run: Run, track: TrackInput.Track, mode: Mode, now: int)
    ensures var one := ImportOne(run, track, mode, now);
      var saved := HasExport(track) && !(mode == Skip && TrackExists(run.store, track.name));
      var finalName := if mode == Rename && TrackExists(run.store, track.name) then UniqueName(run.store, track.name) else track.name;
      && (saved <==> one.results.imported == run.results.imported + 1)
      && (saved ==> one.store == Save(run.store, finalName, track.data.value, now))
      && (!saved ==> one.store == run.store && one.results.imported == run.results.imported)
  {
  }

  /** In skip mode a stored name is counted as skipped and nothing else changes. */
  lemma SkipLeavesStored(run: Run, track: TrackInput.Track, now: int)
    requires TrackExists(run.store, track.name)
    ensures ImportOne(run, track, Skip, now) == Run(run.store, run.results.(skipped := run.results.skipped + 1))
  {
  }

  /**
   * `overwritten` and `renamed` are counted before the data check: an
   * existing name under `overwrite` or `rename` is counted there even when
   * the record has no export string and ends as an error, with the store
   * unchanged.
   */
  lemma CountedBeforeData(run: Run, track: TrackInput.Track, mode: Mode, now: int)
    requires TrackExists(run.store, track.name)
    requires mode == Overwrite || mode == Rename
    requires !HasExport(track)
    ensures var r := ImportOne(run, track, mode, now);
      && r.store == run.store
      && r.results == run.results.(overwritten := run.results.overwritten + (if mode == Overwrite then 1 else 0),
                                   renamed := run.results.renamed + (if mode == Rename then 1 else 0),
                                   errors := run.results.errors + [InvalidDataError(track.name)])
  {
  }

  /** A record with only a share code is an error here and nothing is stored (the content script stores the code instead). */
  lemma ShareCodeRejected(run: Run, track: TrackInput.Track, mode: Mode, now: int)
    requires track.data.None? && track.shareCode.Some?
    requires !TrackExists(run.store, track.name) || mode != Skip
    ensures ImportOne(run, track, mode, now).store == run.store
    ensures ImportOne(run, track, mode, now).results.errors == run.results.errors + [InvalidDataError(track.name)]
  {
  }

  /**
   * Rename mode can overwrite: when `base` to `base (1000)` are all stored, a
   * record named `base` with an export string replaces the item of
   * `base (1000)`, and that record is counted as renamed and imported.
   */
  lemma RenameOverwritesAtCap(run: Run, track: TrackInput.Track, now: int)
    requires WellFormed(run.store)
    requires forall j | 0 <= j <= 1000 :: TrackExists(run.store, Candidate(track.name, j))
    requires HasExport(track)
    ensures var r := ImportOne(run, track, Rename, now);
      && TrackExists(run.store, Numbered(track.name, 1000))
      && r.store == Save(run.store, Numbered(track.name, 1000), track.data.value, now)
      && r.store.items[TrackKey(Numbered(track.name, 1000))] == Saved(track.data.value, now)
      && r.results.renamed == run.results.renamed + 1
      && r.results.imported == run.results.imported + 1
  {
    CapReached(run.store, track.name);
    RenameOnto(run, track, Numbered(track.name, 1000), now);
  }

  /** A stored name in rename mode whose new name is the stored name `name`: the record is saved over it. */
  lemma RenameOnto(run: Run, track: TrackInput.Track, name: string, now: int)
    requires WellFormed(run.store) && HasExport(track)
    requires TrackExists(run.store, track.name) && UniqueName(run.store, track.name) == name && TrackExists(run.store, name)
    ensures var r := ImportOne(run, track, Rename, now);
      && r.store == Save(run.store, name, track.data.value, now)
      && r.store.items[TrackKey(name)] == Saved(track.data.value, now)
      && r.results.renamed == run.results.renamed + 1
      && r.results.imported == run.results.imported + 1
  {
    SaveEffect(run.store, name, track.data.value, now);
  }

  /** With `base` to `base (1000)` all stored, `base` is stored, and generateUniqueName returns `base (1000)`, which is stored too. */
  lemma CapReached(st: Store, baseName: string)
    requires forall j | 0 <= j <= 1000 :: TrackExists(st, Candidate(baseName, j))
    ensures TrackExists(st, baseName)
    ensures UniqueName(st, baseName) == Numbered(baseName, 1000) && TrackExists(st, Numbered(baseName, 1000))
  {
    assert TrackExists(st, Candidate(baseName, 0));
    assert TrackExists(st, Candidate(baseName, 1000));
    UniqueNameAtCap(st, baseName);
  }
}
