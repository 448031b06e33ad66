/**
 * The content script's import (content.js:50-176): generateUniqueName, which
 * gives up after 999 numbered names, and importTracks, which stores each
 * record under its name according to the collision mode, stores a share code
 * with a warning when there is no export string, and reports every record
 * with one progress message.
 */
module ContentScript {
  import opened Wrappers
  import opened JsText
  import opened WebStorage
  import opened TrackStore
  import TrackInput

  // ---------------------------------------------------------------------------
  // generateUniqueName
  // ---------------------------------------------------------------------------

  /** The message of the error generateUniqueName throws. */
  function UniqueNameError(baseName: string): string {
    "Could not generate unique name for \"" + baseName + "\""
  }

  /** The loop of generateUniqueName from the point where counter has the given value and newName is being tested. */
  function NameSearch(st: Store, baseName: string, counter: nat): Result<string, string>
    requires 1 <= counter <= 1000
    decreases 1000 - counter
  {
    if !TrackExists(st, Candidate(baseName, counter - 1)) then Ok(Candidate(baseName, counter - 1))
    else if counter + 1 > 1000 then Err(UniqueNameError(baseName))
    else NameSearch(st, baseName, counter + 1)
  }

  /** What generateUniqueName(baseName) returns or throws. */
  function UniqueName(st: Store, baseName: string): Result<string, string> {
    NameSearch(st, baseName, 1)
  }

  /** generateUniqueName (content.js:53-66); the thrown error is the Err value. */
  method GenerateUniqueName(storage: LocalStorage, baseName: string) returns (r: Result<string, string>)
    ensures r == UniqueName(storage.State(), baseName)
  {
    var counter := 1;
    var newName := baseName;
    while TrackExists(storage.State(), newName)
      invariant 1 <= counter <= 1000
      invariant newName == Candidate(baseName, counter - 1)
      invariant NameSearch(storage.State(), baseName, counter) == UniqueName(storage.State(), baseName)
      decreases 1000 - counter
    {
      newName := Numbered(baseName, counter);
      counter := counter + 1;
      if counter > 1000 {
        return Err(UniqueNameError(baseName));
      }
    }
    return Ok(newName);
  }

  /** The search from counter on finds the first free candidate, or fails when all from counter - 1 to 999 are taken. */
  lemma {:induction false} NameSearchFirstFree(st: Store, baseName: string, counter: nat)
    requires 1 <= counter <= 1000
    ensures var r := NameSearch(st, baseName, counter);
      && (r.Ok? ==> exists k | counter - 1 <= k < 1000 ::
            && r.value == Candidate(baseName, k)
            && !TrackExists(st, Candidate(baseName, k))
            && forall j | counter - 1 <= j < k :: TrackExists(st, Candidate(baseName, j)))
      && (r.Err? <==> forall j | counter - 1 <= j < 1000 :: TrackExists(st, Candidate(baseName, j)))
      && (r.Err? ==> r.error == UniqueNameError(baseName))
    decreases 1000 - counter
  {
    var r := NameSearch(st, baseName, counter);
    var name := Candidate(baseName, counter - 1);
    if !TrackExists(st, name) {
      assert r == Ok(name);
    } else if counter + 1 > 1000 {
      assert r.Err?;
    } else {
      NameSearchFirstFree(st, baseName, counter + 1);
      assert r == NameSearch(st, baseName, counter + 1);
      if r.Ok? {
        var k :| counter <= k < 1000
          && r.value == Candidate(baseName, k)
          && !TrackExists(st, Candidate(baseName, k))
          && forall j | counter <= j < k :: TrackExists(st, Candidate(baseName, j));
        assert forall j | counter - 1 <= j < k :: TrackExists(st, Candidate(baseName, j));
      }
    }
  }

  /**
   * generateUniqueName returns the first of `base`, `base (1)`, ...,
   * `base (999)` that is not stored, and throws exactly when all of them are.
   */
  lemma UniqueNameFirstFree(st: Store, baseName: string)
    ensures var r := UniqueName(st, baseName);
      && (r.Ok? ==> !TrackExists(st, r.value))
      && (r.Ok? ==> exists k | 0 <= k < 1000 ::
            && r.value == Candidate(baseName, k)
            && forall j | 0 <= j < k :: TrackExists(st, Candidate(baseName, j)))
      && (r.Err? <==> forall j | 0 <= j < 1000 :: TrackExists(st, Candidate(baseName, j)))
      && (r.Err? ==> r.error == UniqueNameError(baseName))
  {
    NameSearchFirstFree(st, baseName, 1);
  }

  /** A name generateUniqueName returns is free. */
  lemma UniqueNameFree(st: Store, baseName: string)
    ensures UniqueName(st, baseName).Ok? ==> !TrackExists(st, UniqueName(st, baseName).value)
  {
    UniqueNameFirstFree(st, baseName);
  }

  /** With only `Loop` stored, the new name for `Loop` is `Loop (1)`. */
  lemma UniqueNameExample(data: string, now: int)
    ensures UniqueName(Save(Store([], map[]), "Loop", data, now), "Loop") == Ok("Loop (1)")
  {
    var st := Save(Store([], map[]), "Loop", data, now);
    assert DecimalString(1) == "1";
    assert Candidate("Loop", 1) == "Loop (1)";
    assert TrackKey("Loop (1)") != TrackKey("Loop") by {
      assert |TrackKey("Loop (1)")| != |TrackKey("Loop")|;
    }
  }

  // ---------------------------------------------------------------------------
  // importTracks
  // ---------------------------------------------------------------------------

  /** The status of a progress message. */
  datatype Status = Imported | Skipped | Overwritten | Renamed | Failed

  /** One sendProgress(current, total, trackName, status) message (content.js:166-176). */
  datatype Progress = Progress(current: nat, total: nat, trackName: string, status: Status)

  /** The results object importTracks returns. */
  datatype Results = Results(success: bool, imported: nat, skipped: nat, renamed: nat, overwritten: nat,
                             total: nat, errors: seq<string>, warnings: seq<string>)

  /** The storage, the results so far and the progress messages sent so far. */
  datatype Run = Run(store: Store, results: Results, progress: seq<Progress>)

  /** What a record stores: its export string, its share code, or nothing (content.js:126-136). */
  datatype Payload = Direct(data: string) | AsShareCode(code: string) | NoData

  /** The payload rule: a non-empty data string starting with `PolyTrack`, else a non-empty share code. */
  function PayloadOf(track: TrackInput.Track): (p: Payload)
    ensures p.Direct? ==> track.data == Some(p.data) && StartsWith(p.data, "PolyTrack")
    ensures p.AsShareCode? ==> track.shareCode == Some(p.code) && p.code != []
    ensures track.data.Some? && StartsWith(track.data.value, "PolyTrack") ==> p == Direct(track.data.value)
    ensures (track.data.None? || !StartsWith(track.data.value, "PolyTrack")) && track.shareCode.Some? && track.shareCode.value != [] ==>
      p == AsShareCode(track.shareCode.value)
    ensures p.NoData? <==>
      && (track.data.None? || !StartsWith(track.data.value, "PolyTrack"))
      && (track.shareCode.None? || track.shareCode.value == [])
  {
    if track.data.Some? && track.data.value != [] && StartsWith(track.data.value, "PolyTrack") then Direct(track.data.value)
    else if track.shareCode.Some? && track.shareCode.value != [] then AsShareCode(track.shareCode.value)
    else NoData
  }

  /** The text a payload stores: the export string or the share code. */
  function PayloadText(p: Payload): string {
    match p
    case Direct(data) => data
    case AsShareCode(code) => code
    case NoData => ""
  }

  /** The statuses of a record that was written to the storage. */
  predicate Wrote(status: Status) {
    status == Imported || status == Overwritten || status == Renamed
  }

  /** The warning for a record stored as a share code. */
  function ShareCodeWarning(finalName: string): string {
    "Track \"" + finalName + "\" stored as share code - may need manual re-import"
  }

  /** The error for a record with nothing to store. */
  function NoDataError(name: string): string {
    "No valid data for track \"" + name + "\""
  }

  /** The error for a record whose import threw. */
  function ImportError(name: string, message: string): string {
    "Error importing \"" + name + "\": " + message
  }

  /** The rest of a record's turn once its final name and status are known: store its payload, or report that it has none. */
  function StorePayload(run: Run, track: TrackInput.Track, current: nat, total: nat, finalName: string, status: Status, now: int): Run {
    var results := run.results;
    match PayloadOf(track)
    case Direct(data) =>
      Run(Save(run.store, finalName, data, now), results.(imported := results.imported + 1),
          run.progress + [Progress(current, total, finalName, status)])
    case AsShareCode(code) =>
      Run(Save(run.store, finalName, code, now),
          results.(imported := results.imported + 1, warnings := results.warnings + [ShareCodeWarning(finalName)]),
          run.progress + [Progress(current, total, finalName, status)])
    case NoData =>
      Run(run.store, results.(errors := results.errors + [NoDataError(track.name)]),
          run.progress + [Progress(current, total, track.name, Failed)])
  }

  /** One turn of the loop of importTracks (content.js:96-158) on the i-th record at time now. */
  function ImportOne(run: Run, track: TrackInput.Track, i: nat, total: nat, mode: Mode, now: int): Run {
    var results := run.results;
    if !TrackExists(run.store, track.name) then
      StorePayload(run, track, i + 1, total, track.name, Imported, now)
    else
      match mode
      case Skip =>
        Run(run.store, results.(skipped := results.skipped + 1),
            run.progress + [Progress(i + 1, total, track.name, Skipped)])
      case Overwrite =>
        StorePayload(run.(results := results.(overwritten := results.overwritten + 1)), track, i + 1, total, track.name, Overwritten, now)
      case Rename =>
        (match UniqueName(run.store, track.name)
         case Ok(finalName) =>
           StorePayload(run.(results := results.(renamed := results.renamed + 1)), track, i + 1, total, finalName, Renamed, now)
         case Err(message) =>
           Run(run.store, results.(errors := results.errors + [ImportError(track.name, message)]),
               run.progress + [Progress(i + 1, total, track.name, Failed)]))
      case Unknown =>
        StorePayload(run, track, i + 1, total, track.name, Imported, now)
  }

  /** The loop from the i-th record on; now gives Date.now() at each record. */
  function ImportFrom(tracks: seq<TrackInput.Track>, mode: Mode, now: nat -> int, i: nat, run: Run): Run
    requires i <= |tracks|
    decreases |tracks| - i
  {
    if i == |tracks| then run
    else ImportFrom(tracks, mode, now, i + 1, ImportOne(run, tracks[i], i, |tracks|, mode, now(i)))
  }

  /** The results before the first record. */
  function Initial(total: nat): Results {
    Results(true, 0, 0, 0, 0, total, [], [])
  }

  /** The final storage, the results and the progress messages of importTracks(tracks, mode) on storage st. */
  function ImportRun(st: Store, tracks: seq<TrackInput.Track>, mode: Mode, now: nat -> int): Run {
    ImportFrom(tracks, mode, now, 0, Run(st, Initial(|tracks|), []))
  }

  /** importTracks (content.js:84-161); the progress messages are returned in the order they are sent. */
  method ImportTracks(storage: LocalStorage, tracks: seq<TrackInput.Track>, mode: Mode, now: nat -> int)
    returns (results: Results, progress: seq<Progress>)
    modifies storage
    ensures Run(storage.State(), results, progress) == ImportRun(old(storage.State()), tracks, mode, now)
  {
    results := Initial(|tracks|);
    progress := [];
    for i := 0 to |tracks|
      invariant ImportFrom(tracks, mode, now, i, Run(storage.State(), results, progress)) == ImportRun(old(storage.State()), tracks, mode, now)
    {
      results, progress := ImportRecord(storage, results, progress, tracks[i], i, |tracks|, mode, now(i));
    }
  }

  /** The body of the loop of importTracks (content.js:97-157) for the i-th record at time now. */
  method ImportRecord(storage: LocalStorage, resultsIn: Results, progressIn: seq<Progress>, track: TrackInput.Track,
                      i: nat, total: nat, mode: Mode, now: int)
    returns (results: Results, progress: seq<Progress>)
    modifies storage
    ensures Run(storage.State(), results, progress) == ImportOne(Run(old(storage.State()), resultsIn, progressIn), track, i, total, mode, now)
  {
    results, progress := resultsIn, progressIn;
    var finalName := track.name;
    var status := Imported;
    var present := TrackExists(storage.State(), track.name);
    if present {
      match mode {
        case Skip =>
          results := results.(skipped := results.skipped + 1);
          progress := progress + [Progress(i + 1, total, track.name, Skipped)];
          return;
        case Overwrite =>
          results := results.(overwritten := results.overwritten + 1);
          status := Overwritten;
        case Rename =>
          var named := GenerateUniqueName(storage, track.name);
          if named.Err? {
            results := results.(errors := results.errors + [ImportError(track.name, named.error)]);
            progress := progress + [Progress(i + 1, total, track.name, Failed)];
            return;
          }
          finalName := named.value;
          results := results.(renamed := results.renamed + 1);
          status := Renamed;
        case Unknown =>
      }
    }
    results, progress := StoreRecord(storage, results, progress, track, i + 1, total, finalName, status, now);
  }

  /** The payload part of the loop body (content.js:125-147): store the payload under finalName, or report that there is none. */
  method StoreRecord(storage: LocalStorage, resultsIn: Results, progressIn: seq<Progress>, track: TrackInput.Track,
                     current: nat, total: nat, finalName: string, status: Status, now: int)
    returns (results: Results, progress: seq<Progress>)
    modifies storage
    ensures Run(storage.State(), results, progress) == StorePayload(Run(old(storage.State()), resultsIn, progressIn), track, current, total, finalName, status, now)
  {
    results, progress := resultsIn, progressIn;
    var payload := PayloadOf(track);
    var dataToStore := "";
    if payload.Direct? {
      dataToStore := payload.data;
    } else if payload.AsShareCode? {
      dataToStore := payload.code;
      results := results.(warnings := results.warnings + [ShareCodeWarning(finalName)]);
    }
    if payload.NoData? {
      results := results.(errors := results.errors + [NoDataError(track.name)]);
      progress := progress + [Progress(current, total, track.name, Failed)];
      return;
    }
    SaveTrack(storage, finalName, dataToStore, now);
    results := results.(imported := results.imported + 1);
    progress := progress + [Progress(current, total, finalName, status)];
  }

  // ---------------------------------------------------------------------------
  // Properties of importTracks
  // ---------------------------------------------------------------------------

  /** After i records: every one was imported, skipped or reported as an error, and each sent one progress message. */
  predicate Accounted(run: Run, i: nat, total: nat) {
    && run.results.success
    && run.results.total == total
    && run.results.imported + run.results.skipped + |run.results.errors| == i
    && |run.progress| == i
    && forall j | 0 <= j < i :: run.progress[j].current == j + 1 && run.progress[j].total == total
  }

  /**
   * One record: exactly one of imported, skipped and the errors grows by one,
   * one progress message is sent, and a warning is added exactly when the
   * record is stored as its share code.
   */
  lemma ImportOneCases(run: Run, track: TrackInput.Track, i: nat, total: nat, mode: Mode, now: int)
    ensures OneRecord(run, ImportOne(run, track, i, total, mode, now), i + 1, total,
                      ImportOne(run, track, i, total, mode, now).results.imported > run.results.imported && PayloadOf(track).AsShareCode?)
  {
    if !TrackExists(run.store, track.name) || mode.Unknown? {
      ImportOneStored(run, track, i, total, mode, now);
    } else if mode.Skip? {
      ImportOneSkipped(run, track, i, total, now);
    } else if mode.Overwrite? {
      ImportOneOverwritten(run, track, i, total, now);
    } else {
      ImportOneRenamed(run, track, i, total, now);
    }
  }

  /** A new name, or an unknown mode: the record is stored under its own name. */
  lemma ImportOneStored(run: Run, track: TrackInput.Track, i: nat, total: nat, mode: Mode, now: int)
    requires !TrackExists(run.store, track.name) || mode.Unknown?
    ensures var one := ImportOne(run, track, i, total, mode, now);
      OneRecord(run, one, i + 1, total, one.results.imported > run.results.imported && PayloadOf(track).AsShareCode?)
  {
    assert ImportOne(run, track, i, total, mode, now) == StorePayload(run, track, i + 1, total, track.name, Imported, now);
    StorePayloadCounted(run, run, track, i + 1, total, track.name, Imported, now);
  }

  /** An existing name in skip mode. */
  lemma ImportOneSkipped(run: Run, track: TrackInput.Track, i: nat, total: nat, now: int)
    requires TrackExists(run.store, track.name)
    ensures var one := ImportOne(run, track, i, total, Skip, now);
      OneRecord(run, one, i + 1, total, one.results.imported > run.results.imported && PayloadOf(track).AsShareCode?)
  {
    var one := ImportOne(run, track, i, total, Skip, now);
    assert one == Run(run.store, run.results.(skipped := run.results.skipped + 1),
                      run.progress + [Progress(i + 1, total, track.name, Skipped)]);
    ReportedOnce(run, one, i + 1, Progress(i + 1, total, track.name, Skipped));
  }

  /** An existing name in overwrite mode. */
  lemma ImportOneOverwritten(run: Run, track: TrackInput.Track, i: nat, total: nat, now: int)
    requires TrackExists(run.store, track.name)
    ensures var one := ImportOne(run, track, i, total, Overwrite, now);
      OneRecord(run, one, i + 1, total, one.results.imported > run.results.imported && PayloadOf(track).AsShareCode?)
  {
    var counted := run.(results := run.results.(overwritten := run.results.overwritten + 1));
    assert ImportOne(run, track, i, total, Overwrite, now) == StorePayload(counted, track, i + 1, total, track.name, Overwritten, now);
    StorePayloadCounted(run, counted, track, i + 1, total, track.name, Overwritten, now);
  }

  /** An existing name in rename mode: never counted as skipped. */
  lemma ImportOneRenamed(run: Run, track: TrackInput.Track, i: nat, total: nat, now: int)
    requires TrackExists(run.store, track.name)
    ensures var one := ImportOne(run, track, i, total, Rename, now);
      OneRecord(run, one, i + 1, total, one.results.imported > run.results.imported && PayloadOf(track).AsShareCode?)
    ensures ImportOne(run, track, i, total, Rename, now).results.skipped == run.results.skipped
  {
    var one := ImportOne(run, track, i, total, Rename, now);
    match UniqueName(run.store, track.name) {
      case Ok(finalName) =>
        var counted := run.(results := run.results.(renamed := run.results.renamed + 1));
        assert one == StorePayload(counted, track, i + 1, total, finalName, Renamed, now);
        StorePayloadCounted(run, counted, track, i + 1, total, finalName, Renamed, now);
      case Err(message) =>
        assert one == Run(run.store, run.results.(errors := run.results.errors + [ImportError(track.name, message)]),
                          run.progress + [Progress(i + 1, total, track.name, Failed)]);
        ReportedOnce(run, one, i + 1, Progress(i + 1, total, track.name, Failed));
    }
  }

  /** A record that is skipped or fails before its payload is looked at: one count grows, one message is sent, nothing is warned. */
  lemma ReportedOnce(run: Run, next: Run, current: nat, message: Progress)
    requires message.current == current && next.progress == run.progress + [message]
    requires || next.results == run.results.(skipped := run.results.skipped + 1)
             || exists e :: next.results == run.results.(errors := run.results.errors + [e])
    ensures OneRecord(run, next, current, message.total, false)
    ensures next.results.imported == run.results.imported
  {
    assert next.progress[..|run.progress|] == run.progress;
  }

  /** The same, when the payload is stored from a run that differs from run only in the renamed and overwritten counts. */
  lemma StorePayloadCounted(run: Run, counted: Run, track: TrackInput.Track, current: nat, total: nat, finalName: string, status: Status, now: int)
    requires counted.progress == run.progress
    requires counted.results.(renamed := run.results.renamed, overwritten := run.results.overwritten) == run.results
    ensures var next := StorePayload(counted, track, current, total, finalName, status, now);
      OneRecord(run, next, current, total, next.results.imported > run.results.imported && PayloadOf(track).AsShareCode?)
    ensures StorePayload(counted, track, current, total, finalName, status, now).results.skipped == run.results.skipped
  {
    StorePayloadCases(counted, track, current, total, finalName, status, now);
  }

  /**
   * What one record does to the results and messages: exactly one of
   * imported, skipped and the errors grows by one, the lists only grow, one
   * progress message numbered current of total is sent, and a warning is added exactly
   * when warned holds.
   */
  predicate OneRecord(run: Run, next: Run, current: nat, total: nat, warned: bool) {
    var r, s := next.results, run.results;
    && s.imported <= r.imported && s.skipped <= r.skipped
    && s.errors <= r.errors && s.warnings <= r.warnings
    && (r.imported - s.imported) + (r.skipped - s.skipped) + (|r.errors| - |s.errors|) == 1
    && |r.warnings| == |s.warnings| + (if warned then 1 else 0)
    && |next.progress| == |run.progress| + 1
    && next.progress[..|run.progress|] == run.progress
    && next.progress[|run.progress|].current == current
    && next.progress[|run.progress|].total == total
  }

  /** The payload part accounts for the record once, as imported or as an error, never as skipped, and warns exactly when it stores a share code. */
  lemma StorePayloadCases(run: Run, track: TrackInput.Track, current: nat, total: nat, finalName: string, status: Status, now: int)
    ensures var next := StorePayload(run, track, current, total, finalName, status, now);
      OneRecord(run, next, current, total, PayloadOf(track).AsShareCode?)
    ensures StorePayload(run, track, current, total, finalName, status, now).results.skipped == run.results.skipped
  {
    var next := StorePayload(run, track, current, total, finalName, status, now);
    assert next.progress[..|run.progress|] == run.progress;
  }

  /** The loop keeps the accounting. */
  lemma {:induction false} ImportFromAccounted(tracks: seq<TrackInput.Track>, mode: Mode, now: nat -> int, i: nat, run: Run)
    requires i <= |tracks| && Accounted(run, i, |tracks|)
    ensures Accounted(ImportFrom(tracks, mode, now, i, run), |tracks|, |tracks|)
    decreases |tracks| - i
  {
    if i < |tracks| {
      var next := ImportOne(run, tracks[i], i, |tracks|, mode, now(i));
      ImportOneCases(run, tracks[i], i, |tracks|, mode, now(i));
      ImportOneTotal(run, tracks[i], i, |tracks|, mode, now(i));
      AccountedStep(run, next, i, |tracks|, next.results.imported > run.results.imported && PayloadOf(tracks[i]).AsShareCode?);
      ImportFromAccounted(tracks, mode, now, i + 1, next);
    }
  }

  /** A record accounted for once moves the accounting from i records to i + 1. */
  lemma AccountedStep(run: Run, next: Run, i: nat, total: nat, warned: bool)
    requires Accounted(run, i, total) && OneRecord(run, next, i + 1, total, warned)
    requires next.results.total == run.results.total && next.results.success == run.results.success
    ensures Accounted(next, i + 1, total)
  {
    assert forall j | 0 <= j < i :: next.progress[j] == next.progress[..i][j];
  }

  /** One record leaves success and total alone. */
  lemma ImportOneTotal(run: Run, track: TrackInput.Track, i: nat, total: nat, mode: Mode, now: int)
    ensures ImportOne(run, track, i, total, mode, now).results.total == run.results.total
    ensures ImportOne(run, track, i, total, mode, now).results.success == run.results.success
  {
  }

  /**
   * importTracks accounts for every record: imported + skipped + errors is the
   * total, success is always true, and the i-th progress message says
   * `i + 1 of total`.
   */
  lemma ImportAccounting(st: Store, tracks: seq<TrackInput.Track>, mode: Mode, now: nat -> int)
    ensures var r := ImportRun(st, tracks, mode, now);
      && r.results.success
      && r.results.total == |tracks|
      && r.results.imported + r.results.skipped + |r.results.errors| == |tracks|
      && |r.progress| == |tracks|
      && forall j | 0 <= j < |tracks| :: r.progress[j].current == j + 1 && r.progress[j].total == |tracks|
  {
    ImportFromAccounted(tracks, mode, now, 0, Run(st, Initial(|tracks|), []));
  }

  /** Storing a payload under finalName keeps the storage well formed, writes only a track key, removes none, and overwrites nothing when that name was free. */
  lemma StorePayloadWrites(run: Run, track: TrackInput.Track, current: nat, total: nat, finalName: string, status: Status, now: int)
    requires WellFormed(run.store)
    ensures var r := StorePayload(run, track, current, total, finalName, status, now).store;
      && WellFormed(r)
      && OnlyTracks(run.store, r)
      && KeysKept(run.store, r)
      && (!TrackExists(run.store, finalName) ==> Keeps(run.store, r))
  {
    match PayloadOf(track) {
      case Direct(data) => SaveEffect(run.store, finalName, data, now);
      case AsShareCode(code) => SaveEffect(run.store, finalName, code, now);
      case NoData =>
    }
  }

  /** One record writes at most the key of its final name, removes no key, and in skip and rename mode writes only a key that was free. */
  lemma ImportOneWrites(run: Run, track: TrackInput.Track, i: nat, total: nat, mode: Mode, now: int)
    requires WellFormed(run.store)
    ensures var r := ImportOne(run, track, i, total, mode, now).store;
      && WellFormed(r)
      && OnlyTracks(run.store, r)
      && KeysKept(run.store, r)
      && (mode == Skip || mode == Rename ==> Keeps(run.store, r))
  {
    var results := run.results;
    if !TrackExists(run.store, track.name) {
      StorePayloadWrites(run, track, i + 1, total, track.name, Imported, now);
    } else {
      match mode {
        case Skip =>
        case Overwrite =>
          StorePayloadWrites(run.(results := results.(overwritten := results.overwritten + 1)), track, i + 1, total, track.name, Overwritten, now);
        case Rename =>
          UniqueNameFirstFree(run.store, track.name);
          match UniqueName(run.store, track.name) {
            case Ok(finalName) =>
              StorePayloadWrites(run.(results := results.(renamed := results.renamed + 1)), track, i + 1, total, finalName, Renamed, now);
            case Err(_) =>
          }
        case Unknown =>
          StorePayloadWrites(run, track, i + 1, total, track.name, Imported, now);
      }
    }
  }

  /** The loop keeps the storage well formed, writes only track keys, removes no key, and in skip and rename mode overwrites nothing. */
  lemma {:induction false} ImportFromWrites(tracks: seq<TrackInput.Track>, mode: Mode, now: nat -> int, i: nat, run: Run)
    requires i <= |tracks| && WellFormed(run.store)
    ensures var r := ImportFrom(tracks, mode, now, i, run).store;
      && WellFormed(r)
      && OnlyTracks(run.store, r)
      && KeysKept(run.store, r)
      && (mode == Skip || mode == Rename ==> Keeps(run.store, r))
    decreases |tracks| - i
  {
    if i < |tracks| {
      var next := ImportOne(run, tracks[i], i, |tracks|, mode, now(i));
      ImportOneWrites(run, tracks[i], i, |tracks|, mode, now(i));
      ImportFromWrites(tracks, mode, now, i + 1, next);
    }
  }

  /**
   * importTracks writes only keys under the track prefix and removes no key,
   * and in skip and rename mode every track stored before the import is
   * still there with the same contents.
   */
  lemma ImportWrites(st: Store, tracks: seq<TrackInput.Track>, mode: Mode, now: nat -> int)
    requires WellFormed(st)
    ensures var r := ImportRun(st, tracks, mode, now).store;
      && WellFormed(r)
      && OnlyTracks(st, r)
      && KeysKept(st, r)
      && (mode == Skip || mode == Rename ==> Keeps(st, r))
  {
    ImportFromWrites(tracks, mode, now, 0, Run(st, Initial(|tracks|), []));
  }

  /**
   * What a record's progress message says about its turn: a record reported
   * as imported, overwritten or renamed was counted as imported and stored
   * under the name in the message, which is its own name except in rename
   * mode, where it is a name that was free; a record reported as skipped or
   * failed left the storage alone and is reported under its own name; and it
   * is reported as skipped exactly in skip mode on a stored name.
   */
  lemma ImportOneReported(run: Run, track: TrackInput.Track, i: nat, total: nat, mode: Mode, now: int)
    ensures Reported(run, ImportOne(run, track, i, total, mode, now), track, mode, now)
  {
    if !TrackExists(run.store, track.name) || mode.Unknown? {
      assert ImportOne(run, track, i, total, mode, now) == StorePayload(run, track, i + 1, total, track.name, Imported, now);
      StorePayloadReported(run, run, track, i + 1, total, track.name, Imported, now);
    } else if mode.Overwrite? {
      var counted := run.(results := run.results.(overwritten := run.results.overwritten + 1));
      assert ImportOne(run, track, i, total, mode, now) == StorePayload(counted, track, i + 1, total, track.name, Overwritten, now);
      StorePayloadReported(run, counted, track, i + 1, total, track.name, Overwritten, now);
    } else if mode.Rename? {
      RenamedReported(run, track, i, total, now);
    }
  }

  /** ImportOneReported for a stored name in rename mode. */
  lemma RenamedReported(run: Run, track: TrackInput.Track, i: nat, total: nat, now: int)
    requires TrackExists(run.store, track.name)
    ensures Reported(run, ImportOne(run, track, i, total, Rename, now), track, Rename, now)
  {
    UniqueNameFree(run.store, track.name);
    match UniqueName(run.store, track.name) {
      case Ok(finalName) =>
        var counted := run.(results := run.results.(renamed := run.results.renamed + 1));
        assert ImportOne(run, track, i, total, Rename, now) == StorePayload(counted, track, i + 1, total, finalName, Renamed, now);
        StorePayloadReported(run, counted, track, i + 1, total, finalName, Renamed, now);
      case Err(_) =>
    }
  }

  /** The conclusions of ImportOneReported on one record's turn from run to one. */
  predicate Reported(run: Run, one: Run, track: TrackInput.Track, mode: Mode, now: int) {
    && |one.progress| == |run.progress| + 1
    && var m := one.progress[|run.progress|];
      && (Wrote(m.status) ==> one.store == Save(run.store, m.trackName, PayloadText(PayloadOf(track)), now))
      && (Wrote(m.status) <==> one.results.imported == run.results.imported + 1)
      && (!Wrote(m.status) ==> one.store == run.store)
      && (m.status == Renamed ==> mode == Rename && TrackExists(run.store, track.name) && !TrackExists(run.store, m.trackName))
      && (m.status != Renamed ==> m.trackName == track.name)
      && (m.status == Skipped <==> mode == Skip && TrackExists(run.store, track.name))
  }

  /** Storing the payload under finalName with a written status: reported under finalName with that status if stored, else under the record's name as failed. */
  lemma StorePayloadReported(run: Run, counted: Run, track: TrackInput.Track, current: nat, total: nat, finalName: string, status: Status, now: int)
    requires counted.store == run.store && counted.progress == run.progress && counted.results.imported == run.results.imported
    requires Wrote(status)
    ensures var one := StorePayload(counted, track, current, total, finalName, status, now);
      && |one.progress| == |run.progress| + 1
      && var m := one.progress[|run.progress|];
        && (PayloadOf(track).NoData? ==> one.store == run.store && m == Progress(current, total, track.name, Failed))
        && (!PayloadOf(track).NoData? ==> one.store == Save(run.store, finalName, PayloadText(PayloadOf(track)), now) && m == Progress(current, total, finalName, status))
        && (PayloadOf(track).NoData? <==> one.results.imported == run.results.imported)
        && one.results.imported <= run.results.imported + 1
  {
    match PayloadOf(track)
    case Direct(data) =>
    case AsShareCode(code) =>
    case NoData =>
  }

  /**
   * A mode other than skip, overwrite and rename overwrites a stored name
   * with the record's export string or share code and counts it as imported
   * only, with the share-code warning when it is a code.
   */
  lemma UnknownModeOverwrites(run: Run, track: TrackInput.Track, i: nat, total: nat, now: int)
    requires TrackExists(run.store, track.name) && !PayloadOf(track).NoData?
    ensures var r := ImportOne(run, track, i, total, Unknown, now);
      && r.store == Save(run.store, track.name, PayloadText(PayloadOf(track)), now)
      && r.results == run.results.(imported := run.results.imported + 1,
                                   warnings := run.results.warnings + if PayloadOf(track).AsShareCode? then [ShareCodeWarning(track.name)] else [])
      && r.progress == run.progress + [Progress(i + 1, total, track.name, Imported)]
  {
    if PayloadOf(track).Direct? {
      assert run.results.warnings + [] == run.results.warnings;
    }
  }

  /** In an unknown mode no record is counted as skipped, renamed or overwritten. */
  lemma {:induction false} UnknownModeCounts(tracks: seq<TrackInput.Track>, now: nat -> int, i: nat, run: Run)
    requires i <= |tracks|
    ensures var r := ImportFrom(tracks, Unknown, now, i, run).results;
      && r.skipped == run.results.skipped
      && r.renamed == run.results.renamed
      && r.overwritten == run.results.overwritten
    decreases |tracks| - i
  {
    if i < |tracks| {
      var next := ImportOne(run, tracks[i], i, |tracks|, Unknown, now(i));
      UnknownModeCounts(tracks, now, i + 1, next);
    }
  }

  /** In skip mode a stored name is counted as skipped and nothing else changes but the progress message. */
  lemma SkipLeavesStored(run: Run, track: TrackInput.Track, i: nat, total: nat, now: int)
    requires TrackExists(run.store, track.name)
    ensures var r := ImportOne(run, track, i, total, Skip, now);
      && r.store == run.store
      && r.results == run.results.(skipped := run.results.skipped + 1)
      && r.progress == run.progress + [Progress(i + 1, total, track.name, Skipped)]
  {
  }

  /**
   * `overwritten` and `renamed` are counted before the payload is looked at:
   * an existing name under `overwrite`, or under `rename` with a free name
   * found, is counted there even when the record then has nothing to store
   * and ends as an error, with the store unchanged.
   */
  lemma CountedBeforePayload(run: Run, track: TrackInput.Track, i: nat, total: nat, mode: Mode, now: int)
    requires TrackExists(run.store, track.name)
    requires mode == Overwrite || (mode == Rename && UniqueName(run.store, track.name).Ok?)
    requires PayloadOf(track).NoData?
    ensures var r := ImportOne(run, track, i, total, mode, now);
      && r.store == run.store
      && r.results == run.results.(overwritten := run.results.overwritten + (if mode == Overwrite then 1 else 0),
                                   renamed := run.results.renamed + (if mode == Rename then 1 else 0),
                                   errors := run.results.errors + [NoDataError(track.name)])
      && r.progress == run.progress + [Progress(i + 1, total, track.name, Failed)]
  {
  }

  /** Importing `Loop` in rename mode next to a stored `Loop` stores it as `Loop (1)`. */
  lemma RenameExample(data: string, code: Option<string>, before: int, now: nat -> int)
    requires StartsWith(data, "PolyTrack")
    ensures var st := Save(Store([], map[]), "Loop", "PolyTrack1", before);
      var r := ImportRun(st, [TrackInput.Track("Loop", Some(data), code)], Rename, now);
      && r.store == Save(st, "Loop (1)", data, now(0))
      && r.results == Initial(1).(imported := 1, renamed := 1)
      && r.progress == [Progress(1, 1, "Loop (1)", Renamed)]
  {
    var st := Save(Store([], map[]), "Loop", "PolyTrack1", before);
    var track := TrackInput.Track("Loop", Some(data), code);
    var start := Run(st, Initial(1), []);
    UniqueNameExample("PolyTrack1", before);
    assert TrackExists(st, "Loop");
    assert PayloadOf(track) == Direct(data);
    var counted := start.(results := Initial(1).(renamed := 1));
    assert ImportOne(start, track, 0, 1, Rename, now(0)) == StorePayload(counted, track, 1, 1, "Loop (1)", Renamed, now(0));
    var tracks := [track];
    var one := ImportOne(start, tracks[0], 0, |tracks|, Rename, now(0));
    assert ImportFrom(tracks, Rename, now, 1, one) == one;
    assert ImportRun(st, tracks, Rename, now) == ImportFrom(tracks, Rename, now, 1, one);
  }

  /** Two `Loop` records in rename mode on an empty storage: the first is stored as `Loop`, the second, seeing it, as `Loop (1)`. */
  lemma TwoLoopsRenamed(first: string, second: string, now: nat -> int)
    requires StartsWith(first, "PolyTrack") && StartsWith(second, "PolyTrack")
    ensures var empty := Store([], map[]);
      var r := ImportRun(empty, [TrackInput.Track("Loop", Some(first), None), TrackInput.Track("Loop", Some(second), None)], Rename, now);
      && r.store == Save(Save(empty, "Loop", first, now(0)), "Loop (1)", second, now(1))
      && r.results == Initial(2).(imported := 2, renamed := 1)
      && r.progress == [Progress(1, 2, "Loop", Imported), Progress(2, 2, "Loop (1)", Renamed)]
  {
    var empty := Store([], map[]);
    var a, b := TrackInput.Track("Loop", Some(first), None), TrackInput.Track("Loop", Some(second), None);
    var tracks := [a, b];
    var start := Run(empty, Initial(2), []);
    assert PayloadOf(a) == Direct(first) && PayloadOf(b) == Direct(second);
    var one := ImportOne(start, a, 0, 2, Rename, now(0));
    assert one == Run(Save(empty, "Loop", first, now(0)), Initial(2).(imported := 1), [Progress(1, 2, "Loop", Imported)]);
    UniqueNameExample(first, now(0));
    var saved := Save(empty, "Loop", first, now(0));
    assert TrackExists(saved, "Loop");
    var counted := one.(results := one.results.(renamed := 1));
    var two := ImportOne(one, b, 1, 2, Rename, now(1));
    assert two == StorePayload(counted, b, 2, 2, "Loop (1)", Renamed, now(1));
    assert ImportFrom(tracks, Rename, now, 2, two) == two;
    assert ImportFrom(tracks, Rename, now, 1, one) == ImportFrom(tracks, Rename, now, 2, two);
  }
}
