/**
 * Legacy conversion (popup.js:686-706 and the legacy branch of startImport at
 * popup.js:736-747): a `PolyTrack<tag>` export string whose version tag is made
 * of lower-case letters and digits is rewritten with the tag `1`, keeping the
 * body that starts at the first capital letter.
 */
module Legacy {
  import opened Wrappers
  import opened JsText
  import TrackInput

  /**
   * convertToPolyTrack1 (popup.js:696-706). None when the string does not start
   * with `PolyTrack`, already starts with `PolyTrack1`, or has no capital letter
   * after a non-empty tag; otherwise `PolyTrack1` followed by the body.
   */
  function ConvertToPolyTrack1(data: string): (r: Option<string>)
    ensures r.Some? <==>
      && StartsWith(data, "PolyTrack")
      && !StartsWith(data, "PolyTrack1")
      && SearchUpper(data[9..]) > 0
    ensures r.Some? ==>
      exists k | 9 < k < |data| ::
        && IsUpper(data[k])
        && (forall i | 9 <= i < k :: !IsUpper(data[i]))
        && r.value == "PolyTrack1" + data[k..]
  {
    if !StartsWith(data, "PolyTrack") then None
    else if StartsWith(data, "PolyTrack1") then None
    else
      var rest := data[9..];
      var bodyStart := SearchUpper(rest);
      if bodyStart <= 0 then None
      else
        SearchUpperFirst(rest);
        assert forall i | 9 <= i < 9 + bodyStart :: data[i] == rest[i - 9];
        assert rest[bodyStart..] == data[9 + bodyStart..];
        Some("PolyTrack1" + rest[bodyStart..])
  }

  /** A converted string is never converted again: it already starts with `PolyTrack1`. */
  lemma NoDoubleConversion(data: string)
    requires ConvertToPolyTrack1(data).Some?
    ensures StartsWith(ConvertToPolyTrack1(data).value, "PolyTrack1")
    ensures ConvertToPolyTrack1(ConvertToPolyTrack1(data).value).None?
  {
    var r := ConvertToPolyTrack1(data).value;
    assert r[..10] == "PolyTrack1";
  }

  /** The tag `24pdr` of `PolyTrack24pdrAbC` is replaced by `1`. */
  lemma ConvertExample()
    ensures ConvertToPolyTrack1("PolyTrack24pdrAbC") == Some("PolyTrack1AbC")
  {
    var data := "PolyTrack24pdrAbC";
    assert data[..9] == "PolyTrack" && StartsWith(data, "PolyTrack");
    assert data[9] == '2' && !StartsWith(data, "PolyTrack1");
    var rest := data[9..];
    assert rest == "24pdrAbC";
    assert SearchUpper(rest) == 5 by {
      assert rest[5..] == "AbC" && SearchUpper("AbC") == 0;
      assert rest[4..] == "rAbC" && "rAbC"[1..] == "AbC" && SearchUpper("rAbC") == 1;
      assert rest[3..] == "drAbC" && "drAbC"[1..] == "rAbC" && SearchUpper("drAbC") == 2;
      assert rest[2..] == "pdrAbC" && "pdrAbC"[1..] == "drAbC" && SearchUpper("pdrAbC") == 3;
      assert rest[1..] == "4pdrAbC" && "4pdrAbC"[1..] == "pdrAbC" && SearchUpper("4pdrAbC") == 4;
      assert rest[1..] == "4pdrAbC";
    }
    assert rest[5..] == "AbC";
    assert "PolyTrack1" + "AbC" == "PolyTrack1AbC";
  }

  /** No tag, an upper-case letter right after `PolyTrack`, and no body at all are each left alone. */
  lemma NotConverted()
    ensures ConvertToPolyTrack1("PolyTrackAbC").None?
    ensures ConvertToPolyTrack1("PolyTrack1AbC").None?
    ensures ConvertToPolyTrack1("PolyTrack24").None?
    ensures ConvertToPolyTrack1("").None?
  {
    assert "PolyTrackAbC"[9..] == "AbC";
    var tag := "PolyTrack24"[9..];
    assert tag == "24" && tag[1..] == "4" && tag[1..][1..] == [];
  }

  // ---------------------------------------------------------------------------
  // The legacy map of startImport
  // ---------------------------------------------------------------------------

  /** The test at popup.js:739 together with a successful conversion. */
  predicate Converts(track: TrackInput.Track) {
    && track.data.Some?
    && StartsWith(track.data.value, "PolyTrack")
    && !StartsWith(track.data.value, "PolyTrack1")
    && ConvertToPolyTrack1(track.data.value).Some?
  }

  /** One record after the legacy map: converted data when it converts, the record itself otherwise. */
  function LegacyTrack(track: TrackInput.Track): (r: TrackInput.Track)
    ensures r.name == track.name && r.shareCode == track.shareCode
    ensures Converts(track) ==> r.data == ConvertToPolyTrack1(track.data.value)
    ensures !Converts(track) ==> r == track
  {
    if Converts(track) then track.(data := ConvertToPolyTrack1(track.data.value)) else track
  }

  /** The records the legacy map gives for tracks. */
  function LegacyMap(tracks: seq<TrackInput.Track>): seq<TrackInput.Track> {
    seq(|tracks|, i requires 0 <= i < |tracks| => LegacyTrack(tracks[i]))
  }

  /** The number of records the legacy map converts (convertedCount). */
  function ConvertedCount(tracks: seq<TrackInput.Track>): (n: nat)
    ensures n <= |tracks|
    decreases |tracks|
  {
    if tracks == [] then 0
    else ConvertedCount(tracks[..|tracks| - 1]) + if Converts(tracks[|tracks| - 1]) then 1 else 0
  }

  /**
   * The `parsedTracks.map` of startImport with its counter (popup.js:736-747):
   * every record in order, converted where it converts, and how many were.
   */
  method LegacyConvert(tracks: seq<TrackInput.Track>) returns (tracksToImport: seq<TrackInput.Track>, convertedCount: nat)
    ensures tracksToImport == LegacyMap(tracks)
    ensures convertedCount == ConvertedCount(tracks)
  {
    tracksToImport := [];
    convertedCount := 0;
    for i := 0 to |tracks|
      invariant tracksToImport == LegacyMap(tracks[..i])
      invariant convertedCount == ConvertedCount(tracks[..i])
    {
      var track := tracks[i];
      var next := track;
      if track.data.Some? && StartsWith(track.data.value, "PolyTrack") && !StartsWith(track.data.value, "PolyTrack1") {
        var converted := ConvertToPolyTrack1(track.data.value);
        if converted.Some? {
          convertedCount := convertedCount + 1;
          next := track.(data := converted);
        }
      }
      assert tracks[..i + 1][..i] == tracks[..i];
      tracksToImport := tracksToImport + [next];
    }
    assert tracks[..|tracks|] == tracks;
  }

  /** The map keeps every record's place, name and share code, and leaves alone each record it does not convert. */
  lemma LegacyMapKeeps(tracks: seq<TrackInput.Track>)
    ensures |LegacyMap(tracks)| == |tracks|
    ensures forall i | 0 <= i < |tracks| ::
      && LegacyMap(tracks)[i].name == tracks[i].name
      && LegacyMap(tracks)[i].shareCode == tracks[i].shareCode
      && (!Converts(tracks[i]) ==> LegacyMap(tracks)[i] == tracks[i])
      && (Converts(tracks[i]) ==> StartsWith(LegacyMap(tracks)[i].data.value, "PolyTrack1"))
  {
    forall i | 0 <= i < |tracks| && Converts(tracks[i])
      ensures StartsWith(LegacyMap(tracks)[i].data.value, "PolyTrack1")
    {
      NoDoubleConversion(tracks[i].data.value);
    }
  }

  /** Running the map twice is running it once: nothing it produces converts again. */
  lemma LegacyMapIdempotent(tracks: seq<TrackInput.Track>)
    ensures LegacyMap(LegacyMap(tracks)) == LegacyMap(tracks)
    ensures ConvertedCount(LegacyMap(tracks)) == 0
  {
    var once := LegacyMap(tracks);
    forall i | 0 <= i < |once|
      ensures !Converts(once[i])
    {
      if Converts(tracks[i]) {
        NoDoubleConversion(tracks[i].data.value);
      }
    }
    NoneConverted(once);
  }

  /** A list none of whose records converts has count zero. */
  lemma {:induction false} NoneConverted(tracks: seq<TrackInput.Track>)
    requires forall i | 0 <= i < |tracks| :: !Converts(tracks[i])
    ensures ConvertedCount(tracks) == 0
    decreases |tracks|
  {
    if tracks != [] {
      NoneConverted(tracks[..|tracks| - 1]);
    }
  }

  /** Converting changes a record: the new data starts with `PolyTrack1` and the old did not. */
  lemma ConvertChanges(track: TrackInput.Track)
    ensures Converts(track) <==> LegacyTrack(track) != track
  {
    if Converts(track) {
      NoDoubleConversion(track.data.value);
    }
  }
}
