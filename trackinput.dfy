/**
 * Reading tracks out of pasted or loaded text (popup.js:486-613): which
 * strings count as track data, what a record is made of, and how a file is
 * cut into lines, one record or one rejection per line that is neither blank
 * nor a comment.
 */
module TrackInput {
  import opened Wrappers
  import opened JsText
  import ShareCode

  /** `{ data, shareCode, name }`, what processTrackData makes of one payload. */
  datatype Processed = Processed(data: Option<string>, shareCode: Option<string>, name: Option<string>)

  /** `{ name, data, shareCode }`, one entry of parsedTracks and one track sent to the importer. */
  datatype Track = Track(name: string, data: Option<string>, shareCode: Option<string>)

  /** isValidTrackData (popup.js:486-498): ten characters or more, starting with `PolyTrack`, `v3` or `v1n`. */
  function IsValidTrackData(data: string): (valid: bool)
    ensures valid <==> |data| >= 10 && (StartsWith(data, "PolyTrack") || StartsWith(data, "v3") || StartsWith(data, "v1n"))
  {
    ShareCode.V2TestRedundant(data);
    if |data| < 10 then false
    else if StartsWith(data, "PolyTrack") then true
    else if StartsWith(data, "v3") && !StartsWith(data, "v2") then true
    else StartsWith(data, "v1n")
  }

  /**
   * processTrackData (popup.js:503-536): None below ten characters; otherwise
   * whitespace is removed, and a `PolyTrack` string becomes data while a `v3`
   * or `v1n` string becomes a share code with the name its decoder finds, if
   * any. Any other string is None.
   */
  function ProcessTrackData(rawData: string): (r: Option<Processed>)
    ensures |rawData| < 10 ==> r.None?
    ensures r.Some? ==> (r.value.data.Some? <==> r.value.shareCode.None?)
    ensures r.Some? && r.value.data.Some? ==>
      && r.value.data.value == RemoveWhitespace(rawData)
      && StartsWith(r.value.data.value, "PolyTrack")
      && r.value.name.None?
    ensures r.Some? && r.value.shareCode.Some? ==>
      && r.value.shareCode.value == RemoveWhitespace(rawData)
      && (StartsWith(r.value.shareCode.value, "v3") || StartsWith(r.value.shareCode.value, "v1n"))
      && r.value.name == ShareCode.ExtractTrackName(r.value.shareCode.value)
    ensures |rawData| >= 10 ==>
      (r.Some? <==> (var clean := RemoveWhitespace(rawData);
                     StartsWith(clean, "PolyTrack") || StartsWith(clean, "v3") || StartsWith(clean, "v1n")))
  {
    ShareCode.V2TestRedundant(RemoveWhitespace(rawData));
    if |rawData| < 10 then
      None
    else
      var cleanData := RemoveWhitespace(rawData);
      if StartsWith(cleanData, "PolyTrack") then
        Some(Processed(Some(cleanData), None, None))
      else if StartsWith(cleanData, "v3") && !StartsWith(cleanData, "v2") then
        match ShareCode.DecodeV3(cleanData)
        case Some(result) => Some(Processed(None, Some(cleanData), Some(result.name)))
        case None => Some(Processed(None, Some(cleanData), None))
      else if StartsWith(cleanData, "v1n") then
        match ShareCode.DecodeV1n(cleanData)
        case Some(result) => Some(Processed(None, Some(cleanData), Some(result.name)))
        case None => Some(Processed(None, Some(cleanData), None))
      else
        None
  }

  /** Whatever isValidTrackData accepts, processTrackData makes a record of, of the kind its prefix names. */
  lemma ValidIsProcessed(x: string)
    requires IsValidTrackData(x)
    ensures ProcessTrackData(x).Some?
    ensures StartsWith(x, "PolyTrack") <==> ProcessTrackData(x).value.data.Some?
  {
    var clean := RemoveWhitespace(x);
    var p := if StartsWith(x, "PolyTrack") then "PolyTrack" else if StartsWith(x, "v3") then "v3" else "v1n";
    RemoveWhitespacePrefix(p, x);
    assert p <= clean;
  }

  // ---------------------------------------------------------------------------
  // parseFileContentMulti
  // ---------------------------------------------------------------------------

  /** What one line adds: nothing for a comment, a record, or one to invalidCount. */
  datatype LineOutcome = Comment | Accepted(track: Track) | Rejected

  /** The name a bare payload gets when its decoder finds none: `Imported Track <validCount + 1>`. */
  function GeneratedName(validCount: nat): string {
    "Imported Track " + DecimalString(validCount + 1)
  }

  /** The pipe form `name | payload` at popup.js:561-578: a record when the trimmed name is non-empty and the trimmed payload is track data. */
  function PipeRecord(line: string, pipeIndex: nat): Option<Track>
    requires pipeIndex < |line|
  {
    var trackName := Trim(Substring(line, 0, pipeIndex));
    var rawTrackData := Trim(SubstringFrom(line, pipeIndex + 1));
    if trackName != [] && IsValidTrackData(rawTrackData) then
      match ProcessTrackData(rawTrackData)
      case Some(processed) => Some(Track(trackName, processed.data, processed.shareCode))
      case None => None
    else
      None
  }

  /** One turn of the loop at popup.js:549-610 on a line, with validCount records so far. */
  function ClassifyLine(rawLine: string, validCount: nat): LineOutcome {
    var line := Trim(rawLine);
    if StartsWith(line, "#") || StartsWith(line, "//") then
      Comment
    else
      var pipeIndex := IndexOf(line, '|');
      var piped := if pipeIndex != -1 then PipeRecord(line, pipeIndex) else None;
      if piped.Some? then
        Accepted(piped.value)
      else if IsValidTrackData(line) then
        match ProcessTrackData(line)
        case Some(processed) =>
          var trackName := if processed.name.None? || processed.name.value == [] then GeneratedName(validCount) else processed.name.value;
          Accepted(Track(trackName, processed.data, processed.shareCode))
        case None => Rejected
      else
        Rejected
  }

  /** The records and the three counters of parseFileContentMulti. */
  datatype Summary = Summary(tracks: seq<Track>, validCount: nat, invalidCount: nat, shareCodeCount: nat)

  /** The counters parseFileContentMulti returns. */
  datatype Counts = Counts(validCount: nat, invalidCount: nat, shareCodeCount: nat)

  /** The summary after one more line. */
  function Step(acc: Summary, line: string): Summary {
    match ClassifyLine(line, acc.validCount)
    case Comment => acc
    case Accepted(track) =>
      Summary(acc.tracks + [track], acc.validCount + 1, acc.invalidCount,
              acc.shareCodeCount + if track.shareCode.Some? && track.shareCode.value != [] then 1 else 0)
    case Rejected => Summary(acc.tracks, acc.validCount, acc.invalidCount + 1, acc.shareCodeCount)
  }

  /** Step on a line whose outcome is known. */
  lemma StepBy(acc: Summary, line: string, outcome: LineOutcome)
    requires outcome == ClassifyLine(line, acc.validCount)
    ensures outcome.Comment? ==> Step(acc, line) == acc
    ensures outcome.Accepted? ==>
              var track := outcome.track;
              Step(acc, line) == Summary(acc.tracks + [track], acc.validCount + 1, acc.invalidCount,
                                         acc.shareCodeCount + if track.shareCode.Some? && track.shareCode.value != [] then 1 else 0)
    ensures outcome.Rejected? ==> Step(acc, line) == Summary(acc.tracks, acc.validCount, acc.invalidCount + 1, acc.shareCodeCount)
  {
  }

  /** The summary after the lines, starting from acc. */
  function Parse(lines: seq<string>, acc: Summary): Summary
    decreases |lines|
  {
    if lines == [] then
      acc
    else
      Parse(lines[1..], Step(acc, lines[0]))
  }

  /** `content.split('\n').filter(line => line.trim())`: the lines that are not blank, in order. */
  function NonBlank(lines: seq<string>): (r: seq<string>)
    ensures |r| <= |lines|
    decreases |lines|
  {
    if lines == [] then []
    else if Trim(lines[0]) == [] then NonBlank(lines[1..])
    else [lines[0]] + NonBlank(lines[1..])
  }

  /** The filter keeps exactly the lines that are not blank, in order. */
  lemma {:induction false} NonBlankKeeps(lines: seq<string>)
    ensures forall k | 0 <= k < |NonBlank(lines)| :: Trim(NonBlank(lines)[k]) != [] && NonBlank(lines)[k] in lines
    ensures forall k | 0 <= k < |lines| && Trim(lines[k]) != [] :: lines[k] in NonBlank(lines)
    decreases |lines|
  {
    if lines != [] {
      NonBlankKeeps(lines[1..]);
      assert forall k | 1 <= k < |lines| :: lines[k] == lines[1..][k - 1];
    }
  }

  /** The filter keeps one line exactly when it is not blank. */
  lemma NonBlankOne(line: string)
    ensures NonBlank([line]) == if Trim(line) == [] then [] else [line]
  {
    assert [line][1..] == [];
  }

  /** The filter works line by line: on a concatenation it is the concatenation of the filtered parts. */
  lemma {:induction false} NonBlankConcat(a: seq<string>, b: seq<string>)
    ensures NonBlank(a + b) == NonBlank(a) + NonBlank(b)
    decreases |a|
  {
    if a == [] {
      assert a + b == b;
    } else {
      assert (a + b)[0] == a[0];
      assert (a + b)[1..] == a[1..] + b;
      NonBlankConcat(a[1..], b);
    }
  }

  /** Parsing from line i on is one step on line i, then parsing from i + 1 on. */
  lemma ParseAt(lines: seq<string>, i: nat, acc: Summary)
    requires i < |lines|
    ensures Parse(lines[i..], acc) == Parse(lines[i + 1..], Step(acc, lines[i]))
  {
    assert lines[i..][0] == lines[i];
    assert lines[i..][1..] == lines[i + 1..];
  }

  /** What parseFileContentMulti(content) gives: the summary of the non-blank lines. */
  function Parsed(content: string): Summary {
    Parse(NonBlank(Split(content, '\n')), Summary([], 0, 0, 0))
  }

  /** The popup's list of parsed tracks, which parseFileContentMulti extends. */
  class TrackList {
    var parsedTracks: seq<Track>

    constructor ()
      ensures parsedTracks == []
    {
      parsedTracks := [];
    }

    /** parseFileContentMulti (popup.js:541-613); the name parameter is unused there and left out. */
    method ParseFileContentMulti(content: string) returns (counts: Counts)
      modifies this
      ensures parsedTracks == old(parsedTracks) + Parsed(content).tracks
      ensures counts == Counts(Parsed(content).validCount, Parsed(content).invalidCount, Parsed(content).shareCodeCount)
    {
      var lines := NonBlank(Split(content, '\n'));
      var validCount, invalidCount, shareCodeCount := 0, 0, 0;
      ghost var acc := Summary([], 0, 0, 0);
      for i := 0 to |lines|
        invariant Parsed(content) == Parse(lines[i..], acc)
        invariant acc.validCount == validCount && acc.invalidCount == invalidCount && acc.shareCodeCount == shareCodeCount
        invariant parsedTracks == old(parsedTracks) + acc.tracks
      {
        ParseAt(lines, i, acc);
        acc, validCount, invalidCount, shareCodeCount := TakeLine(lines[i], old(parsedTracks), acc, validCount, invalidCount, shareCodeCount);
      }
      assert lines[|lines|..] == [];
      counts := Counts(validCount, invalidCount, shareCodeCount);
    }

    /** The body of the loop at popup.js:549-610 on one line: a record is appended and counted, or the line is counted as invalid, or skipped as a comment. */
    method TakeLine(line: string, ghost base: seq<Track>, ghost before: Summary, validCount: nat, invalidCount: nat, shareCodeCount: nat)
      returns (ghost after: Summary, valid: nat, invalid: nat, shareCodes: nat)
      requires parsedTracks == base + before.tracks
      requires before.validCount == validCount && before.invalidCount == invalidCount && before.shareCodeCount == shareCodeCount
      modifies this
      ensures after == Step(before, line)
      ensures after.validCount == valid && after.invalidCount == invalid && after.shareCodeCount == shareCodes
      ensures parsedTracks == base + after.tracks
    {
      valid, invalid, shareCodes := validCount, invalidCount, shareCodeCount;
      var outcome := ClassifyLine(line, validCount);
      StepBy(before, line, outcome);
      match outcome {
        case Comment =>
        case Accepted(track) =>
          parsedTracks := parsedTracks + [track];
          valid := valid + 1;
          if track.shareCode.Some? && track.shareCode.value != [] {
            shareCodes := shareCodes + 1;
          }
        case Rejected =>
          invalid := invalid + 1;
      }
      after := Step(before, line);
    }
  }

  // ---------------------------------------------------------------------------
  // Properties of parseFileContentMulti
  // ---------------------------------------------------------------------------

  /** A line after trimming starts with `#` or `//`. */
  predicate IsComment(line: string) {
    StartsWith(Trim(line), "#") || StartsWith(Trim(line), "//")
  }

  /** The number of lines that are not comments. */
  function CountedLines(lines: seq<string>): nat
    decreases |lines|
  {
    if lines == [] then 0 else (if IsComment(lines[0]) then 0 else 1) + CountedLines(lines[1..])
  }

  /** The number of tracks that carry a share code. */
  function ShareCodes(tracks: seq<Track>): nat
    decreases |tracks|
  {
    if tracks == [] then 0
    else ShareCodes(tracks[..|tracks| - 1]) + if tracks[|tracks| - 1].shareCode.Some? && tracks[|tracks| - 1].shareCode.value != [] then 1 else 0
  }

  /** The counters agree with the records: one record per valid line, one share code count per record carrying one. */
  predicate Consistent(s: Summary) {
    |s.tracks| == s.validCount && s.shareCodeCount == ShareCodes(s.tracks)
  }

  /**
   * Every line that is not a comment adds exactly one to validCount or to
   * invalidCount, records are only appended, and the counters keep agreeing
   * with the records.
   */
  lemma {:induction false} ParseCounts(lines: seq<string>, acc: Summary)
    requires Consistent(acc)
    ensures var r := Parse(lines, acc);
      && Consistent(r)
      && acc.tracks <= r.tracks
      && r.validCount + r.invalidCount == acc.validCount + acc.invalidCount + CountedLines(lines)
    decreases |lines|
  {
    if lines != [] {
      var outcome := ClassifyLine(lines[0], acc.validCount);
      var next := Step(acc, lines[0]);
      assert outcome == Comment <==> IsComment(lines[0]);
      if outcome.Accepted? {
        assert (acc.tracks + [outcome.track])[..|acc.tracks|] == acc.tracks;
      }
      ParseCounts(lines[1..], next);
    }
  }

  /** The lines are taken in order: parsing a + b is parsing b after a. */
  lemma {:induction false} ParseAppend(a: seq<string>, b: seq<string>, acc: Summary)
    ensures Parse(a + b, acc) == Parse(b, Parse(a, acc))
    decreases |a|
  {
    if a == [] {
      assert a + b == b;
    } else {
      assert (a + b)[0] == a[0] && (a + b)[1..] == a[1..] + b;
      ParseAppend(a[1..], b, Step(acc, a[0]));
    }
  }

  /** A file's counters: every non-blank line that is not a comment is counted once, and there is one record per valid line. */
  lemma ParsedCounts(content: string)
    ensures var r := Parsed(content);
      && |r.tracks| == r.validCount
      && r.shareCodeCount == ShareCodes(r.tracks)
      && r.validCount + r.invalidCount == CountedLines(NonBlank(Split(content, '\n')))
  {
    ParseCounts(NonBlank(Split(content, '\n')), Summary([], 0, 0, 0));
  }

  /** A `name | payload` line with a non-empty name and a valid payload is a record under the trimmed name the user wrote, not the extracted one. */
  lemma PipeNameKept(rawLine: string, validCount: nat)
    requires var line := Trim(rawLine);
      && !IsComment(rawLine)
      && IndexOf(line, '|') != -1
      && Trim(line[..IndexOf(line, '|')]) != []
      && IsValidTrackData(Trim(line[IndexOf(line, '|') + 1..]))
    ensures var line := Trim(rawLine);
      var p := IndexOf(line, '|');
      var payload := ProcessTrackData(Trim(line[p + 1..]));
      && payload.Some?
      && ClassifyLine(rawLine, validCount) == Accepted(Track(Trim(line[..p]), payload.value.data, payload.value.shareCode))
  {
    var line := Trim(rawLine);
    ValidIsProcessed(Trim(line[IndexOf(line, '|') + 1..]));
  }

  /** A bare payload whose decoder finds no name, or an empty one, is named `Imported Track <validCount + 1>`. */
  lemma GeneratedNameUsed(rawLine: string, validCount: nat)
    requires var line := Trim(rawLine);
      && !IsComment(rawLine)
      && IndexOf(line, '|') == -1
      && IsValidTrackData(line)
      && (match ProcessTrackData(line)
          case Some(processed) => processed.name.None? || processed.name.value == []
          case None => true)
    ensures ClassifyLine(rawLine, validCount).Accepted?
    ensures ClassifyLine(rawLine, validCount).track.name == GeneratedName(validCount)
  {
    ValidIsProcessed(Trim(rawLine));
  }

  /** Generated names differ for different counts, so two bare payloads of one file never get the same generated name. */
  lemma GeneratedNamesDistinct(m: nat, n: nat)
    requires GeneratedName(m) == GeneratedName(n)
    ensures m == n
  {
    var prefix := "Imported Track ";
    assert DecimalString(m + 1) == GeneratedName(m)[|prefix|..];
    assert DecimalString(n + 1) == GeneratedName(n)[|prefix|..];
    DecimalStringInjective(m + 1, n + 1);
  }
}
