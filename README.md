# PolyTrack mass import in Dafny

A model of the logic in the PolyTrack mass-import browser extension that can be checked on its own. The extension reads text files of PolyTrack tracks and writes the tracks into the game's `localStorage`. The model covers five parts.

- **The 62-symbol bit-packing codec of `popup.js`.**
  - `yA`/`bA` are the alphabet and its reverse table.
  - `xA` unpacks text into bytes through `EA`; `AA` packs bytes into text through `kA`.
  - Indices 30 and 31 take five bits and every other index takes six. This is what the code at `popup.js:77` does; the comment on the line above says otherwise.
  - Only bytes → text → bytes round-trips. `AA(xA("9"))` is `"9A"`.
- **Share codes and the input file.**
  - `decodeV3`, `decodeV1n`, `decodePolyTrackStorage` and `extractTrackName`.
  - `isValidTrackData`, `processTrackData` and the line loop of `parseFileContentMulti`.
  - The library functions these call are modelled from their standards:
    - `wv` on top of the browser's `atob` (the forgiving-base64 decode of the WHATWG Infra Standard, with the alphabets of sections 4 and 5 of RFC 4648);
    - `TextDecoder` (section 4 of the WHATWG Encoding Standard, replacement mode, leading byte order mark removed);
    - `decodeURIComponent` (section 19.2.6 of ECMA-262, percent-encoding as in section 2.1 of RFC 3986);
    - and their encoders, as partners for the round-trip lemmas.
- **The legacy downgrade.** `convertToPolyTrack1` and the map `startImport` applies to the parsed tracks when legacy mode is on.
- **The two import engines.**
  - `content.js`: `getExistingTracks`, `trackExists`, `generateUniqueName`, `saveTrack` and `importTracks`. The `localStorage` object is a class whose `setItem` changes it in place.
  - `injector.js`: the synchronous variant of the same engine.
  - The counters do not partition the batch. `overwritten` and `renamed` are counted before the payload check, so they also count records that then fail. `imported` counts every write, renames and overwrites included.
  - The injector's `generateUniqueName` never throws. When the base name and `(1)`..`(999)` are all taken, it returns `"base (1000)"` without checking it, so a rename can overwrite an existing track (`Injector.RenameOverwritesAtCap`).
- **The PNG framing of `icons/generate-icons.js`.** The table-driven CRC-32 of section 5.5 of the PNG Specification (Second Edition), the chunk layout of section 5.3, the IHDR fields of section 11.2.2, and the signature/IHDR/IDAT/IEND assembly of `createPNG`. The compressed IDAT bytes are a parameter.

## Design of the model

- **Imperative code is written as methods.** Each loop of the source is a method with a `while` or `for` loop:
  - `xA` and `AA`;
  - `wv`'s padding loop;
  - `parseFileContentMulti`;
  - the legacy map;
  - `getExistingTracks`, `generateUniqueName` and `importTracks`;
  - `crc32` with its table, `writeUInt32BE`, `createChunk` and `createPNG`.

  Each method's `ensures` ties its result, or its new state, to a specification function. The lemmas are proved about those functions.
- **Mutable objects are classes.**
  - `EA` mutates a growing JavaScript array: `Codec.ByteArray`.
  - `parseFileContentMulti` appends to the global `parsedTracks`: `TrackInput.TrackList`.
  - `localStorage`: `WebStorage.LocalStorage`.
  - `writeUInt32BE` writes into a Buffer: an `array<byte>`.
- **Side effects become values.**
  - `Date.now()` is a parameter: `now`, or `now(i)` for the `i`-th record.
  - The `sendProgress` messages of `content.js` are returned as a sequence in the order they are sent.
  - The JSON envelope `{data, saveTime}` is the datatype value `Saved(data, saveTime)`.
- **Exceptions and `null` results become `None` or `Err` values.**

## Model

| member | source | states |
|---|---|---|
| Codec.ReverseInvertsAlphabet | popup.js:16-19 | for every index i in 0..61, `bA` at the code of `yA[i]` is i |
| Codec.ReverseOnlyAlphabet | popup.js:16-19 | every code below 123 that is not the code of a `yA` character maps to -1 in `bA`, in both directions; any other entry names the index of its character |
| Codec.AlphabetMembership | popup.js:16-19 | a character is in the alphabet exactly when its code is inside `bA` and its entry is not -1 |
| Codec.SymbolValue | popup.js:68-72 | the looked-up value, when there is one, is an index below 62 whose `yA` character is the given one |
| Codec.SymbolValueDefined | popup.js:68-72 | the lookup succeeds exactly for alphabet characters |
| Codec.SymbolWidth | popup.js:76-83 | a symbol takes 5 bits exactly when `value & 31` is 30 or 31, which for indices below 62 means exactly 30 or 31; otherwise it takes 6 bits |
| Codec.ByteArray.Pack | popup.js:25-37 | `EA` grows the array to cover the byte at `bitOffset / 8`, ORs the value's low bits in there, and ORs the rest into the next byte only when the value does not fit and this is not the last symbol |
| Codec.Decode | popup.js:62-87 | the `xA` loop returns what the unpacking specification gives, `null` on the first character with no symbol |
| Codec.Encode | popup.js:93-115 | the `AA` loop returns the symbols the packing specification reads, one window at a time |
| Codec.CharIndex | popup.js:103-109 | the emitted index is below 62: window values 62 and 63 become 30 and 31; a value with a 6-bit width is kept as it is, and the width is preserved |
| Codec.PackStep | popup.js:25-55 | `EA` of the symbol `kA` read at offset o restores the input bytes up to o plus that symbol's width, and restores all of them at the last symbol |
| Codec.RoundTrip | popup.js:62-115 | `xA(AA(b)) == b` for every byte sequence b |
| Codec.DecodedFails | popup.js:62-87 | `xA` returns `null` exactly when some character has no symbol; `xA("")` is the empty array, not `null` |
| Codec.EncodedInAlphabet | popup.js:93-115 | `AA` emits only alphabet characters |
| Codec.DecodedLength | popup.js:25-87 | a nonempty valid input yields `floor(p/8)+1` bytes, p being the total width of all symbols but the last |
| Codec.TextNotRestored | popup.js:25-37 | text does not round-trip: `xA("9")` is `[61]` and `AA([61])` is `"9A"` |
| Base64.ToStandard | popup.js:122 | the result has the same length, with each `-` replaced by `+` and each `_` by `/` |
| Base64.Padded | popup.js:124 | the text extended with fewer than four `=`, up to a multiple of four |
| Base64.Pad | popup.js:124 | the padding loop ends with exactly the padded text |
| Base64.DigitValue | popup.js:126 | `atob` gives a digit value exactly for the characters of the base64 alphabet of section 4 of RFC 4648 |
| Base64.Wv | popup.js:121-136 | `wv` returns `atob`'s bytes for the translated and padded text, `null` when `atob` throws |
| Base64.RoundTrip | popup.js:121-136 | `wv` inverts base64url encoding on every byte sequence |
| Base64.LengthExample | popup.js:199 | `wv("Eg")` is the single byte 18 |
| Base64.LengthField | popup.js:199 | two digits decode to the one byte made of the first digit and the top two bits of the second |
| Base64.WvDigitValue | popup.js:122-126 | a character has a digit value after `wv`'s translation exactly when it is `-`, `_` or a digit of the base64 alphabet of section 4 of RFC 4648 |
| Base64.LengthFieldIff | popup.js:199-200 | a field of at most two characters decodes to a nonempty array exactly when it is two characters that are both digits of either alphabet; the byte is then the first digit times 4 plus the second divided by 16 |
| Base64.BadCharacter | popup.js:125-135 | a character outside both alphabets that is not `=` or whitespace makes `wv` return `null` |
| Base64.BadLength | popup.js:125-135 | a text of digits whose length leaves remainder 1 modulo 4 makes `wv` return `null` |
| Utf8.WellFormedIsScalar | popup.js:176 | every well-formed UTF-8 sequence decodes to a scalar value in the range of its length |
| Utf8.TextDecodeEncoded | popup.js:176 | `TextDecoder` returns the text whose UTF-8 it is given, dropping only a leading byte order mark |
| Utf8.DecodeAscii | popup.js:176 | bytes below 0x80 decode to the characters with those codes |
| Uri.DecodeEncoded | popup.js:209 | `decodeURIComponent` inverts `encodeURIComponent` on every text |
| Uri.DecodePlainPrefix | popup.js:209 | a prefix with no `%` passes through `decodeURIComponent` unchanged, and the text after it still decides whether it throws |
| Uri.DecodeErrors | popup.js:209-215 | a lone `%`, a non-hexadecimal escape, a stray continuation byte, a truncated sequence, an overlong encoding and an encoded surrogate all throw (`null` in `decodeV1n`) |
| Uri.BadEscape | popup.js:209 | every text holding a `%` not followed by two hexadecimal digits makes `decodeURIComponent` throw, wherever that `%` is |
| Uri.ContinuationsAvoid | popup.js:209 | a malformed escape among the continuation escapes of a multi-byte sequence also makes it throw |
| Uri.DecodeExample | popup.js:209 | `"whirled%20up%20box"` decodes to `"whirled up box"` |
| ShareCode.NameCharCount | popup.js:162 | the integer name-field length equals `ceil(L/3*4)`: at least `4L/3` and less than one above it |
| ShareCode.DecodeV3 | popup.js:146-184 | a decoded v3 code always starts with `v3`, and the input is returned unchanged as `shareCode` |
| ShareCode.V3RoundTrip | popup.js:146-184 | a v3 code built from a length byte L and an L-byte name gives back the UTF-8 decoding of those bytes, through both `decodeV3` and `extractTrackName` |
| ShareCode.V3LengthExample | popup.js:141-166 | the length field `"LA"` is L = 11, with 15 name characters |
| ShareCode.V3Errors | popup.js:147-156 | every code starting with `v2`, and every code of at most two characters (empty length field), gives `null` |
| ShareCode.V3BadLength | popup.js:151-156 | every code with a non-alphabet character at index 2 or 3 (inside the length field) gives `null` |
| ShareCode.V3BadName | popup.js:162-173 | every code with a non-alphabet character inside the `ceil(L/3*4)`-character name field gives `null` |
| ShareCode.BadNameField | popup.js:158-173 | once the length field decodes to L, a name field that `xA` rejects gives `null` |
| ShareCode.V3Accepted | popup.js:146-184 | `decodeV3` succeeds exactly when the code starts with `v3`, is longer than two characters, and both its length field and its name field hold only alphabet characters |
| ShareCode.V3LengthField | popup.js:151-156 | the length field yields a nonempty byte array exactly when it is nonempty and holds only alphabet characters |
| ShareCode.V3ErrorExamples | popup.js:147-173 | `"v2abc"`, `"v3"`, `"v3!!"` and `"v3LA!"` all give `null` |
| ShareCode.V2TestRedundant | popup.js:147 | the `!startsWith('v2')` test can never fail once `startsWith('v3')` holds |
| ShareCode.DecodeV1n | popup.js:194-217 | a decoded v1n code always starts with `v1n`, and the input is returned unchanged as `shareCode` |
| ShareCode.V1nRoundTrip | popup.js:194-217 | a v1n code built from the base64url length byte and the percent-encoded name gives back that name, through both `decodeV1n` and `extractTrackName` |
| ShareCode.V1nExample | popup.js:186-212 | `"v1nEgwhirled%20up%20box…"` yields the name `"whirled up box"`, whatever follows |
| ShareCode.V1nAccepted | popup.js:194-217 | `decodeV1n` succeeds exactly when the code starts with `v1n`, has two length digits from either base64 alphabet at indices 3 and 4, and `decodeURIComponent` accepts the name field; the name length is then the first digit times 4 plus the second divided by 16 |
| ShareCode.V1nBadLength | popup.js:199-200 | every code shorter than five characters, or with a character at index 3 or 4 that is in neither base64 alphabet, gives `null` |
| ShareCode.V1nBadEscape | popup.js:206-216 | every code whose name field holds a `%` not followed by two hexadecimal digits gives `null` instead of throwing |
| ShareCode.V1nErrorExamples | popup.js:199-216 | `"v1nE"` and `"v1nAw%ZZ"` give `null` |
| ShareCode.DecodePolyTrackStorage | popup.js:224-229 | exactly the `PolyTrack`-prefixed strings are accepted, as they are and with no name |
| TrackInput.IsValidTrackData | popup.js:486-498 | valid exactly when at least 10 characters long and starting with `PolyTrack`, `v3` or `v1n` |
| TrackInput.ProcessTrackData | popup.js:504-536 | `null` below 10 characters; from 10 characters on, a result exists exactly when the whitespace-stripped text starts with `PolyTrack`, `v3` or `v1n`. `PolyTrack` sets only `data`, and `v3`/`v1n` set only `shareCode` plus the extracted name, which may be `null` |
| TrackInput.ValidIsProcessed | popup.js:486-536 | whenever `isValidTrackData(x)` holds, `processTrackData(x)` is not `null`, and it holds `data` exactly when x starts with `PolyTrack` |
| TrackInput.TrackList.ParseFileContentMulti | popup.js:541-613 | appends to `parsedTracks` the records of the line-by-line specification, and returns its valid, invalid and share-code counts |
| TrackInput.TrackList.TakeLine | popup.js:549-610 | one turn of the line loop: the counters and `parsedTracks` move as the specification's step on that line says |
| TrackInput.ParsedCounts | popup.js:541-613 | one record per valid line; the share-code count is the number of records holding a share code; valid plus invalid is the number of non-blank, non-comment lines |
| TrackInput.ParseCounts | popup.js:548-610 | each counted line adds exactly one to valid or invalid, and earlier records stay in front |
| TrackInput.ParseAppend | popup.js:548-610 | records are emitted in line order: parsing two blocks of lines is parsing the first, then continuing with the second |
| TrackInput.NonBlankKeeps | popup.js:542 | the lines kept are exactly the input lines that are not blank after trimming |
| TrackInput.NonBlankOne | popup.js:542 | a single line is kept exactly when it is not blank after trimming |
| TrackInput.NonBlankConcat | popup.js:542 | the filter works line by line: filtering `a + b` is filtering a, then b, keeping their order |
| TrackInput.PipeNameKept | popup.js:558-577 | a `name \| payload` line keeps the trimmed user name, not the extracted one |
| TrackInput.GeneratedNameUsed | popup.js:581-601 | a bare payload with no extracted name is named `Imported Track <validCount+1>` |
| TrackInput.GeneratedNamesDistinct | popup.js:589 | different counts give different generated names |
| JsText.TrimProperties | popup.js:549 | `trim()` cuts off exactly the leading and trailing whitespace: the result is the slice between them, with no whitespace at either end, and everything cut away is whitespace; it is empty exactly when the input is all whitespace |
| JsText.SplitJoin | popup.js:542 | joining the pieces of `split('\n')` with `\n` restores the text |
| JsText.SplitPieces | popup.js:542 | no piece of `split` contains the separator |
| JsText.RemoveWhitespaceFree | popup.js:508 | `replace(/\s+/g, '')` leaves no whitespace |
| JsText.RemoveWhitespaceOne | popup.js:508 | one character is removed exactly when it is whitespace, and kept otherwise |
| JsText.RemoveWhitespaceConcat | popup.js:508 | whitespace is removed piece by piece: with RemoveWhitespaceOne, every non-whitespace character is kept, in its order |
| JsText.IndexOfFirst | popup.js:558 | `indexOf` is -1 exactly when the character is absent, and otherwise finds the first occurrence |
| JsText.SearchUpperFirst | popup.js:702 | the search finds the first uppercase letter, and -1 exactly when there is none |
| Legacy.ConvertToPolyTrack1 | popup.js:696-706 | a result exists exactly for `PolyTrack…` input that does not start with `PolyTrack1` and whose first uppercase letter after `PolyTrack` is past index 9; it is `PolyTrack1` followed by the input from that letter |
| Legacy.NoDoubleConversion | popup.js:696-706 | a converted value starts with `PolyTrack1`, so converting it again gives `null` |
| Legacy.ConvertExample | popup.js:696-706 | `"PolyTrack24pdrAbC"` becomes `"PolyTrack1AbC"` |
| Legacy.NotConverted | popup.js:697-703 | an uppercase letter at index 9, a `PolyTrack1` prefix, no uppercase letter, and an empty input all give `null` |
| Legacy.LegacyTrack | popup.js:739-746 | a track keeps its name and share code; its data is replaced only when the conversion succeeds |
| Legacy.LegacyConvert | popup.js:736-747 | the map loop returns the mapped list and the number of tracks converted |
| Legacy.LegacyMapKeeps | popup.js:738-747 | the map keeps the list's length, every name and share code, and every record it does not convert |
| Legacy.LegacyMapIdempotent | popup.js:736-747 | mapping twice is mapping once, and the second pass converts nothing |
| Legacy.ConvertChanges | popup.js:738-747 | a record changes exactly when its data converts |
| WebStorage.GetItem | content.js:47 | `getItem` returns a value exactly for stored keys |
| WebStorage.LocalStorage.Key | content.js:33-34 | `key(i)` returns the i-th key when there is one and `null` past the end |
| WebStorage.StoredWellFormed | content.js:77 | `setItem` keeps every key listed once; an existing key keeps its place and a new one is listed last |
| TrackStore.TrackKey | content.js:9 | a track's key is the fixed prefix followed by its name |
| TrackStore.GetExistingTracks | content.js:30-40 | returns, in key order, the name part of every key that starts with the prefix |
| TrackStore.ListedIffKey | content.js:30-40 | a name is listed exactly when the key for it is in the storage |
| TrackStore.TrackNamesDistinct | content.js:30-40 | when the keys are distinct, the listed names are too |
| TrackStore.TrackExists | content.js:45-48 | a track exists exactly when `getItem` of its key is not `null` |
| TrackStore.ExistsIffListed | content.js:30-48 | in a well-formed storage, `trackExists` agrees with `getExistingTracks` |
| TrackStore.SaveTrack | content.js:71-79 | `saveTrack` sets the track's key to the envelope of the data and the time |
| TrackStore.SaveEffect | content.js:71-77 | after `saveTrack` the track exists with that envelope, every other key reads as before, and the name is listed once more only if it was new |
| TrackStore.CandidatesDistinct | content.js:53-64 | the names `generateUniqueName` tries are pairwise distinct |
| JsText.DecimalStringInjective | content.js:58 | different counters print differently |
| ContentScript.GenerateUniqueName | content.js:53-66 | the `while` loop returns, or throws, what the name search specifies |
| ContentScript.UniqueNameFirstFree | content.js:53-66 | returns the base name if it is free, otherwise `base (k)` for the least free k in 1..999, and throws exactly when all of them are taken. A returned name is never stored |
| ContentScript.UniqueNameExample | content.js:53-66 | with `"Loop"` stored, the name for `"Loop"` is `"Loop (1)"` |
| ContentScript.PayloadOf | content.js:125-136 | non-empty data starting with `PolyTrack` is stored as it is, even when a share code is also present; otherwise a non-empty share code is stored; otherwise there is nothing to store |
| ContentScript.ImportTracks | content.js:84-161 | the loop leaves the storage, results and progress messages the import specification gives, record after record |
| ContentScript.ImportRecord | content.js:96-158 | one turn of the loop on one record, for every collision mode |
| ContentScript.StoreRecord | content.js:125-147 | the payload step: write and count it, with one warning for a share code, or push one error and report the original name |
| ContentScript.ImportOneCases | content.js:96-158 | every record ends in exactly one of imported, skipped or error and sends one progress message numbered i+1 of the total. A warning is added exactly when a share code is written |
| ContentScript.ImportOneSkipped | content.js:104-110 | under `skip`, an existing name is accounted for with one skip and one message |
| ContentScript.ImportOneOverwritten | content.js:112-115 | under `overwrite`, an existing name is accounted for like a new one |
| ContentScript.ImportOneRenamed | content.js:117-121 | under `rename`, an existing name ends in one write or one error, including when the name search gives up, and never counts a skip |
| ContentScript.StorePayloadCases | content.js:125-147 | the payload step adds exactly one of a write or an error, a warning exactly for a share code, and never a skip |
| ContentScript.ImportOneReported | content.js:96-158 | the one progress message of a record matches the storage: a written status means the payload was saved under the reported name and imported grew by one; otherwise nothing was written. A write reports the final name (content.js:147), which differs from the original only under `rename` of an existing name and is then a name that was free; an `error` (content.js:140, 156) and a `skipped` message carry the original name; `skipped` is reported exactly for `skip` of an existing name |
| ContentScript.StorePayloadReported | content.js:125-147 | the payload step reports `error` under the original name and writes nothing when there is no payload, and otherwise saves the payload under the final name and reports the given status under it |
| ContentScript.UniqueNameFree | content.js:53-66 | a name returned by the name search is not stored |
| ContentScript.ImportAccounting | content.js:84-161 | `imported + skipped + errors.length == total == tracks.length`, and the i-th progress message is numbered i+1 of `tracks.length` |
| ContentScript.ImportWrites | content.js:71-79 | the import only writes track keys and every key stored before is still stored after, in every mode; under `skip` and `rename` every stored track keeps its envelope |
| ContentScript.UnknownModeOverwrites | content.js:104-147 | under an unrecognised mode, an existing track with data or a share code is overwritten with that payload, counted only as imported (with the share-code warning where one applies) and reported `imported` under its name |
| ContentScript.UnknownModeCounts | content.js:104-123 | an unrecognised mode never counts a skip, rename or overwrite |
| ContentScript.CountedBeforePayload | content.js:111-140 | `overwritten` (content.js:113) and `renamed` (content.js:119) are counted before the payload check: an existing name under `overwrite`, or under `rename` with a free name, that has nothing to store still adds one to that counter, then adds one error and an `error` message under the original name, and leaves the storage and `imported` as they were |
| ContentScript.SkipLeavesStored | content.js:104-110 | under `skip`, an existing name leaves the storage as it was, counts one skip and reports `skipped` under the original name |
| ContentScript.RenameExample | content.js:112-147 | renaming over a stored `"Loop"` writes `"Loop (1)"` and counts it both as renamed and as imported |
| ContentScript.TwoLoopsRenamed | content.js:96-147 | later records see earlier writes: two `"Loop"` records under `rename` on an empty storage are saved as `"Loop"` and `"Loop (1)"` |
| Injector.GenerateUniqueName | injector.js:56-67 | the `while`/`break` loop returns what the injector's name search specifies |
| Injector.UniqueNameFirstFree | injector.js:56-67 | the result is the first untaken name among the base and `base (1)`..`base (999)`, or `base (1000)` when all are taken. It is free whenever one of them is |
| Injector.UniqueNameAtCap | injector.js:60-66 | when the base and all of `(1)`..`(999)` are taken, the result is `base (1000)`, without any check |
| Injector.RenameOverwritesAtCap | injector.js:103-116 | if `base (1000)` is also stored, a rename overwrites it and this still counts as renamed and imported |
| Injector.ImportTracks | injector.js:78-124 | the loop leaves the storage and results the injector's import specification gives |
| Injector.ImportRecord | injector.js:89-121 | one turn of the loop on one record, for every collision mode |
| Injector.ImportOneCounts | injector.js:89-121 | each record adds exactly one to imported, skipped or the errors |
| Injector.ImportAccounting | injector.js:78-124 | `imported + skipped + errors.length == total == tracks.length` |
| Injector.ImportWrites | injector.js:69-76 | the import only writes track keys and every key stored before is still stored after, in every mode; under `skip` every stored track keeps its envelope |
| Injector.ImportOneStore | injector.js:89-121 | a record is saved, under the renamed name for `rename` of an existing name and under its own name otherwise, exactly when it has export data and is not a `skip` of an existing name; a saved record adds one import, any other leaves storage and imports as they were |
| Injector.SkipLeavesStored | injector.js:95-99 | under `skip`, an existing name leaves the storage as it was and only counts one skip |
| Injector.ShareCodeRejected | injector.js:110-113 | a record with only a share code writes nothing and adds one error |
| Injector.CountedBeforeData | injector.js:100-113 | `overwritten` (injector.js:101) and `renamed` (injector.js:105) are counted before the data check: an existing name under `overwrite` or `rename` without an export string still adds one to that counter, then adds one error, and leaves the storage and `imported` as they were |
| Png.MakeTable | icons/generate-icons.js:15-23 | entry i of the table is i after eight reflected shift/xor steps with 0xEDB88320 |
| Png.UpdateAll | icons/generate-icons.js:25-27 | the byte loop computes the register as a left fold of the table step |
| Png.Crc32 | icons/generate-icons.js:13-30 | `crc32` is the fold from all ones followed by the final xor; the result is a 32-bit value |
| Png.CrcEmpty | icons/generate-icons.js:14-29 | `crc32` of no bytes is 0 |
| Png.RegisterAppend | icons/generate-icons.js:25-27 | the register after `a ++ b` is the register after b, started from the register after a |
| Png.CrcAppend | icons/generate-icons.js:25-29 | the CRC of `a ++ b` continues from a's register, with the final xor applied once at the end |
| Png.WriteUInt32BE | icons/generate-icons.js:49-50 | the four bytes at the offset become the value's big-endian bytes, and the rest of the buffer is unchanged |
| Png.ReadWrittenBE32 | icons/generate-icons.js:34-35 | reading back big-endian bytes written for a 32-bit value gives the value |
| Png.CreateChunk | icons/generate-icons.js:32-42 | `createChunk` returns the length, type, data and CRC bytes of the chunk |
| Png.ChunkBytes | icons/generate-icons.js:41 | a chunk is 12 bytes longer than its data for a 4-byte type |
| Png.ReadCreatedChunk | icons/generate-icons.js:32-42 | a chunk reader gets the type and data back from a created chunk, whatever follows it |
| Png.ReadWrittenChunks | icons/generate-icons.js:91-98 | a concatenation of created chunks reads back as those chunks |
| Png.CreatePng | icons/generate-icons.js:44-98 | the assembly returns the signature followed by the IHDR, IDAT and IEND chunks |
| Png.PngLayout | icons/generate-icons.js:45-98 | the file is 57 bytes longer than the IDAT data, starts with 89 50 4E 47 0D 0A 1A 0A, and its chunks read back as IHDR, IDAT and an IEND with no data |
| Png.HeaderFields | icons/generate-icons.js:48-55 | IHDR is 13 bytes: width and height as big-endian at offsets 0 and 4, then 8, 2, 0, 0, 0 |

## Left out

- Characters are UTF-16 code units in the source. Here they are Dafny `char`s, which are Unicode scalar values, so unpaired surrogates cannot be expressed, and a character outside the Basic Multilingual Plane counts as one character here but as two code units in JavaScript. Every length and offset in the model therefore counts such a character once:
  - the `length < 10` tests of `isValidTrackData` and `processTrackData` (popup.js:487, 505) accept `"v3"` followed by four such characters in the source (JS length 10), which then becomes a share-code record named `Imported Track <n>`; `TrackInput.IsValidTrackData` rejects it (length 6) and the line is counted as invalid;
  - the `substring` offsets of `decodeV3` and `decodeV1n` (popup.js:166, 206) slice a name field holding such characters at different places than the source does.
- `console.log`, the 50 ms delay between records (`content.js:150-152`) and the delivery of the progress messages through `chrome.runtime.sendMessage` are left out. The messages themselves are returned as a sequence.
- `JSON.stringify` of the envelope is the datatype value `Saved(data, saveTime)`; the JSON text is not modelled.
- `Date.now()` is the parameter `now`, so the model says nothing about clocks.
- `background.js` is not part of this model. It holds only extension lifecycle hooks.
- Also not modelled: the popup's user interface, file reading, the messaging in `startImport` apart from the legacy map, `exportAllTracks`, `deleteAllTracksWithConfirm` and `downloadFailedTracksLog`. They are browser plumbing.
- `parseFileContent`, the single-file legacy variant at `popup.js:618`, is not modelled. It is not used by the multi-file path.
- The message listeners and the `window.postMessage` calls of `content.js` and `injector.js` are not modelled.
- A `setItem` that throws a quota error, and the other `catch` paths that no modelled input can reach, are not modelled. The one throw that can happen, the content script's failed name search, is modelled as an error record.
- The pixel loop, floating-point colours, `zlib.deflateSync` and the file writes of `generate-icons.js` are left out. The compressed IDAT bytes are a parameter.
- Png.Crc32: no concrete CRC value and no bit-serial reference CRC is proved; the contract ties `crc32` to the table-driven fold the source computes.
- Png.WriteUInt32BE: Node's `writeUInt32BE` throws for values of 2^32 or more. Here that is the precondition `value < LIMIT`, and in turn a requirement on `createChunk`'s data length and `createPNG`'s size.
- The `Buffer.from('IHDR')`-style type names are byte constants in the model.
- The unused `name` parameter of `parseFileContentMulti` is not modelled.
- ShareCode.V3RoundTrip requires the packed name to take exactly `ceil(4L/3)` characters, which is the field length `decodeV3` reads. Names whose packing is longer are not covered by the lemma. It is never shorter: each symbol of `AA` takes at most 6 bits, so L bytes take at least `ceil(8L/6) = ceil(4L/3)` symbols.
- The order of `localStorage` keys is not fixed by the source. The model lists a key written for the first time after all others.
- `extractTrackName` has no contract of its own. The two round-trip lemmas state what it returns.
- Injector.ImportAccounting states no progress property, because the injector sends no progress messages.
