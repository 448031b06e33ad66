/**
 * Reading the track name out of a share code (popup.js:138-246): the `v3`
 * form carries a length byte and the name's UTF-8 bytes in the game's
 * 62-symbol packing, the `v1n` form a base64url length byte and the
 * percent-encoded name; the `PolyTrack…` storage form carries no name.
 */
module ShareCode {
  import opened Wrappers
  import opened JsText
  import Codec
  import Utf8
  import Base64
  import Uri

  /** `{ name, shareCode }`, what both share-code decoders return. */
  datatype Named = Named(name: string, shareCode: string)

  /** `{ name: null, data }`, what decodePolyTrackStorage returns. */
  datatype Storage = Storage(name: Option<string>, data: string)

  /**
   * `Math.ceil(nameLen / 3 * 4)` for a length byte. For nameLen a multiple of
   * 3 the float quotient is exact; otherwise 4 * nameLen / 3 is at least a
   * third away from an integer, more than the rounding error, so the ceiling
   * is the integer one.
   */
  function NameCharCount(nameLen: nat): (n: nat)
    ensures 3 * n >= 4 * nameLen && 3 * n < 4 * nameLen + 3
  {
    (4 * nameLen + 2) / 3
  }

  /** A Uint8Array's bytes as the numbers TextDecoder reads. */
  function Numbers(b: seq<bv8>): (r: seq<Utf8.Byte>)
    ensures |r| == |b| && forall i | 0 <= i < |b| :: r[i] == b[i] as int
  {
    seq(|b|, i requires 0 <= i < |b| => b[i] as int)
  }

  /**
   * decodeV3 (popup.js:145-184): the length byte is the first byte xA makes of
   * characters 2 and 3, the name the UTF-8 text of the first nameLen bytes xA
   * makes of the NameCharCount(nameLen) characters after them. None for a
   * code without the `v3` prefix, a length field that decodes to nothing, or
   * name characters outside the alphabet.
   */
  function DecodeV3(shareCode: string): (r: Option<Named>)
    ensures r.Some? ==> r.value.shareCode == shareCode && StartsWith(shareCode, "v3")
  {
    if !StartsWith(shareCode, "v3") || StartsWith(shareCode, "v2") then
      None
    else
      var nameLenBytes := Codec.Decoded(Substring(shareCode, 2, 4));
      if nameLenBytes.None? || nameLenBytes.value == [] then
        None
      else
        var nameLen := nameLenBytes.value[0] as int;
        var nameBytes := Codec.Decoded(Substring(shareCode, 4, 4 + NameCharCount(nameLen)));
        if nameBytes.None? then
          None
        else
          var kept := nameBytes.value[..Clamp(nameLen, |nameBytes.value|)];
          Some(Named(Utf8.TextDecode(Numbers(kept)), shareCode))
  }

  /**
   * decodeV1n (popup.js:194-217): the length byte is the first byte wv makes
   * of characters 3 and 4, the name the decodeURIComponent of the nameLen
   * characters after them. None for a code without the `v1n` prefix, a length
   * field wv rejects or decodes to nothing, or a malformed escape.
   */
  function DecodeV1n(shareCode: string): (r: Option<Named>)
    ensures r.Some? ==> r.value.shareCode == shareCode && StartsWith(shareCode, "v1n")
  {
    if !StartsWith(shareCode, "v1n") then
      None
    else
      var nameLenBytes := Base64.Base64UrlDecoded(Substring(shareCode, 3, 5));
      if nameLenBytes.None? || nameLenBytes.value == [] then
        None
      else
        var nameLen := nameLenBytes.value[0] as int;
        match Uri.DecodeUriComponent(Substring(shareCode, 5, 5 + nameLen))
        case None => None
        case Some(name) => Some(Named(name, shareCode))
  }

  /** decodePolyTrackStorage (popup.js:224-229): a `PolyTrack…` string is kept as it is, with no name. */
  function DecodePolyTrackStorage(data: string): (r: Option<Storage>)
    ensures r.Some? <==> StartsWith(data, "PolyTrack")
    ensures r.Some? ==> r.value == Storage(None, data)
  {
    if !StartsWith(data, "PolyTrack") then None else Some(Storage(None, data))
  }

  /** extractTrackName (popup.js:234-246): the name the decoder for the code's prefix finds. */
  function ExtractTrackName(shareCode: string): Option<string> {
    if StartsWith(shareCode, "v3") && !StartsWith(shareCode, "v2") then
      match DecodeV3(shareCode)
      case Some(result) => Some(result.name)
      case None => None
    else if StartsWith(shareCode, "v1n") then
      match DecodeV1n(shareCode)
      case Some(result) => Some(result.name)
      case None => None
    else
      None
  }

  // ---------------------------------------------------------------------------
  // Properties
  // ---------------------------------------------------------------------------

  /** The `v2` test of decodeV3 and extractTrackName never decides anything: no string starts with both. */
  lemma V2TestRedundant(s: string)
    ensures StartsWith(s, "v3") ==> !StartsWith(s, "v2")
  {
    if StartsWith(s, "v3") {
      assert s[1] == "v3"[1];
    }
  }

  /** The game's packing writes one byte as two symbols. */
  lemma OneByteEncoding(b: bv8)
    ensures |Codec.Encoded([b])| == 2
  {
    var w := Codec.SymbolWidth(Codec.Window([b], 0));
    Codec.EncodedHead([b], 0);
    Codec.EncodedHead([b], w);
    var w2 := Codec.SymbolWidth(Codec.Window([b], w));
    assert Codec.EncodedFrom([b], w + w2) == [];
  }

  /** shareCode with the two-character field at 2 and the name field after it split off. */
  lemma V3Fields(prefix: string, lenField: string, nameField: string, rest: string)
    requires prefix == "v3" && |lenField| == 2
    ensures var s := prefix + lenField + nameField + rest;
      Substring(s, 2, 4) == lenField && Substring(s, 4, 4 + |nameField|) == nameField
  {
    var s := prefix + lenField + nameField + rest;
    assert s[2..4] == lenField;
    assert s[4..4 + |nameField|] == nameField;
  }

  /**
   * A v3 code built the way decodeV3 reads it, with the length byte and the
   * name bytes packed by the game's encoder, gives back the name, as long as
   * the name's packing takes the NameCharCount characters decodeV3 reads.
   */
  lemma V3RoundTrip(lenByte: bv8, name: seq<bv8>, rest: string)
    requires lenByte as int == |name| && |Codec.Encoded(name)| == NameCharCount(|name|)
    ensures var s := "v3" + Codec.Encoded([lenByte]) + Codec.Encoded(name) + rest;
      && DecodeV3(s) == Some(Named(Utf8.TextDecode(Numbers(name)), s))
      && ExtractTrackName(s) == Some(Utf8.TextDecode(Numbers(name)))
  {
    var lenField := Codec.Encoded([lenByte]);
    var s := "v3" + lenField + Codec.Encoded(name) + rest;
    OneByteEncoding(lenByte);
    V3Fields("v3", lenField, Codec.Encoded(name), rest);
    Codec.RoundTrip([lenByte]);
    Codec.RoundTrip(name);
    assert name[..|name|] == name;
    assert StartsWith(s, "v3");
    V2TestRedundant(s);
    assert DecodeV3(s) == Some(Named(Utf8.TextDecode(Numbers(name)), s));
  }

  /** The v3 example `v3LA…`: "LA" is the length byte 11, so 15 name characters follow. */
  lemma V3LengthExample()
    ensures Codec.Decoded("LA") == Some([11])
    ensures NameCharCount(11) == 15
  {
    assert Codec.SymbolValue('L') == Some(11) by {
      Codec.ReverseAt(76);
    }
    assert Codec.SymbolValue('A') == Some(0) by {
      Codec.ReverseAt(65);
    }
    Codec.DecodeStep("LA", [], 0, 11);
    assert Codec.Packed([], 0, 6, 11, false) == [11];
    assert "LA"[1..] == "A";
    Codec.DecodeStep("A", [11], 6, 0);
    assert Codec.Packed([11], 6, 6, 0, true) == [11];
    assert "A"[1..] == "";
  }

  /** Every character of a field is a symbol of yA. */
  predicate InAlphabet(field: string) {
    forall i | 0 <= i < |field| :: field[i] in Codec.Alphabet
  }

  /** The length byte decodeV3 reads from characters 2 and 3, or 0 when they decode to no byte. */
  function V3NameLength(s: string): nat {
    match Codec.Decoded(Substring(s, 2, 4))
    case Some(b) => if b == [] then 0 else b[0] as int
    case None => 0
  }

  /**
   * decodeV3 finds a name exactly when the code starts with `v3`, has a
   * length field, and every character of the length field and of the name
   * field it announces is a symbol of yA.
   */
  lemma V3Accepted(s: string)
    ensures DecodeV3(s).Some? <==>
      && StartsWith(s, "v3") && |s| > 2
      && InAlphabet(Substring(s, 2, 4))
      && InAlphabet(Substring(s, 4, 4 + NameCharCount(V3NameLength(s))))
  {
    V2TestRedundant(s);
    if StartsWith(s, "v3") {
      V3LengthField(s);
      Codec.DecodedFails(Substring(s, 4, 4 + NameCharCount(V3NameLength(s))));
    }
  }

  /** The length field of a `v3` code gives a byte exactly when it is there and all its characters are symbols. */
  lemma V3LengthField(s: string)
    requires StartsWith(s, "v3")
    ensures var b := Codec.Decoded(Substring(s, 2, 4));
      (b.Some? && b.value != []) <==> |s| > 2 && InAlphabet(Substring(s, 2, 4))
  {
    var lenField := Substring(s, 2, 4);
    Codec.DecodedFails(lenField);
    if |s| > 2 {
      assert lenField[0] == s[2];
      if InAlphabet(lenField) {
        Codec.DecodedLength(lenField);
      }
    } else {
      assert lenField == [];
    }
  }

  /** decodeV3 is None for a `v2` code and for a code that ends before its length field. */
  lemma V3Errors(s: string)
    ensures StartsWith(s, "v2") ==> DecodeV3(s) == None
    ensures |s| <= 2 ==> DecodeV3(s) == None
  {
    V3Accepted(s);
    if StartsWith(s, "v3") {
      assert s[1] == '3';
    }
  }

  /** decodeV3 is None when the length field holds a character outside the alphabet. */
  lemma V3BadLength(s: string, i: nat)
    requires 2 <= i < 4 && i < |s| && s[i] !in Codec.Alphabet
    ensures DecodeV3(s) == None
  {
    V3Accepted(s);
    assert Substring(s, 2, 4)[i - 2] == s[i];
  }

  /** decodeV3 is None when the name field the length byte announces holds a character outside the alphabet. */
  lemma V3BadName(s: string, i: nat)
    requires 4 <= i < 4 + NameCharCount(V3NameLength(s)) && i < |s| && s[i] !in Codec.Alphabet
    ensures DecodeV3(s) == None
  {
    V3Accepted(s);
    assert Substring(s, 4, 4 + NameCharCount(V3NameLength(s)))[i - 4] == s[i];
  }

  /** The error cases on sample codes: `v2abc`, `v3`, `v3!!`, and `v3LA!`, whose 15-character name field starts with `!`. */
  lemma V3ErrorExamples()
    ensures DecodeV3("v2abc") == None && DecodeV3("v3") == None
    ensures DecodeV3("v3!!") == None && DecodeV3("v3LA!") == None
  {
    V3Errors("v2abc");
    V3Errors("v3");
    Codec.AlphabetMembership('!');
    V3BadLength("v3!!", 2);
    V3LengthExample();
    BadNameSplit();
    V3BadName("v3LA!", 4);
  }

  /** The two fields decodeV3 reads from `v3LA!`; the name field runs past the end and is cut short. */
  lemma BadNameSplit()
    ensures Substring("v3LA!", 2, 4) == "LA" && Substring("v3LA!", 4, 19) == "!"
  {
    var s := "v3LA!";
    assert s[2..4] == "LA";
    assert s[4..] == "!";
  }

  /** With a decodable length field, a name field that does not decode makes decodeV3 None. */
  lemma BadNameField(s: string, lenBytes: seq<bv8>, nameLen: nat)
    requires StartsWith(s, "v3") && Codec.Decoded(Substring(s, 2, 4)) == Some(lenBytes)
    requires lenBytes != [] && lenBytes[0] as int == nameLen
    requires Codec.Decoded(Substring(s, 4, 4 + NameCharCount(nameLen))) == None
    ensures DecodeV3(s) == None
  {
    V2TestRedundant(s);
    var nameLenBytes := Codec.Decoded(Substring(s, 2, 4));
    assert nameLenBytes.value[0] as int == nameLen;
    assert Codec.Decoded(Substring(s, 4, 4 + NameCharCount(nameLenBytes.value[0] as int))).None?;
  }

  /** shareCode with the two-character field at 3 and the name field after it split off. */
  lemma V1nFields(prefix: string, lenField: string, nameField: string, rest: string)
    requires prefix == "v1n" && |lenField| == 2
    ensures var s := prefix + lenField + nameField + rest;
      Substring(s, 3, 5) == lenField && Substring(s, 5, 5 + |nameField|) == nameField
  {
    var s := prefix + lenField + nameField + rest;
    assert s[3..5] == lenField;
    assert s[5..5 + |nameField|] == nameField;
  }

  /**
   * A v1n code built the way decodeV1n reads it, with the base64url length
   * byte of the percent-encoded name, gives back the name.
   */
  lemma V1nRoundTrip(name: string, rest: string)
    requires |Uri.EncodeUriComponent(name)| < 256
    ensures var e := Uri.EncodeUriComponent(name);
      var s := "v1n" + Base64.Base64UrlEncode([|e|]) + e + rest;
      && DecodeV1n(s) == Some(Named(name, s))
      && ExtractTrackName(s) == Some(name)
  {
    var e := Uri.EncodeUriComponent(name);
    var lenField := Base64.Base64UrlEncode([|e|]);
    var s := "v1n" + lenField + e + rest;
    V1nFields("v1n", lenField, e, rest);
    Base64.RoundTrip([|e|]);
    Uri.DecodeEncoded(name);
    assert StartsWith(s, "v1n");
    assert !StartsWith(s, "v3") by {
      assert s[1] == '1';
    }
  }

  /** The v1n example: "Eg" is the length 18 of `whirled%20up%20box`, which decodes to "whirled up box". */
  lemma V1nExample(rest: string)
    ensures var s := "v1nEgwhirled%20up%20box" + rest;
      DecodeV1n(s) == Some(Named("whirled up box", s))
  {
    var field := "whirled%20up%20box";
    var s := "v1n" + "Eg" + field + rest;
    assert s == "v1nEgwhirled%20up%20box" + rest;
    V1nFields("v1n", "Eg", field, rest);
    Base64.LengthExample();
    Uri.DecodeExample();
    assert StartsWith(s, "v1n");
  }

  /** The length byte decodeV1n reads from characters 3 and 4, or 0 when wv gives no byte for them. */
  function V1nNameLength(s: string): nat {
    match Base64.Base64UrlDecoded(Substring(s, 3, 5))
    case Some(b) => if b == [] then 0 else b[0]
    case None => 0
  }

  /**
   * decodeV1n finds a name exactly when the code starts with `v1n`,
   * characters 3 and 4 are base64 digits of either alphabet, and the name
   * field they announce decodes without a URIError; the length is the first
   * digit's six bits and the top two of the second.
   */
  lemma V1nAccepted(s: string)
    ensures DecodeV1n(s).Some? <==>
      && StartsWith(s, "v1n") && |s| >= 5
      && Base64.WvDigitValue(s[3]).Some? && Base64.WvDigitValue(s[4]).Some?
      && Uri.DecodeUriComponent(Substring(s, 5, 5 + V1nNameLength(s))).Some?
    ensures |s| >= 5 && Base64.WvDigitValue(s[3]).Some? && Base64.WvDigitValue(s[4]).Some? ==>
      V1nNameLength(s) == Base64.WvDigitValue(s[3]).value * 4 + Base64.WvDigitValue(s[4]).value / 16
  {
    var lenField := Substring(s, 3, 5);
    assert |lenField| <= 2;
    if |s| >= 5 {
      assert lenField == [s[3], s[4]];
    }
    Base64.LengthFieldIff(lenField);
  }

  /** decodeV1n is None when the code ends before its length field or a length character is not a base64 digit. */
  lemma V1nBadLength(s: string)
    requires |s| < 5 || Base64.WvDigitValue(s[3]).None? || Base64.WvDigitValue(s[4]).None?
    ensures DecodeV1n(s) == None
  {
    V1nAccepted(s);
  }

  /** decodeV1n is None, where decodeURIComponent would throw, for a `%` in the name field not followed by two hexadecimal digits. */
  lemma V1nBadEscape(s: string, j: nat)
    requires Uri.BadEscapeAt(Substring(s, 5, 5 + V1nNameLength(s)), j)
    ensures DecodeV1n(s) == None
  {
    V1nAccepted(s);
    Uri.BadEscape(Substring(s, 5, 5 + V1nNameLength(s)), j);
  }

  /** The error cases on sample codes: `v1nE` ends inside its length field, and `Aw` announces the three characters `%ZZ`. */
  lemma V1nErrorExamples()
    ensures DecodeV1n("v1nE") == None
    ensures DecodeV1n("v1nAw%ZZ") == None
  {
    V1nBadLength("v1nE");
    BadEscapeExample();
  }

  /** `Aw` is the length byte 3, and the three characters after it are the malformed escape `%ZZ`. */
  lemma BadEscapeExample()
    ensures DecodeV1n("v1nAw%ZZ") == None
  {
    var s := "v1nAw%ZZ";
    AwLength(s);
    var field := Substring(s, 5, 8);
    assert field == s[5..8];
    assert field[0] == '%' && field[1] == 'Z';
    assert Uri.BadEscapeAt(field, 0);
    V1nBadEscape(s, 0);
  }

  /** The length field `Aw` announces three characters. */
  lemma AwLength(s: string)
    requires |s| >= 5 && s[3] == 'A' && s[4] == 'w'
    ensures V1nNameLength(s) == 3
  {
    assert Substring(s, 3, 5) == ['A', 'w'];
    Base64.LengthField('A', 'w');
  }


}
