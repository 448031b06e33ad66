/**
 * Base64 as `wv` uses it: the browser's `atob`, which is the forgiving-base64
 * decode of the WHATWG Infra Standard over the alphabet of section 4 of
 * RFC 4648, and `wv` itself, which first turns the URL- and filename-safe
 * alphabet of section 5 of RFC 4648 into that one and pads the text with `=`.
 * `atob` returns a binary string whose code units are the bytes; here it
 * returns the bytes. A thrown exception is None.
 */
module Base64 {
  import opened Wrappers
  import opened Utf8

  /** A base64 digit value. */
  type Sextet = v: int | 0 <= v < 64

  /** The value of a digit of the RFC 4648 section 4 alphabet `A-Za-z0-9+/`. */
  function DigitValue(c: char): (r: Option<Sextet>)
    ensures r.Some? <==> (('A' <= c <= 'Z') || ('a' <= c <= 'z') || ('0' <= c <= '9') || c == '+' || c == '/')
  {
    if 'A' <= c <= 'Z' then Some(c as int - 'A' as int)
    else if 'a' <= c <= 'z' then Some(c as int - 'a' as int + 26)
    else if '0' <= c <= '9' then Some(c as int - '0' as int + 52)
    else if c == '+' then Some(62)
    else if c == '/' then Some(63)
    else None
  }

  /** The ASCII whitespace forgiving-base64 ignores: tab, line feed, form feed, carriage return and space. */
  predicate IsAsciiWhitespace(c: char) {
    c == '\t' || c == '\n' || c == '\U{000C}' || c == '\r' || c == ' '
  }

  /** s without its ASCII whitespace. */
  function StripAsciiWhitespace(s: string): (r: string)
    ensures |r| <= |s|
    ensures (forall i | 0 <= i < |s| :: !IsAsciiWhitespace(s[i])) ==> r == s
    decreases |s|
  {
    if s == [] then []
    else if IsAsciiWhitespace(s[0]) then StripAsciiWhitespace(s[1..])
    else
      assert s == [s[0]] + s[1..];
      [s[0]] + StripAsciiWhitespace(s[1..])
  }

  /** One or two trailing `=` removed, when the length is a multiple of four. */
  function Unpadded(s: string): (r: string)
    ensures r <= s && |s| - 2 <= |r|
    ensures forall k | |r| <= k < |s| :: s[k] == '='
  {
    if |s| % 4 != 0 then s
    else if |s| >= 2 && s[|s| - 2] == '=' && s[|s| - 1] == '=' then s[..|s| - 2]
    else if |s| >= 1 && s[|s| - 1] == '=' then s[..|s| - 1]
    else s
  }

  /** The digit values of s, or None when some character is not a digit. */
  function Digits(s: string): (r: Option<seq<Sextet>>)
    ensures r.Some? ==> |r.value| == |s|
    ensures r.Some? <==> forall i | 0 <= i < |s| :: DigitValue(s[i]).Some?
    decreases |s|
  {
    if s == [] then Some([])
    else
      match (DigitValue(s[0]), Digits(s[1..]))
      case (Some(v), Some(vs)) => Some([v] + vs)
      case (None, _) => None
      case (_, None) =>
        assert forall i | 1 <= i < |s| :: s[i] == s[1..][i - 1];
        None
  }

  /** The bytes of a digit sequence: three per four digits, then one for two digits and two for three. */
  function Bytes(vs: seq<Sextet>): (r: seq<Byte>)
    requires |vs| % 4 != 1
    ensures |r| == |vs| * 3 / 4
    decreases |vs|
  {
    if |vs| >= 4 then
      var v0: int, v1: int, v2: int, v3: int := vs[0], vs[1], vs[2], vs[3];
      [v0 * 4 + v1 / 16, (v1 % 16) * 16 + v2 / 4, (v2 % 4) * 64 + v3] + Bytes(vs[4..])
    else if |vs| == 3 then
      var v0: int, v1: int, v2: int := vs[0], vs[1], vs[2];
      [v0 * 4 + v1 / 16, (v1 % 16) * 16 + v2 / 4]
    else if |vs| == 2 then
      var v0: int, v1: int := vs[0], vs[1];
      [v0 * 4 + v1 / 16]
    else
      []
  }

  /**
   * `atob(s)`: whitespace dropped, then one or two `=` of a length that is a
   * multiple of four; None when a length of 1 modulo 4 remains or a
   * character is not a digit; otherwise the bytes the digits hold, the bits
   * left over in a last partial group being dropped.
   */
  function Atob(s: string): Option<seq<Byte>> {
    var t := Unpadded(StripAsciiWhitespace(s));
    if |t| % 4 == 1 then None
    else
      match Digits(t)
      case None => None
      case Some(vs) => Some(Bytes(vs))
  }

  // ---------------------------------------------------------------------------
  // wv: base64url in, bytes out
  // ---------------------------------------------------------------------------

  /** `s.replace(/-/g, '+').replace(/_/g, '/')`: the digits of section 5 of RFC 4648 renamed to their section 4 spelling. */
  function ToStandard(s: string): (r: string)
    ensures |r| == |s|
    ensures forall i | 0 <= i < |s| :: r[i] == (if s[i] == '-' then '+' else if s[i] == '_' then '/' else s[i])
  {
    seq(|s|, i requires 0 <= i < |s| => if s[i] == '-' then '+' else if s[i] == '_' then '/' else s[i])
  }

  /** n padding characters. */
  function Pads(n: nat): (r: string)
    ensures |r| == n && forall i | 0 <= i < n :: r[i] == '='
  {
    seq(n, _ => '=')
  }

  /** The padding loop stops after exactly the count Padded appends. */
  lemma PaddingCount(n: nat, k: nat)
    requires k <= (4 - n % 4) % 4 && (n + k) % 4 == 0
    ensures k == (4 - n % 4) % 4
  {
  }

  /** s with `=` appended up to the next multiple of four characters. */
  function Padded(s: string): (r: string)
    ensures |r| % 4 == 0 && s <= r && |r| - |s| < 4
    ensures forall i | |s| <= i < |r| :: r[i] == '='
  {
    s + Pads((4 - |s| % 4) % 4)
  }

  /** What `wv(s)` returns. */
  function Base64UrlDecoded(s: string): Option<seq<Byte>> {
    Atob(Padded(ToStandard(s)))
  }

  /** The padding loop of `wv`: `=` appended while the length is not a multiple of four. */
  method Pad(std: string) returns (base64: string)
    ensures base64 == Padded(std)
  {
    base64 := std;
    ghost var k := 0;
    while |base64| % 4 != 0
      invariant k <= (4 - |std| % 4) % 4 && |base64| == |std| + k
      invariant base64 == std + Pads(k)
      decreases (4 - |std| % 4) % 4 - k
    {
      assert Pads(k) + "=" == Pads(k + 1);
      base64 := base64 + "=";
      k := k + 1;
    }
    PaddingCount(|std|, k);
  }

  /** `wv(s)`: rename, pad, decode, and copy the binary string into a fresh byte array. */
  method Wv(s: string) returns (r: Option<seq<Byte>>)
    ensures r == Base64UrlDecoded(s)
  {
    var base64 := Pad(ToStandard(s));
    var decoded := Atob(base64);
    if decoded.None? {
      return None;
    }
    var bytes := new Byte[|decoded.value|];
    for i := 0 to |decoded.value|
      invariant forall j | 0 <= j < i :: bytes[j] == decoded.value[j]
    {
      bytes[i] := decoded.value[i];
    }
    assert bytes[..] == decoded.value;
    return Some(bytes[..]);
  }

  // ---------------------------------------------------------------------------
  // The base64url encoder of section 5 of RFC 4648, and the round trip
  // ---------------------------------------------------------------------------

  /** The digits of a byte sequence: four per three bytes, then three for two bytes and two for one, unpadded. */
  function Sextets(b: seq<Byte>): (r: seq<Sextet>)
    ensures |r| % 4 != 1
    ensures |r| * 3 / 4 == |b|
    decreases |b|
  {
    if |b| >= 3 then
      var rest := Sextets(b[3..]);
      FourMoreDigits(|rest|);
      DigitBounds(b[0], b[1]);
      DigitBounds(b[1], b[2]);
      [b[0] / 4, (b[0] % 4) * 16 + b[1] / 16, (b[1] % 16) * 4 + b[2] / 64, b[2] % 64] + rest
    else if |b| == 2 then
      DigitBounds(b[0], b[1]);
      [b[0] / 4, (b[0] % 4) * 16 + b[1] / 16, (b[1] % 16) * 4]
    else if |b| == 1 then
      DigitBounds(b[0], 0);
      [b[0] / 4, (b[0] % 4) * 16]
    else
      []
  }

  /** The pieces of two bytes that make up a digit are digits. */
  lemma DigitBounds(x: Byte, y: Byte)
    ensures 0 <= x / 4 < 64 && 0 <= x % 64 < 64
    ensures 0 <= (x % 4) * 16 + y / 16 < 64 && 0 <= (x % 16) * 4 + y / 64 < 64
    ensures 0 <= (x % 4) * 16 < 64 && 0 <= (x % 16) * 4 < 64
  {
  }

  /** Four more digits hold three more bytes. */
  lemma FourMoreDigits(n: nat)
    ensures (n + 4) * 3 / 4 == n * 3 / 4 + 3
    ensures (n + 4) % 4 == n % 4
  {
    assert (n + 4) * 3 == n * 3 + 12;
  }

  /** The RFC 4648 section 5 digit of a value: `A-Za-z0-9-_`. */
  function UrlDigit(v: Sextet): (c: char)
    ensures DigitValue(if c == '-' then '+' else if c == '_' then '/' else c) == Some(v)
    ensures c != '=' && !IsAsciiWhitespace(c)
  {
    if v < 26 then ('A' as int + v) as char
    else if v < 52 then ('a' as int + v - 26) as char
    else if v < 62 then ('0' as int + v - 52) as char
    else if v == 62 then '-'
    else '_'
  }

  /** The base64url text of b, without padding (section 3.2 of RFC 4648 allows leaving it off). */
  function Base64UrlEncode(b: seq<Byte>): (r: string)
    ensures |r| == |Sextets(b)|
  {
    var vs := Sextets(b);
    seq(|vs|, i requires 0 <= i < |vs| => UrlDigit(vs[i]))
  }

  /** The bytes of the digits of b are b again. */
  lemma {:induction false} BytesOfSextets(b: seq<Byte>)
    ensures Bytes(Sextets(b)) == b
    decreases |b|
  {
    var vs := Sextets(b);
    if |b| >= 3 {
      BytesOfSextets(b[3..]);
      assert vs[4..] == Sextets(b[3..]);
      assert b == [b[0], b[1], b[2]] + b[3..];
    } else if |b| == 2 {
      assert b == [b[0], b[1]];
    } else if |b| == 1 {
      assert b == [b[0]];
    }
  }

  /** The characters the encoder writes, renamed as `wv` renames them, are the digits of the encoded values. */
  lemma EncodedDigits(b: seq<Byte>)
    ensures var std := ToStandard(Base64UrlEncode(b));
      forall i | 0 <= i < |std| :: DigitValue(std[i]) == Some(Sextets(b)[i])
  {
    var e := Base64UrlEncode(b);
    var vs := Sextets(b);
    var std := ToStandard(e);
    forall i | 0 <= i < |std|
      ensures DigitValue(std[i]) == Some(vs[i])
    {
      assert e[i] == UrlDigit(vs[i]);
    }
  }

  /** Padding digits of a length that is not 1 modulo 4, then unpadding, gives them back. */
  lemma UnpadPadded(std: string)
    requires |std| % 4 != 1
    requires forall i | 0 <= i < |std| :: DigitValue(std[i]).Some?
    ensures StripAsciiWhitespace(Padded(std)) == Padded(std)
    ensures Unpadded(Padded(std)) == std
  {
    PaddedDigitsNoWhitespace(std);
    var p := Padded(std);
    if |std| % 4 == 0 {
      assert p == std;
      if |std| >= 1 {
        assert DigitValue(std[|std| - 1]).Some?;
      }
    } else if |std| % 4 == 3 {
      assert |p| == |std| + 1 && p[|p| - 1] == '=';
      assert p[|p| - 2] == std[|std| - 1];
      assert DigitValue(p[|p| - 2]).Some?;
      assert p[..|p| - 1] == std;
    } else {
      assert |p| == |std| + 2 && p[|p| - 1] == '=' && p[|p| - 2] == '=';
      assert p[..|p| - 2] == std;
    }
  }

  /** Digits padded with `=` hold no whitespace. */
  lemma PaddedDigitsNoWhitespace(std: string)
    requires forall i | 0 <= i < |std| :: DigitValue(std[i]).Some?
    ensures forall i | 0 <= i < |Padded(std)| :: !IsAsciiWhitespace(Padded(std)[i])
  {
    var p := Padded(std);
    forall i | 0 <= i < |p|
      ensures !IsAsciiWhitespace(p[i])
    {
      if i < |std| {
        assert std[i] == p[i];
        assert DigitValue(p[i]).Some?;
      }
    }
  }

  /** Decoding what the RFC 4648 section 5 encoder writes, as `wv` does, gives the bytes back. */
  lemma RoundTrip(b: seq<Byte>)
    ensures Base64UrlDecoded(Base64UrlEncode(b)) == Some(b)
  {
    var std := ToStandard(Base64UrlEncode(b));
    EncodedDigits(b);
    UnpadPadded(std);
    DigitsOf(std, Sextets(b));
    BytesOfSextets(b);
  }

  /** Digits reads back the values the characters stand for. */
  lemma {:induction false} DigitsOf(s: string, vs: seq<Sextet>)
    requires |s| == |vs|
    requires forall i | 0 <= i < |s| :: DigitValue(s[i]) == Some(vs[i])
    ensures Digits(s) == Some(vs)
    decreases |s|
  {
    if s != [] {
      DigitsOf(s[1..], vs[1..]);
      assert vs == [vs[0]] + vs[1..];
    }
  }

  /** The length field of a v1n share code: two digits make one byte, the first digit's six bits and the top two of the second. */
  lemma TwoDigits(c0: char, c1: char)
    requires DigitValue(c0).Some? && DigitValue(c1).Some?
    ensures Atob([c0, c1] + "==") == Some([DigitValue(c0).value * 4 + DigitValue(c1).value / 16])
  {
    var s := [c0, c1] + "==";
    assert StripAsciiWhitespace(s) == s;
    assert Unpadded(s) == [c0, c1];
    DigitsOf([c0, c1], [DigitValue(c0).value, DigitValue(c1).value]);
  }

  /** `wv("Eg")` is the single byte 18. */
  lemma LengthExample()
    ensures Base64UrlDecoded("Eg") == Some([18])
  {
    assert "Eg" == ['E', 'g'];
    assert DigitValue('E') == Some(4) && DigitValue('g') == Some(32);
    LengthField('E', 'g');
  }

  /** `wv` on a two-character length field of shared digits: padded with "==", it is the byte of TwoDigits. */
  lemma LengthField(c0: char, c1: char)
    requires DigitValue(c0).Some? && DigitValue(c1).Some?
    ensures Base64UrlDecoded([c0, c1]) == Some([DigitValue(c0).value * 4 + DigitValue(c1).value / 16])
  {
    assert ToStandard([c0, c1]) == [c0, c1];
    assert Padded([c0, c1]) == [c0, c1] + "==";
    TwoDigits(c0, c1);
  }

  /** The value `wv` gives a character of an RFC 4648 section 4 or section 5 alphabet, after renaming it. */
  function WvDigitValue(c: char): (r: Option<Sextet>)
    ensures r.Some? <==> c == '-' || c == '_' || DigitValue(c).Some?
  {
    DigitValue(if c == '-' then '+' else if c == '_' then '/' else c)
  }

  /** Stripping whitespace leaves padding alone. */
  lemma {:induction false} StripPadded(x: string, k: nat)
    ensures StripAsciiWhitespace(x + Pads(k)) == StripAsciiWhitespace(x) + Pads(k)
    decreases |x| + k
  {
    if x == [] {
      if k > 0 {
        assert ([] + Pads(k))[1..] == [] + Pads(k - 1);
        StripPadded([], k - 1);
        assert [] + Pads(k) == Pads(k);
        assert Pads(k) == ['='] + Pads(k - 1);
      } else {
        assert [] + Pads(0) == [];
      }
    } else {
      assert (x + Pads(k))[0] == x[0] && (x + Pads(k))[1..] == x[1..] + Pads(k);
      StripPadded(x[1..], k);
    }
  }

  /**
   * `wv` on the length field of a v1n code, at most two characters: it gives
   * at least one byte exactly when there are two characters and both are
   * digits of either alphabet, and then the byte holds the first digit's six
   * bits and the top two of the second.
   */
  lemma LengthFieldIff(f: string)
    requires |f| <= 2
    ensures var r := Base64UrlDecoded(f);
      (r.Some? && r.value != []) <==> |f| == 2 && WvDigitValue(f[0]).Some? && WvDigitValue(f[1]).Some?
    ensures |f| == 2 && WvDigitValue(f[0]).Some? && WvDigitValue(f[1]).Some? ==>
      Base64UrlDecoded(f) == Some([WvDigitValue(f[0]).value * 4 + WvDigitValue(f[1]).value / 16])
  {
    var std := ToStandard(f);
    if |f| == 2 && WvDigitValue(f[0]).Some? && WvDigitValue(f[1]).Some? {
      AcceptedField(f);
    } else if |f| == 0 {
      assert Padded(std) == [];
    } else {
      assert Padded(std) == std + Pads(4 - |f|);
      RejectedField(std, 4 - |f|);
    }
  }

  /** The case of LengthFieldIff that decodes: two digits, renamed and padded with "==". */
  lemma AcceptedField(f: string)
    requires |f| == 2 && WvDigitValue(f[0]).Some? && WvDigitValue(f[1]).Some?
    ensures Base64UrlDecoded(f) == Some([WvDigitValue(f[0]).value * 4 + WvDigitValue(f[1]).value / 16])
  {
    var std := ToStandard(f);
    assert std == [std[0], std[1]];
    assert Padded(std) == [std[0], std[1]] + "==";
    TwoDigits(std[0], std[1]);
  }

  /** The cases of LengthFieldIff that decode to nothing: fewer than two characters, or one that is not a digit. */
  lemma RejectedField(std: string, k: nat)
    requires 1 <= |std| <= 2 && k == 4 - |std|
    requires |std| == 2 ==> DigitValue(std[0]).None? || DigitValue(std[1]).None?
    ensures Atob(std + Pads(k)).None? || Atob(std + Pads(k)) == Some([])
  {
    var x := StripAsciiWhitespace(std);
    StripPadded(std, k);
    var t := Unpadded(x + Pads(k));
    if |x| == 2 {
      StripWhole(std);
      assert t == std;
    } else if |t| > |x| {
      assert t[|x|] == (x + Pads(k))[|x|];
    }
  }

  /** Stripping whitespace keeps the length only when there was none to strip. */
  lemma {:induction false} StripWhole(s: string)
    requires |StripAsciiWhitespace(s)| == |s|
    ensures StripAsciiWhitespace(s) == s
    decreases |s|
  {
    if s != [] {
      if IsAsciiWhitespace(s[0]) {
        assert false;
      } else {
        StripWhole(s[1..]);
        assert s == [s[0]] + s[1..];
      }
    }
  }

  /** `wv` fails on a character outside both alphabets, `=` and whitespace aside. */
  lemma BadCharacter(s: string, i: nat)
    requires i < |s| && s[i] != '-' && s[i] != '_' && s[i] != '=' && !IsAsciiWhitespace(s[i]) && DigitValue(s[i]).None?
    ensures Base64UrlDecoded(s).None?
  {
    var p := Padded(ToStandard(s));
    var stripped := StripAsciiWhitespace(p);
    var t := Unpadded(stripped);
    assert p[i] == s[i];
    StripKeeps(p, i);
    var j :| 0 <= j < |stripped| && stripped[j] == s[i];
    if |t| % 4 != 1 {
      assert j < |t| && t[j] == s[i];
    }
  }

  /** `wv` fails on a length of 1 modulo 4 of base64url digits. */
  lemma BadLength(s: string)
    requires |s| % 4 == 1 && forall i | 0 <= i < |s| :: s[i] == '-' || s[i] == '_' || DigitValue(s[i]).Some?
    ensures Base64UrlDecoded(s).None?
  {
    var std := ToStandard(s);
    var p := Padded(std);
    assert forall i | 0 <= i < |std| :: DigitValue(std[i]).Some?;
    assert |p| == |std| + 3;
    assert StripAsciiWhitespace(p) == p by {
      forall i | 0 <= i < |p|
        ensures !IsAsciiWhitespace(p[i])
      {
        if i < |std| {
          assert DigitValue(p[i]).Some?;
        }
      }
    }
    var t := Unpadded(p);
    assert t == p[..|p| - 2];
    assert t[|t| - 1] == '=';
  }

  /** A character that is neither whitespace nor `=` survives the whitespace strip, and one that is not `=` the unpadding. */
  lemma {:induction false} StripKeeps(s: string, i: nat)
    requires i < |s| && !IsAsciiWhitespace(s[i])
    ensures exists j | 0 <= j < |StripAsciiWhitespace(s)| :: StripAsciiWhitespace(s)[j] == s[i]
    decreases |s|
  {
    if i == 0 {
      assert StripAsciiWhitespace(s)[0] == s[0];
    } else {
      StripKeeps(s[1..], i - 1);
      var j :| 0 <= j < |StripAsciiWhitespace(s[1..])| && StripAsciiWhitespace(s[1..])[j] == s[1..][i - 1];
      if !IsAsciiWhitespace(s[0]) {
        assert StripAsciiWhitespace(s)[j + 1] == s[i];
      } else {
        assert StripAsciiWhitespace(s)[j] == s[i];
      }
    }
  }
}
