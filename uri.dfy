/**
 * `decodeURIComponent` and its inverse `encodeURIComponent`: the Decode and
 * Encode operations of section 19.2.6 of ECMA-262 (the global URI handling
 * functions), with the percent-encoding of section 2.1 of RFC 3986 over the
 * UTF-8 bytes of each code point. A thrown URIError is None.
 */
module Uri {
  import opened Wrappers
  import opened Utf8

  /** The value of a hexadecimal digit, either case. */
  function HexValue(c: char): (r: Option<int>)
    ensures r.Some? ==> 0 <= r.value < 16
  {
    if '0' <= c <= '9' then Some(c as int - '0' as int)
    else if 'A' <= c <= 'F' then Some(c as int - 'A' as int + 10)
    else if 'a' <= c <= 'f' then Some(c as int - 'a' as int + 10)
    else None
  }

  /** ParseHexOctet: the byte two hexadecimal digits denote. */
  function HexOctet(hi: char, lo: char): Option<Byte> {
    match (HexValue(hi), HexValue(lo))
    case (Some(h), Some(l)) => Some(h * 16 + l)
    case _ => None
  }

  /** The number of leading 1 bits of a byte. */
  function LeadingOnes(b: Byte): (n: nat)
    ensures n <= 8
  {
    if b < 0x80 then 0 else if b < 0xC0 then 1 else if b < 0xE0 then 2 else if b < 0xF0 then 3
    else if b < 0xF8 then 4 else if b < 0xFC then 5 else if b < 0xFE then 6 else if b < 0xFF then 7 else 8
  }

  /** c before the text of r, or the failure r is. */
  function Prepend(c: char, r: Option<string>): (p: Option<string>)
    ensures p.Some? <==> r.Some?
    ensures p.Some? ==> p.value == [c] + r.value
  {
    match r
    case None => None
    case Some(s) => Some([c] + s)
  }

  /** The bytes of count escapes `%XY` at the front of t, or None once one is missing or malformed. */
  function Continuations(t: string, count: nat): (r: Option<seq<Byte>>)
    ensures r.Some? ==> |r.value| == count && |t| >= 3 * count
    decreases count
  {
    if count == 0 then Some([])
    else if |t| < 3 || t[0] != '%' then None
    else
      match HexOctet(t[1], t[2])
      case None => None
      case Some(b) =>
        match Continuations(t[3..], count - 1)
        case None => None
        case Some(rest) => Some([b] + rest)
  }

  /**
   * `decodeURIComponent(s)`: each `%XY` escape of a byte below 0x80 becomes
   * that character, an escape of a lead byte takes the escapes of its
   * continuation bytes with it and becomes the code point they encode, every
   * other character stays. None where ECMA-262 throws a URIError: a `%` not
   * followed by two hexadecimal digits, a byte that cannot start a sequence,
   * missing continuation escapes, or bytes that are not well-formed UTF-8.
   */
  function DecodeUriComponent(s: string): Option<string>
    decreases |s|
  {
    if s == [] then Some([])
    else if s[0] != '%' then Prepend(s[0], DecodeUriComponent(s[1..]))
    else if |s| < 3 then None
    else
      match HexOctet(s[1], s[2])
      case None => None
      case Some(b) =>
        var n := LeadingOnes(b);
        if n == 0 then
          Prepend(b as char, DecodeUriComponent(s[3..]))
        else if n == 1 || n > 4 then
          None
        else
          match Continuations(s[3..], n - 1)
          case None => None
          case Some(conts) =>
            var octets := [b] + conts;
            if !WellFormed(octets) then
              None
            else
              WellFormedIsScalar(octets);
              Prepend(Value(octets) as char, DecodeUriComponent(s[3 * n..]))
  }

  // ---------------------------------------------------------------------------
  // encodeURIComponent, the inverse
  // ---------------------------------------------------------------------------

  /** The characters encodeURIComponent leaves as they are: letters, digits and `-_.!~*'()`. */
  predicate Unescaped(c: char) {
    ('A' <= c <= 'Z') || ('a' <= c <= 'z') || ('0' <= c <= '9') ||
    c == '-' || c == '_' || c == '.' || c == '!' || c == '~' || c == '*' || c == '\'' || c == '(' || c == ')'
  }

  /** An upper-case hexadecimal digit. */
  function HexDigit(d: int): (c: char)
    requires 0 <= d < 16
    ensures HexValue(c) == Some(d)
  {
    if d < 10 then ('0' as int + d) as char else ('A' as int + d - 10) as char
  }

  /** The escapes `%XY` of a byte sequence. */
  function Escapes(octets: seq<Byte>): (r: string)
    ensures |r| == 3 * |octets|
    decreases |octets|
  {
    if octets == [] then [] else ['%', HexDigit(octets[0] / 16), HexDigit(octets[0] % 16)] + Escapes(octets[1..])
  }

  /** `encodeURIComponent(s)`: unreserved characters as they are, every other code point as the escapes of its UTF-8 bytes. */
  function EncodeUriComponent(s: string): string
    decreases |s|
  {
    if s == [] then []
    else if Unescaped(s[0]) then [s[0]] + EncodeUriComponent(s[1..])
    else Escapes(EncodeChar(s[0])) + EncodeUriComponent(s[1..])
  }

  /** Reading back count escapes written by Escapes. */
  lemma {:induction false} ContinuationsOfEscapes(octets: seq<Byte>, rest: string)
    ensures Continuations(Escapes(octets) + rest, |octets|) == Some(octets)
    decreases |octets|
  {
    if octets != [] {
      var e := Escapes(octets);
      var t := e + rest;
      assert t[0] == '%' && t[1] == HexDigit(octets[0] / 16) && t[2] == HexDigit(octets[0] % 16);
      assert t[3..] == Escapes(octets[1..]) + rest;
      ContinuationsOfEscapes(octets[1..], rest);
      assert [octets[0]] + octets[1..] == octets;
    }
  }

  /** The lead byte of a well-formed sequence has as many leading 1 bits as the sequence has bytes, or none for one byte. */
  lemma LeadingOnesOfLead(octets: seq<Byte>)
    requires WellFormed(octets)
    ensures LeadingOnes(octets[0]) == if |octets| == 1 then 0 else |octets|
  {
  }

  /** Decoding the escapes of one code point, then more text. */
  lemma DecodeEscapedChar(c: char, rest: string)
    requires !Unescaped(c)
    ensures DecodeUriComponent(Escapes(EncodeChar(c)) + rest) == Prepend(c, DecodeUriComponent(rest))
  {
    var octets := EncodeChar(c);
    EncodeCharWellFormed(c);
    LeadingOnesOfLead(octets);
    var t := Escapes(octets) + rest;
    var b := octets[0];
    assert t[0] == '%' && t[1] == HexDigit(b / 16) && t[2] == HexDigit(b % 16);
    assert HexOctet(t[1], t[2]) == Some(b);
    assert t[3..] == Escapes(octets[1..]) + rest;
    if |octets| == 1 {
      assert octets[1..] == [];
      assert t[3..] == rest;
    } else {
      ContinuationsOfEscapes(octets[1..], rest);
      assert [b] + octets[1..] == octets;
      assert t[3 * |octets|..] == rest;
    }
  }

  /** decodeURIComponent inverts encodeURIComponent: no error, and the text comes back. */
  lemma {:induction false} DecodeEncoded(s: string)
    ensures DecodeUriComponent(EncodeUriComponent(s)) == Some(s)
    decreases |s|
  {
    if s != [] {
      DecodeEncoded(s[1..]);
      assert s == [s[0]] + s[1..];
      if Unescaped(s[0]) {
        var t := EncodeUriComponent(s);
        assert t[0] == s[0] && t[1..] == EncodeUriComponent(s[1..]);
      } else {
        DecodeEscapedChar(s[0], EncodeUriComponent(s[1..]));
      }
    }
  }

  /** Text without `%` comes back unchanged, in front of whatever the rest decodes to. */
  lemma {:induction false} DecodePlainPrefix(p: string, s: string)
    requires forall i | 0 <= i < |p| :: p[i] != '%'
    ensures DecodeUriComponent(s).None? ==> DecodeUriComponent(p + s).None?
    ensures DecodeUriComponent(s).Some? ==> DecodeUriComponent(p + s) == Some(p + DecodeUriComponent(s).value)
    decreases |p|
  {
    if p == [] {
      assert p + s == s;
      if DecodeUriComponent(s).Some? {
        assert p + DecodeUriComponent(s).value == DecodeUriComponent(s).value;
      }
    } else {
      assert p + s == [p[0]] + (p[1..] + s);
      DecodePlainChar(p[0], p[1..] + s);
      DecodePlainPrefix(p[1..], s);
      if DecodeUriComponent(s).Some? {
        assert p + DecodeUriComponent(s).value == [p[0]] + (p[1..] + DecodeUriComponent(s).value);
      }
    }
  }

  /** A character other than `%` is copied to the output. */
  lemma DecodePlainChar(c: char, s: string)
    requires c != '%'
    ensures DecodeUriComponent([c] + s) == Prepend(c, DecodeUriComponent(s))
  {
    assert ([c] + s)[0] == c && ([c] + s)[1..] == s;
  }

  /** An escape of a byte below 0x80 is that character. */
  lemma DecodeAsciiEscape(hi: char, lo: char, s: string)
    requires HexOctet(hi, lo).Some? && HexOctet(hi, lo).value < 0x80
    ensures DecodeUriComponent(['%', hi, lo] + s) == Prepend(HexOctet(hi, lo).value as char, DecodeUriComponent(s))
  {
    var t := ['%', hi, lo] + s;
    assert t[0] == '%' && t[1] == hi && t[2] == lo && t[3..] == s;
  }

  /** How the tail of the example name decodes. */
  lemma DecodeExampleTail()
    ensures DecodeUriComponent("%20box") == Some(" box")
  {
    assert HexOctet('2', '0') == Some(32) && 32 as char == ' ';
    DecodePlainPrefix("box", "");
    assert "box" + "" == "box";
    DecodeAsciiEscape('2', '0', "box");
    assert ['%', '2', '0'] + "box" == "%20box" && [' '] + "box" == " box";
  }

  /** How the middle of the example name decodes. */
  lemma DecodeExampleMiddle()
    ensures DecodeUriComponent("%20up%20box") == Some(" up box")
  {
    DecodeExampleTail();
    DecodePlainPrefix("up", "%20box");
    MiddleJoins();
    assert HexOctet('2', '0') == Some(32) && 32 as char == ' ';
    DecodeAsciiEscape('2', '0', "up%20box");
  }

  /** The middle of the example name and its decoding, piece by piece. */
  lemma MiddleJoins()
    ensures "up" + "%20box" == "up%20box" && "up" + " box" == "up box"
    ensures ['%', '2', '0'] + "up%20box" == "%20up%20box" && [' '] + "up box" == " up box"
  {
  }

  /** What the share-code example writes: the name of `v1nEgwhirled%20up%20box…`. */
  lemma DecodeExample()
    ensures DecodeUriComponent("whirled%20up%20box") == Some("whirled up box")
  {
    DecodeExampleMiddle();
    DecodePlainPrefix("whirled", "%20up%20box");
    ExampleJoins();
  }

  /** The example name and its decoding, each as the plain word and the rest. */
  lemma ExampleJoins()
    ensures "whirled" + "%20up%20box" == "whirled%20up%20box"
    ensures "whirled" + " up box" == "whirled up box"
  {
  }

  /** A `%` at j that is not followed by two hexadecimal digits. */
  predicate BadEscapeAt(s: string, j: nat) {
    j < |s| && s[j] == '%' && !(j + 2 < |s| && HexValue(s[j + 1]).Some? && HexValue(s[j + 2]).Some?)
  }

  /** count escapes cannot be read across a malformed `%` among their 3 * count characters. */
  lemma {:induction false} ContinuationsAvoid(t: string, count: nat, j: nat)
    requires BadEscapeAt(t, j) && j < 3 * count
    ensures Continuations(t, count).None?
    decreases count
  {
    if |t| >= 3 && t[0] == '%' && HexOctet(t[1], t[2]).Some? {
      assert HexValue(t[1]).Some? && HexValue(t[2]).Some?;
      assert j >= 3;
      assert BadEscapeAt(t[3..], j - 3);
      ContinuationsAvoid(t[3..], count - 1, j - 3);
    }
  }

  /** A `%` anywhere that is not followed by two hexadecimal digits makes decodeURIComponent throw. */
  lemma {:induction false} BadEscape(s: string, j: nat)
    requires BadEscapeAt(s, j)
    ensures DecodeUriComponent(s).None?
    decreases |s|
  {
    if s[0] != '%' {
      assert BadEscapeAt(s[1..], j - 1);
      BadEscape(s[1..], j - 1);
    } else if |s| >= 3 && HexOctet(s[1], s[2]).Some? {
      var b := HexOctet(s[1], s[2]).value;
      assert HexValue(s[1]).Some? && HexValue(s[2]).Some?;
      assert j >= 3;
      var n := LeadingOnes(b);
      if n == 0 {
        assert BadEscapeAt(s[3..], j - 3);
        BadEscape(s[3..], j - 3);
      } else if 2 <= n <= 4 && Continuations(s[3..], n - 1).Some? {
        if j < 3 * n {
          assert BadEscapeAt(s[3..], j - 3);
          ContinuationsAvoid(s[3..], n - 1, j - 3);
        } else {
          assert BadEscapeAt(s[3 * n..], j - 3 * n);
          BadEscape(s[3 * n..], j - 3 * n);
        }
      }
    }
  }

  /** Malformed escapes are URIErrors: a cut-off `%`, a non-hexadecimal digit, a continuation byte first, a cut-off sequence, an overlong form and an encoded surrogate. */
  lemma DecodeErrors()
    ensures DecodeUriComponent("%") == None
    ensures DecodeUriComponent("%G0") == None
    ensures DecodeUriComponent("%80") == None
    ensures DecodeUriComponent("%C3") == None
    ensures DecodeUriComponent("%C0%80") == None
    ensures DecodeUriComponent("%ED%A0%80") == None
  {
    assert HexOctet('8', '0') == Some(0x80);
    assert HexOctet('C', '3') == Some(0xC3);
    assert HexOctet('C', '0') == Some(0xC0);
    assert HexOctet('E', 'D') == Some(0xED);
    assert HexOctet('A', '0') == Some(0xA0);
    assert "%C3"[3..] == [];
    assert "%C0%80"[3..] == "%80" && "%80"[3..] == [];
    assert Continuations("", 0) == Some([]);
    assert "%80"[0] == '%' && "%80"[1] == '8' && "%80"[2] == '0' && "%80"[3..] == "";
    assert [0x80 as Byte] + [] == [0x80];
    assert Continuations("%80", 1) == Some([0x80]);
    assert !WellFormed([0xC0, 0x80]);
    assert "%ED%A0%80"[3..] == "%A0%80" && "%A0%80"[3..] == "%80";
    assert "%A0%80"[0] == '%' && "%A0%80"[1] == 'A' && "%A0%80"[2] == '0';
    assert [0xA0 as Byte] + [0x80] == [0xA0, 0x80];
    assert Continuations("%A0%80", 2) == Some([0xA0, 0x80]);
    assert AcceptedFrom(0xED, [0xA0, 0x80], 2, 0) == 0;
    assert !WellFormed([0xED, 0xA0, 0x80]);
  }
}
