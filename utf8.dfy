/**
 * UTF-8 as the browser uses it: the encoding of a code point (section 3.9,
 * table 3-7, of the Unicode Standard, and what `encodeURIComponent` and
 * `TextEncoder` produce), and the decoder of section 4 of the WHATWG Encoding
 * Standard that `new TextDecoder().decode(bytes)` runs in replacement mode,
 * including its leading byte order mark removal.
 */
module Utf8 {

  /** A byte, as an element of a Uint8Array. */
  type Byte = b: int | 0 <= b < 256

  /** A Unicode scalar value: a code point that is not a surrogate. */
  predicate IsScalar(v: int) {
    0 <= v < 0xD800 || 0xE000 <= v < 0x11_0000
  }

  /** The replacement character U+FFFD that the decoder emits for each error. */
  const Replacement: char := '\U{FFFD}'

  /** The byte order mark U+FEFF. */
  const ByteOrderMark: char := '\U{FEFF}'

  // ---------------------------------------------------------------------------
  // Encoding
  // ---------------------------------------------------------------------------

  /** The UTF-8 bytes of one code point. */
  function EncodeChar(c: char): (r: seq<Byte>)
    ensures 1 <= |r| <= 4
  {
    var v := c as int;
    var w := v / 64;
    var x := w / 64;
    if v < 0x80 then [v]
    else if v < 0x800 then [0xC0 + w, 0x80 + v % 64]
    else if v < 0x1_0000 then [0xE0 + x, 0x80 + w % 64, 0x80 + v % 64]
    else [0xF0 + x / 64, 0x80 + x % 64, 0x80 + w % 64, 0x80 + v % 64]
  }

  /** The UTF-8 bytes of a string, code point by code point. */
  function EncodeString(s: string): seq<Byte>
    decreases |s|
  {
    if s == [] then [] else EncodeChar(s[0]) + EncodeString(s[1..])
  }

  // ---------------------------------------------------------------------------
  // The decoder's tables
  // ---------------------------------------------------------------------------

  /** How many continuation bytes a lead byte announces; -1 for a byte that cannot start a sequence. */
  function Needed(lead: Byte): (n: int)
    ensures -1 <= n <= 3
  {
    if lead < 0x80 then 0
    else if 0xC2 <= lead <= 0xDF then 1
    else if 0xE0 <= lead <= 0xEF then 2
    else if 0xF0 <= lead <= 0xF4 then 3
    else -1
  }

  /** The smallest byte allowed as continuation k (from 0) after lead: the decoder's lower boundary. */
  function Lower(lead: Byte, k: nat): Byte {
    if k == 0 && lead == 0xE0 then 0xA0 else if k == 0 && lead == 0xF0 then 0x90 else 0x80
  }

  /** The largest byte allowed as continuation k (from 0) after lead: the decoder's upper boundary. */
  function Upper(lead: Byte, k: nat): Byte {
    if k == 0 && lead == 0xED then 0x9F else if k == 0 && lead == 0xF4 then 0x8F else 0xBF
  }

  /** The code point bits a lead byte carries (`byte & 0x1F`, `& 0xF`, `& 0x7`). */
  function LeadBits(lead: Byte): int {
    if lead < 0x80 then lead else if lead <= 0xDF then lead - 0xC0 else if lead <= 0xEF then lead - 0xE0 else lead - 0xF0
  }

  /** How many of rest[k..n) in turn are allowed continuations of lead, counting from k and stopping at the first that is not. */
  function AcceptedFrom(lead: Byte, rest: seq<Byte>, n: nat, k: nat): (m: nat)
    requires k <= n
    ensures k <= m <= n
    ensures m <= |rest| || m == k
    ensures forall j | k <= j < m :: j < |rest| && Lower(lead, j) <= rest[j] <= Upper(lead, j)
    ensures m < n ==> m >= |rest| || !(Lower(lead, m) <= rest[m] <= Upper(lead, m))
    decreases n - k
  {
    if k == n || k >= |rest| || !(Lower(lead, k) <= rest[k] <= Upper(lead, k)) then k
    else AcceptedFrom(lead, rest, n, k + 1)
  }

  /** The continuation bytes of lead the decoder accepts before an error, at most n. */
  function Accepted(lead: Byte, rest: seq<Byte>, n: nat): (m: nat)
    ensures m <= n
  {
    AcceptedFrom(lead, rest, n, 0)
  }

  /** The code point after folding continuation bytes into cp (`cp = (cp << 6) | (byte & 0x3F)`). */
  function Fold(cp: int, conts: seq<Byte>): int
    decreases |conts|
  {
    if conts == [] then cp else Fold(cp * 64 + conts[0] % 64, conts[1..])
  }

  /** A sequence the decoder reads as one code point: a lead byte and all its continuations in range. */
  predicate WellFormed(octets: seq<Byte>) {
    && |octets| >= 1
    && Needed(octets[0]) == |octets| - 1
    && Accepted(octets[0], octets[1..], |octets| - 1) == |octets| - 1
  }

  /** The code point a well-formed sequence stands for. */
  function Value(octets: seq<Byte>): int
    requires |octets| >= 1
  {
    Fold(LeadBits(octets[0]), octets[1..])
  }

  lemma Fold1(cp: int, a: Byte)
    ensures Fold(cp, [a]) == cp * 64 + a % 64
  {
    assert [a][1..] == [];
  }

  lemma Fold2(cp: int, a: Byte, b: Byte)
    ensures Fold(cp, [a, b]) == (cp * 64 + a % 64) * 64 + b % 64
  {
    assert [a, b][1..] == [b];
    Fold1(cp * 64 + a % 64, b);
  }

  lemma Fold3(cp: int, a: Byte, b: Byte, c: Byte)
    ensures Fold(cp, [a, b, c]) == ((cp * 64 + a % 64) * 64 + b % 64) * 64 + c % 64
  {
    assert [a, b, c][1..] == [b, c];
    Fold2(cp * 64 + a % 64, b, c);
  }

  /** The value of a well-formed two-byte sequence. */
  lemma ValueOf2(octets: seq<Byte>)
    requires WellFormed(octets) && |octets| == 2
    ensures 0xC2 <= octets[0] <= 0xDF && 0x80 <= octets[1] <= 0xBF
    ensures Value(octets) == (octets[0] as int - 0xC0) * 64 + (octets[1] as int - 0x80)
  {
    assert AcceptedFrom(octets[0], octets[1..], 1, 0) == 1;
    assert octets[1..] == [octets[1]];
    Fold1(LeadBits(octets[0]), octets[1]);
  }

  /** The value of a well-formed three-byte sequence. */
  lemma ValueOf3(octets: seq<Byte>)
    requires WellFormed(octets) && |octets| == 3
    ensures 0xE0 <= octets[0] <= 0xEF
    ensures Lower(octets[0], 0) <= octets[1] <= Upper(octets[0], 0) && 0x80 <= octets[2] <= 0xBF
    ensures Value(octets) == ((octets[0] as int - 0xE0) * 64 + (octets[1] as int - 0x80)) * 64 + (octets[2] as int - 0x80)
  {
    assert AcceptedFrom(octets[0], octets[1..], 2, 0) == 2;
    assert octets[1..] == [octets[1], octets[2]];
    Fold2(LeadBits(octets[0]), octets[1], octets[2]);
  }

  /** The value of a well-formed four-byte sequence. */
  lemma ValueOf4(octets: seq<Byte>)
    requires WellFormed(octets) && |octets| == 4
    ensures 0xF0 <= octets[0] <= 0xF4
    ensures Lower(octets[0], 0) <= octets[1] <= Upper(octets[0], 0) && 0x80 <= octets[2] <= 0xBF && 0x80 <= octets[3] <= 0xBF
    ensures Value(octets) == (((octets[0] as int - 0xF0) * 64 + (octets[1] as int - 0x80)) * 64 + (octets[2] as int - 0x80)) * 64 + (octets[3] as int - 0x80)
  {
    assert AcceptedFrom(octets[0], octets[1..], 3, 0) == 3;
    assert octets[1..] == [octets[1], octets[2], octets[3]];
    Fold3(LeadBits(octets[0]), octets[1], octets[2], octets[3]);
  }

  /** The decoder's boundaries admit exactly the scalar values: no surrogate, nothing above U+10FFFF, no overlong form. */
  lemma WellFormedIsScalar(octets: seq<Byte>)
    requires WellFormed(octets)
    ensures IsScalar(Value(octets))
    ensures |octets| == 1 ==> Value(octets) < 0x80
    ensures |octets| == 2 ==> 0x80 <= Value(octets) < 0x800
    ensures |octets| == 3 ==> 0x800 <= Value(octets) < 0x1_0000
    ensures |octets| == 4 ==> 0x1_0000 <= Value(octets)
  {
    if |octets| == 1 {
      assert octets[1..] == [];
    } else if |octets| == 2 {
      ValueOf2(octets);
    } else if |octets| == 3 {
      ValueOf3(octets);
    } else {
      ValueOf4(octets);
    }
  }

  lemma EncodeChar2(c: char)
    requires 0x80 <= c as int < 0x800
    ensures WellFormed(EncodeChar(c)) && Value(EncodeChar(c)) == c as int
  {
    var e := EncodeChar(c);
    assert e[1..] == [e[1]];
    assert AcceptedFrom(e[0], e[1..], 1, 1) == 1;
    Fold1(LeadBits(e[0]), e[1]);
  }

  lemma EncodeChar3(c: char)
    requires 0x800 <= c as int < 0x1_0000
    ensures WellFormed(EncodeChar(c)) && Value(EncodeChar(c)) == c as int
  {
    var e := EncodeChar(c);
    assert e[1..] == [e[1], e[2]];
    assert AcceptedFrom(e[0], e[1..], 2, 2) == 2;
    assert AcceptedFrom(e[0], e[1..], 2, 1) == 2;
    Fold2(LeadBits(e[0]), e[1], e[2]);
  }

  lemma EncodeChar4(c: char)
    requires 0x1_0000 <= c as int
    ensures WellFormed(EncodeChar(c)) && Value(EncodeChar(c)) == c as int
  {
    var e := EncodeChar(c);
    assert e[1..] == [e[1], e[2], e[3]];
    assert AcceptedFrom(e[0], e[1..], 3, 3) == 3;
    assert AcceptedFrom(e[0], e[1..], 3, 2) == 3;
    assert AcceptedFrom(e[0], e[1..], 3, 1) == 3;
    Fold3(LeadBits(e[0]), e[1], e[2], e[3]);
  }

  /** EncodeChar writes a sequence the decoder accepts whole, and it stands for the encoded code point. */
  lemma EncodeCharWellFormed(c: char)
    ensures WellFormed(EncodeChar(c))
    ensures Value(EncodeChar(c)) == c as int
  {
    var v := c as int;
    if v < 0x80 {
      assert EncodeChar(c)[1..] == [];
    } else if v < 0x800 {
      EncodeChar2(c);
    } else if v < 0x1_0000 {
      EncodeChar3(c);
    } else {
      EncodeChar4(c);
    }
  }

  // ---------------------------------------------------------------------------
  // The WHATWG UTF-8 decoder in replacement mode
  // ---------------------------------------------------------------------------

  /**
   * The code points the UTF-8 decoder yields for bytes. A byte that cannot
   * start a sequence is one error; a sequence cut short by a byte outside the
   * boundaries, or by the end of the input, is one error, and that byte is read
   * again as the start of what follows. Each error becomes U+FFFD.
   */
  function DecodeUtf8(bytes: seq<Byte>): string
    decreases |bytes|
  {
    if bytes == [] then []
    else
      var lead := bytes[0];
      var n := Needed(lead);
      if n == -1 then
        [Replacement] + DecodeUtf8(bytes[1..])
      else if n == 0 then
        [lead as char] + DecodeUtf8(bytes[1..])
      else
        var m := Accepted(lead, bytes[1..], n);
        if m < n then
          [Replacement] + DecodeUtf8(bytes[1 + m..])
        else
          var octets := bytes[..1 + n];
          assert octets[1..] == bytes[1..][..n];
          assert WellFormed(octets) by {
            AcceptedPrefix(lead, bytes[1..], n);
          }
          WellFormedIsScalar(octets);
          [Value(octets) as char] + DecodeUtf8(bytes[1 + n..])
  }

  /** Only the first n bytes after the lead matter to Accepted. */
  lemma {:induction false} AcceptedFromPrefix(lead: Byte, rest: seq<Byte>, n: nat, k: nat)
    requires k <= n <= |rest|
    ensures AcceptedFrom(lead, rest[..n], n, k) == AcceptedFrom(lead, rest, n, k)
    decreases n - k
  {
    if k < n {
      assert rest[..n][k] == rest[k];
      AcceptedFromPrefix(lead, rest, n, k + 1);
    }
  }

  lemma AcceptedPrefix(lead: Byte, rest: seq<Byte>, n: nat)
    requires n <= |rest|
    ensures Accepted(lead, rest[..n], n) == Accepted(lead, rest, n)
  {
    AcceptedFromPrefix(lead, rest, n, 0);
  }

  /** `new TextDecoder().decode(bytes)`: the decoder's output without a leading byte order mark. */
  function TextDecode(bytes: seq<Byte>): string {
    var s := DecodeUtf8(bytes);
    if s != [] && s[0] == ByteOrderMark then s[1..] else s
  }

  /** Decoding the bytes of one code point and then more bytes yields that code point and then the rest. */
  lemma DecodeEncodedChar(c: char, rest: seq<Byte>)
    ensures DecodeUtf8(EncodeChar(c) + rest) == [c] + DecodeUtf8(rest)
  {
    var e := EncodeChar(c);
    var bytes := e + rest;
    EncodeCharWellFormed(c);
    assert bytes[0] == e[0];
    var n := |e| - 1;
    if n > 0 {
      assert bytes[1..] == e[1..] + rest;
      assert bytes[1..][..n] == e[1..];
      AcceptedPrefix(e[0], bytes[1..], n);
      assert bytes[..1 + n] == e;
    }
    assert bytes[1 + n..] == rest;
  }

  /** The decoder inverts the encoder. */
  lemma {:induction false} DecodeEncoded(s: string)
    ensures DecodeUtf8(EncodeString(s)) == s
    decreases |s|
  {
    if s != [] {
      DecodeEncodedChar(s[0], EncodeString(s[1..]));
      DecodeEncoded(s[1..]);
    }
  }

  /** TextDecoder gives back the encoded text, except for a leading byte order mark, which it drops. */
  lemma TextDecodeEncoded(s: string)
    ensures s == [] || s[0] != ByteOrderMark ==> TextDecode(EncodeString(s)) == s
    ensures s != [] && s[0] == ByteOrderMark ==> TextDecode(EncodeString(s)) == s[1..]
  {
    DecodeEncoded(s);
  }

  /** Bytes below 0x80 decode one to one to the characters with those codes. */
  lemma {:induction false} DecodeAscii(bytes: seq<Byte>)
    requires forall i | 0 <= i < |bytes| :: bytes[i] < 0x80
    ensures |DecodeUtf8(bytes)| == |bytes|
    ensures forall i | 0 <= i < |bytes| :: DecodeUtf8(bytes)[i] as int == bytes[i]
    decreases |bytes|
  {
    if bytes != [] {
      DecodeAscii(bytes[1..]);
      var r := DecodeUtf8(bytes);
      assert r == [bytes[0] as char] + DecodeUtf8(bytes[1..]);
      forall i | 0 < i < |bytes|
        ensures r[i] as int == bytes[i]
      {
        assert r[i] == DecodeUtf8(bytes[1..])[i - 1];
        assert bytes[1..][i - 1] == bytes[i];
      }
    }
  }
}
