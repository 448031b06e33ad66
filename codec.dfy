/**
 * The 62-symbol bit-packing codec of popup.js (lines 15-115). Text over the
 * alphabet A-Z a-z 0-9 is unpacked into bytes (`xA`) and bytes are packed into
 * such text (`AA`). Each symbol is an alphabet index written least significant
 * bit first at a growing bit offset; indices 30 and 31 take five bits, every
 * other index takes six.
 */
module Codec {
  import opened Wrappers

  // ---------------------------------------------------------------------------
  // The tables yA and bA
  // ---------------------------------------------------------------------------

  /** yA: alphabet index -> character (popup.js:16). */
  const Alphabet: string := "ABCDEFGHIJKLMNOPQRSTUVWXYZ" + "abcdefghijklmnopqrstuvwxyz" + "0123456789"

  /** bA: character code -> alphabet index, -1 where the code has no symbol (popup.js:19), 16 codes per row. */
  const Reverse: seq<int> :=
    [-1, -1, -1, -1, -1, -1, -1, -1, -1, -1, -1, -1, -1, -1, -1, -1] +
    [-1, -1, -1, -1, -1, -1, -1, -1, -1, -1, -1, -1, -1, -1, -1, -1] +
    [-1, -1, -1, -1, -1, -1, -1, -1, -1, -1, -1, -1, -1, -1, -1, -1] +
    [52, 53, 54, 55, 56, 57, 58, 59, 60, 61, -1, -1, -1, -1, -1, -1] +
    [-1, 0, 1, 2, 3, 4, 5, 6, 7, 8, 9, 10, 11, 12, 13, 14] +
    [15, 16, 17, 18, 19, 20, 21, 22, 23, 24, 25, -1, -1, -1, -1, -1] +
    [-1, 26, 27, 28, 29, 30, 31, 32, 33, 34, 35, 36, 37, 38, 39, 40] +
    [41, 42, 43, 44, 45, 46, 47, 48, 49, 50, 51]

  /** Character code of alphabet symbol i, the closed form of yA. */
  function AlphabetCode(i: int): int {
    if i < 26 then 65 + i else if i < 52 then 71 + i else i - 4
  }

  /** Closed form of bA: 'A'..'Z' are 0..25, 'a'..'z' 26..51, '0'..'9' 52..61, anything else -1. */
  function ReverseIndex(code: int): int {
    if 65 <= code <= 90 then code - 65
    else if 97 <= code <= 122 then code - 71
    else if 48 <= code <= 57 then code + 4
    else -1
  }

  lemma AlphabetAt(i: int)
    requires 0 <= i < 62
    ensures |Alphabet| == 62 && Alphabet[i] as int == AlphabetCode(i)
  {
    if i < 26 {} else if i < 52 {} else {}
  }

  lemma ReverseRow0(code: int)
    requires 0 <= code < 16
    ensures |Reverse| == 123 && Reverse[code] == ReverseIndex(code)
  {
  }

  lemma ReverseRow1(code: int)
    requires 16 <= code < 32
    ensures |Reverse| == 123 && Reverse[code] == ReverseIndex(code)
  {
  }

  lemma ReverseRow2(code: int)
    requires 32 <= code < 48
    ensures |Reverse| == 123 && Reverse[code] == ReverseIndex(code)
  {
  }

  lemma ReverseRow3(code: int)
    requires 48 <= code < 64
    ensures |Reverse| == 123 && Reverse[code] == ReverseIndex(code)
  {
  }

  lemma ReverseRow4(code: int)
    requires 64 <= code < 80
    ensures |Reverse| == 123 && Reverse[code] == ReverseIndex(code)
  {
  }

  lemma ReverseRow5(code: int)
    requires 80 <= code < 96
    ensures |Reverse| == 123 && Reverse[code] == ReverseIndex(code)
  {
  }

  lemma ReverseRow6(code: int)
    requires 96 <= code < 112
    ensures |Reverse| == 123 && Reverse[code] == ReverseIndex(code)
  {
  }

  lemma ReverseRow7(code: int)
    requires 112 <= code < 123
    ensures |Reverse| == 123 && Reverse[code] == ReverseIndex(code)
  {
  }

  lemma ReverseAt(code: int)
    requires 0 <= code < 123
    ensures |Reverse| == 123 && Reverse[code] == ReverseIndex(code)
  {
    if code < 16 { ReverseRow0(code); } else if code < 32 { ReverseRow1(code); } else if code < 48 { ReverseRow2(code); } else if code < 64 { ReverseRow3(code); } else if code < 80 { ReverseRow4(code); } else if code < 96 { ReverseRow5(code); } else if code < 112 { ReverseRow6(code); } else { ReverseRow7(code); }
  }

  /** bA inverts yA: the reverse entry of the code of symbol i is i. */
  lemma ReverseInvertsAlphabet(i: int)
    requires 0 <= i < 62
    ensures |Alphabet| == 62 && |Reverse| == 123
    ensures Alphabet[i] as int < |Reverse| && Reverse[Alphabet[i] as int] == i
  {
    AlphabetAt(i);
    ReverseAt(Alphabet[i] as int);
  }

  /** Every code below 123 that is not the code of a symbol maps to -1, and every other one names its symbol. */
  lemma ReverseOnlyAlphabet(code: int)
    requires 0 <= code < 123
    ensures |Alphabet| == 62 && |Reverse| == 123
    ensures -1 <= Reverse[code] < 62
    ensures Reverse[code] == -1 <==> forall i | 0 <= i < 62 :: Alphabet[i] as int != code
    ensures Reverse[code] != -1 ==> Alphabet[Reverse[code]] as int == code
  {
    ReverseAt(code);
    forall i | 0 <= i < 62
      ensures Alphabet[i] as int == AlphabetCode(i)
    {
      AlphabetAt(i);
    }
    if Reverse[code] != -1 {
      AlphabetAt(Reverse[code]);
    }
  }

  /** c is an alphabet symbol exactly when bA gives it an index. */
  lemma AlphabetMembership(c: char)
    ensures c in Alphabet <==> c as int < 123 && ReverseIndex(c as int) != -1
  {
    if c in Alphabet {
      var i :| 0 <= i < |Alphabet| && Alphabet[i] == c;
      AlphabetAt(i);
    }
    if c as int < 123 && ReverseIndex(c as int) != -1 {
      var i := ReverseIndex(c as int);
      AlphabetAt(i);
      assert Alphabet[i] == c;
    }
  }

  /**
   * The alphabet index of c as xA looks it up (popup.js:68-72): None when the
   * code is past the end of bA or its entry is -1.
   */
  function SymbolValue(c: char): (r: Option<bv8>)
    ensures r.Some? ==> r.value < 62 && Alphabet[r.value as int] == c
  {
    var code := c as int;
    AlphabetMembership(c);
    if code >= |Reverse| then
      None
    else
      ReverseOnlyAlphabet(code);
      ReverseAt(code);
      var value := Reverse[code];
      if value == -1 then
        None
      else
        Some(ToByte(value))
  }

  /** n as a byte, for the six-bit values. */
  function ToByte(n: int): (b: bv8)
    requires 0 <= n < 64
    ensures b as int == n
  {
    n as bv8
  }

  // ---------------------------------------------------------------------------
  // Widths and bit arithmetic
  // ---------------------------------------------------------------------------

  /** The width test of popup.js:77 and :103: `(30 & ~value) !== 0` selects six bits. */
  predicate IsSix(value: bv8) {
    30 & !value != 0
  }

  /** Width of a six-bit window value or alphabet index: five bits exactly for 30 and 31 in their low five bits. */
  function SymbolWidth(value: bv8): (w: nat)
    requires value < 64
    ensures w == 5 <==> (value & 31 == 30 || value & 31 == 31)
    ensures value < 62 ==> (w == 5 <==> value == 30 || value == 31)
    ensures w == 5 || w == 6
  {
    if IsSix(value) then 6 else 5
  }

  /** A symbol width as a shift amount. */
  function WidthBits(w: nat): bv8 {
    if w == 5 then 5 else 6
  }

  /** k as a bit-vector shift amount, for 0 <= k <= 8. */
  function ShiftAmount(k: nat): bv8
    requires k <= 8
  {
    if k == 0 then 0 else ShiftAmount(k - 1) + 1
  }

  /** ShiftAmount on the sums the codec forms from a bit position r < 8 and a width w. */
  lemma ShiftArithmetic(r: nat, w: nat)
    requires r < 8 && (w == 5 || w == 6)
    ensures ShiftAmount(r) < 8 && ShiftAmount(w) == (if w == 5 then 5 else 6)
    ensures r > 2 <==> ShiftAmount(r) > 2
    ensures r + w < 8 <==> ShiftAmount(r) + ShiftAmount(w) < 8
    ensures r + w > 8 <==> ShiftAmount(r) + ShiftAmount(w) > 8
    ensures r + w < 8 ==> ShiftAmount(r + w) == ShiftAmount(r) + ShiftAmount(w)
    ensures r + w > 8 ==> ShiftAmount(r + w - 8) == ShiftAmount(r) + ShiftAmount(w) - 8
  {
    if r == 0 { if w == 5 {} else {} }
    else if r == 1 { if w == 5 {} else {} }
    else if r == 2 { if w == 5 {} else {} }
    else if r == 3 { if w == 5 {} else {} }
    else if r == 4 { if w == 5 {} else {} }
    else if r == 5 { if w == 5 {} else {} }
    else if r == 6 { if w == 5 {} else {} }
    else { if w == 5 {} else {} }
  }

  /** The bits below bit position k of a byte, for k <= 8. */
  function LowMask(k: bv8): bv8
    requires k <= 8
  {
    if k == 8 then 255 else (1 << k) - 1
  }

  /** The position of bit o inside its byte, o % 8, as a shift amount. */
  function BitPosition(o: nat): (bp: bv8)
    ensures bp < 8
  {
    ShiftArithmetic(o % 8, 5);
    ShiftAmount(o % 8)
  }

  lemma DivEight(n: nat, q: nat, r: nat)
    requires n == 8 * q + r && r < 8
    ensures n / 8 == q && n % 8 == r
  {
  }

  /** How the byte index and the bit position move when w bits are added at bit o. */
  lemma OffsetStep(o: nat, w: nat)
    requires w <= 8
    ensures o % 8 + w < 8 ==> (o + w) / 8 == o / 8 && (o + w) % 8 == o % 8 + w
    ensures o % 8 + w >= 8 ==> (o + w) / 8 == o / 8 + 1 && (o + w) % 8 == o % 8 + w - 8
  {
    DivEight(o, o / 8, o % 8);
    if o % 8 + w < 8 {
      DivEight(o + w, o / 8, o % 8 + w);
    } else {
      DivEight(o + w, o / 8 + 1, o % 8 + w - 8);
    }
  }

  /** The same step on the bit-vector bit positions. */
  lemma BitPositionStep(o: nat, w: nat)
    requires w == 5 || w == 6
    ensures var bp := BitPosition(o);
      var bw := WidthBits(w);
      && (o % 8 + w < 8 <==> bp + bw < 8)
      && (o % 8 + w > 8 <==> bp + bw > 8)
      && (o % 8 + w < 8 ==> BitPosition(o + w) == bp + bw)
      && (o % 8 + w > 8 ==> BitPosition(o + w) == bp + bw - 8)
  {
    OffsetStep(o, w);
    ShiftArithmetic(o % 8, w);
  }

  /** bytes extended with zero bytes to at least n entries (the `push(0)` of popup.js:27 and :34). */
  function GrowTo(bytes: seq<bv8>, n: nat): (r: seq<bv8>)
    ensures |r| == if n > |bytes| then n else |bytes|
    ensures r[..|bytes|] == bytes
    ensures forall i | |bytes| <= i < |r| :: r[i] == 0
  {
    if |bytes| >= n then bytes else bytes + seq(n - |bytes|, _ => 0)
  }

  /** One more `push(0)`. */
  lemma GrowStep(bytes: seq<bv8>, n: nat)
    requires n >= |bytes|
    ensures GrowTo(bytes, n + 1) == GrowTo(bytes, n) + [0]
  {
  }

  // ---------------------------------------------------------------------------
  // EA: packing one symbol
  // ---------------------------------------------------------------------------

  /** The low bits of value shifted to bit bp, as they land in the first byte. */
  function LowPart(value: bv8, bp: bv8): bv8
    requires bp < 8
  {
    (value << bp) & 255
  }

  /** The bits of value that do not fit below bit 8 when it is placed at bit bp. */
  function HighPart(value: bv8, bp: bv8): bv8
    requires bp < 8
  {
    value >> (8 - bp)
  }

  /**
   * The bytes after EA (popup.js:25-37) ORs the numBits-bit value into them at
   * bitOffset: the low part into byte bitOffset / 8 and, when the value does
   * not fit and this is not the last symbol, the high part into the next byte.
   */
  function Packed(bytes: seq<bv8>, bitOffset: nat, numBits: nat, value: bv8, isLast: bool): seq<bv8>
    requires numBits == 5 || numBits == 6
  {
    var bp := BitPosition(bitOffset);
    Place(bytes, bitOffset / 8, bitOffset % 8 > 8 - numBits && !isLast, LowPart(value, bp), HighPart(value, bp))
  }

  /** bytes grown to cover index i, low ORed into byte i and, when spill holds, high into byte i + 1. */
  function Place(bytes: seq<bv8>, i: nat, spill: bool, low: bv8, high: bv8): seq<bv8> {
    var grown := GrowTo(bytes, i + 1);
    if spill then PackedSpill(grown, i, low, high) else PackedFirst(grown, i, low)
  }

  /** grown with low ORed into byte i. */
  function PackedFirst(grown: seq<bv8>, i: nat, low: bv8): seq<bv8>
    requires i < |grown|
  {
    grown[i := grown[i] | low]
  }

  /** grown with low ORed into byte i and high into byte i + 1, appended when missing. */
  function PackedSpill(grown: seq<bv8>, i: nat, low: bv8, high: bv8): seq<bv8>
    requires i < |grown|
  {
    var first := PackedFirst(grown, i, low);
    var second := GrowTo(first, i + 2);
    second[i + 1 := second[i + 1] | high]
  }

  /** The growable JavaScript array that xA packs into. */
  class ByteArray {
    var bytes: seq<bv8>

    constructor ()
      ensures bytes == []
    {
      bytes := [];
    }

    /** EA (popup.js:25-37), updating the array in place. */
    method Pack(bitOffset: nat, numBits: nat, value: bv8, isLast: bool)
      requires numBits == 5 || numBits == 6
      modifies this
      ensures bytes == Packed(old(bytes), bitOffset, numBits, value, isLast)
    {
      var buf := bytes;
      var byteIndex := bitOffset / 8;
      while byteIndex >= |buf|
        invariant buf == GrowTo(old(bytes), |buf|)
        invariant |buf| <= byteIndex + 1 || buf == old(bytes)
        decreases byteIndex + 1 - |buf|
      {
        GrowStep(old(bytes), |buf|);
        buf := buf + [0];
      }
      ghost var grown := buf;
      assert grown == GrowTo(old(bytes), byteIndex + 1);
      var bitPos := bitOffset % 8;
      var bp := BitPosition(bitOffset);
      var low := LowPart(value, bp);
      var high := HighPart(value, bp);
      buf := buf[byteIndex := buf[byteIndex] | low];
      if bitPos > 8 - numBits && !isLast {
        ghost var first := buf;
        var nextByteIndex := byteIndex + 1;
        if nextByteIndex >= |buf| {
          buf := buf + [0];
        }
        assert buf == GrowTo(first, byteIndex + 2);
        buf := buf[nextByteIndex := buf[nextByteIndex] | high];
        assert buf == PackedSpill(grown, byteIndex, low, high);
      } else {
        assert buf == PackedFirst(grown, byteIndex, low);
      }
      bytes := buf;
    }
  }

  // ---------------------------------------------------------------------------
  // xA: text -> bytes
  // ---------------------------------------------------------------------------

  /**
   * The result of xA's loop (popup.js:67-86) on the symbols str, starting from
   * the array bytes at bitOffset: None at the first character without a symbol.
   */
  function DecodeSymbols(str: string, bytes: seq<bv8>, bitOffset: nat): Option<seq<bv8>>
    decreases |str|
  {
    if str == [] then
      Some(bytes)
    else
      match SymbolValue(str[0])
      case None => None
      case Some(value) =>
        var isLast := |str| == 1;
        if IsSix(value) then
          DecodeSymbols(str[1..], Packed(bytes, bitOffset, 6, value, isLast), bitOffset + 6)
        else
          DecodeSymbols(str[1..], Packed(bytes, bitOffset, 5, value & 31, isLast), bitOffset + 5)
  }

  /** The bytes xA (popup.js:62-87) unpacks from str, or None for its `null`. */
  function Decoded(str: string): Option<seq<bv8>> {
    DecodeSymbols(str, [], 0)
  }

  /** The table lookup of popup.js:68-72 misses: the character has no symbol. */
  lemma LookupFails(c: char)
    requires c as int >= |Reverse| || Reverse[c as int] == -1
    ensures SymbolValue(c) == None
  {
  }

  /** The table lookup of popup.js:68-72 hits: the character's symbol is the entry. */
  lemma LookupFinds(c: char)
    requires c as int < |Reverse| && Reverse[c as int] != -1
    ensures 0 <= Reverse[c as int] < 62 && SymbolValue(c) == Some(ToByte(Reverse[c as int]))
  {
    ReverseOnlyAlphabet(c as int);
  }

  /** xA (popup.js:62-87). */
  method Decode(str: string) returns (r: Option<seq<bv8>>)
    ensures r == Decoded(str)
  {
    var bitOffset: nat := 0;
    var bytes := new ByteArray();
    var len := |str|;
    var i := 0;
    ghost var spec := Decoded(str);
    while i < len
      invariant 0 <= i <= len
      invariant spec == DecodeSymbols(str[i..], bytes.bytes, bitOffset)
    {
      var charCode := str[i] as int;
      assert str[i..][0] == str[i];
      if charCode >= |Reverse| {
        LookupFails(str[i]);
        return None;
      }
      var value := Reverse[charCode];
      if value == -1 {
        LookupFails(str[i]);
        return None;
      }
      LookupFinds(str[i]);
      var isLast := i == len - 1;
      var v := ToByte(value);
      DecodeStep(str[i..], bytes.bytes, bitOffset, v);
      assert str[i..][1..] == str[i + 1..];
      if IsSix(v) {
        bytes.Pack(bitOffset, 6, v, isLast);
        bitOffset := bitOffset + 6;
      } else {
        assert v & 31 == v;
        bytes.Pack(bitOffset, 5, v & 31, isLast);
        bitOffset := bitOffset + 5;
      }
      i := i + 1;
    }
    return Some(bytes.bytes);
  }

  // ---------------------------------------------------------------------------
  // AA: bytes -> text
  // ---------------------------------------------------------------------------

  /**
   * kA's arithmetic (popup.js:48-54) on the byte x holding the window and the
   * byte y after it (present when hasNext), the window starting at bit bp of x.
   * The left shift of y is truncated to eight bits before the mask with 63,
   * which drops only bits the mask drops.
   */
  function ByteWindow(x: bv8, y: bv8, bp: bv8, hasNext: bool): (v: bv8)
    requires bp < 8
    ensures v < 64
  {
    var value := x >> bp;
    var value := if hasNext && bp > 2 then value | (y << (8 - bp)) else value;
    value & 63
  }

  /** kA (popup.js:43-55): the six bits of bytes at bitOffset, zero past the end. */
  function Window(bytes: seq<bv8>, bitOffset: nat): (v: bv8)
    ensures v < 64
  {
    var byteIndex := bitOffset / 8;
    if byteIndex >= |bytes| then
      0
    else
      ByteWindow(bytes[byteIndex], NextByte(bytes, bitOffset), BitPosition(bitOffset), byteIndex + 1 < |bytes|)
  }

  /** The byte after the one holding bit o, or 0 past the end, as kA reads it. */
  function NextByte(b: seq<bv8>, o: nat): bv8 {
    if o / 8 + 1 < |b| then b[o / 8 + 1] else 0
  }

  /** The alphabet index AA takes from a window (popup.js:103-109): 62 and 63 are masked to 30 and 31. */
  function CharIndex(value: bv8): (r: bv8)
    requires value < 64
    ensures r < 62
    ensures IsSix(r) == IsSix(value)
    ensures IsSix(value) ==> r == value
    ensures !IsSix(value) ==> (r == 30 || r == 31) && r == value & 31
  {
    if IsSix(value) then value else value & 31
  }

  /** s[k + i] for an index i held in a byte, found by counting i down; the first character past the end. */
  function At(s: string, i: bv8, k: nat): char
    decreases |s| - k
  {
    if k >= |s| then 'A' else if i == 0 then s[k] else At(s, i - 1, k + 1)
  }

  /** yA[charIndex] (popup.js:16). */
  function Symbol(charIndex: bv8): char {
    At(Alphabet, charIndex, 0)
  }

  /** The text AA's loop (popup.js:98-112) appends from bitOffset on. */
  function EncodedFrom(bytes: seq<bv8>, bitOffset: nat): (r: string)
    ensures r == [] <==> bitOffset >= 8 * |bytes|
    decreases 8 * |bytes| - bitOffset
  {
    if bitOffset >= 8 * |bytes| then
      []
    else
      var value := Window(bytes, bitOffset);
      var charIndex := CharIndex(value);
      [Symbol(charIndex)] + EncodedFrom(bytes, bitOffset + SymbolWidth(value))
  }

  /** The text AA (popup.js:93-115) packs bytes into. */
  function Encoded(bytes: seq<bv8>): string {
    EncodedFrom(bytes, 0)
  }

  /** One turn of AA's loop. */
  lemma EncodeStep(bytes: seq<bv8>, bitOffset: nat)
    requires bitOffset < 8 * |bytes|
    ensures var value := Window(bytes, bitOffset);
      EncodedFrom(bytes, bitOffset) == [Symbol(CharIndex(value))] + EncodedFrom(bytes, bitOffset + SymbolWidth(value))
  {
  }

  /** AA (popup.js:93-115). */
  method Encode(bytes: seq<bv8>) returns (result: string)
    ensures result == Encoded(bytes)
  {
    var bitOffset := 0;
    result := "";
    var totalBits := 8 * |bytes|;
    while bitOffset < totalBits
      invariant Encoded(bytes) == result + EncodedFrom(bytes, bitOffset)
      decreases totalBits - bitOffset
    {
      var value := Window(bytes, bitOffset);
      EncodeAppend(bytes, bitOffset, result);
      var charIndex;
      if IsSix(value) {
        charIndex := value;
        bitOffset := bitOffset + 6;
      } else {
        charIndex := value & 31;
        bitOffset := bitOffset + 5;
      }
      result := result + [Symbol(charIndex)];
    }
  }

  /** One turn of AA's loop moves one symbol from what is left to what is written. */
  lemma EncodeAppend(bytes: seq<bv8>, bitOffset: nat, written: string)
    requires bitOffset < 8 * |bytes|
    ensures var value := Window(bytes, bitOffset);
      written + EncodedFrom(bytes, bitOffset) == (written + [Symbol(CharIndex(value))]) + EncodedFrom(bytes, bitOffset + SymbolWidth(value))
  {
    EncodeStep(bytes, bitOffset);
  }

  // ---------------------------------------------------------------------------
  // Round trip
  // ---------------------------------------------------------------------------

  /** The first n bits of b: whole bytes, then the low n % 8 bits of the next one. */
  function Mask(b: seq<bv8>, n: nat): seq<bv8>
    requires n <= 8 * |b|
  {
    if n % 8 == 0 then b[..n / 8] else b[..n / 8] + [b[n / 8] & LowMask(BitPosition(n))]
  }

  /** EA's growth step on the first o bits of b: the partial byte, or a fresh zero, at index o / 8. */
  lemma GrownMask(b: seq<bv8>, o: nat)
    requires o < 8 * |b|
    ensures GrowTo(Mask(b, o), o / 8 + 1) == b[..o / 8] + [b[o / 8] & LowMask(BitPosition(o))]
  {
    if o % 8 == 0 {
      assert BitPosition(o) == 0;
      assert b[o / 8] & LowMask(0) == 0;
    }
  }

  /** Place into a byte i that holds cur after the bytes of b before it, without a spill. */
  lemma PlaceFirst(b: seq<bv8>, m: seq<bv8>, i: nat, cur: bv8, low: bv8, high: bv8, next: bv8)
    requires i < |b| && GrowTo(m, i + 1) == b[..i] + [cur] && cur | low == next
    ensures Place(m, i, false, low, high) == b[..i] + [next]
  {
  }

  /** Place with a spill, when the first byte comes out as b[i] and b has a byte after it. */
  lemma PlaceSpill(b: seq<bv8>, m: seq<bv8>, i: nat, cur: bv8, low: bv8, high: bv8)
    requires i + 1 < |b| && GrowTo(m, i + 1) == b[..i] + [cur] && cur | low == b[i]
    ensures Place(m, i, true, low, high) == b[..i + 1] + [high]
  {
    var grown := GrowTo(m, i + 1);
    assert PackedFirst(grown, i, low) == b[..i + 1];
    assert GrowTo(b[..i + 1], i + 2) == b[..i + 1] + [0];
  }

  /** Place without a spill, when the byte comes out as b[i]. */
  lemma PlaceWhole(b: seq<bv8>, m: seq<bv8>, i: nat, cur: bv8, low: bv8, high: bv8)
    requires i < |b| && GrowTo(m, i + 1) == b[..i] + [cur] && cur | low == b[i]
    ensures Place(m, i, false, low, high) == b[..i + 1]
  {
    PlaceFirst(b, m, i, cur, low, high, b[i]);
  }

  lemma MaskPartial(b: seq<bv8>, n: nat, q: nat)
    requires n <= 8 * |b| && n / 8 == q && n % 8 != 0
    ensures Mask(b, n) == b[..q] + [b[q] & LowMask(BitPosition(n))]
  {
  }

  lemma MaskWhole(b: seq<bv8>, n: nat, q: nat)
    requires n <= 8 * |b| && n == 8 * q
    ensures Mask(b, n) == b[..q]
  {
  }

  /** EA writing a symbol of width w that stays inside byte o / 8 turns that byte into next. */
  lemma PackedInto(b: seq<bv8>, o: nat, w: nat, s: bv8, next: bv8)
    requires o < 8 * |b| && (w == 5 || w == 6) && o % 8 + w < 8
    requires (b[o / 8] & LowMask(BitPosition(o))) | LowPart(s, BitPosition(o)) == next
    ensures Packed(Mask(b, o), o, w, s, false) == b[..o / 8] + [next]
  {
    var bi := o / 8;
    var bp := BitPosition(o);
    GrownMask(b, o);
    PlaceFirst(b, Mask(b, o), bi, b[bi] & LowMask(bp), LowPart(s, bp), HighPart(s, bp), next);
  }

  /** EA writing a symbol of width w that ends inside byte o / 8, given what it ORs into that byte. */
  lemma PackedInside(b: seq<bv8>, o: nat, w: nat, s: bv8)
    requires o < 8 * |b| && (w == 5 || w == 6) && o % 8 + w < 8
    requires (b[o / 8] & LowMask(BitPosition(o))) | LowPart(s, BitPosition(o)) == b[o / 8] & LowMask(BitPosition(o + w))
    ensures Packed(Mask(b, o), o, w, s, false) == Mask(b, o + w)
  {
    OffsetStep(o, w);
    PackedInto(b, o, w, s, b[o / 8] & LowMask(BitPosition(o + w)));
    MaskPartial(b, o + w, o / 8);
  }

  /** EA writing a symbol of width w that ends exactly at the end of byte o / 8. */
  lemma PackedFull(b: seq<bv8>, o: nat, w: nat, s: bv8, isLast: bool)
    requires o < 8 * |b| && (w == 5 || w == 6) && o % 8 + w == 8
    requires o + w >= 8 * |b| <==> isLast
    requires (b[o / 8] & LowMask(BitPosition(o))) | LowPart(s, BitPosition(o)) == b[o / 8]
    ensures Packed(Mask(b, o), o, w, s, isLast) == if isLast then b else Mask(b, o + w)
  {
    var bi := o / 8;
    var bp := BitPosition(o);
    OffsetStep(o, w);
    GrownMask(b, o);
    PlaceWhole(b, Mask(b, o), bi, b[bi] & LowMask(bp), LowPart(s, bp), HighPart(s, bp));
    if isLast {
      assert b[..bi + 1] == b;
    } else {
      MaskWhole(b, o + w, bi + 1);
    }
  }

  /** EA writing the last symbol, which reaches past the end of the last byte. */
  lemma PackedLast(b: seq<bv8>, o: nat, w: nat, s: bv8)
    requires o < 8 * |b| && (w == 5 || w == 6) && o % 8 + w > 8 && o + w >= 8 * |b|
    requires (b[o / 8] & LowMask(BitPosition(o))) | LowPart(s, BitPosition(o)) == b[o / 8]
    ensures Packed(Mask(b, o), o, w, s, true) == b
  {
    var bi := o / 8;
    var bp := BitPosition(o);
    OffsetStep(o, w);
    GrownMask(b, o);
    PlaceWhole(b, Mask(b, o), bi, b[bi] & LowMask(bp), LowPart(s, bp), HighPart(s, bp));
    assert b[..bi + 1] == b;
  }

  /** EA writing a symbol that spills into byte o / 8 + 1 completes byte o / 8 and leaves high in the next one. */
  lemma PackedSpillInto(b: seq<bv8>, o: nat, w: nat, s: bv8, high: bv8)
    requires o < 8 * |b| && (w == 5 || w == 6) && o % 8 + w > 8 && o / 8 + 1 < |b|
    requires (b[o / 8] & LowMask(BitPosition(o))) | LowPart(s, BitPosition(o)) == b[o / 8]
    requires HighPart(s, BitPosition(o)) == high
    ensures Packed(Mask(b, o), o, w, s, false) == b[..o / 8 + 1] + [high]
  {
    var bi := o / 8;
    var bp := BitPosition(o);
    GrownMask(b, o);
    PlaceSpill(b, Mask(b, o), bi, b[bi] & LowMask(bp), LowPart(s, bp), HighPart(s, bp));
  }

  /** EA writing a symbol that spills into byte o / 8 + 1, given what it ORs into both bytes. */
  lemma PackedAcross(b: seq<bv8>, o: nat, w: nat, s: bv8)
    requires o < 8 * |b| && (w == 5 || w == 6) && o % 8 + w > 8 && o + w < 8 * |b|
    requires (b[o / 8] & LowMask(BitPosition(o))) | LowPart(s, BitPosition(o)) == b[o / 8]
    requires HighPart(s, BitPosition(o)) == b[o / 8 + 1] & LowMask(BitPosition(o + w))
    ensures Packed(Mask(b, o), o, w, s, false) == Mask(b, o + w)
  {
    OffsetStep(o, w);
    PackedSpillInto(b, o, w, s, b[o / 8 + 1] & LowMask(BitPosition(o + w)));
    MaskPartial(b, o + w, o / 8 + 1);
  }


  /** What EA ORs back into byte o / 8 restores it up to bit o + w, for the symbol AA read at o inside that byte. */
  lemma RestoredInside(b: seq<bv8>, o: nat)
    requires o < 8 * |b|
    requires o % 8 + SymbolWidth(Window(b, o)) < 8
    ensures var v := Window(b, o);
      var bp := BitPosition(o);
      var x := b[o / 8];
      (x & LowMask(bp)) | LowPart(CharIndex(v), bp) == x & LowMask(BitPosition(o + SymbolWidth(v)))
  {
    BitPositionStep(o, SymbolWidth(Window(b, o)));
  }

  /** A symbol that reaches the end of byte o / 8 restores the whole byte. */
  lemma RestoredWhole(b: seq<bv8>, o: nat)
    requires o < 8 * |b|
    requires o % 8 + SymbolWidth(Window(b, o)) >= 8
    ensures var v := Window(b, o);
      var bp := BitPosition(o);
      var x := b[o / 8];
      (x & LowMask(bp)) | LowPart(CharIndex(v), bp) == x
  {
    BitPositionStep(o, SymbolWidth(Window(b, o)));
  }

  /** A symbol that crosses into a following byte restores that byte up to bit o + w. */
  lemma RestoredSpill(b: seq<bv8>, o: nat)
    requires o < 8 * |b| && o / 8 + 1 < |b|
    requires o % 8 + SymbolWidth(Window(b, o)) > 8
    ensures var v := Window(b, o);
      HighPart(CharIndex(v), BitPosition(o)) == b[o / 8 + 1] & LowMask(BitPosition(o + SymbolWidth(v)))
  {
    BitPositionStep(o, SymbolWidth(Window(b, o)));
  }

  /** Case inside: a symbol that ends before the end of its byte is packed back into Mask(b, o + w). */
  lemma StepInside(b: seq<bv8>, o: nat)
    requires o < 8 * |b|
    requires o % 8 + SymbolWidth(Window(b, o)) < 8
    ensures var v := Window(b, o);
      Packed(Mask(b, o), o, SymbolWidth(v), CharIndex(v), false) == Mask(b, o + SymbolWidth(v))
  {
    BitPositionStep(o, SymbolWidth(Window(b, o)));
    PackedInside(b, o, SymbolWidth(Window(b, o)), CharIndex(Window(b, o)));
  }

  /** Case full: a symbol that ends exactly at the end of its byte. */
  lemma StepFull(b: seq<bv8>, o: nat)
    requires o < 8 * |b|
    requires o % 8 + SymbolWidth(Window(b, o)) == 8
    ensures var v := Window(b, o);
      var isLast := o + SymbolWidth(v) >= 8 * |b|;
      Packed(Mask(b, o), o, SymbolWidth(v), CharIndex(v), isLast) == if isLast then b else Mask(b, o + SymbolWidth(v))
  {
    var w := SymbolWidth(Window(b, o));
    OffsetStep(o, w);
    RestoredWhole(b, o);
    PackedFull(b, o, w, CharIndex(Window(b, o)), o + w >= 8 * |b|);
  }

  /** Case last: a symbol that runs past the end of the last byte. */
  lemma StepLast(b: seq<bv8>, o: nat)
    requires o < 8 * |b|
    requires o % 8 + SymbolWidth(Window(b, o)) > 8 && o + SymbolWidth(Window(b, o)) >= 8 * |b|
    ensures var v := Window(b, o);
      Packed(Mask(b, o), o, SymbolWidth(v), CharIndex(v), true) == b
  {
    BitPositionStep(o, SymbolWidth(Window(b, o)));
    PackedLast(b, o, SymbolWidth(Window(b, o)), CharIndex(Window(b, o)));
  }

  /** The two bytes a symbol that crosses into a following byte restores. */
  lemma AcrossBytes(b: seq<bv8>, o: nat)
    requires o < 8 * |b|
    requires o % 8 + SymbolWidth(Window(b, o)) > 8 && o + SymbolWidth(Window(b, o)) < 8 * |b|
    ensures var v := Window(b, o);
      var bp := BitPosition(o);
      && (b[o / 8] & LowMask(bp)) | LowPart(CharIndex(v), bp) == b[o / 8]
      && HighPart(CharIndex(v), bp) == b[o / 8 + 1] & LowMask(BitPosition(o + SymbolWidth(v)))
  {
    OffsetStep(o, SymbolWidth(Window(b, o)));
    RestoredWhole(b, o);
    RestoredSpill(b, o);
  }

  /** Case across: a symbol that crosses into a following byte. */
  lemma StepAcross(b: seq<bv8>, o: nat)
    requires o < 8 * |b|
    requires o % 8 + SymbolWidth(Window(b, o)) > 8 && o + SymbolWidth(Window(b, o)) < 8 * |b|
    ensures var v := Window(b, o);
      Packed(Mask(b, o), o, SymbolWidth(v), CharIndex(v), false) == Mask(b, o + SymbolWidth(v))
  {
    AcrossBytes(b, o);
    PackedAcross(b, o, SymbolWidth(Window(b, o)), CharIndex(Window(b, o)));
  }

  /** EA undoes what kA read: packing the symbol AA takes at bit o into the first o bits of b gives the first o + w bits, or all of b after the last symbol. */
  lemma PackStep(b: seq<bv8>, o: nat)
    requires o < 8 * |b|
    ensures var v := Window(b, o);
      var w := SymbolWidth(v);
      var isLast := o + w >= 8 * |b|;
      Packed(Mask(b, o), o, w, CharIndex(v), isLast) == if isLast then b else Mask(b, o + w)
  {
    var w := SymbolWidth(Window(b, o));
    OffsetStep(o, w);
    if o % 8 + w < 8 {
      StepInside(b, o);
    } else if o % 8 + w == 8 {
      StepFull(b, o);
    } else if o + w >= 8 * |b| {
      StepLast(b, o);
    } else {
      StepAcross(b, o);
    }
  }

  // ---------------------------------------------------------------------------
  // Symbols and the round trip
  // ---------------------------------------------------------------------------

  /** At finds s[k + i] whenever that is inside s. */
  lemma {:induction false} AtIndex(s: string, i: bv8, k: nat)
    requires k + i as int < |s|
    ensures At(s, i, k) == s[k + i as int]
    decreases i
  {
    if i != 0 {
      AtIndex(s, i - 1, k + 1);
    }
  }

  /** At returns a character of s or 'A'. */
  lemma {:induction false} AtMember(s: string, i: bv8, k: nat)
    ensures At(s, i, k) == 'A' || At(s, i, k) in s
    decreases |s| - k
  {
    if k < |s| && i != 0 {
      AtMember(s, i - 1, k + 1);
    }
  }

  /** yA[i] is a symbol, and bA maps it back to i. */
  lemma SymbolRoundTrip(c: bv8)
    requires c < 62
    ensures Symbol(c) == Alphabet[c as int]
    ensures SymbolValue(Symbol(c)) == Some(c)
  {
    AtIndex(Alphabet, c, 0);
    ReverseInvertsAlphabet(c as int);
    ByteInjective(ToByte(c as int), c);
  }

  /** Distinct bytes have distinct values. */
  lemma ByteInjective(x: bv8, y: bv8)
    requires x as int == y as int
    ensures x == y
  {
  }

  /** Every character AA produces is an alphabet symbol. */
  lemma SymbolInAlphabet(c: bv8)
    ensures Symbol(c) in Alphabet
  {
    AtMember(Alphabet, c, 0);
    assert Alphabet[0] == 'A';
  }

  /** One turn of xA's loop on a symbol with index c. */
  lemma DecodeStep(str: string, bytes: seq<bv8>, bitOffset: nat, c: bv8)
    requires str != [] && c < 62 && SymbolValue(str[0]) == Some(c)
    ensures DecodeSymbols(str, bytes, bitOffset)
      == DecodeSymbols(str[1..], Packed(bytes, bitOffset, SymbolWidth(c), c, |str| == 1), bitOffset + SymbolWidth(c))
  {
    if !IsSix(c) {
      assert c & 31 == c;
    }
  }

  /** The first symbol AA writes at bit o, and the rest. */
  lemma EncodedHead(b: seq<bv8>, o: nat)
    requires o < 8 * |b|
    ensures var v := Window(b, o);
      var str := EncodedFrom(b, o);
      && str != []
      && str[0] == Symbol(CharIndex(v))
      && str[1..] == EncodedFrom(b, o + SymbolWidth(v))
      && (|str| == 1 <==> o + SymbolWidth(v) >= 8 * |b|)
  {
    EncodeStep(b, o);
    assert EncodedFrom(b, o)[1..] == EncodedFrom(b, o + SymbolWidth(Window(b, o)));
  }

  /** The symbol AA writes for a window reads back, under xA, as the alphabet index it was written from, at the same width. */
  lemma WindowSymbol(value: bv8)
    requires value < 64
    ensures SymbolValue(Symbol(CharIndex(value))) == Some(CharIndex(value))
    ensures SymbolWidth(CharIndex(value)) == SymbolWidth(value)
  {
    SymbolRoundTrip(CharIndex(value));
  }

  /** One symbol of the round trip: xA's turn on AA's symbol at bit o extends the first o bits to the first o + w. */
  lemma DecodeEncodedStep(b: seq<bv8>, o: nat)
    requires o < 8 * |b|
    ensures var w := SymbolWidth(Window(b, o));
      DecodeSymbols(EncodedFrom(b, o), Mask(b, o), o)
      == if o + w >= 8 * |b| then Some(b) else DecodeSymbols(EncodedFrom(b, o + w), Mask(b, o + w), o + w)
  {
    var v := Window(b, o);
    EncodedHead(b, o);
    WindowSymbol(v);
    DecodeStep(EncodedFrom(b, o), Mask(b, o), o, CharIndex(v));
    PackStep(b, o);
  }

  /** xA unpacks what AA packs from bit o on, given the first o bits. */
  lemma {:induction false} DecodeEncodedFrom(b: seq<bv8>, o: nat)
    requires o < 8 * |b|
    ensures DecodeSymbols(EncodedFrom(b, o), Mask(b, o), o) == Some(b)
    decreases 8 * |b| - o
  {
    DecodeEncodedStep(b, o);
    var w := SymbolWidth(Window(b, o));
    if o + w < 8 * |b| {
      DecodeEncodedFrom(b, o + w);
    }
  }

  /** xA inverts AA: decoding the text AA makes from any bytes gives those bytes back. */
  lemma RoundTrip(b: seq<bv8>)
    ensures Decoded(Encoded(b)) == Some(b)
  {
    if b != [] {
      assert Mask(b, 0) == [];
      DecodeEncodedFrom(b, 0);
    }
  }

  // ---------------------------------------------------------------------------
  // Further properties of xA and AA
  // ---------------------------------------------------------------------------

  /** bA has an entry other than -1 exactly for the characters of yA. */
  lemma SymbolValueDefined(c: char)
    ensures SymbolValue(c).Some? <==> c in Alphabet
  {
    AlphabetMembership(c);
    if c as int < 123 {
      ReverseAt(c as int);
    }
  }

  /** xA returns null exactly when some character of str is not in the alphabet. */
  lemma {:induction false} DecodeSymbolsFails(str: string, bytes: seq<bv8>, bitOffset: nat)
    ensures DecodeSymbols(str, bytes, bitOffset).None? <==> exists i | 0 <= i < |str| :: str[i] !in Alphabet
    decreases |str|
  {
    if str != [] {
      SymbolValueDefined(str[0]);
      match SymbolValue(str[0])
      case None =>
      case Some(value) =>
        var isLast := |str| == 1;
        if IsSix(value) {
          DecodeSymbolsFails(str[1..], Packed(bytes, bitOffset, 6, value, isLast), bitOffset + 6);
        } else {
          DecodeSymbolsFails(str[1..], Packed(bytes, bitOffset, 5, value & 31, isLast), bitOffset + 5);
        }
        if exists i | 0 <= i < |str| :: str[i] !in Alphabet {
          var i :| 0 <= i < |str| && str[i] !in Alphabet;
          assert str[1..][i - 1] == str[i];
        }
    }
  }

  /** xA (popup.js:62-87) fails exactly on text with a character outside the alphabet; xA("") is the empty array. */
  lemma DecodedFails(str: string)
    ensures Decoded(str).None? <==> exists i | 0 <= i < |str| :: str[i] !in Alphabet
    ensures Decoded("") == Some([])
  {
    DecodeSymbolsFails(str, [], 0);
  }

  /** AA emits only characters of yA. */
  lemma {:induction false} EncodedFromInAlphabet(bytes: seq<bv8>, bitOffset: nat)
    ensures forall i | 0 <= i < |EncodedFrom(bytes, bitOffset)| :: EncodedFrom(bytes, bitOffset)[i] in Alphabet
    decreases 8 * |bytes| - bitOffset
  {
    if bitOffset < 8 * |bytes| {
      var value := Window(bytes, bitOffset);
      EncodeStep(bytes, bitOffset);
      SymbolInAlphabet(CharIndex(value));
      EncodedFromInAlphabet(bytes, bitOffset + SymbolWidth(value));
      ConsWithin(Symbol(CharIndex(value)), EncodedFrom(bytes, bitOffset + SymbolWidth(value)), Alphabet);
    }
  }

  /** A character of chars in front of a string of characters of chars. */
  lemma ConsWithin(c: char, rest: string, chars: string)
    requires c in chars && forall i | 0 <= i < |rest| :: rest[i] in chars
    ensures forall i | 0 <= i < |[c] + rest| :: ([c] + rest)[i] in chars
  {
  }

  /** AA (popup.js:93-115) emits only alphabet characters, so its output never makes xA fail. */
  lemma EncodedInAlphabet(bytes: seq<bv8>)
    ensures forall i | 0 <= i < |Encoded(bytes)| :: Encoded(bytes)[i] in Alphabet
  {
    EncodedFromInAlphabet(bytes, 0);
  }

  /** Every character of str is an alphabet symbol, stated one character at a time. */
  predicate AllSymbols(str: string)
    decreases |str|
  {
    str == [] || (SymbolValue(str[0]).Some? && AllSymbols(str[1..]))
  }

  lemma {:induction false} AllSymbolsInAlphabet(str: string)
    ensures AllSymbols(str) <==> forall i | 0 <= i < |str| :: str[i] in Alphabet
    decreases |str|
  {
    if str != [] {
      SymbolValueDefined(str[0]);
      AllSymbolsInAlphabet(str[1..]);
      assert forall i | 0 <= i < |str[1..]| :: str[1..][i] == str[i + 1];
      if forall i | 0 <= i < |str[1..]| :: str[1..][i] in Alphabet {
        assert forall i | 0 < i < |str| :: str[i] == str[1..][i - 1];
      }
    }
  }

  /** The total width of the symbols of str. */
  function Width(str: string): nat
    requires AllSymbols(str)
    decreases |str|
  {
    if str == [] then 0 else SymbolWidth(SymbolValue(str[0]).value) + Width(str[1..])
  }

  /** The width of the last symbol of str. */
  function LastWidth(str: string): nat
    requires str != [] && AllSymbols(str)
    decreases |str|
  {
    if |str| == 1 then SymbolWidth(SymbolValue(str[0]).value) else LastWidth(str[1..])
  }

  /** The length of the array after EA: grown to cover the first byte, and the second when the value spills. */
  lemma PackedLength(bytes: seq<bv8>, bitOffset: nat, numBits: nat, value: bv8, isLast: bool)
    requires numBits == 5 || numBits == 6
    requires |bytes| == (bitOffset + 7) / 8
    ensures isLast ==> |Packed(bytes, bitOffset, numBits, value, isLast)| == bitOffset / 8 + 1
    ensures !isLast ==> |Packed(bytes, bitOffset, numBits, value, isLast)| == (bitOffset + numBits + 7) / 8
  {
    OffsetStep(bitOffset, numBits);
  }

  /** DecodeSymbols keeps the array exactly as long as the bits written so far need, and the last symbol adds its first byte only. */
  lemma {:induction false} DecodeSymbolsLength(str: string, bytes: seq<bv8>, bitOffset: nat)
    requires str != [] && AllSymbols(str)
    requires |bytes| == (bitOffset + 7) / 8
    ensures DecodeSymbols(str, bytes, bitOffset).Some?
    ensures |DecodeSymbols(str, bytes, bitOffset).value| == (bitOffset + Width(str) - LastWidth(str)) / 8 + 1
    decreases |str|
  {
    var c := SymbolValue(str[0]).value;
    var w := SymbolWidth(c);
    var next := Packed(bytes, bitOffset, w, c, |str| == 1);
    DecodeStep(str, bytes, bitOffset, c);
    PackedLength(bytes, bitOffset, w, c, |str| == 1);
    if |str| > 1 {
      DecodeSymbolsLength(str[1..], next, bitOffset + w);
    }
  }

  /** A nonempty text of alphabet characters gives floor(p / 8) + 1 bytes, p the width of all its symbols but the last. */
  lemma DecodedLength(str: string)
    requires str != [] && forall i | 0 <= i < |str| :: str[i] in Alphabet
    ensures AllSymbols(str)
    ensures Decoded(str).Some?
    ensures |Decoded(str).value| == (Width(str) - LastWidth(str)) / 8 + 1
  {
    AllSymbolsInAlphabet(str);
    DecodeSymbolsLength(str, [], 0);
  }

  /** xA does not invert AA on text: the last symbol of "9" never spills, and AA writes the unused top bits as an extra 'A'. */
  lemma TextNotRestored()
    ensures Decoded("9") == Some([61])
    ensures Encoded([61]) == "9A"
    ensures Decoded("9A") == Some([61])
  {
    DecodedNine();
    EncodedNine();
    DecodedNineA();
  }

  /** The one-symbol text "9" decodes to the byte 61. */
  lemma DecodedNine()
    ensures Decoded("9") == Some([61])
  {
    assert SymbolValue('9') == Some(61) by {
      ReverseAt(57);
    }
    assert Packed([], 0, 6, 61, true) == [61];
    DecodeStep("9", [], 0, 61);
    assert "9"[1..] == "";
  }

  /** The byte 61 packs to "9A". */
  lemma EncodedNine()
    ensures Encoded([61]) == "9A"
  {
    assert Symbol(61) == '9' by {
      SymbolRoundTrip(61);
    }
    assert Symbol(0) == 'A';
    assert Window([61], 0) == 61;
    assert Window([61], 6) == 0;
    assert EncodedFrom([61], 12) == [];
  }

  /** "9A" decodes back to the byte 61. */
  lemma DecodedNineA()
    ensures Decoded("9A") == Some([61])
  {
    assert SymbolValue('9') == Some(61) by {
      ReverseAt(57);
    }
    assert SymbolValue('A') == Some(0) by {
      ReverseAt(65);
    }
    DecodeStep("9A", [], 0, 61);
    assert Packed([], 0, 6, 61, false) == [61];
    assert "9A"[1..] == "A";
    DecodeStep("A", [61], 6, 0);
    assert Packed([61], 6, 6, 0, true) == [61];
    assert "A"[1..] == "";
  }
}
