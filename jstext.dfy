/**
 * The JavaScript string operations the extension relies on, on strings of
 * UTF-16 code units taken as characters: `trim`, the `\s` character class,
 * `substring`, `indexOf`, `split('\n')`, `search(/[A-Z]/)` and decimal
 * number formatting in template literals.
 */
module JsText {

  /** The ECMAScript WhiteSpace and LineTerminator code points: what `\s` matches and `trim` removes. */
  predicate IsWhitespace(c: char) {
    c == '\t' || c == '\n' || c == '\U{000B}' || c == '\U{000C}' || c == '\r' || c == ' ' ||
    c == '\U{00A0}' || c == '\U{1680}' || ('\U{2000}' <= c <= '\U{200A}') ||
    c == '\U{2028}' || c == '\U{2029}' || c == '\U{202F}' || c == '\U{205F}' || c == '\U{3000}' || c == '\U{FEFF}'
  }

  /** The index of the first non-whitespace character at i or after it, or |s|. */
  function SkipWhitespace(s: string, i: nat): (j: nat)
    requires i <= |s|
    ensures i <= j <= |s|
    ensures j < |s| ==> !IsWhitespace(s[j])
    decreases |s| - i
  {
    if i < |s| && IsWhitespace(s[i]) then SkipWhitespace(s, i + 1) else i
  }

  /** Everything SkipWhitespace passes over is whitespace. */
  lemma {:induction false} SkipWhitespaceSkips(s: string, i: nat)
    requires i <= |s|
    ensures forall k | i <= k < SkipWhitespace(s, i) :: IsWhitespace(s[k])
    decreases |s| - i
  {
    if i < |s| && IsWhitespace(s[i]) {
      SkipWhitespaceSkips(s, i + 1);
    }
  }

  /** The index just past the last non-whitespace character before j, or 0. */
  function BackWhitespace(s: string, j: nat): (i: nat)
    requires j <= |s|
    ensures i <= j
    ensures i > 0 ==> !IsWhitespace(s[i - 1])
    decreases j
  {
    if j > 0 && IsWhitespace(s[j - 1]) then BackWhitespace(s, j - 1) else j
  }

  /** Everything BackWhitespace passes over is whitespace. */
  lemma {:induction false} BackWhitespaceSkips(s: string, j: nat)
    requires j <= |s|
    ensures forall k | BackWhitespace(s, j) <= k < j :: IsWhitespace(s[k])
    decreases j
  {
    if j > 0 && IsWhitespace(s[j - 1]) {
      BackWhitespaceSkips(s, j - 1);
    }
  }

  /** `String.prototype.trim`: the leading whitespace dropped, then the trailing whitespace. */
  function Trim(s: string): string {
    var u := s[SkipWhitespace(s, 0)..];
    u[..BackWhitespace(u, |u|)]
  }

  /**
   * The trimmed string is the whitespace-free core of s: s with exactly its
   * leading and trailing whitespace cut off, empty exactly when s is all
   * whitespace.
   */
  lemma TrimProperties(s: string)
    ensures var t := Trim(s);
      && (exists a, b | 0 <= a <= b <= |s| ::
            && t == s[a..b]
            && (forall k | 0 <= k < a :: IsWhitespace(s[k]))
            && (forall k | b <= k < |s| :: IsWhitespace(s[k])))
      && (t == [] || (!IsWhitespace(t[0]) && !IsWhitespace(t[|t| - 1])))
      && (t == [] <==> forall i | 0 <= i < |s| :: IsWhitespace(s[i]))
  {
    var a := SkipWhitespace(s, 0);
    var u := s[a..];
    var b := BackWhitespace(u, |u|);
    var t := u[..b];
    SkipWhitespaceSkips(s, 0);
    BackWhitespaceSkips(u, |u|);
    assert forall k | a + b <= k < |s| :: s[k] == u[k - a];
    assert t == s[a..a + b];
    AllWhitespaceSplit(s, a);
    if t != [] {
      assert t[0] == u[0] && t[|t| - 1] == u[b - 1];
    }
  }

  /** s is all whitespace exactly when its first a characters and the rest are. */
  lemma AllWhitespaceSplit(s: string, a: nat)
    requires a <= |s|
    ensures (forall i | 0 <= i < |s| :: IsWhitespace(s[i])) <==>
      (forall i | 0 <= i < a :: IsWhitespace(s[i])) && (forall k | 0 <= k < |s[a..]| :: IsWhitespace(s[a..][k]))
  {
    assert forall i | a <= i < |s| :: s[i] == s[a..][i - a];
  }

  /** `s.replace(/\s+/g, '')`: every whitespace character removed. */
  function RemoveWhitespace(s: string): (r: string)
    ensures |r| <= |s|
    decreases |s|
  {
    if s == [] then []
    else if IsWhitespace(s[0]) then RemoveWhitespace(s[1..])
    else [s[0]] + RemoveWhitespace(s[1..])
  }

  /** No whitespace is left. */
  lemma {:induction false} RemoveWhitespaceFree(s: string)
    ensures forall i | 0 <= i < |RemoveWhitespace(s)| :: !IsWhitespace(RemoveWhitespace(s)[i])
    decreases |s|
  {
    if s != [] {
      RemoveWhitespaceFree(s[1..]);
    }
  }

  /** One character is dropped when it is whitespace and kept otherwise. */
  lemma RemoveWhitespaceOne(c: char)
    ensures RemoveWhitespace([c]) == if IsWhitespace(c) then [] else [c]
  {
    assert [c][1..] == [];
  }

  /** Whitespace is removed piece by piece: every other character is kept, in order. */
  lemma {:induction false} RemoveWhitespaceConcat(x: string, y: string)
    ensures RemoveWhitespace(x + y) == RemoveWhitespace(x) + RemoveWhitespace(y)
    decreases |x|
  {
    if x != [] {
      assert (x + y)[1..] == x[1..] + y;
      RemoveWhitespaceConcat(x[1..], y);
    } else {
      assert x + y == y;
    }
  }

  /** Removing whitespace keeps a whitespace-free prefix. */
  lemma {:induction false} RemoveWhitespacePrefix(p: string, s: string)
    requires p <= s
    requires forall i | 0 <= i < |p| :: !IsWhitespace(p[i])
    ensures p <= RemoveWhitespace(s)
    decreases |s|
  {
    if p != [] {
      assert !IsWhitespace(s[0]);
      assert p[1..] <= s[1..];
      assert forall i | 0 <= i < |p[1..]| :: p[1..][i] == p[i + 1];
      RemoveWhitespacePrefix(p[1..], s[1..]);
      assert RemoveWhitespace(s) == [s[0]] + RemoveWhitespace(s[1..]);
    }
  }

  /** Text without whitespace is left as it is. */
  lemma {:induction false} RemoveWhitespaceNone(s: string)
    requires forall i | 0 <= i < |s| :: !IsWhitespace(s[i])
    ensures RemoveWhitespace(s) == s
    decreases |s|
  {
    if s != [] {
      assert forall i | 0 <= i < |s[1..]| :: s[1..][i] == s[i + 1];
      RemoveWhitespaceNone(s[1..]);
      assert s == [s[0]] + s[1..];
    }
  }

  /** `s.startsWith(prefix)`. */
  predicate StartsWith(s: string, prefix: string) {
    prefix <= s
  }

  /** An index clamped into 0..len, as `substring` treats its arguments. */
  function Clamp(i: int, len: nat): (r: nat)
    ensures r <= len
    ensures 0 <= i <= len ==> r == i
  {
    if i < 0 then 0 else if i > len then len else i
  }

  /** `s.substring(start, end)`: both ends clamped into the string, then swapped when start is past end. */
  function Substring(s: string, start: int, end: int): (r: string)
    ensures 0 <= start <= end <= |s| ==> r == s[start..end]
    ensures |r| <= |s|
  {
    var a := Clamp(start, |s|);
    var b := Clamp(end, |s|);
    if a <= b then s[a..b] else s[b..a]
  }

  /** `s.substring(start)`. */
  function SubstringFrom(s: string, start: int): (r: string)
    ensures 0 <= start <= |s| ==> r == s[start..]
  {
    s[Clamp(start, |s|)..]
  }

  /** `s.indexOf(c)`: the first position of c, or -1. */
  function IndexOf(s: string, c: char): (r: int)
    ensures -1 <= r < |s|
    ensures r >= 0 ==> s[r] == c
  {
    IndexFrom(s, c, 0)
  }

  /** The first position of c at i or after it, or -1. */
  function IndexFrom(s: string, c: char, i: nat): (r: int)
    requires i <= |s|
    ensures r == -1 || i <= r < |s|
    ensures r >= 0 ==> s[r] == c
    decreases |s| - i
  {
    if i == |s| then -1 else if s[i] == c then i else IndexFrom(s, c, i + 1)
  }

  /** The position IndexFrom finds is the first one, and -1 means c does not occur. */
  lemma {:induction false} IndexFromFirst(s: string, c: char, i: nat)
    requires i <= |s|
    ensures var r := IndexFrom(s, c, i);
      && (r >= 0 ==> forall k | i <= k < r :: s[k] != c)
      && (r == -1 <==> forall k | i <= k < |s| :: s[k] != c)
    decreases |s| - i
  {
    if i < |s| && s[i] != c {
      IndexFromFirst(s, c, i + 1);
    }
  }

  /** `indexOf` gives -1 exactly when c does not occur, and otherwise its first position. */
  lemma IndexOfFirst(s: string, c: char)
    ensures IndexOf(s, c) == -1 <==> c !in s
    ensures IndexOf(s, c) >= 0 ==> c !in s[..IndexOf(s, c)]
  {
    IndexFromFirst(s, c, 0);
  }

  /** An ASCII capital letter, the class `[A-Z]`. */
  predicate IsUpper(c: char) {
    'A' <= c <= 'Z'
  }

  /** `s.search(/[A-Z]/)`: the position of the first capital letter, or -1. */
  function SearchUpper(s: string): (r: int)
    ensures -1 <= r < |s|
    ensures r >= 0 ==> IsUpper(s[r])
    decreases |s|
  {
    if s == [] then -1
    else if IsUpper(s[0]) then 0
    else
      var k := SearchUpper(s[1..]);
      if k == -1 then -1 else k + 1
  }

  /** The position search finds is the first capital letter, and -1 means there is none. */
  lemma {:induction false} SearchUpperFirst(s: string)
    ensures var r := SearchUpper(s);
      && (r >= 0 ==> forall i | 0 <= i < r :: !IsUpper(s[i]))
      && (r == -1 <==> forall i | 0 <= i < |s| :: !IsUpper(s[i]))
    decreases |s|
  {
    if s != [] && !IsUpper(s[0]) {
      SearchUpperFirst(s[1..]);
      assert forall i | 1 <= i < |s| :: s[i] == s[1..][i - 1];
    }
  }

  /** `s.split(sep)` for a one-character separator: the pieces between the separators, in order. */
  function Split(s: string, sep: char): (r: seq<string>)
    ensures |r| >= 1
    decreases |s|
  {
    var i := IndexOf(s, sep);
    if i == -1 then [s] else [s[..i]] + Split(s[i + 1..], sep)
  }

  /** No piece holds the separator. */
  lemma {:induction false} SplitPieces(s: string, sep: char)
    ensures forall k | 0 <= k < |Split(s, sep)| :: sep !in Split(s, sep)[k]
    decreases |s|
  {
    var i := IndexOf(s, sep);
    IndexOfFirst(s, sep);
    if i == -1 {
      assert Split(s, sep) == [s];
    } else {
      var head, tail := s[..i], s[i + 1..];
      var rest := Split(tail, sep);
      SplitPieces(tail, sep);
      assert Split(s, sep) == [head] + rest;
      FreeCons(head, rest, sep);
    }
  }

  /** A piece without c in front of pieces without c. */
  lemma FreeCons(head: string, rest: seq<string>, c: char)
    requires c !in head
    requires forall k | 0 <= k < |rest| :: c !in rest[k]
    ensures forall k | 0 <= k < |[head] + rest| :: c !in ([head] + rest)[k]
  {
    var pieces := [head] + rest;
    forall k | 0 <= k < |pieces|
      ensures c !in pieces[k]
    {
      if k > 0 {
        assert pieces[k] == rest[k - 1];
      }
    }
  }

  /** The pieces joined with the separator in between. */
  function Join(pieces: seq<string>, sep: char): string
    requires |pieces| >= 1
    decreases |pieces|
  {
    if |pieces| == 1 then pieces[0] else pieces[0] + [sep] + Join(pieces[1..], sep)
  }

  /** `split` loses nothing: joining the pieces again gives back s. */
  lemma {:induction false} SplitJoin(s: string, sep: char)
    ensures Join(Split(s, sep), sep) == s
    decreases |s|
  {
    var i := IndexOf(s, sep);
    if i == -1 {
      assert Split(s, sep) == [s];
    } else {
      SplitJoin(s[i + 1..], sep);
      SplitJoinAt(s, sep, i);
    }
  }

  /** The step of SplitJoin at the first separator, at i. */
  lemma SplitJoinAt(s: string, sep: char, i: int)
    requires i == IndexOf(s, sep) && i >= 0
    requires Join(Split(s[i + 1..], sep), sep) == s[i + 1..]
    ensures Join(Split(s, sep), sep) == s
  {
    var head, tail := s[..i], s[i + 1..];
    var rest := Split(tail, sep);
    assert Split(s, sep) == [head] + rest;
    JoinCons(head, rest, sep);
    assert Join(Split(s, sep), sep) == head + [sep] + tail;
    assert s == head + [s[i]] + tail;
  }

  lemma JoinCons(head: string, rest: seq<string>, sep: char)
    requires |rest| >= 1
    ensures Join([head] + rest, sep) == head + [sep] + Join(rest, sep)
  {
    assert ([head] + rest)[1..] == rest;
  }

  /** A decimal digit. */
  function Digit(d: nat): (c: char)
    requires d < 10
    ensures '0' <= c <= '9' && c as int - '0' as int == d
  {
    ('0' as int + d) as char
  }

  /** The decimal form of n, as a template literal writes a non-negative integer. */
  function DecimalString(n: nat): (r: string)
    ensures |r| >= 1
    decreases n
  {
    if n < 10 then [Digit(n)] else DecimalString(n / 10) + [Digit(n % 10)]
  }

  /** The decimal form is digits only, with no leading zero. */
  lemma {:induction false} DecimalStringDigits(n: nat)
    ensures var r := DecimalString(n);
      && (forall i | 0 <= i < |r| :: '0' <= r[i] <= '9')
      && (n >= 10 ==> r[0] != '0')
    decreases n
  {
    if n >= 10 {
      DecimalStringDigits(n / 10);
      var r := DecimalString(n);
      assert forall i | 0 <= i < |r| - 1 :: r[i] == DecimalString(n / 10)[i];
    }
  }

  /** The number a string of decimal digits denotes. */
  function DigitsValue(s: string): nat
    requires forall i | 0 <= i < |s| :: '0' <= s[i] <= '9'
    decreases |s|
  {
    if s == [] then 0 else DigitsValue(s[..|s| - 1]) * 10 + (s[|s| - 1] as int - '0' as int)
  }

  /** Reading the decimal form back gives n, so different numbers print differently. */
  lemma {:induction false} DecimalStringValue(n: nat)
    ensures (DecimalStringDigits(n); DigitsValue(DecimalString(n)) == n)
    decreases n
  {
    DecimalStringDigits(n);
    if n >= 10 {
      DecimalStringValue(n / 10);
      var r := DecimalString(n);
      assert r[..|r| - 1] == DecimalString(n / 10);
    }
  }

  lemma DecimalStringInjective(m: nat, n: nat)
    requires DecimalString(m) == DecimalString(n)
    ensures m == n
  {
    DecimalStringValue(m);
    DecimalStringValue(n);
  }
}
