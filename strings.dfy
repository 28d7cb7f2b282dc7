/** Character-sequence helpers shared by the Markdown engine: substring search,
    trimming by character class, HTML escaping, lowercasing and decimal printing. */
module Strings {

  datatype Option<T> = None | Some(value: T)

  /** `query` occurs in `text` starting at index `i`. */
  predicate MatchesAt(text: string, query: string, i: nat) {
    i + |query| <= |text| && text[i..i + |query|] == query
  }

  /** `sub` occurs somewhere in `s` (String.contains). */
  predicate Contains(s: string, sub: string) {
    exists i: nat :: i <= |s| && MatchesAt(s, sub, i)
  }

  predicate HasPrefix(s: string, prefix: string) {
    |prefix| <= |s| && s[..|prefix|] == prefix
  }

  /** `piece` stands in `text` from index `from` on. */
  predicate Covers(text: string, from: int, piece: string) {
    0 <= from <= from + |piece| <= |text| && text[from..from + |piece|] == piece
  }

  /** The index of the first occurrence of `c` in `s` (firstIndex(of:)). */
  function FirstIndexOf(s: string, c: char): (r: Option<nat>)
    ensures r.Some? ==> r.value < |s| && s[r.value] == c && forall j :: 0 <= j < r.value ==> s[j] != c
    ensures r.None? ==> forall j :: 0 <= j < |s| ==> s[j] != c
  {
    if |s| == 0 then None
    else if s[0] == c then Some(0)
    else match FirstIndexOf(s[1..], c)
      case None => None
      case Some(k) => Some(k + 1)
  }

  /** The first `n` characters of `s`, or all of `s` when it is shorter (prefix(_:)). */
  function Prefix(s: string, n: nat): (r: string)
    ensures |r| <= n && HasPrefix(s, r)
    ensures |r| == n || r == s
  {
    if |s| <= n then s else s[..n]
  }

  // ---------------------------------------------------------------------------
  // Trimming (trimmingCharacters(in:))

  /** The two Foundation character sets the engine trims with. */
  datatype CharClass = Newlines | WhitespacesAndNewlines

  /** CharacterSet.newlines: U+000A through U+000D, U+0085, U+2028 and U+2029. */
  predicate IsNewline(c: char) {
    '\n' <= c <= '\r' || c == '\U{85}' || c == '\U{2028}' || c == '\U{2029}'
  }

  /** CharacterSet.whitespaces: the tab and the Unicode space separators (category Zs). */
  predicate IsWhitespace(c: char) {
    c == '\t' || c == ' ' || c == '\U{A0}' || c == '\U{1680}' ||
    ('\U{2000}' <= c <= '\U{200A}') || c == '\U{202F}' || c == '\U{205F}' || c == '\U{3000}'
  }

  predicate InClass(c: char, cls: CharClass) {
    match cls
    case Newlines => IsNewline(c)
    case WhitespacesAndNewlines => IsNewline(c) || IsWhitespace(c)
  }

  function TrimStart(s: string, cls: CharClass): (r: string)
    ensures |r| <= |s| && r == s[|s| - |r|..]
    ensures forall k :: 0 <= k < |s| - |r| ==> InClass(s[k], cls)
    ensures |r| > 0 ==> !InClass(r[0], cls)
  {
    if |s| > 0 && InClass(s[0], cls) then
      var r := TrimStart(s[1..], cls);
      assert forall k :: 1 <= k < |s| ==> s[k] == s[1..][k - 1];
      r
    else s
  }

  function TrimEnd(s: string, cls: CharClass): (r: string)
    ensures |r| <= |s| && r == s[..|r|]
    ensures forall k :: |r| <= k < |s| ==> InClass(s[k], cls)
    ensures |r| > 0 ==> !InClass(r[|r| - 1], cls)
  {
    if |s| > 0 && InClass(s[|s| - 1], cls) then TrimEnd(s[..|s| - 1], cls) else s
  }

  /** Removes the characters of class `cls` from both ends of `s`: the result is the
      slice of `s` that remains once every leading and trailing such character is dropped. */
  function Trim(s: string, cls: CharClass): (r: string)
    ensures exists i, j :: (0 <= i <= j <= |s| && r == s[i..j] &&
      (forall k :: 0 <= k < i ==> InClass(s[k], cls)) &&
      (forall k :: j <= k < |s| ==> InClass(s[k], cls)))
    ensures |r| > 0 ==> !InClass(r[0], cls) && !InClass(r[|r| - 1], cls)
  {
    TrimIsSlice(s, cls);
    TrimEnd(TrimStart(s, cls), cls)
  }

  lemma TrimIsSlice(s: string, cls: CharClass)
    ensures exists i, j :: (0 <= i <= j <= |s| && TrimEnd(TrimStart(s, cls), cls) == s[i..j] &&
      (forall k :: 0 <= k < i ==> InClass(s[k], cls)) &&
      (forall k :: j <= k < |s| ==> InClass(s[k], cls)))
  {
    var t := TrimStart(s, cls);
    var i := |s| - |t|;
    var r := TrimEnd(t, cls);
    SliceOfSuffix(s, t, r, i, cls);
    assert 0 <= i <= i + |r| <= |s| && r == s[i..i + |r|];
  }

  lemma SliceOfSuffix(s: string, t: string, r: string, i: nat, cls: CharClass)
    requires i <= |s| && t == s[i..] && |r| <= |t| && r == t[..|r|]
    requires forall k :: |r| <= k < |t| ==> InClass(t[k], cls)
    ensures r == s[i..i + |r|]
    ensures forall k :: i + |r| <= k < |s| ==> InClass(s[k], cls)
  {
    forall k | i + |r| <= k < |s|
      ensures InClass(s[k], cls)
    {
      assert s[k] == t[k - i];
    }
  }

  /** A string with none of the trimmed characters is its own trim. */
  lemma {:induction false} TrimUnchanged(s: string, cls: CharClass)
    requires forall k :: 0 <= k < |s| ==> !InClass(s[k], cls)
    ensures Trim(s, cls) == s
  {
    var t := TrimStart(s, cls);
    assert |s| > 0 ==> !InClass(s[0], cls);
    assert t == s;
    assert |s| > 0 ==> !InClass(s[|s| - 1], cls);
  }

  /** A string made only of trimmed characters trims to the empty string. */
  lemma TrimAllRemoved(s: string, cls: CharClass)
    requires forall k :: 0 <= k < |s| ==> InClass(s[k], cls)
    ensures Trim(s, cls) == ""
  {
  }

  // ---------------------------------------------------------------------------
  // HTML escaping (replacingOccurrences(of:with:))

  /** Replaces every occurrence of the character `c` by `rep`. */
  function ReplaceChar(s: string, c: char, rep: string): (r: string)
    ensures c !in rep ==> c !in r
    ensures forall d :: d != c && d !in rep ==> (d in r <==> d in s)
  {
    if |s| == 0 then ""
    else (if s[0] == c then rep else [s[0]]) + ReplaceChar(s[1..], c, rep)
  }

  /** `<` becomes `&lt;`, then `>` becomes `&gt;`. */
  function Escape(s: string): (r: string)
    ensures '<' !in r && '>' !in r
  {
    ReplaceChar(ReplaceChar(s, '<', "&lt;"), '>', "&gt;")
  }

  /** Replacing a character that does not occur changes nothing. */
  lemma {:induction false} ReplaceCharAbsent(s: string, c: char, rep: string)
    requires c !in s
    ensures ReplaceChar(s, c, rep) == s
  {
    if |s| > 0 {
      assert s[0] != c;
      assert c !in s[1..];
      ReplaceCharAbsent(s[1..], c, rep);
    }
  }

  /** Replacing works piece by piece. */
  lemma {:induction false} ReplaceCharConcat(a: string, b: string, c: char, rep: string)
    ensures ReplaceChar(a + b, c, rep) == ReplaceChar(a, c, rep) + ReplaceChar(b, c, rep)
    decreases |a|
  {
    if |a| == 0 {
      assert a + b == b;
    } else {
      assert (a + b)[0] == a[0] && (a + b)[1..] == a[1..] + b;
      ReplaceCharConcat(a[1..], b, c, rep);
    }
  }

  /** Escaping works piece by piece. */
  lemma {:induction false} EscapeConcat(a: string, b: string)
    ensures Escape(a + b) == Escape(a) + Escape(b)
  {
    ReplaceCharConcat(a, b, '<', "&lt;");
    ReplaceCharConcat(ReplaceChar(a, '<', "&lt;"), ReplaceChar(b, '<', "&lt;"), '>', "&gt;");
  }

  /** Each character escapes on its own: `<` to `&lt;`, `>` to `&gt;`, any other
      character to itself. With EscapeConcat this fixes Escape on every string. */
  lemma EscapeChar(c: char)
    ensures Escape([c]) == if c == '<' then "&lt;" else if c == '>' then "&gt;" else [c]
  {
    assert [c][0] == c && [c][1..] == "";
    assert ReplaceChar([c][1..], '<', "&lt;") == "";
    var first := ReplaceChar([c], '<', "&lt;");
    assert first == if c == '<' then "&lt;" else [c];
    if c == '<' {
      ReplaceCharAbsent("&lt;", '>', "&gt;");
    } else {
      assert Escape([c]) == ReplaceChar([c], '>', "&gt;");
    }
  }

  /** Text without angle brackets is not altered by escaping. */
  lemma EscapeUnchanged(s: string)
    requires '<' !in s && '>' !in s
    ensures Escape(s) == s
  {
    ReplaceCharAbsent(s, '<', "&lt;");
    ReplaceCharAbsent(s, '>', "&gt;");
  }

  // ---------------------------------------------------------------------------
  // Lowercasing (lowercased(), on the ASCII letters the engine feeds it)

  function LowerChar(c: char): (r: char)
    ensures 'A' <= c <= 'Z' ==> r as int == c as int + 32
    ensures !('A' <= c <= 'Z') ==> r == c
  {
    if 'A' <= c <= 'Z' then (c as int + 32) as char else c
  }

  function Lowercased(s: string): (r: string)
    ensures |r| == |s| && forall k :: 0 <= k < |s| ==> r[k] == LowerChar(s[k])
  {
    if |s| == 0 then "" else [LowerChar(s[0])] + Lowercased(s[1..])
  }

  // ---------------------------------------------------------------------------
  // Decimal printing (string interpolation of Int)

  function DigitChar(d: nat): char
    requires d < 10
  {
    ('0' as int + d) as char
  }

  predicate IsDigit(c: char) {
    '0' <= c <= '9'
  }

  /** The decimal spelling of a natural number, most significant digit first. */
  function NatToString(n: nat): (r: string)
    ensures |r| > 0 && forall k :: 0 <= k < |r| ==> IsDigit(r[k])
  {
    if n < 10 then [DigitChar(n)] else NatToString(n / 10) + [DigitChar(n % 10)]
  }

  /** The value of a string of decimal digits. */
  function DecimalValue(s: string): nat
    requires forall k :: 0 <= k < |s| ==> IsDigit(s[k])
  {
    if |s| == 0 then 0
    else
      var last := s[|s| - 1];
      assert IsDigit(last);
      10 * DecimalValue(s[..|s| - 1]) + (last as int - '0' as int)
  }

  /** Reading back a printed number gives the number. */
  lemma {:induction false} NatToStringRoundTrip(n: nat)
    ensures DecimalValue(NatToString(n)) == n
  {
    if n >= 10 {
      var s := NatToString(n);
      assert s[..|s| - 1] == NatToString(n / 10);
      NatToStringRoundTrip(n / 10);
    }
  }

  /** Swift's `"\(i)"` for an Int: a minus sign before the digits of a negative number. */
  function IntToString(i: int): (r: string)
    ensures |r| > 0
    ensures i < 0 <==> r[0] == '-'
  {
    if i < 0 then "-" + NatToString(-i) else NatToString(i)
  }

  /** Distinct integers print differently. */
  lemma IntToStringInjective(a: int, b: int)
    requires IntToString(a) == IntToString(b)
    ensures a == b
  {
    if a < 0 {
      assert IntToString(a)[1..] == NatToString(-a);
      assert IntToString(b)[1..] == NatToString(-b);
      NatToStringRoundTrip(-a);
      NatToStringRoundTrip(-b);
    } else {
      NatToStringRoundTrip(a);
      NatToStringRoundTrip(b);
    }
  }
}
