/**
 * The parts of the Kotlin and JVM standard library that the string helpers rely on,
 * stated over `string` (a sequence of `char`).
 */
module KotlinText {

  /** Kotlin's `Int.MIN_VALUE` and `Int.MAX_VALUE`. */
  const IntMin: int := -0x8000_0000
  const IntMax: int := 0x7FFF_FFFF

  predicate IsAsciiUpper(c: char) { 'A' <= c <= 'Z' }
  predicate IsAsciiLower(c: char) { 'a' <= c <= 'z' }
  predicate IsAsciiLetter(c: char) { IsAsciiUpper(c) || IsAsciiLower(c) }
  predicate IsAsciiDigit(c: char) { '0' <= c <= '9' }

  /**
   * `Char.isWhitespace()` on the JVM: `Character.isWhitespace(c) || Character.isSpaceChar(c)`.
   * The space is whitespace; no ASCII letter or digit is.
   */
  function IsWhitespace(c: char): (b: bool)
    ensures c == ' ' ==> b
    ensures b ==> !IsAsciiLetter(c) && !IsAsciiDigit(c)
  {
    c == '\t' || c == '\n' || c == '\U{000B}' || c == '\U{000C}' || c == '\r'
    || ('\U{001C}' <= c <= '\U{001F}')
    || c == ' ' || c == '\U{00A0}' || c == '\U{1680}'
    || ('\U{2000}' <= c <= '\U{200A}')
    || c == '\U{2028}' || c == '\U{2029}' || c == '\U{202F}' || c == '\U{205F}' || c == '\U{3000}'
  }

  /**
   * The characters the desktop JVM's `java.util.regex` treats as line terminators (what `.` does
   * not match). Apart from U+0085 they are all whitespace, and none is an ASCII letter or digit.
   */
  function IsLineTerminator(c: char): (b: bool)
    ensures b ==> c == '\U{0085}' || IsWhitespace(c)
    ensures b ==> !IsAsciiLetter(c) && !IsAsciiDigit(c)
  {
    c == '\n' || c == '\r' || c == '\U{0085}' || c == '\U{2028}' || c == '\U{2029}'
  }

  /** `String.lastIndexOf(c)`: the index of the last occurrence of `c`, or -1. */
  function LastIndexOf(s: string, c: char): (r: int)
    ensures -1 <= r < |s|
    ensures r == -1 <==> c !in s
    ensures 0 <= r ==> s[r] == c && c !in s[r + 1..]
  {
    if s == [] then -1
    else if s[|s| - 1] == c then |s| - 1
    else
      assert s == s[..|s| - 1] + [s[|s| - 1]];
      LastIndexOf(s[..|s| - 1], c)
  }

  /** `String.indexOf(c)`: the index of the first occurrence of `c`, or -1. */
  function IndexOf(s: string, c: char): (r: int)
    ensures -1 <= r < |s|
    ensures r == -1 <==> c !in s
    ensures 0 <= r ==> s[r] == c && c !in s[..r]
  {
    if s == [] then -1
    else if s[0] == c then 0
    else
      var r := IndexOf(s[1..], c);
      assert s == [s[0]] + s[1..];
      if r < 0 then -1 else r + 1
  }

  /** `String.replace(" ", "")`: every space removed, all other characters kept in order. */
  function RemoveSpaces(s: string): (r: string)
    ensures ' ' !in r
    ensures |r| <= |s|
    ensures forall c | c != ' ' :: c in r <==> c in s
  {
    if s == [] then []
    else if s[0] == ' ' then RemoveSpaces(s[1..])
    else [s[0]] + RemoveSpaces(s[1..])
  }

  /** Every character is whitespace. */
  predicate AllWhitespace(s: string)
  {
    forall i | 0 <= i < |s| :: IsWhitespace(s[i])
  }

  /** Where `trim()` starts: the number of leading whitespace characters. */
  function TrimStartIndex(s: string): (k: nat)
    ensures k <= |s| && AllWhitespace(s[..k])
    ensures k < |s| ==> !IsWhitespace(s[k])
  {
    if s != [] && IsWhitespace(s[0]) then
      var k := TrimStartIndex(s[1..]);
      assert s[..k + 1] == [s[0]] + s[1..][..k];
      k + 1
    else
      0
  }

  /** Where `trim()` stops: the length left once the trailing whitespace characters are dropped. */
  function TrimEndIndex(s: string): (k: nat)
    ensures k <= |s| && AllWhitespace(s[k..])
    ensures 0 < k ==> !IsWhitespace(s[k - 1])
  {
    if s != [] && IsWhitespace(s[|s| - 1]) then
      var k := TrimEndIndex(s[..|s| - 1]);
      assert s[k..] == s[..|s| - 1][k..] + [s[|s| - 1]];
      k
    else
      |s|
  }

  /**
   * `String.trim()`: whitespace dropped from both ends. The result is the slice of `s` that starts
   * after the leading whitespace; everything outside it is whitespace, and its own ends are not.
   */
  function Trim(s: string): (r: string)
    ensures var start := TrimStartIndex(s);
      && start + |r| <= |s|
      && r == s[start..start + |r|]
      && AllWhitespace(s[..start])
      && AllWhitespace(s[start + |r|..])
    ensures r == [] || (!IsWhitespace(r[0]) && !IsWhitespace(r[|r| - 1]))
  {
    var start := TrimStartIndex(s);
    var end := TrimEndIndex(s[start..]);
    TrimEndInPlace(s, start, end);
    s[start..start + end]
  }

  /** What `TrimEndIndex` finds in the suffix after `start` holds at the same place in `s`. */
  lemma TrimEndInPlace(s: string, start: nat, end: nat)
    requires start <= |s| && end <= |s| - start
    requires AllWhitespace(s[start..][end..])
    requires 0 < end ==> !IsWhitespace(s[start..][end - 1])
    ensures AllWhitespace(s[start + end..])
    ensures 0 < end ==> !IsWhitespace(s[start + end - 1])
  {
    assert s[start..][end..] == s[start + end..];
  }

  /** Trimming a string that neither starts nor ends with whitespace changes nothing. */
  lemma TrimUnchanged(s: string)
    requires s == [] || (!IsWhitespace(s[0]) && !IsWhitespace(s[|s| - 1]))
    ensures Trim(s) == s
  {
  }

  /** Deleting spaces from a string that has none changes nothing. */
  lemma {:induction false} RemoveSpacesUnchanged(s: string)
    requires ' ' !in s
    ensures RemoveSpaces(s) == s
  {
    if s != [] {
      RemoveSpacesUnchanged(s[1..]);
    }
  }

  /** Appending one character appends it, unless it is a space: the order of the kept characters is preserved. */
  lemma RemoveSpacesSnoc(s: string, c: char)
    ensures RemoveSpaces(s + [c]) == RemoveSpaces(s) + (if c == ' ' then [] else [c])
  {
    RemoveSpacesAppend(s, [c]);
    assert [c][1..] == [];
  }

  /** Deleting spaces distributes over concatenation. */
  lemma {:induction false} RemoveSpacesAppend(a: string, b: string)
    ensures RemoveSpaces(a + b) == RemoveSpaces(a) + RemoveSpaces(b)
  {
    if a != [] {
      assert (a + b)[0] == a[0] && (a + b)[1..] == a[1..] + b;
      RemoveSpacesAppend(a[1..], b);
    } else {
      assert a + b == b;
    }
  }
}
