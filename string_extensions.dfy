/**
 * The self-contained string helpers of StringExtensions.kt: the path-suffix extractor
 * `lastPathComponent`, the card-number grouper `creditCardFormatted`, the character-class
 * predicates and the e-mail validator.
 */
module StringExtensions {
  import opened KotlinText
  import opened Wrappers

  // ---------------------------------------------------------------------------
  // lastPathComponent
  // ---------------------------------------------------------------------------

  /**
   * `path` without its last character when that character is `sep` (`endsWith` then
   * `substring(0, length - 1)`): a prefix of `path`, one character shorter exactly when `path`
   * ends with `sep`, and otherwise all of it.
   */
  function DropTrailing(path: string, sep: char): (r: string)
    ensures |path| - 1 <= |r| <= |path| && r == path[..|r|]
    ensures |r| < |path| <==> path != [] && path[|path| - 1] == sep
  {
    if path != [] && path[|path| - 1] == sep then path[..|path| - 1] else path
  }

  /**
   * The longest suffix of `p` that holds no `sep`: everything after the last `sep`,
   * or the whole of `p` when it has none. With `AfterLastSuffix` the postconditions pin it down.
   */
  function AfterLast(p: string, sep: char): (r: string)
    ensures sep !in r
    ensures |r| <= |p|
    ensures |r| < |p| ==> p[|p| - |r| - 1] == sep
  {
    if p == [] || p[|p| - 1] == sep then []
    else
      var r := AfterLast(p[..|p| - 1], sep) + [p[|p| - 1]];
      assert r[..|r| - 1] == AfterLast(p[..|p| - 1], sep);
      r
  }

  /** The `sep`-free part is a suffix of `p`. */
  lemma {:induction false} AfterLastSuffix(p: string, sep: char)
    ensures AfterLast(p, sep) == p[|p| - |AfterLast(p, sep)|..]
  {
    if p != [] && p[|p| - 1] != sep {
      var q := p[..|p| - 1];
      AfterLastSuffix(q, sep);
      assert AfterLast(p, sep) == AfterLast(q, sep) + [p[|p| - 1]];
      assert p[|p| - |AfterLast(p, sep)|..] == q[|q| - |AfterLast(q, sep)|..] + [p[|p| - 1]];
    }
  }

  /** A string without `sep` is its own longest `sep`-free suffix. */
  lemma AfterLastWhole(p: string, sep: char)
    requires sep !in p
    ensures AfterLast(p, sep) == p
  {
    AfterLastSuffix(p, sep);
  }

  /** When `sep` occurs at `i` and not after it, the `sep`-free suffix is what follows `i`. */
  lemma AfterLastAt(p: string, sep: char, i: int)
    requires 0 <= i < |p| && p[i] == sep && sep !in p[i + 1..]
    ensures AfterLast(p, sep) == p[i + 1..]
  {
    AfterLastSuffix(p, sep);
  }

  /**
   * What `lastPathComponent` returns: drop one trailing `/`; if a `/` remains, the part after
   * the last one; otherwise drop one trailing `\` and take the part after the last `\`
   * (all of it when there is none).
   */
  function PathComponent(s: string): (r: string)
    ensures '/' !in r
    ensures |r| <= |s|
  {
    var path := DropTrailing(s, '/');
    if '/' in path then AfterLast(path, '/')
    else
      var stripped := DropTrailing(path, '\\');
      AfterLastSuffix(stripped, '\\');
      assert forall c :: c in AfterLast(stripped, '\\') ==> c in stripped;
      AfterLast(stripped, '\\')
  }

  /** The component when a `/` remains at `index` and none follows it. */
  lemma PathComponentAfterSlash(s: string, path: string, index: int)
    requires path == DropTrailing(s, '/')
    requires 0 <= index < |path| && path[index] == '/' && '/' !in path[index + 1..]
    ensures PathComponent(s) == path[index + 1..]
  {
    AfterLastAt(path, '/', index);
  }

  /** The component when no `/` remains and a `\` remains at `index` with none after it. */
  lemma PathComponentAfterBackslash(s: string, path: string, index: int)
    requires '/' !in DropTrailing(s, '/') && path == DropTrailing(DropTrailing(s, '/'), '\\')
    requires 0 <= index < |path| && path[index] == '\\' && '\\' !in path[index + 1..]
    ensures PathComponent(s) == path[index + 1..]
  {
    AfterLastAt(path, '\\', index);
  }

  /** The component when no separator remains. */
  lemma PathComponentWhole(s: string, path: string)
    requires '/' !in DropTrailing(s, '/') && path == DropTrailing(DropTrailing(s, '/'), '\\')
    requires '\\' !in path
    ensures PathComponent(s) == path
  {
    AfterLastWhole(path, '\\');
  }

  /** `String.lastPathComponent` (StringExtensions.kt), step by step on the locals `path` and `index`. */
  method LastPathComponent(s: string) returns (r: string)
    ensures r == PathComponent(s)
    ensures '/' !in r && |r| <= |s|
  {
    ghost var component := PathComponent(s);
    assert '/' !in component && |component| <= |s|;
    var path := s;
    if |path| > 0 && path[|path| - 1] == '/' {
      path := path[..|path| - 1];
    }
    assert path == DropTrailing(s, '/');
    var index := LastIndexOf(path, '/');
    if index < 0 {
      ghost var slashless := path;
      if |path| > 0 && path[|path| - 1] == '\\' {
        path := path[..|path| - 1];
      }
      assert path == DropTrailing(slashless, '\\');
      index := LastIndexOf(path, '\\');
      if index < 0 {
        PathComponentWhole(s, path);
        return path;
      }
      PathComponentAfterBackslash(s, path, index);
    } else {
      PathComponentAfterSlash(s, path, index);
    }
    r := path[index + 1..];
  }

  /** Exactly one trailing `/` is ignored: adding one to a path that does not end in `/` changes nothing. */
  lemma PathComponentTrailingSlash(s: string)
    requires s == [] || s[|s| - 1] != '/'
    ensures PathComponent(s + ['/']) == PathComponent(s)
  {
    assert DropTrailing(s + ['/'], '/') == s;
  }

  /** A second trailing `/` is not ignored: the component after it is empty. */
  lemma PathComponentDoubleSlash(s: string)
    ensures PathComponent(s + ['/', '/']) == []
  {
    assert DropTrailing(s + ['/', '/'], '/') == s + ['/'];
  }

  /** `\` separates only when no `/` remains; then the component is what follows the last `\`. */
  lemma PathComponentBackslash(s: string)
    requires '/' !in DropTrailing(s, '/')
    ensures '\\' !in PathComponent(s)
    ensures PathComponent(s) == AfterLast(DropTrailing(DropTrailing(s, '/'), '\\'), '\\')
  {
  }

  /** When a `/` remains, a `\` is an ordinary character of the component. */
  lemma PathComponentKeepsBackslash()
    ensures PathComponent("a/b\\c") == "b\\c"
  {
    AfterLastAt("a/b\\c", '/', 1);
    assert "a/b\\c"[2..] == "b\\c";
  }

  /** Without any separator the path comes back unchanged. */
  lemma PathComponentNoSeparator(s: string)
    requires '/' !in s && '\\' !in s
    ensures PathComponent(s) == s
  {
    AfterLastWhole(s, '\\');
  }

  /** Without any other separator, one trailing `/` or `\` is dropped and the rest comes back. */
  lemma PathComponentNoSeparatorTrailing(s: string)
    requires '/' !in s && '\\' !in s
    ensures PathComponent(s + ['/']) == s && PathComponent(s + ['\\']) == s
  {
    AfterLastWhole(s, '\\');
    assert DropTrailing(s + ['/'], '/') == s;
    assert DropTrailing(s + ['\\'], '/') == s + ['\\'];
    assert DropTrailing(s + ['\\'], '\\') == s;
    assert '/' !in s + ['\\'];
  }

  /** The demonstration app's URL example: the trailing `/` is ignored. */
  lemma PathComponentUrlExample()
    ensures PathComponent("https://google.com/chrome/") == "chrome"
  {
    var url := "https://google.com/chrome";
    assert "https://google.com/chrome/" == url + ['/'];
    assert DropTrailing(url + ['/'], '/') == url;
    assert url[18] == '/';
    AfterLastAt(url, '/', 18);
    assert url[19..] == "chrome";
  }

  /** The demonstration app's Windows example: backslashes separate when no `/` occurs. */
  lemma PathComponentWindowsExample()
    ensures PathComponent("C:\\Windows\\Fonts\\font.ttf") == "font.ttf"
  {
    var file := "C:\\Windows\\Fonts\\font.ttf";
    assert '/' !in file;
    assert DropTrailing(file, '/') == file && DropTrailing(file, '\\') == file;
    AfterLastAt(file, '\\', 16);
    assert file[17..] == "font.ttf";
  }

  /** The demonstration app's device example. */
  lemma PathComponentDeviceExample()
    ensures PathComponent("/dev/null") == "null"
  {
    assert DropTrailing("/dev/null", '/') == "/dev/null";
    AfterLastAt("/dev/null", '/', 4);
    assert "/dev/null"[5..] == "null";
  }

  // ---------------------------------------------------------------------------
  // creditCardFormatted
  // ---------------------------------------------------------------------------

  /** `replace(" ", "").trim()`: the input the grouping loop works on. */
  function Prepared(s: string): (p: string)
    ensures ' ' !in p
    ensures p == [] || (!IsWhitespace(p[0]) && !IsWhitespace(p[|p| - 1]))
  {
    Trim(RemoveSpaces(s))
  }

  /** The text in groups of four with one space between groups, defined group by group. */
  function Grouped(p: string): (g: string)
    ensures |g| == if p == [] then 0 else |p| + (|p| - 1) / 4
    decreases |p|
  {
    if |p| <= 4 then p else p[..4] + " " + Grouped(p[4..])
  }

  /** Appending one character to the grouped text adds a separator first exactly when a group is full. */
  lemma {:induction false} GroupedSnoc(q: string, c: char)
    ensures Grouped(q + [c]) == Grouped(q) + (if |q| % 4 == 0 && q != [] then " " else "") + [c]
    decreases |q|
  {
    if |q| > 4 {
      assert (q + [c])[..4] == q[..4];
      assert (q + [c])[4..] == q[4..] + [c];
      GroupedSnoc(q[4..], c);
    } else if |q| == 4 {
      assert (q + [c])[..4] == q;
      assert (q + [c])[4..] == [c];
    }
  }

  /** `GroupedSnoc` on the prefixes of `p`: the grouped prefix grows by an optional space and `p[i]`. */
  lemma GroupedPrefixStep(p: string, i: int)
    requires 0 <= i < |p|
    ensures Grouped(p[..i + 1]) == Grouped(p[..i]) + (if i % 4 == 0 && i != 0 then " " else "") + [p[i]]
  {
    GroupedSnoc(p[..i], p[i]);
    assert p[..i + 1] == p[..i] + [p[i]];
  }

  /** `String.creditCardFormatted`: appends to a `StringBuilder`, a space before indices 4, 8, 12, … */
  method CreditCardFormatted(s: string) returns (r: string)
    ensures r == Grouped(Prepared(s))
  {
    var prepared := Trim(RemoveSpaces(s));
    var result := "";
    for i := 0 to |prepared|
      invariant result == Grouped(prepared[..i])
    {
      GroupedPrefixStep(prepared, i);
      if i % 4 == 0 && i != 0 {
        result := result + " ";
      }
      result := result + [prepared[i]];
    }
    assert prepared[..|prepared|] == prepared;
    r := result;
  }

  /**
   * The layout of the grouped text: n characters take n + (n - 1) / 4 positions, every fifth
   * position (4, 9, 14, …) holds the inserted space and the others hold the input in order.
   */
  lemma {:induction false} GroupedLayout(p: string)
    ensures |Grouped(p)| == if p == [] then 0 else |p| + (|p| - 1) / 4
    ensures forall j | 0 <= j < |Grouped(p)| ::
      Grouped(p)[j] == if j % 5 == 4 then ' ' else p[j - j / 5]
    decreases |p|
  {
    if |p| > 4 {
      var rest := p[4..];
      GroupedLayout(rest);
      var g := Grouped(p);
      assert g == p[..4] + " " + Grouped(rest);
      forall j | 0 <= j < |g|
        ensures g[j] == if j % 5 == 4 then ' ' else p[j - j / 5]
      {
        if j >= 5 {
          assert g[j] == Grouped(rest)[j - 5];
          assert (j - 5) % 5 == j % 5 && (j - 5) / 5 == j / 5 - 1;
        }
      }
    }
  }

  /** The formatted text never starts or ends with a space, and holds a space only between groups. */
  lemma GroupedEnds(p: string)
    requires ' ' !in p
    ensures Grouped(p) == [] <==> p == []
    ensures p != [] ==> Grouped(p)[0] == p[0] && Grouped(p)[|Grouped(p)| - 1] == p[|p| - 1]
    ensures forall j | 0 <= j < |Grouped(p)| :: Grouped(p)[j] == ' ' <==> j % 5 == 4
  {
    GroupedLayout(p);
    var g := Grouped(p);
    if p != [] {
      var n := |p|;
      var q := (n - 1) / 4;
      assert |g| - 1 == 5 * q + (n - 1) % 4;
      assert (|g| - 1) % 5 == (n - 1) % 4 && (|g| - 1) / 5 == q;
    }
    forall j | 0 <= j < |g| && j % 5 != 4
      ensures g[j] != ' '
    {
      assert p[j - j / 5] in p;
    }
  }

  /** Deleting the spaces of the formatted text gives back the grouping loop's input. */
  lemma {:induction false} GroupedRemoveSpaces(p: string)
    requires ' ' !in p
    ensures RemoveSpaces(Grouped(p)) == p
    decreases |p|
  {
    if |p| <= 4 {
      RemoveSpacesUnchanged(p);
    } else {
      GroupedRemoveSpaces(p[4..]);
      RemoveSpacesAppend(p[..4] + " ", Grouped(p[4..]));
      RemoveSpacesAppend(p[..4], " ");
      RemoveSpacesUnchanged(p[..4]);
      assert p[..4] + p[4..] == p;
    }
  }

  /** Deleting the spaces of `creditCardFormatted(s)` gives `s` with every space removed, then trimmed. */
  lemma CreditCardRemoveSpaces(s: string)
    ensures RemoveSpaces(Grouped(Prepared(s))) == Trim(RemoveSpaces(s))
  {
    GroupedRemoveSpaces(Prepared(s));
  }

  /** `creditCardFormatted` is idempotent: formatting formatted text changes nothing. */
  lemma CreditCardIdempotent(s: string)
    ensures Grouped(Prepared(Grouped(Prepared(s)))) == Grouped(Prepared(s))
  {
    var p := Prepared(s);
    GroupedRemoveSpaces(p);
    TrimUnchanged(p);
  }

  /** Sixteen characters form four groups of four. */
  lemma GroupedSixteen(p: string)
    requires |p| == 16
    ensures Grouped(p) == p[..4] + " " + p[4..8] + " " + p[8..12] + " " + p[12..]
  {
    var r1 := p[4..];
    var r2 := r1[4..];
    assert r1[..4] == p[4..8] && r2 == p[8..] && r2[..4] == p[8..12] && r2[4..] == p[12..];
    assert Grouped(r2[4..]) == p[12..];
    assert Grouped(r2) == p[8..12] + " " + p[12..];
    assert Grouped(r1) == p[4..8] + " " + Grouped(r2);
    assert Grouped(p) == p[..4] + " " + Grouped(r1);
  }

  /** The example the demonstration app gives for `creditCardFormatted`. */
  lemma CreditCardExample(s: string)
    requires s == "1234567890123456"
    ensures Grouped(Prepared(s)) == "1234 5678 9012 3456"
  {
    assert |s| == 16;
    assert s[0] == '1' && s[15] == '6';
    assert ' ' !in s;
    PreparedClean(s);
    CardGroupedExample(s);
  }

  /** The grouping loop's part of the demonstration app's example. */
  lemma CardGroupedExample(p: string)
    requires p == "1234567890123456"
    ensures Grouped(p) == "1234 5678 9012 3456"
  {
    GroupedSixteen(p);
  }

  /** Text with no space and no whitespace at either end is left as it is before grouping. */
  lemma PreparedClean(p: string)
    requires ' ' !in p && (p == [] || (!IsWhitespace(p[0]) && !IsWhitespace(p[|p| - 1])))
    ensures Prepared(p) == p
  {
    RemoveSpacesUnchanged(p);
    TrimUnchanged(p);
  }

  // ---------------------------------------------------------------------------
  // Character-class predicates
  // ---------------------------------------------------------------------------

  /** The bracketed classes `[A-Za-z]` and `[0-9]`. */
  datatype CharClass = LatinLetter | Digit

  predicate InClass(cls: CharClass, c: char)
  {
    match cls
    case LatinLetter => IsAsciiLetter(c)
    case Digit => IsAsciiDigit(c)
  }

  /** `.*` matches a string exactly when it holds no line terminator. */
  predicate DotStar(s: string)
  {
    forall i | 0 <= i < |s| :: !IsLineTerminator(s[i])
  }

  predicate SomeInClass(s: string, cls: CharClass)
  {
    exists i | 0 <= i < |s| :: InClass(cls, s[i])
  }

  /** The split u + [c] + v at position k, with `.*` matching u and v and c in the class. */
  predicate SplitAt(s: string, cls: CharClass, k: int)
    requires 0 <= k < |s|
  {
    DotStar(s[..k]) && InClass(cls, s[k]) && DotStar(s[k + 1..])
  }

  /**
   * A whole-string match of `.*[cls].*`: some split around a character of the class. It holds iff
   * some character is in the class and no line terminator occurs.
   */
  function MatchesContaining(s: string, cls: CharClass): (b: bool)
    ensures b <==> SomeInClass(s, cls) && DotStar(s)
  {
    SplitAroundClass(s, cls);
    exists k | 0 <= k < |s| :: SplitAt(s, cls, k)
  }

  /** A split around a character of the class exists iff one is in the string and none ends a line. */
  lemma SplitAroundClass(s: string, cls: CharClass)
    ensures (exists k | 0 <= k < |s| :: SplitAt(s, cls, k)) <==> SomeInClass(s, cls) && DotStar(s)
  {
    if exists k | 0 <= k < |s| :: SplitAt(s, cls, k) {
      var k :| 0 <= k < |s| && SplitAt(s, cls, k);
      SplitCovers(s, cls, k);
    }
    if SomeInClass(s, cls) && DotStar(s) {
      var i :| 0 <= i < |s| && InClass(cls, s[i]);
      assert DotStar(s[..i]) && DotStar(s[i + 1..]);
      assert SplitAt(s, cls, i);
    }
  }

  /** A split puts a character of the class in the string and leaves no line terminator in it. */
  lemma SplitCovers(s: string, cls: CharClass, k: int)
    requires 0 <= k < |s| && SplitAt(s, cls, k)
    ensures SomeInClass(s, cls) && DotStar(s)
  {
    forall i | 0 <= i < |s|
      ensures !IsLineTerminator(s[i])
    {
      if i < k {
        assert s[i] == s[..k][i];
      } else if i > k {
        assert s[i] == s[k + 1..][i - k - 1];
      }
    }
  }

  /** `String.containsLatinLetter`: `matches(".*[A-Za-z].*")`. */
  function ContainsLatinLetter(s: string): (b: bool)
    ensures b <==> SomeInClass(s, LatinLetter) && DotStar(s)
  {
    MatchesContaining(s, LatinLetter)
  }

  /** `String.containsDigit`: `matches(".*[0-9].*")`. */
  function ContainsDigit(s: string): (b: bool)
    ensures b <==> SomeInClass(s, Digit) && DotStar(s)
  {
    MatchesContaining(s, Digit)
  }

  /** `String.hasLettersAndDigits`: both of the above. */
  function HasLettersAndDigits(s: string): (b: bool)
    ensures b <==> SomeInClass(s, LatinLetter) && SomeInClass(s, Digit) && DotStar(s)
  {
    ContainsLatinLetter(s) && ContainsDigit(s)
  }

  predicate IsAsciiAlphanumeric(c: char) { IsAsciiLetter(c) || IsAsciiDigit(c) }

  /** `String.isAlphanumeric`: `matches("[A-Za-z0-9]*")`, the starred class consumed one character at a time. */
  function IsAlphanumeric(s: string): (b: bool)
    ensures b <==> forall i | 0 <= i < |s| :: IsAsciiAlphanumeric(s[i])
  {
    if s == [] then true
    else IsAsciiAlphanumeric(s[0]) && IsAlphanumeric(s[1..])
  }

  /** The demonstration app's expectations for `containsLatinLetter`. */
  lemma LatinLetterExamples(s: string, t: string)
    requires s == "Contains letters" && t == "12345"
    ensures ContainsLatinLetter(s) && !ContainsLatinLetter(t)
  {
    assert IsAsciiLetter(s[0]);
    assert forall i | 0 <= i < |t| :: !IsAsciiLetter(t[i]);
  }

  /** `.` stops at a line terminator, so a letter on either side of one does not make a match. */
  lemma LatinLetterLineExample(s: string)
    requires s == "abc\ndef"
    ensures !ContainsLatinLetter(s)
  {
    assert IsLineTerminator(s[3]);
  }

  /** The demonstration app's expectations for `containsDigit`. */
  lemma DigitExamples(s: string, t: string, u: string)
    requires s == "Contains digits 123" && t == "12345" && u == "abc12345"
    ensures ContainsDigit(s) && ContainsDigit(t) && ContainsDigit(u)
  {
    assert IsAsciiDigit(s[16]) && IsAsciiDigit(t[0]) && IsAsciiDigit(u[3]);
  }

  /** The demonstration app's accepted inputs for `isAlphanumeric`. */
  lemma AlphanumericExamples(s: string, t: string)
    requires s == "abc123" && t == "yt6Hbb2sma213"
    ensures IsAlphanumeric(s) && IsAlphanumeric(t)
  {
  }

  /** The demonstration app's rejected inputs for `isAlphanumeric`. */
  lemma NotAlphanumericExamples(s: string, t: string)
    requires s == "ab.2a#1" && t == "yt6Hbb2.s(ma**213"
    ensures !IsAlphanumeric(s) && !IsAlphanumeric(t)
  {
    assert !IsAsciiAlphanumeric(s[2]);
    assert !IsAsciiAlphanumeric(t[7]);
  }

  // ---------------------------------------------------------------------------
  // isIntegerNumber
  // ---------------------------------------------------------------------------

  predicate AllDigits(d: string)
  {
    forall i | 0 <= i < |d| :: IsAsciiDigit(d[i])
  }

  /** The decimal value of a digit string, most significant digit first. */
  function DigitsValue(d: string): nat
    requires AllDigits(d)
  {
    if d == [] then 0
    else
      assert IsAsciiDigit(d[|d| - 1]);
      DigitsValue(d[..|d| - 1]) * 10 + (d[|d| - 1] as int - '0' as int)
  }

  /**
   * `String.toIntOrNull()`: a first character below `'0'` must be a sign followed by at least one
   * more character; every other character must be a digit; the value must fit in a 32-bit `Int`.
   */
  function ToIntOrNull(s: string): (r: Option<int>)
    ensures r.Some? ==> IntMin <= r.value <= IntMax
  {
    if s == [] then None
    else
      var first := s[0];
      if first < '0' && (|s| == 1 || (first != '-' && first != '+')) then None
      else
        var start := if first < '0' then 1 else 0;
        var digits := s[start..];
        if !AllDigits(digits) then None
        else
          var magnitude: int := DigitsValue(digits);
          var value := if first == '-' then -magnitude else magnitude;
          if IntMin <= value <= IntMax then Some(value) else None
  }

  /** The text is an optional sign and then one or more ASCII digits. */
  predicate IntegerSyntax(s: string)
  {
    var start := if s != [] && (s[0] == '-' || s[0] == '+') then 1 else 0;
    start < |s| && AllDigits(s[start..])
  }

  /** The value the integer syntax denotes. */
  function SyntaxValue(s: string): int
    requires IntegerSyntax(s)
  {
    if s[0] == '-' then 0 - DigitsValue(s[1..])
    else if s[0] == '+' then DigitsValue(s[1..])
    else DigitsValue(s)
  }

  /** `toIntOrNull` accepts exactly the in-range integer syntax, and returns the value it denotes. */
  lemma ToIntOrNullSyntax(s: string)
    ensures ToIntOrNull(s).Some? <==> IntegerSyntax(s) && IntMin <= SyntaxValue(s) <= IntMax
    ensures ToIntOrNull(s).Some? ==> ToIntOrNull(s).value == SyntaxValue(s)
  {
    if s != [] && s[0] > '9' {
      assert !AllDigits(s[0..]);
    }
  }

  /** `String.isIntegerNumber`: `toIntOrNull() != null`. */
  function IsIntegerNumber(s: string): (b: bool)
    ensures b <==> IntegerSyntax(s) && IntMin <= SyntaxValue(s) <= IntMax
  {
    ToIntOrNullSyntax(s);
    ToIntOrNull(s) != None
  }

  function Pow10(n: nat): (r: nat)
    ensures r >= 1
  {
    if n == 0 then 1 else 10 * Pow10(n - 1)
  }

  /** Powers of ten grow with the exponent. */
  lemma {:induction false} Pow10Monotone(m: nat, n: nat)
    requires m <= n
    ensures Pow10(m) <= Pow10(n)
    decreases n - m
  {
    if m < n {
      Pow10Monotone(m + 1, n);
    }
  }

  /** n digits denote less than 10^n, and at least 10^(n-1) when the first digit is not `0`. */
  lemma {:induction false} DigitsValueBounds(d: string)
    requires AllDigits(d)
    ensures DigitsValue(d) < Pow10(|d|)
    ensures |d| > 0 && d[0] != '0' ==> DigitsValue(d) >= Pow10(|d| - 1)
    decreases |d|
  {
    if d != [] {
      var init := d[..|d| - 1];
      assert AllDigits(init);
      DigitsValueBounds(init);
      assert IsAsciiDigit(d[|d| - 1]);
      if |d| > 1 {
        assert init[0] == d[0];
      }
    }
  }

  /** Any one to nine ASCII digits, bare or after `-` or `+`, are an `Int`. */
  lemma ShortIntegers(d: string)
    requires 1 <= |d| <= 9 && AllDigits(d)
    ensures IsIntegerNumber(d) && IsIntegerNumber(['-'] + d) && IsIntegerNumber(['+'] + d)
  {
    DigitsValueBounds(d);
    assert Pow10(9) == 1_000_000_000 by {
      assert Pow10(3) == 1000;
      assert Pow10(6) == 1000 * Pow10(3);
      assert Pow10(9) == 1000 * Pow10(6);
    }
    Pow10Monotone(|d|, 9);
    assert (['-'] + d)[1..] == d && (['+'] + d)[1..] == d;
  }

  /** Eleven or more digits with a leading digit other than `0` never fit, whatever the sign. */
  lemma LongIntegers(d: string)
    requires |d| >= 11 && AllDigits(d) && d[0] != '0'
    ensures !IsIntegerNumber(d) && !IsIntegerNumber(['-'] + d) && !IsIntegerNumber(['+'] + d)
  {
    DigitsValueBounds(d);
    assert Pow10(10) == 10_000_000_000 by {
      assert Pow10(5) == 100_000;
      assert Pow10(10) == 100_000 * Pow10(5);
    }
    Pow10Monotone(10, |d| - 1);
    assert (['-'] + d)[1..] == d && (['+'] + d)[1..] == d;
  }

  /** The demonstration app's value for `isIntegerNumber`. */
  lemma IntegerNumberExample(s: string)
    requires s == "123"
    ensures IsIntegerNumber(s)
  {
    assert AllDigits(s);
    ShortIntegers(s);
  }

  /** A decimal fraction is not an integer number. */
  lemma DecimalNotIntegerExample(t: string)
    requires t == "12.9"
    ensures !IsIntegerNumber(t)
  {
    assert !IsAsciiDigit(t[2]);
  }

  /** Neither the empty text nor a lone sign is a number. */
  lemma SignOnlyNotIntegers()
    ensures !IsIntegerNumber("") && !IsIntegerNumber("-") && !IsIntegerNumber("+")
  {
  }

  // ---------------------------------------------------------------------------
  // isEmailValid
  // ---------------------------------------------------------------------------

  /** `\w` on the desktop JVM without UNICODE_CHARACTER_CLASS: `[a-zA-Z_0-9]`. */
  predicate IsWordChar(c: char) { IsAsciiLetter(c) || IsAsciiDigit(c) || c == '_' }

  /** The local part `[\w.-]+`. */
  predicate IsLocalPart(u: string)
  {
    |u| > 0 && forall i | 0 <= i < |u| :: IsWordChar(u[i]) || u[i] == '.' || u[i] == '-'
  }

  /** One label `[\w\-]+` (it holds neither `.` nor `@`). */
  predicate IsLabel(l: string)
  {
    |l| > 0 && forall i | 0 <= i < |l| :: IsWordChar(l[i]) || l[i] == '-'
  }

  /** The final segment `[A-Z]{2,8}` under the desktop JVM's CASE_INSENSITIVE (ASCII only, no UNICODE_CASE). */
  predicate IsTopLevel(t: string)
  {
    2 <= |t| <= 8 && forall i | 0 <= i < |t| :: IsAsciiLetter(t[i])
  }

  /**
   * The domain `([\w\-]+\.)+[A-Z]{2,8}`. A label holds no `.`, so each label ends at the first
   * `.` after it; what follows is either the final segment or another labelled domain.
   */
  function IsDomain(d: string): (b: bool)
    ensures b ==> |d| >= 4 && '.' in d && IsAsciiLetter(d[|d| - 1])
    decreases |d|
  {
    var k := IndexOf(d, '.');
    0 < k && IsLabel(d[..k]) && (IsTopLevel(d[k + 1..]) || IsDomain(d[k + 1..]))
  }

  /**
   * `String.isEmailValid`: `^[\w.-]+@([\w\-]+\.)+[A-Z]{2,8}$` matched against the whole string.
   * Neither class holds `@`, so the `@` of the pattern is the first `@` of the string.
   */
  function IsEmailValid(s: string): (b: bool)
    ensures b ==> '@' in s && '.' in s && |s| >= 6 && IsAsciiLetter(s[|s| - 1])
  {
    var a := IndexOf(s, '@');
    0 < a && IsLocalPart(s[..a]) && IsDomain(s[a + 1..])
  }

  /** The text of a list of labels, each followed by `.`. */
  function JoinLabels(labels: seq<string>): string
  {
    if labels == [] then [] else labels[0] + "." + JoinLabels(labels[1..])
  }

  predicate AllLabels(labels: seq<string>)
  {
    forall i | 0 <= i < |labels| :: IsLabel(labels[i])
  }

  /** A label holds no `.` and no `@`. */
  lemma LabelChars(l: string)
    requires IsLabel(l)
    ensures '.' !in l && '@' !in l
  {
  }

  /** Every string the domain grammar generates is accepted. */
  lemma {:induction false} DomainBuilt(labels: seq<string>, top: string)
    requires |labels| > 0 && AllLabels(labels) && IsTopLevel(top)
    ensures IsDomain(JoinLabels(labels) + top)
    decreases |labels|
  {
    var l := labels[0];
    var rest := JoinLabels(labels[1..]) + top;
    var d := JoinLabels(labels) + top;
    assert d == l + ['.'] + rest;
    assert d[..|l|] == l && d[|l|] == '.' && d[|l| + 1..] == rest;
    LabelChars(l);
    assert IndexOf(d, '.') == |l|;
    if |labels| == 1 {
      assert rest == top;
    } else {
      DomainBuilt(labels[1..], top);
    }
  }

  /** The labels an accepted domain is made of. */
  function DomainLabels(d: string): (labels: seq<string>)
    requires IsDomain(d)
    ensures |labels| > 0 && AllLabels(labels)
    decreases |d|
  {
    var k := IndexOf(d, '.');
    if IsTopLevel(d[k + 1..]) then [d[..k]] else [d[..k]] + DomainLabels(d[k + 1..])
  }

  /** The final segment of an accepted domain. */
  function DomainTop(d: string): (top: string)
    requires IsDomain(d)
    ensures IsTopLevel(top)
    decreases |d|
  {
    var k := IndexOf(d, '.');
    if IsTopLevel(d[k + 1..]) then d[k + 1..] else DomainTop(d[k + 1..])
  }

  lemma JoinLabelsCons(l: string, labels: seq<string>)
    ensures JoinLabels([l] + labels) == l + "." + JoinLabels(labels)
  {
    assert ([l] + labels)[1..] == labels;
  }

  /** A string is what precedes a dot in it, the dot, and what follows. */
  lemma SplitAtDot(d: string, k: int)
    requires 0 <= k < |d| && d[k] == '.'
    ensures d == d[..k] + ['.'] + d[k + 1..]
  {
  }

  /** One step of the domain parse: the first label, then either the final segment or a shorter domain. */
  lemma DomainStep(d: string, k: int)
    requires IsDomain(d) && k == IndexOf(d, '.')
    ensures IsTopLevel(d[k + 1..]) ==> DomainLabels(d) == [d[..k]] && DomainTop(d) == d[k + 1..]
    ensures !IsTopLevel(d[k + 1..]) ==>
      IsDomain(d[k + 1..]) && DomainLabels(d) == [d[..k]] + DomainLabels(d[k + 1..]) &&
      DomainTop(d) == DomainTop(d[k + 1..])
  {
  }

  /** Every accepted domain is generated by the grammar. */
  lemma {:induction false} DomainParsed(d: string)
    requires IsDomain(d)
    ensures d == JoinLabels(DomainLabels(d)) + DomainTop(d)
    decreases |d|, 1
  {
    var k := IndexOf(d, '.');
    if IsTopLevel(d[k + 1..]) {
      DomainParsedLast(d, k);
    } else {
      DomainParsedCons(d, k);
    }
  }

  /** A domain whose first dot is followed by the final segment is one label and that segment. */
  lemma DomainParsedLast(d: string, k: int)
    requires IsDomain(d) && k == IndexOf(d, '.') && IsTopLevel(d[k + 1..])
    ensures d == JoinLabels(DomainLabels(d)) + DomainTop(d)
  {
    SplitAtDot(d, k);
    DomainStep(d, k);
    assert d[k + 1..] == JoinLabels([]) + d[k + 1..];
    Rebuild(d, d[..k], d[k + 1..], [], d[k + 1..]);
  }

  /** A domain whose first dot is followed by a shorter domain is that domain's parse with one more label. */
  lemma {:induction false} DomainParsedCons(d: string, k: int)
    requires IsDomain(d) && k == IndexOf(d, '.') && !IsTopLevel(d[k + 1..])
    ensures d == JoinLabels(DomainLabels(d)) + DomainTop(d)
    decreases |d|, 0
  {
    SplitAtDot(d, k);
    DomainStep(d, k);
    DomainParsed(d[k + 1..]);
    Rebuild(d, d[..k], d[k + 1..], DomainLabels(d[k + 1..]), DomainTop(d[k + 1..]));
  }

  /** A label and a dot in front of a rebuilt domain give a rebuilt domain with one more label. */
  lemma Rebuild(d: string, head: string, tail: string, labels: seq<string>, top: string)
    requires d == head + ['.'] + tail && tail == JoinLabels(labels) + top
    ensures d == JoinLabels([head] + labels) + top
  {
    JoinLabelsCons(head, labels);
  }

  /** An accepted domain holds no `@`. */
  lemma {:induction false} DomainNoAt(d: string)
    requires IsDomain(d)
    ensures '@' !in d
    decreases |d|
  {
    var k := IndexOf(d, '.');
    var tail := d[k + 1..];
    assert d == d[..k] + "." + tail;
    LabelChars(d[..k]);
    if IsTopLevel(tail) {
      assert '@' !in tail;
    } else {
      DomainNoAt(tail);
    }
  }

  /** A local part holds no `@`. */
  lemma LocalPartNoAt(u: string)
    requires IsLocalPart(u)
    ensures '@' !in u
  {
  }

  /** An address is accepted when it is a local part, `@` and an accepted domain. */
  lemma EmailJoin(local: string, d: string)
    requires IsLocalPart(local) && IsDomain(d)
    ensures IsEmailValid(local + ['@'] + d)
  {
    var s := local + ['@'] + d;
    LocalPartNoAt(local);
    assert s[..|local|] == local && s[|local|] == '@';
    assert IndexOf(s, '@') == |local|;
    assert s[|local| + 1..] == d;
  }

  /** Every address the pattern's grammar generates is accepted. */
  lemma EmailBuilt(local: string, labels: seq<string>, top: string)
    requires IsLocalPart(local) && |labels| > 0 && AllLabels(labels) && IsTopLevel(top)
    ensures IsEmailValid(local + ['@'] + JoinLabels(labels) + top)
  {
    DomainBuilt(labels, top);
    EmailJoin(local, JoinLabels(labels) + top);
    assert local + ['@'] + JoinLabels(labels) + top == local + ['@'] + (JoinLabels(labels) + top);
  }

  /**
   * Every accepted address is a non-empty local part, exactly one `@`, one or more labels each
   * followed by `.`, and a final segment of 2 to 8 letters.
   */
  lemma EmailParsed(s: string)
    requires IsEmailValid(s)
    ensures var a := IndexOf(s, '@');
      && IsLocalPart(s[..a])
      && '@' !in s[..a] && '@' !in s[a + 1..]
      && s[a + 1..] == JoinLabels(DomainLabels(s[a + 1..])) + DomainTop(s[a + 1..])
  {
    var a := IndexOf(s, '@');
    DomainParsed(s[a + 1..]);
    DomainNoAt(s[a + 1..]);
  }

  /** One label and a dot in front of a final segment or of an accepted domain give an accepted domain. */
  lemma DomainCons(l: string, rest: string)
    requires IsLabel(l) && (IsTopLevel(rest) || IsDomain(rest))
    ensures IsDomain(l + ['.'] + rest)
  {
    var d := l + ['.'] + rest;
    LabelChars(l);
    assert d[..|l|] == l && d[|l|] == '.' && d[|l| + 1..] == rest;
    assert IndexOf(d, '.') == |l|;
  }

  /** A domain needs at least one dot. */
  lemma DomainNeedsDot(d: string)
    requires '.' !in d
    ensures !IsDomain(d)
  {
  }

  /** The demonstration app's address is accepted. */
  lemma EmailAppExample(s: string)
    requires s == "test@email.com"
    ensures IsEmailValid(s)
  {
    var local, d := s[..4], s[5..];
    assert s == local + ['@'] + d;
    assert IsLocalPart(local);
    assert d == d[..5] + ['.'] + d[6..];
    assert IsLabel(d[..5]) && IsTopLevel(d[6..]);
    DomainCons(d[..5], d[6..]);
    EmailJoin(local, d);
  }

  /** An address whose local part has `.` and `-` and whose domain has three labels is accepted. */
  lemma EmailLabelsExample(s: string)
    requires s == "a.b-c@mail.example.org"
    ensures IsEmailValid(s)
  {
    LabelsExampleDomain(s[6..]);
    LabelsExampleLocal(s[..5]);
    EmailJoinAt(s, 5);
  }

  /** An address is accepted when an `@` at `a` has a local part before it and an accepted domain after it. */
  lemma EmailJoinAt(s: string, a: int)
    requires 0 <= a < |s| && s[a] == '@' && IsLocalPart(s[..a]) && IsDomain(s[a + 1..])
    ensures IsEmailValid(s)
  {
    assert s == s[..a] + ['@'] + s[a + 1..];
    EmailJoin(s[..a], s[a + 1..]);
  }

  lemma LabelsExampleLocal(u: string)
    requires u == "a.b-c"
    ensures IsLocalPart(u)
  {
    forall i | 0 <= i < |u|
      ensures IsWordChar(u[i]) || u[i] == '.' || u[i] == '-'
    {
    }
  }

  lemma LabelsExampleDomain(d: string)
    requires d == "mail.example.org"
    ensures IsDomain(d)
  {
    var l1, l2, top := d[..4], d[5..12], d[13..];
    assert d == l1 + ['.'] + (l2 + ['.'] + top);
    assert IsLabel(l2);
    assert IsTopLevel(top);
    DomainCons(l2, top);
    assert IsLabel(l1);
    DomainCons(l1, l2 + ['.'] + top);
  }

  /** An address must have a local part. */
  lemma EmailNoLocalExample(s: string)
    requires s == "@email.com"
    ensures !IsEmailValid(s)
  {
    assert s[0] == '@';
  }

  /** The domain needs at least one label followed by `.`. */
  lemma EmailNoDotExample(s: string)
    requires s == "test@email"
    ensures !IsEmailValid(s)
  {
    assert s[4] == '@' && '@' !in s[..4];
    DomainNeedsDot(s[5..]);
  }

  /** With no `@` before it, the first `@` splits an address into its local part and domain. */
  lemma EmailAt(local: string, d: string)
    requires '@' !in local
    ensures IsEmailValid(local + ['@'] + d) <==> IsLocalPart(local) && IsDomain(d)
  {
    var s := local + ['@'] + d;
    assert s[..|local|] == local && s[|local|] == '@';
    assert IndexOf(s, '@') == |local|;
    assert s[|local| + 1..] == d;
  }

  /** A domain with a single dot is accepted exactly when its label and its final segment are. */
  lemma DomainLastSegment(l: string, t: string)
    requires '.' !in l && '.' !in t
    ensures IsDomain(l + ['.'] + t) <==> IsLabel(l) && IsTopLevel(t)
  {
    var d := l + ['.'] + t;
    assert d[..|l|] == l && d[|l|] == '.';
    assert IndexOf(d, '.') == |l|;
    assert d[|l| + 1..] == t;
    DomainNeedsDot(t);
  }

  /** The final segment needs at least two letters. */
  lemma EmailShortTopExample(s: string)
    requires s == "test@email.c"
    ensures !IsEmailValid(s)
  {
    var local, l, top := s[..4], s[5..10], s[11..];
    assert s == local + ['@'] + (l + ['.'] + top);
    assert '@' !in local && '.' !in l && '.' !in top;
    EmailAt(local, l + ['.'] + top);
    DomainLastSegment(l, top);
  }

  /** The final segment has at most eight letters. */
  lemma EmailLongTopExample(s: string)
    requires s == "test@email.abcdefghi"
    ensures !IsEmailValid(s)
  {
    var local, l, top := s[..4], s[5..10], s[11..];
    assert s == local + ['@'] + (l + ['.'] + top);
    assert '@' !in local && '.' !in l && '.' !in top;
    EmailAt(local, l + ['.'] + top);
    DomainLastSegment(l, top);
  }

  /** A label cannot be empty. */
  lemma EmailEmptyLabelExample(s: string)
    requires s == "test@.com"
    ensures !IsEmailValid(s)
  {
    assert s[4] == '@' && '@' !in s[..4];
    assert s[5..][0] == '.';
  }
}
