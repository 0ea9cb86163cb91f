# Kextend string, codec, visibility and helper extensions in Dafny

Kextend is a library of Kotlin extension functions for Android. This project models the parts of
it that are self-contained logic rather than calls into the Android or JVM platform:

- the string helpers of `StringExtensions.kt`:
  - `lastPathComponent`, a path-suffix extractor;
  - `creditCardFormatted`, which groups characters in fours;
  - the character-class predicates `containsLatinLetter`, `containsDigit`, `isAlphanumeric`,
    `hasLettersAndDigits` and `isIntegerNumber`;
  - the `isEmailValid` validator, its regular expression rewritten as a grammar;
- the private byte codec of `ParseExtensions.kt` (`encodeBytes` / `decodeBytes`). It writes every
  byte as two letters `a`..`p`, high nibble first;
- the visibility helpers of `ViewExtensions.kt`, as a `View` class with a mutable `visibility` field;
- `midElement` / `midIndex` (`ListExtensions.kt`);
- `Int.toDate()` / `Int.asDate` (`DateExtensions.kt`), with a `Date` kept as epoch milliseconds;
- `User` / `Student` and `getUserNameList` (`GenericExtensions.kt`);
- the `deviceName` rule (`AnyExtensions.kt`), with `Build.MANUFACTURER` and `Build.MODEL` as
  parameters;
- `isNull` / `isNotNull` (`NullExtensions.kt`), with a nullable value as an `Option`.

The files:

- `wrappers.dfy` has `Option`, `Result` and the two exceptions the code raises.
- `kotlin_text.dfy` models the Kotlin and JVM string primitives the helpers rely on:
  - `Char.isWhitespace`, and the line terminators that regex `.` does not match;
  - `indexOf` and `lastIndexOf`;
  - `replace(" ", "")` and `trim()`.
- There is one file per Kotlin source file.

Code that works step by step is imperative Dafny, proved against a specification function:

- `lastPathComponent` reassigns its locals;
- `creditCardFormatted` appends in a loop;
- `encodeBytes` appends in a loop;
- `decodeBytes` fills a fresh array in a `while` loop;
- the view methods assign a field.

Kotlin's fixed-width integers are written out:

- `Byte` is `int8`, and `toByte()` keeps the low 8 bits;
- `Int` is `int32` and `Long` is `int64`, with `Long` products wrapping explicitly;
- `toIntOrNull` checks the 32-bit range.

Decoding an odd-length string fails with an index error. In the code, the failing access is the
array store `bytes[i / 2]` at ParseExtensions.kt line 52: the last character has no slot in an
array of `length / 2` bytes. That store comes before the read `str[i + 1]` on line 53. The model
returns `Failure(IndexOutOfBounds)` for every odd length.

## Model

| member | source | states |
|---|---|---|
| KotlinText.IsWhitespace | library/src/main/java/com/nikhil/library/StringExtensions.kt:243 | `Char.isWhitespace()`, which `trim()` drops: the space is whitespace, and no ASCII letter or digit is. |
| KotlinText.IsLineTerminator | library/src/main/java/com/nikhil/library/StringExtensions.kt:75-79 | The characters regex `.` does not match: apart from U+0085 each is whitespace, and none is an ASCII letter or digit. |
| KotlinText.LastIndexOf | library/src/main/java/com/nikhil/library/StringExtensions.kt:189 | `lastIndexOf(c)`. The result is -1 exactly when `c` does not occur. Otherwise `c` is at the result and nowhere after it. |
| KotlinText.IndexOf | library/src/main/java/com/nikhil/library/StringExtensions.kt:49 | The first occurrence of a character, which splits an address at its `@` and a domain at its first `.`. The result is -1 exactly when `c` does not occur. Otherwise `c` is at the result and nowhere before it. |
| KotlinText.RemoveSpaces | library/src/main/java/com/nikhil/library/StringExtensions.kt:243 | `replace(" ", "")`. The result holds no space and is no longer than the input. A character other than a space occurs in the result iff it occurs in the input. |
| KotlinText.RemoveSpacesSnoc | library/src/main/java/com/nikhil/library/StringExtensions.kt:243 | Appending a character to the input appends it to the result unless it is a space, so the kept characters stay in order. |
| KotlinText.RemoveSpacesAppend | library/src/main/java/com/nikhil/library/StringExtensions.kt:243 | Removing spaces distributes over concatenation. |
| KotlinText.TrimStartIndex | library/src/main/java/com/nikhil/library/StringExtensions.kt:243 | Where `trim()` starts: every character before it is whitespace, and the one at it is not. |
| KotlinText.TrimEndIndex | library/src/main/java/com/nikhil/library/StringExtensions.kt:243 | Where `trim()` stops: every character from it on is whitespace, and the one before it is not. |
| KotlinText.Trim | library/src/main/java/com/nikhil/library/StringExtensions.kt:243 | `trim()` returns the slice of the input that starts after the leading whitespace. Everything dropped before and after it is whitespace, and the result neither starts nor ends with whitespace. |
| KotlinText.TrimUnchanged | library/src/main/java/com/nikhil/library/StringExtensions.kt:243 | `trim()` leaves unchanged a text that neither starts nor ends with whitespace. |
| StringExtensions.DropTrailing | library/src/main/java/com/nikhil/library/StringExtensions.kt:187-188 | `endsWith(sep)` then `substring(0, length - 1)`. The result is a prefix of the path. It is one character shorter exactly when the path ends with `sep`, and otherwise the whole path. |
| StringExtensions.AfterLast | library/src/main/java/com/nikhil/library/StringExtensions.kt:189-197 | The part after the last separator holds no separator, is no longer than the path, and is preceded by a separator whenever it is shorter than the path. |
| StringExtensions.AfterLastSuffix | library/src/main/java/com/nikhil/library/StringExtensions.kt:197 | That part is a suffix of the path, as `substring(index + 1)` is. |
| StringExtensions.AfterLastAt | library/src/main/java/com/nikhil/library/StringExtensions.kt:189-197 | When the last separator is at `i`, the part is `substring(i + 1)`. |
| StringExtensions.AfterLastWhole | library/src/main/java/com/nikhil/library/StringExtensions.kt:193-195 | A path with no separator is returned whole. |
| StringExtensions.PathComponent | library/src/main/java/com/nikhil/library/StringExtensions.kt:184-198 | `lastPathComponent` never contains `/` and is never longer than its input. |
| StringExtensions.LastPathComponent | library/src/main/java/com/nikhil/library/StringExtensions.kt:184-198 | The step-by-step method over the locals `path` and `index` returns exactly `PathComponent(s)`. Its result has no `/` and is no longer than the input. |
| StringExtensions.PathComponentTrailingSlash | library/src/main/java/com/nikhil/library/StringExtensions.kt:187-188 | One trailing `/` is ignored. |
| StringExtensions.PathComponentDoubleSlash | library/src/main/java/com/nikhil/library/StringExtensions.kt:187-189 | Only one `/` is stripped: with two trailing slashes the component is empty. |
| StringExtensions.PathComponentBackslash | library/src/main/java/com/nikhil/library/StringExtensions.kt:190-197 | When no `/` remains, one trailing `\` is dropped. The component is then what follows the last `\`, and it holds no `\`. |
| StringExtensions.PathComponentKeepsBackslash | library/src/main/java/com/nikhil/library/StringExtensions.kt:189-197 | When a `/` remains, `\` is an ordinary character: `"a/b\c"` gives `"b\c"`. |
| StringExtensions.PathComponentNoSeparator | library/src/main/java/com/nikhil/library/StringExtensions.kt:194-195 | A path with neither `/` nor `\` comes back unchanged. |
| StringExtensions.PathComponentNoSeparatorTrailing | library/src/main/java/com/nikhil/library/StringExtensions.kt:187-195 | Such a path with one trailing `/` or `\` comes back without it. |
| StringExtensions.PathComponentUrlExample | app/src/main/java/com/nikhil/kextend/MainActivity.kt:175 | `"https://google.com/chrome/"` gives `"chrome"`. |
| StringExtensions.PathComponentWindowsExample | app/src/main/java/com/nikhil/kextend/MainActivity.kt:176 | `"C:\Windows\Fonts\font.ttf"` gives `"font.ttf"`. |
| StringExtensions.PathComponentDeviceExample | app/src/main/java/com/nikhil/kextend/MainActivity.kt:177 | `"/dev/null"` gives `"null"`. |
| StringExtensions.Prepared | library/src/main/java/com/nikhil/library/StringExtensions.kt:243 | The grouping loop's input holds no space, and neither starts nor ends with whitespace. |
| StringExtensions.Grouped | library/src/main/java/com/nikhil/library/StringExtensions.kt:245-250 | The grouped text of n characters has n + (n - 1) / 4 characters: one space for every full group of four that is followed by more. |
| StringExtensions.GroupedSnoc | library/src/main/java/com/nikhil/library/StringExtensions.kt:245-250 | One loop step appends a space at every index 4, 8, 12, … and then the character. |
| StringExtensions.CreditCardFormatted | library/src/main/java/com/nikhil/library/StringExtensions.kt:241-252 | The `StringBuilder` loop produces exactly `Grouped(Prepared(s))`. |
| StringExtensions.GroupedLayout | library/src/main/java/com/nikhil/library/StringExtensions.kt:245-250 | n characters take n + (n - 1) / 4 positions. Every fifth position holds a space, and the others hold the input in order. |
| StringExtensions.GroupedEnds | library/src/main/java/com/nikhil/library/StringExtensions.kt:245-250 | The output is empty only for empty input. It starts and ends with the input's first and last characters, and holds a space exactly at the positions 4, 9, 14, … |
| StringExtensions.GroupedRemoveSpaces | library/src/main/java/com/nikhil/library/StringExtensions.kt:245-250 | Deleting the spaces of the output gives back the loop's input. |
| StringExtensions.CreditCardRemoveSpaces | library/src/main/java/com/nikhil/library/StringExtensions.kt:241-252 | Deleting the spaces of the output gives the input with every space removed, then trimmed. |
| StringExtensions.CreditCardIdempotent | library/src/main/java/com/nikhil/library/StringExtensions.kt:241-252 | Formatting an already formatted text changes nothing. |
| StringExtensions.PreparedClean | library/src/main/java/com/nikhil/library/StringExtensions.kt:243 | Text with no space and no whitespace at either end passes to the loop unchanged. |
| StringExtensions.GroupedSixteen | library/src/main/java/com/nikhil/library/StringExtensions.kt:245-250 | Sixteen characters come out as four groups of four. |
| StringExtensions.CreditCardExample | app/src/main/java/com/nikhil/kextend/MainActivity.kt:186 | `"1234567890123456"` gives `"1234 5678 9012 3456"`. |
| StringExtensions.MatchesContaining | library/src/main/java/com/nikhil/library/StringExtensions.kt:75-79 | A whole-string match of `.*[class].*` (a split around one character of the class) holds iff some character is in the class and no line terminator occurs. |
| StringExtensions.ContainsLatinLetter | library/src/main/java/com/nikhil/library/StringExtensions.kt:75-76 | True iff some character is in `[A-Za-z]` and no line terminator occurs. |
| StringExtensions.ContainsDigit | library/src/main/java/com/nikhil/library/StringExtensions.kt:78-79 | True iff some character is in `[0-9]` and no line terminator occurs. |
| StringExtensions.HasLettersAndDigits | library/src/main/java/com/nikhil/library/StringExtensions.kt:84-85 | True iff there are both a Latin letter and a digit, and no line terminator. |
| StringExtensions.IsAlphanumeric | library/src/main/java/com/nikhil/library/StringExtensions.kt:81-82 | True iff every character is an ASCII letter or digit, so the empty string is accepted. |
| StringExtensions.LatinLetterExamples | app/src/main/java/com/nikhil/kextend/MainActivity.kt:140-141 | `"Contains letters"` has a Latin letter; `"12345"` has none. |
| StringExtensions.LatinLetterLineExample | library/src/main/java/com/nikhil/library/StringExtensions.kt:75-76 | `"abc\ndef"` is rejected, because `.` does not match the line feed. |
| StringExtensions.DigitExamples | library/src/main/java/com/nikhil/library/StringExtensions.kt:78-79 | The demonstration app's values `"Contains digits 123"`, `"12345"` and `"abc12345"` contain a digit. |
| StringExtensions.AlphanumericExamples | library/src/main/java/com/nikhil/library/StringExtensions.kt:81-82 | The demonstration app's values `"abc123"` and `"yt6Hbb2sma213"` are alphanumeric. |
| StringExtensions.NotAlphanumericExamples | library/src/main/java/com/nikhil/library/StringExtensions.kt:81-82 | The demonstration app's values `"ab.2a#1"` and `"yt6Hbb2.s(ma**213"` are not alphanumeric. |
| StringExtensions.ToIntOrNull | library/src/main/java/com/nikhil/library/StringExtensions.kt:87-88 | `toIntOrNull()`: a returned value always lies in the 32-bit `Int` range. |
| StringExtensions.ToIntOrNullSyntax | library/src/main/java/com/nikhil/library/StringExtensions.kt:87-88 | `toIntOrNull()` returns a value exactly for an optional sign and one or more ASCII digits whose value fits in `Int`. The value returned is the one the text denotes. |
| StringExtensions.IsIntegerNumber | library/src/main/java/com/nikhil/library/StringExtensions.kt:87-88 | True iff the text is an optional sign and one or more digits whose value lies in [-2^31, 2^31 - 1]. |
| StringExtensions.DigitsValueBounds | library/src/main/java/com/nikhil/library/StringExtensions.kt:87-88 | n digits denote less than 10^n, and at least 10^(n-1) when the first digit is not `0`. |
| StringExtensions.ShortIntegers | library/src/main/java/com/nikhil/library/StringExtensions.kt:87-88 | Every one to nine digits are an integer number, bare or signed. |
| StringExtensions.LongIntegers | library/src/main/java/com/nikhil/library/StringExtensions.kt:87-88 | Eleven or more digits without a leading zero are not, whatever the sign. |
| StringExtensions.IntegerNumberExample | app/src/main/java/com/nikhil/kextend/MainActivity.kt:143 | `"123"` is an integer number. |
| StringExtensions.DecimalNotIntegerExample | library/src/main/java/com/nikhil/library/StringExtensions.kt:87-88 | `"12.9"` is not an integer number: `toIntOrNull()` rejects the `.`. |
| StringExtensions.SignOnlyNotIntegers | library/src/main/java/com/nikhil/library/StringExtensions.kt:87-88 | `""`, `"-"` and `"+"` are not integer numbers. |
| StringExtensions.IsDomain | library/src/main/java/com/nikhil/library/StringExtensions.kt:49 | The domain part `([\w\-]+\.)+[A-Z]{2,8}`: an accepted domain has at least four characters, holds a `.` and ends with an ASCII letter. |
| StringExtensions.IsEmailValid | library/src/main/java/com/nikhil/library/StringExtensions.kt:48-53 | `isEmailValid`: an accepted address holds an `@` and a `.`, has at least six characters and ends with an ASCII letter. |
| StringExtensions.DomainBuilt | library/src/main/java/com/nikhil/library/StringExtensions.kt:49 | Every domain built from one or more labels, each followed by `.`, and a final segment of 2 to 8 letters is accepted. |
| StringExtensions.DomainLabels | library/src/main/java/com/nikhil/library/StringExtensions.kt:49 | The labels parsed from an accepted domain are one or more non-empty `[\w-]` labels. |
| StringExtensions.DomainTop | library/src/main/java/com/nikhil/library/StringExtensions.kt:49 | The final segment of an accepted domain is 2 to 8 ASCII letters. |
| StringExtensions.DomainStep | library/src/main/java/com/nikhil/library/StringExtensions.kt:49 | An accepted domain is its first label, `.`, and either the final segment or a shorter accepted domain. |
| StringExtensions.DomainParsed | library/src/main/java/com/nikhil/library/StringExtensions.kt:49 | Every accepted domain is exactly its labels joined with `.` followed by its final segment. |
| StringExtensions.DomainNoAt | library/src/main/java/com/nikhil/library/StringExtensions.kt:49 | An accepted domain holds no `@`. |
| StringExtensions.LocalPartNoAt | library/src/main/java/com/nikhil/library/StringExtensions.kt:49 | A local part holds no `@`. |
| StringExtensions.DomainCons | library/src/main/java/com/nikhil/library/StringExtensions.kt:49 | A label and `.` in front of a final segment or of an accepted domain give an accepted domain. |
| StringExtensions.DomainNeedsDot | library/src/main/java/com/nikhil/library/StringExtensions.kt:49 | A domain with no `.` is rejected. |
| StringExtensions.DomainLastSegment | library/src/main/java/com/nikhil/library/StringExtensions.kt:49 | A domain with one `.` is accepted iff its label is a label and its final segment is 2 to 8 letters. |
| StringExtensions.EmailAt | library/src/main/java/com/nikhil/library/StringExtensions.kt:48-53 | An address splits at its first `@`. It is accepted iff the part before is a local part and the part after is a domain. |
| StringExtensions.EmailJoin | library/src/main/java/com/nikhil/library/StringExtensions.kt:48-53 | A local part, `@` and an accepted domain give an accepted address. |
| StringExtensions.EmailBuilt | library/src/main/java/com/nikhil/library/StringExtensions.kt:48-53 | Every address the pattern's grammar generates is accepted. |
| StringExtensions.EmailParsed | library/src/main/java/com/nikhil/library/StringExtensions.kt:48-53 | Every accepted address is: a non-empty local part; exactly one `@`; one or more labels, each followed by `.`; and a final segment of 2 to 8 letters. |
| StringExtensions.EmailAppExample | app/src/main/java/com/nikhil/kextend/MainActivity.kt:123-124 | `"test@email.com"` is valid. |
| StringExtensions.EmailLabelsExample | library/src/main/java/com/nikhil/library/StringExtensions.kt:49 | `"a.b-c@mail.example.org"` is valid. |
| StringExtensions.LabelsExampleDomain | library/src/main/java/com/nikhil/library/StringExtensions.kt:49 | `"mail.example.org"` is an accepted domain. |
| StringExtensions.EmailNoLocalExample | library/src/main/java/com/nikhil/library/StringExtensions.kt:49 | `"@email.com"` is rejected: the local part is empty. |
| StringExtensions.EmailNoDotExample | library/src/main/java/com/nikhil/library/StringExtensions.kt:49 | `"test@email"` is rejected: the domain has no `.`. |
| StringExtensions.EmailShortTopExample | library/src/main/java/com/nikhil/library/StringExtensions.kt:49 | `"test@email.c"` is rejected: the final segment has one letter. |
| StringExtensions.EmailLongTopExample | library/src/main/java/com/nikhil/library/StringExtensions.kt:49 | `"test@email.abcdefghi"` is rejected: the final segment has nine letters. |
| StringExtensions.EmailEmptyLabelExample | library/src/main/java/com/nikhil/library/StringExtensions.kt:49 | `"test@.com"` is rejected: a label cannot be empty. |
| ParseExtensions.ToByte | library/src/main/java/com/nikhil/library/ParseExtensions.kt:52-54 | `toByte()` keeps the value modulo 256, as a signed byte. |
| ParseExtensions.HighNibble | library/src/main/java/com/nikhil/library/ParseExtensions.kt:38 | `toInt() shr 4 and 0xF` is in 0..15. |
| ParseExtensions.LowNibble | library/src/main/java/com/nikhil/library/ParseExtensions.kt:39 | `and 0xF` is in 0..15. |
| ParseExtensions.NibbleChar | library/src/main/java/com/nikhil/library/ParseExtensions.kt:38-39 | `'a'` plus a nibble is a letter in `a`..`p`, and subtracting `'a'` gives the nibble back. |
| ParseExtensions.Encode | library/src/main/java/com/nikhil/library/ParseExtensions.kt:35-42 | The text `encodeBytes` produces is twice as long as the input, and every character is in `a`..`p`. |
| ParseExtensions.EncodePositions | library/src/main/java/com/nikhil/library/ParseExtensions.kt:38-39 | Byte k is at positions 2k and 2k + 1: `'a'` plus the high nibble, then `'a'` plus the low nibble of its two's-complement bits. |
| ParseExtensions.EncodeSnoc | library/src/main/java/com/nikhil/library/ParseExtensions.kt:37-40 | Each loop step appends the byte's two letters. |
| ParseExtensions.EncodeBytes | library/src/main/java/com/nikhil/library/ParseExtensions.kt:35-42 | The `StringBuffer` loop returns exactly the encoding of the array's contents. |
| ParseExtensions.Decode | library/src/main/java/com/nikhil/library/ParseExtensions.kt:47-58 | An odd length fails with an index error. Otherwise there are `length / 2` bytes, and byte k comes from characters 2k and 2k + 1. |
| ParseExtensions.DecodeBytes | library/src/main/java/com/nikhil/library/ParseExtensions.kt:47-58 | The `while` loop fails exactly when `Decode` does, with the same error. On success it fills a fresh array with exactly `Decode`'s bytes. |
| ParseExtensions.DecodePair | library/src/main/java/com/nikhil/library/ParseExtensions.kt:51-54 | The byte a pair of characters decodes to agrees with `16 * (c1 - 'a') + (c2 - 'a')` modulo 256. For two letters in `a`..`p` its high and low nibbles are exactly `c1 - 'a'` and `c2 - 'a'`. |
| ParseExtensions.StoredPair | library/src/main/java/com/nikhil/library/ParseExtensions.kt:51-54 | Truncating after the shift and again after the addition, as the loop does, gives the same byte as `DecodePair`. |
| ParseExtensions.ToByteCongruent | library/src/main/java/com/nikhil/library/ParseExtensions.kt:52-54 | Values equal modulo 256 truncate to the same byte. So the two `toByte()` calls of the loop equal one truncation of `16 * (c1 - 'a') + (c2 - 'a')`. |
| ParseExtensions.NibblesRejoin | library/src/main/java/com/nikhil/library/ParseExtensions.kt:38-54 | A byte's two letters decode back to the byte, negative bytes included. |
| ParseExtensions.DecodeEncode | library/src/main/java/com/nikhil/library/ParseExtensions.kt:35-58 | `decodeBytes(encodeBytes(b)) == b` for every byte sequence. |
| ParseExtensions.EncodeDecode | library/src/main/java/com/nikhil/library/ParseExtensions.kt:35-58 | `encodeBytes(decodeBytes(s)) == s` for every even-length string over `a`..`p`. |
| ParseExtensions.DecodeNotInjective | library/src/main/java/com/nikhil/library/ParseExtensions.kt:51-54 | Decoding does not check its alphabet: `"ap"` and ``"b`"`` decode to the same byte. |
| ViewExtensions.Toggled | library/src/main/java/com/nikhil/library/ViewExtensions.kt:39-43 | The toggled visibility is never INVISIBLE. It is GONE exactly when the old one was VISIBLE, so GONE and INVISIBLE both become VISIBLE. |
| ViewExtensions.ToggleTwice | library/src/main/java/com/nikhil/library/ViewExtensions.kt:38-45 | Toggling twice restores VISIBLE and GONE, but turns INVISIBLE into GONE. |
| ViewExtensions.ToggleCycle | library/src/main/java/com/nikhil/library/ViewExtensions.kt:38-45 | After one toggle, two more toggles change nothing. |
| ViewExtensions.View.SetVisible | library/src/main/java/com/nikhil/library/ViewExtensions.kt:26-28 | `visible()` sets VISIBLE and changes nothing else. |
| ViewExtensions.View.SetGone | library/src/main/java/com/nikhil/library/ViewExtensions.kt:30-32 | `gone()` sets GONE and changes nothing else. |
| ViewExtensions.View.SetInvisible | library/src/main/java/com/nikhil/library/ViewExtensions.kt:34-36 | `invisible()` sets INVISIBLE and changes nothing else. |
| ViewExtensions.View.ToggleVisibility | library/src/main/java/com/nikhil/library/ViewExtensions.kt:38-45 | `toggleVisibility()` assigns the toggled visibility (VISIBLE becomes GONE; anything else becomes VISIBLE; never INVISIBLE) and returns the same view. |
| ListExtensions.MidIndex | library/src/main/java/com/nikhil/library/ListExtensions.kt:21-22 | 0 for an empty list. Otherwise a valid index. |
| ListExtensions.MidElement | library/src/main/java/com/nikhil/library/ListExtensions.kt:6-11 | Fails with NoSuchElementException exactly on an empty list. Otherwise it returns the element at `size / 2`. |
| ListExtensions.MidElementAtMidIndex | library/src/main/java/com/nikhil/library/ListExtensions.kt:10-22 | On a non-empty list, `midElement()` is `this[midIndex]`. |
| ListExtensions.MidIndexBalance | library/src/main/java/com/nikhil/library/ListExtensions.kt:22 | Odd sizes have as many elements after the middle as before it. Even sizes have one fewer after, so the upper of the two middle positions is chosen. |
| DateExtensions.WrapLong | library/src/main/java/com/nikhil/library/DateExtensions.kt:46 | `Long` arithmetic wraps: the result agrees with the exact value modulo 2^64, and a value in the `Long` range is unchanged. |
| DateExtensions.LongTimes | library/src/main/java/com/nikhil/library/DateExtensions.kt:46 | `Long.times`: the product modulo 2^64, exact whenever the true product lies in the `Long` range. |
| DateExtensions.ToDate | library/src/main/java/com/nikhil/library/DateExtensions.kt:46 | `toDate()` gives epoch milliseconds equal to seconds × 1000, for every `Int` receiver. |
| DateExtensions.AsDate | library/src/main/java/com/nikhil/library/DateExtensions.kt:51-52 | `asDate` gives epoch milliseconds equal to seconds × 1000. |
| DateExtensions.ToDateAsDate | library/src/main/java/com/nikhil/library/DateExtensions.kt:46-52 | `toDate()` and `asDate` always agree. |
| DateExtensions.WideningNeeded | library/src/main/java/com/nikhil/library/DateExtensions.kt:46 | Above 2147483 seconds the product leaves the `Int` range, yet the widened `Long` product is still exact. |
| DateExtensions.ToDateMonotone | library/src/main/java/com/nikhil/library/DateExtensions.kt:46 | The conversion is strictly monotone. 0 maps to the epoch, and negative seconds map to instants before it. |
| DateExtensions.ToDateExample | app/src/main/java/com/nikhil/kextend/MainActivity.kt:55-56 | 1598435781 seconds give 1598435781000 ms, through `asDate` as the app reads it and through `toDate()`. |
| GenericExtensions.GetUserNameList | library/src/main/java/com/nikhil/library/GenericExtensions.kt:20-24 | The result has the input's length, and its i-th entry is the i-th user's name. |
| GenericExtensions.GetUserNameListAppend | library/src/main/java/com/nikhil/library/GenericExtensions.kt:21-23 | The mapping distributes over concatenation. |
| GenericExtensions.GetUserNameListExample | app/src/main/java/com/nikhil/kextend/MainActivity.kt:68-72 | Students Kotlin, Alex and Mohammed give `["Kotlin", "Alex", "Mohammed"]`. |
| AnyExtensions.UpperCase | library/src/main/java/com/nikhil/library/AnyExtensions.kt:17-19 | A lower-case ASCII letter becomes its upper-case letter; any other character is kept. |
| AnyExtensions.Capitalize | library/src/main/java/com/nikhil/library/AnyExtensions.kt:17-19 | `capitalize` keeps the length and changes at most the first character. |
| AnyExtensions.StartsWith | library/src/main/java/com/nikhil/library/AnyExtensions.kt:16 | `model.startsWith(manufacturer)`: true iff the manufacturer is no longer than the model and agrees with it character by character from the start. |
| AnyExtensions.DeviceName | library/src/main/java/com/nikhil/library/AnyExtensions.kt:12-20 | If the model starts with the manufacturer, the name is the model with only its first character capitalised. Otherwise the manufacturer is non-empty and the name is the capitalised manufacturer, one space, then the model unchanged. |
| AnyExtensions.DeviceNameEmptyManufacturer | library/src/main/java/com/nikhil/library/AnyExtensions.kt:16-17 | An empty manufacturer always takes the first branch. |
| AnyExtensions.DeviceNameExample | library/src/main/java/com/nikhil/library/AnyExtensions.kt:16-17 | Manufacturer `samsung` with model `samsung SM-G960F` gives `Samsung SM-G960F`. |
| AnyExtensions.DeviceNamePrefixedExample | library/src/main/java/com/nikhil/library/AnyExtensions.kt:18-19 | Manufacturer `google` with model `Pixel 4` gives `Google Pixel 4`. |
| NullExtensions.IsNull | library/src/main/java/com/nikhil/library/NullExtensions.kt:11 | True iff the receiver is null. |
| NullExtensions.IsNotNull | library/src/main/java/com/nikhil/library/NullExtensions.kt:13 | True iff the receiver is not null. |
| NullExtensions.ExactlyOne | library/src/main/java/com/nikhil/library/NullExtensions.kt:11-13 | Exactly one of the two holds for every receiver. |
| NullExtensions.IsNotNullExample | app/src/main/java/com/nikhil/kextend/MainActivity.kt:76-77 | `"John".isNotNull()` is true. |

## Left out

- `md5` and `sha1` are hashing done by `MessageDigest`, a foreign call.
- These are thin wrappers over libphonenumber, org.json, `Color.parseColor`, `URLUtil` and `Uri`: `formatPhoneNumber`, `jsonObject`, `jsonArray`, `asColor` and `asUri`.
- `save` and `load` are SharedPreferences I/O.
- `toDecimalNumber`, `toLocation` and all of PriceExtensions.kt rely on floating-point parsing and formatting.
- `serialize` and `deserialize` use Java object streams. Only their private codec is modelled.
- The JSON `get*OrNull` family of ParseExtensions.kt wraps org.json.
- `getTimeStamp`, `getYearMonthDay` and `getDateUnixTime` depend on `SimpleDateFormat` with the default locale and time zone.
- `onThrottledClick` re-enables the view through a timer (`postDelayed`).
- The snackbar, toast and find-and-set-text helpers are UI calls.
- ContextExtensions.kt, UriExtensions.kt, ImageExtensions.kt and the coroutine, lifecycle and demonstration files are platform and UI code.
- The `View` class keeps only the visibility field. Android accepts only the three constants through `setVisibility`, so the integer encoding of VISIBLE, INVISIBLE and GONE is not modelled.
- StringExtensions.ToIntOrNull: only ASCII digits count as digits. The JVM also accepts other Unicode decimal digits.
- StringExtensions.ToIntOrNull: it is stated by the value it returns, not by the JVM's digit-by-digit accumulation loop with its overflow guards.
- AnyExtensions.Capitalize: only an ASCII lower-case first letter is upper-cased, with no locale-specific title-case rules.
- A Kotlin `Char` is a UTF-16 code unit, while a Dafny `char` is a Unicode scalar value. A character outside the Basic Multilingual Plane is therefore one position in the model but two `Char`s in Kotlin, and lone surrogates cannot appear in the modelled strings. This changes two results. `creditCardFormatted` counts positions: Kotlin formats `"😀😀😀"` as `"😀😀 😀"`, and splits the surrogate pair of `"a😀😀"` with its space. `decodeBytes` on `"😀"` gives one byte in Kotlin but fails in the model. The regex predicates, `lastPathComponent`, `trim` and `deviceName` give the same results either way, because every character they test for is in the Basic Multilingual Plane and a surrogate is none of them.
- IsEmailValid, IsDomain, MatchesContaining, ContainsLatinLetter, ContainsDigit, HasLettersAndDigits, IsAlphanumeric and IsLineTerminator follow the regular-expression rules of the desktop JVM's `java.util.regex`, not those of Android's ICU-based implementation, on which this library runs. On Android, as ICU documents its rules: `\w` matches any Unicode letter, so `"josé@email.com"` would be accepted where the model rejects it; `.` also stops at U+000B and U+000C, so `"a\u000B1".containsDigit` would be false where the model gives true; and CASE_INSENSITIVE also folds U+212A (Kelvin sign) and U+017F (long s) onto `[A-Z]`.
- Regular expressions are not modelled in general. Each of the four patterns (StringExtensions.kt lines 49, 76, 79 and 82) is modelled by its own predicate, and `matches` is taken to mean a whole-string match. `isIntegerNumber` uses `toIntOrNull()`, not a pattern.
