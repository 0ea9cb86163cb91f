/**
 * The private byte codec behind `Serializable.serialize` and `String?.deserialize`: every byte
 * becomes two letters `a`..`p`, its high nibble first, and decoding turns each pair of letters
 * back into one byte.
 */
module ParseExtensions {
  import opened Wrappers

  /** Kotlin's `Byte`: a signed 8-bit integer. */
  newtype int8 = x: int | -128 <= x < 128

  /** `Int.toByte()`: keeps the low 8 bits, read as a two's-complement number. */
  function ToByte(x: int): (b: int8)
    ensures (b as int - x) % 256 == 0
  {
    var m := x % 256;
    if m < 128 then m as int8 else (m - 256) as int8
  }

  /** The byte's bit pattern, 0 to 255. */
  function Unsigned(b: int8): (u: int)
    ensures 0 <= u < 256 && (u - b as int) % 256 == 0
  {
    if b < 0 then b as int + 256 else b as int
  }

  /** `bytes[i].toInt() shr 4 and 0xF`: the sign-extended value shifted right, upper bits masked off. */
  function HighNibble(b: int8): (n: int)
    ensures 0 <= n < 16
  {
    Unsigned(b) / 16
  }

  /** `bytes[i] and 0xF`. */
  function LowNibble(b: int8): (n: int)
    ensures 0 <= n < 16
  {
    Unsigned(b) % 16
  }

  /** `(n + 'a'.toInt()).toChar()`. */
  function NibbleChar(n: int): (c: char)
    requires 0 <= n < 16
    ensures 'a' <= c <= 'p' && c as int - 'a' as int == n
  {
    ('a' as int + n) as char
  }

  /**
   * The text `encodeBytes` produces: two letters per byte, high nibble first. It is twice as long
   * as the input and uses only the letters `a` to `p`.
   */
  function Encode(bs: seq<int8>): (s: string)
    ensures |s| == 2 * |bs|
    ensures forall j | 0 <= j < |s| :: 'a' <= s[j] <= 'p'
  {
    seq(2 * |bs|, j requires 0 <= j < 2 * |bs| =>
      if j % 2 == 0 then NibbleChar(HighNibble(bs[j / 2])) else NibbleChar(LowNibble(bs[j / 2])))
  }

  /** Byte k is encoded at positions 2k (high nibble) and 2k + 1 (low nibble). */
  lemma EncodePositions(bs: seq<int8>, k: int)
    requires 0 <= k < |bs|
    ensures Encode(bs)[2 * k] == NibbleChar(HighNibble(bs[k]))
    ensures Encode(bs)[2 * k + 1] == NibbleChar(LowNibble(bs[k]))
  {
  }

  /** Appending a byte appends its two letters. */
  lemma EncodeSnoc(bs: seq<int8>, b: int8)
    ensures Encode(bs + [b]) == Encode(bs) + [NibbleChar(HighNibble(b)), NibbleChar(LowNibble(b))]
  {
    var l := Encode(bs + [b]);
    var r := Encode(bs) + [NibbleChar(HighNibble(b)), NibbleChar(LowNibble(b))];
    assert |l| == |r|;
    forall j | 0 <= j < |l|
      ensures l[j] == r[j]
    {
      if j < 2 * |bs| {
        assert (bs + [b])[j / 2] == bs[j / 2];
      }
    }
  }

  /** `encodeBytes`: appends the two letters of each byte to a buffer, in order. */
  method EncodeBytes(bytes: array<int8>) returns (s: string)
    ensures s == Encode(bytes[..])
  {
    var buf := "";
    for i := 0 to bytes.Length
      invariant buf == Encode(bytes[..i])
    {
      EncodeSnoc(bytes[..i], bytes[i]);
      assert bytes[..i + 1] == bytes[..i] + [bytes[i]];
      buf := buf + [NibbleChar(HighNibble(bytes[i]))];
      buf := buf + [NibbleChar(LowNibble(bytes[i]))];
    }
    assert bytes[..bytes.Length] == bytes[..];
    s := buf;
  }

  /**
   * The byte a pair of characters decodes to: `(c1 - 'a' shl 4).toByte()`, then
   * `.plus(c2 - 'a').toByte()`. Both truncations keep the low 8 bits, so one at the end is the same.
   */
  function DecodePair(c1: char, c2: char): (b: int8)
    ensures (b as int - (16 * (c1 as int - 'a' as int) + (c2 as int - 'a' as int))) % 256 == 0
    ensures 'a' <= c1 <= 'p' && 'a' <= c2 <= 'p' ==>
      HighNibble(b) == c1 as int - 'a' as int && LowNibble(b) == c2 as int - 'a' as int
  {
    var v := 16 * (c1 as int - 'a' as int) + (c2 as int - 'a' as int);
    var b := ToByte(v);
    if 'a' <= c1 <= 'p' && 'a' <= c2 <= 'p' then
      assert Unsigned(b) == v by {
        assert (Unsigned(b) - v) % 256 == 0;
      }
      b
    else
      b
  }

  /**
   * What `decodeBytes` returns: a byte per pair of characters, or the index error the array store
   * raises when the length is odd (the last character has no slot in an array of length / 2).
   */
  function Decode(s: string): (r: Result<seq<int8>>)
    ensures r.Failure? <==> |s| % 2 == 1
    ensures r.Failure? ==> r.error == IndexOutOfBounds
    ensures r.Success? ==> |r.value| == |s| / 2
    ensures r.Success? ==> forall k | 0 <= k < |r.value| :: r.value[k] == DecodePair(s[2 * k], s[2 * k + 1])
  {
    if |s| % 2 == 1 then Failure(IndexOutOfBounds)
    else Success(seq(|s| / 2, k requires 0 <= k < |s| / 2 => DecodePair(s[2 * k], s[2 * k + 1])))
  }

  /**
   * `decodeBytes`: allocates `length / 2` bytes and walks the string two characters at a time,
   * storing the shifted first character and then adding the second.
   */
  method DecodeBytes(str: string) returns (r: Result<array<int8>>)
    ensures r.Failure? <==> Decode(str).Failure?
    ensures r.Failure? ==> r.error == Decode(str).error
    ensures r.Success? ==> fresh(r.value) && r.value[..] == Decode(str).value
  {
    var bytes := new int8[|str| / 2];
    var i := 0;
    while i < |str|
      invariant 0 <= i <= |str| && i % 2 == 0 && i / 2 <= bytes.Length
      invariant forall k | 0 <= k < i / 2 :: bytes[k] == DecodePair(str[2 * k], str[2 * k + 1])
    {
      var c := str[i];
      if i / 2 >= bytes.Length {
        return Failure(IndexOutOfBounds);
      }
      bytes[i / 2] := ToByte(16 * (c as int - 'a' as int));
      c := str[i + 1];
      bytes[i / 2] := ToByte(bytes[i / 2] as int + (c as int - 'a' as int));
      StoredPair(str[i], str[i + 1]);
      i := i + 2;
    }
    assert i == |str| && bytes.Length == i / 2;
    return Success(bytes);
  }

  /** Truncating after the shift and again after the addition gives the pair's byte. */
  lemma StoredPair(c1: char, c2: char)
    ensures ToByte(ToByte(16 * (c1 as int - 'a' as int)) as int + (c2 as int - 'a' as int)) == DecodePair(c1, c2)
  {
    var hi := ToByte(16 * (c1 as int - 'a' as int));
    var x := hi as int + (c2 as int - 'a' as int);
    var y := 16 * (c1 as int - 'a' as int) + (c2 as int - 'a' as int);
    assert (x - y) % 256 == 0 by {
      assert x - y == hi as int - 16 * (c1 as int - 'a' as int);
    }
    ToByteCongruent(x, y);
  }

  /** Two integers that agree modulo 256 truncate to the same byte. */
  lemma ToByteCongruent(x: int, y: int)
    requires (x - y) % 256 == 0
    ensures ToByte(x) == ToByte(y)
  {
    assert x % 256 == y % 256 by {
      var q := (x - y) / 256;
      assert x == y + 256 * q;
    }
  }

  /** A byte's two nibbles put back together give the byte. */
  lemma NibblesRejoin(b: int8)
    ensures DecodePair(NibbleChar(HighNibble(b)), NibbleChar(LowNibble(b))) == b
  {
    assert 16 * HighNibble(b) + LowNibble(b) == Unsigned(b);
    ToByteCongruent(Unsigned(b), b as int);
  }

  /** Decoding undoes encoding: `decodeBytes(encodeBytes(b))` is `b`. */
  lemma DecodeEncode(bs: seq<int8>)
    ensures Decode(Encode(bs)) == Success(bs)
  {
    var s := Encode(bs);
    var d := Decode(s).value;
    assert |s| == 2 * |bs| && |d| == |bs|;
    forall k | 0 <= k < |bs|
      ensures d[k] == bs[k]
    {
      EncodePositions(bs, k);
      NibblesRejoin(bs[k]);
    }
    assert d == bs;
  }

  /** Encoding undoes decoding on every even-length string of letters `a` to `p`. */
  lemma EncodeDecode(s: string)
    requires |s| % 2 == 0
    requires forall j | 0 <= j < |s| :: 'a' <= s[j] <= 'p'
    ensures Decode(s).Success? && Encode(Decode(s).value) == s
  {
    var bs := Decode(s).value;
    var e := Encode(bs);
    forall j | 0 <= j < |s|
      ensures e[j] == s[j]
    {
      var k := j / 2;
      var hi, lo := s[2 * k] as int - 'a' as int, s[2 * k + 1] as int - 'a' as int;
      var v := 16 * hi + lo;
      assert bs[k] == ToByte(v);
      assert Unsigned(bs[k]) == v by {
        assert (Unsigned(bs[k]) - v) % 256 == 0;
      }
      assert HighNibble(bs[k]) == hi && LowNibble(bs[k]) == lo;
    }
  }

  /**
   * Decoding does not check its alphabet: a character outside `a`..`p` still yields a byte, so two
   * different strings can decode to the same bytes.
   */
  lemma DecodeNotInjective(s: string, t: string)
    requires s == "ap" && t == "b`"
    ensures s != t && Decode(s) == Decode(t)
  {
    assert s[0] != t[0];
    assert DecodePair(s[0], s[1]) == ToByte(15) == DecodePair(t[0], t[1]);
    assert Decode(s).value == [ToByte(15)] == Decode(t).value;
  }
}
