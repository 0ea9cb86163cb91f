/**
 * Epoch seconds to a `java.util.Date`: `Int.toDate()` and `Int.asDate` both widen the receiver to
 * `Long` and multiply by `1000L`.
 */
module DateExtensions {
  import opened KotlinText

  const LongMin: int := -0x8000_0000_0000_0000
  const LongMax: int := 0x7FFF_FFFF_FFFF_FFFF

  /** Kotlin's `Int`. */
  newtype int32 = x: int | -0x8000_0000 <= x < 0x8000_0000

  /** Kotlin's `Long`. */
  newtype int64 = x: int | -0x8000_0000_0000_0000 <= x < 0x8000_0000_0000_0000

  /** Two's-complement wrap-around of `Long` arithmetic. */
  function WrapLong(x: int): (r: int64)
    ensures (r as int - x) % 0x1_0000_0000_0000_0000 == 0
    ensures LongMin <= x <= LongMax ==> r as int == x
  {
    var m := x % 0x1_0000_0000_0000_0000;
    if m <= LongMax then m as int64 else (m - 0x1_0000_0000_0000_0000) as int64
  }

  /** `Long.times`: the product modulo 2^64, exact whenever it fits in a `Long`. */
  function LongTimes(a: int64, b: int64): (p: int64)
    ensures (p as int - a as int * b as int) % 0x1_0000_0000_0000_0000 == 0
    ensures LongMin <= a as int * b as int <= LongMax ==> p as int == a as int * b as int
  {
    WrapLong(a as int * b as int)
  }

  /** A `Date`, kept as milliseconds since the epoch (its `getTime()`). */
  datatype Date = Date(millis: int64)

  /** `Int.toDate()`: `Date(this.toLong() * 1000L)`; the product never wraps. */
  function ToDate(seconds: int32): (d: Date)
    ensures d.millis as int == seconds as int * 1000
  {
    Date(LongTimes(seconds as int64, 1000))
  }

  /** `Int.asDate`: the same expression, as a read-only property. */
  function AsDate(seconds: int32): (d: Date)
    ensures d.millis as int == seconds as int * 1000
  {
    Date(LongTimes(seconds as int64, 1000))
  }

  /** The function and the property always agree. */
  lemma ToDateAsDate(seconds: int32)
    ensures ToDate(seconds) == AsDate(seconds)
  {
  }

  /**
   * Widening before multiplying matters: the same product in 32-bit `Int` arithmetic would wrap
   * for every receiver above 2147483, while the `Long` product is exact for every `Int`.
   */
  lemma WideningNeeded(seconds: int32)
    requires seconds as int > IntMax / 1000
    ensures seconds as int * 1000 > IntMax
    ensures ToDate(seconds).millis as int == seconds as int * 1000
  {
  }

  /** The conversion is strictly monotone, 0 is the epoch and negative seconds lie before it. */
  lemma ToDateMonotone(s: int32, t: int32)
    ensures s < t ==> ToDate(s).millis < ToDate(t).millis
    ensures ToDate(0).millis == 0
    ensures s < 0 ==> ToDate(s).millis < 0
  {
  }

  /** The demonstration app's value, through the property it reads and through the function. */
  lemma ToDateExample()
    ensures AsDate(1598435781).millis == 1598435781000
    ensures ToDate(1598435781).millis == 1598435781000
  {
  }
}
