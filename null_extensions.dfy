/** `Any?.isNull()` and `Any?.isNotNull()`, with a nullable value modelled as an `Option`. */
module NullExtensions {
  import opened Wrappers

  /** `this == null`. */
  function IsNull<T>(x: Option<T>): (b: bool)
    ensures b <==> x == None
  {
    x.None?
  }

  /** `!isNull()`. */
  function IsNotNull<T>(x: Option<T>): (b: bool)
    ensures b <==> x.Some?
  {
    !IsNull(x)
  }

  /** Exactly one of the two holds for every receiver. */
  lemma ExactlyOne<T>(x: Option<T>)
    ensures IsNull(x) != IsNotNull(x)
  {
  }

  /** The demonstration app's value: a non-null string is not null. */
  lemma IsNotNullExample()
    ensures IsNotNull(Some("John")) && !IsNull(Some("John"))
  {
  }
}
