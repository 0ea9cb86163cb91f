/** The middle of a list: `List<T>.midElement()` and the `List<T>.midIndex` property. */
module ListExtensions {
  import opened Wrappers

  /** `midIndex`: 0 for an empty list, otherwise `size / 2`. */
  function MidIndex<T>(xs: seq<T>): (i: nat)
    ensures |xs| == 0 ==> i == 0
    ensures |xs| > 0 ==> i < |xs|
  {
    if |xs| == 0 then 0 else |xs| / 2
  }

  /** `midElement()`: `NoSuchElementException` on an empty list, otherwise the element at `size / 2`. */
  function MidElement<T>(xs: seq<T>): (r: Result<T>)
    ensures r.Failure? <==> xs == []
    ensures r.Failure? ==> r.error == NoSuchElement
    ensures r.Success? ==> r.value == xs[|xs| / 2]
  {
    if xs == [] then Failure(NoSuchElement) else Success(xs[|xs| / 2])
  }

  /** On a non-empty list the middle element is the element at the middle index. */
  lemma MidElementAtMidIndex<T>(xs: seq<T>)
    requires xs != []
    ensures MidElement(xs) == Success(xs[MidIndex(xs)])
  {
  }

  /**
   * The middle index splits the list evenly: an odd-length list has as many elements after it as
   * before it, and an even-length one has one fewer after it, so the upper of the two middle
   * positions is chosen.
   */
  lemma MidIndexBalance<T>(xs: seq<T>)
    requires xs != []
    ensures |xs| % 2 == 1 ==> MidIndex(xs) == |xs| - 1 - MidIndex(xs)
    ensures |xs| % 2 == 0 ==> MidIndex(xs) == |xs| - MidIndex(xs)
  {
  }
}
