/** Shared building blocks: an optional value and substring search over sequences. */
module Common {

  datatype Option<T> = None | Some(value: T)

  function Min(a: int, b: int): int
  {
    if a <= b then a else b
  }

  /** `needle` occurs in `hay` starting at index `i`. */
  predicate OccursAt<T(==)>(hay: seq<T>, needle: seq<T>, i: nat)
  {
    i + |needle| <= |hay| && hay[i..i + |needle|] == needle
  }

  /**
   * The first index at or after `from` at which `needle` occurs in `hay`,
   * in the manner of std::string::find (an empty needle is found at once).
   */
  function FindFrom<T(==)>(hay: seq<T>, needle: seq<T>, from: nat): (r: Option<nat>)
    ensures r.Some? ==> from <= r.value && OccursAt(hay, needle, r.value)
    ensures r.Some? ==> forall j :: from <= j < r.value ==> !OccursAt(hay, needle, j)
    ensures r.None? ==> forall j: nat :: from <= j ==> !OccursAt(hay, needle, j)
    decreases |hay| - from
  {
    if from + |needle| > |hay| then None
    else if hay[from..from + |needle|] == needle then Some(from)
    else FindFrom(hay, needle, from + 1)
  }

  /** `needle` occurs somewhere in `hay`. */
  predicate Contains<T(==)>(hay: seq<T>, needle: seq<T>)
  {
    FindFrom(hay, needle, 0).Some?
  }

  lemma ContainsIffOccurs<T>(hay: seq<T>, needle: seq<T>)
    ensures Contains(hay, needle) <==> exists i: nat :: OccursAt(hay, needle, i)
  {
    var r := FindFrom(hay, needle, 0);
    if r.Some? {
      assert OccursAt(hay, needle, r.value);
    }
  }
}
