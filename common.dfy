/** Small value types shared by every module of the model. */
module Common {

  /** A JavaScript value that may be absent (`null` or `undefined`). */
  datatype Option<+T> = None | Some(value: T)

  /** No element of `s` occurs twice. */
  predicate Distinct<T(==)>(s: seq<T>)
  {
    forall i, j :: 0 <= i < j < |s| ==> s[i] != s[j]
  }

  /** Appending an element absent from a repeat-free sequence keeps it repeat-free. */
  lemma DistinctSnoc<T>(s: seq<T>, x: T)
    requires Distinct(s) && x !in s
    ensures Distinct(s + [x])
  {
  }

  /** Position of `x` in `s`, the first if it occurs more than once (`indexOf`). */
  function IndexOf<T(==)>(s: seq<T>, x: T): (r: Option<nat>)
    ensures r.Some? ==> r.value < |s| && s[r.value] == x && forall j :: 0 <= j < r.value ==> s[j] != x
    ensures r.None? <==> x !in s
  {
    if s == [] then None
    else if s[0] == x then Some(0)
    else match IndexOf(s[1..], x)
      case None => None
      case Some(j) => Some(j + 1)
  }

  /** Both `a` and `b` occur in `s`, and `a` first occurs before `b` does. */
  predicate ListedBefore<T(==)>(s: seq<T>, a: T, b: T)
  {
    IndexOf(s, a).Some? && IndexOf(s, b).Some? && IndexOf(s, a).value < IndexOf(s, b).value
  }

  /** In a repeat-free sequence the element at `p` is found exactly at `p`. */
  lemma IndexOfDistinct<T>(s: seq<T>, p: nat)
    requires Distinct(s) && p < |s|
    ensures IndexOf(s, s[p]) == Some(p)
  {
  }

  /** Appending `x` leaves the first positions of the earlier elements alone and puts a new one at the end. */
  lemma IndexOfSnoc<T>(s: seq<T>, x: T, y: T)
    ensures IndexOf(s + [x], y) == if y in s then IndexOf(s, y) else if y == x then Some(|s|) else None
  {
    if y in s {
      var p := IndexOf(s, y).value;
      assert (s + [x])[p] == y;
    } else if y == x {
      assert (s + [x])[|s|] == y;
    }
  }
}
