/** Sequence helpers shared by the point-extraction and segment modules:
    the set of a list's elements, duplicate-freedom and concatenation. */
module Lists {

  datatype Option<T> = None | Some(value: T)

  /** The elements of a list as a set (what Python's `set(list)` keeps). */
  function Elems<T>(s: seq<T>): set<T>
  {
    set x | x in s
  }

  /** No element occurs twice. */
  predicate Distinct<T(==)>(s: seq<T>)
  {
    forall i, j :: 0 <= i < j < |s| ==> s[i] != s[j]
  }

  lemma ElemsConcat<T>(a: seq<T>, b: seq<T>)
    ensures Elems(a + b) == Elems(a) + Elems(b)
  {
    assert forall x :: x in a + b <==> x in a || x in b;
  }

  /** Concatenation of a list of lists, `sum(lists, [])` in Python. */
  function Flatten<T(!new)>(ss: seq<seq<T>>): (r: seq<T>)
    ensures forall x :: x in r <==> exists i :: 0 <= i < |ss| && x in ss[i]
  {
    if ss == [] then []
    else
      var r := Flatten(ss[..|ss| - 1]) + ss[|ss| - 1];
      assert forall i :: 0 <= i < |ss| - 1 ==> ss[..|ss| - 1][i] == ss[i];
      r
  }

  /** Sum of the lengths of a list of lists. */
  function SumOfLengths<T>(ss: seq<seq<T>>): nat
  {
    if ss == [] then 0 else SumOfLengths(ss[..|ss| - 1]) + |ss[|ss| - 1]|
  }
}
