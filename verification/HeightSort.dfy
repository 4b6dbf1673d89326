/** Sorting of values by an integer that comes with each. */
module HeightSort {

  predicate Sorted<T(==)>(s: seq<(int, T)>) {
    && (forall i, j :: 0 <= i < j < |s| ==> s[i].0 <= s[j].0)
    && (forall i, j :: 0 <= i < j < |s| ==> s[i] != s[j])
  }

  /** A pair put in its place, behind all that are not larger. */
  function Inserted<T(==)>(s: seq<(int, T)>, e: (int, T)): (r: seq<(int, T)>)
    ensures |r| == |s| + 1
  {
    if s == [] || e.0 < s[0].0 then [e] + s else [s[0]] + Inserted(s[1..], e)
  }

  lemma {:induction false} InsertedHas<T>(s: seq<(int, T)>, e: (int, T), x: (int, T))
    ensures x in Inserted(s, e) <==> x in s || x == e
  {
    if s != [] {
      assert s == [s[0]] + s[1..];
      if e.0 >= s[0].0 {
        InsertedHas(s[1..], e, x);
      }
    }
  }

  lemma {:induction false} InsertedIsSorted<T>(s: seq<(int, T)>, e: (int, T))
    requires Sorted(s) && e !in s
    ensures Sorted(Inserted(s, e))
  {
    if s != [] && e.0 >= s[0].0 {
      var rest := Inserted(s[1..], e);
      InsertedIsSorted(s[1..], e);
      forall k | 0 <= k < |rest| ensures s[0].0 <= rest[k].0 && rest[k] != s[0] {
        InsertedHas(s[1..], e, rest[k]);
      }
    }
  }
}
