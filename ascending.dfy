/** Strictly ascending index lists, as the move generators of both games build them. */
module Ascending {

  /** Each element is smaller than every later one. */
  predicate StrictlyAscending(s: seq<int>)
  {
    forall i, j :: 0 <= i < j < |s| ==> s[i] < s[j]
  }

  /**
    Appending n, or nothing, to an ascending list whose elements are all
    below n keeps it ascending and adds exactly what was appended.
   */
  lemma AppendAbove(s: seq<int>, last: seq<int>, n: int)
    requires StrictlyAscending(s) && forall x :: x in s ==> x < n
    requires last == [] || last == [n]
    ensures StrictlyAscending(s + last)
    ensures forall x :: x in s + last <==> x in s || x in last
  {
    assert forall i :: 0 <= i < |s| ==> s[i] in s;
  }
}
