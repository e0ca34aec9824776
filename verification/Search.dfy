/** The first place of an element in a sequence, as `position` and `find` look for it. */
module Search {

  /** Where `x` first occurs, or the length. */
  function Index<T(==)>(s: seq<T>, x: T): (i: nat)
    ensures i <= |s|
    ensures i < |s| ==> s[i] == x
    ensures forall k :: 0 <= k < i ==> s[k] != x
  {
    if s == [] || s[0] == x then 0 else 1 + Index(s[1..], x)
  }

  lemma IndexIs<T>(s: seq<T>, x: T, i: nat)
    requires i <= |s| && (i < |s| ==> s[i] == x) && forall k :: 0 <= k < i ==> s[k] != x
    ensures Index(s, x) == i
  {
  }

  method Position<T(==)>(s: seq<T>, x: T) returns (i: nat)
    ensures i == Index(s, x)
  {
    i := 0;
    while i < |s| && s[i] != x
      invariant i <= |s|
      invariant forall k :: 0 <= k < i ==> s[k] != x
    {
      i := i + 1;
    }
    IndexIs(s, x, i);
  }
}
