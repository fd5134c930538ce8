/** `Array.prototype.filter`, and equality of maps. */
module Sequences {

  function Filter<T(!new)>(keep: T -> bool, s: seq<T>): (r: seq<T>)
    ensures forall x :: x in r <==> x in s && keep(x)
  {
    if s == [] then []
    else
      var n := |s| - 1;
      Filter(keep, s[..n]) + if keep(s[n]) then [s[n]] else []
  }

  lemma FilterLast<T(!new)>(keep: T -> bool, past: seq<T>, x: T)
    ensures Filter(keep, past + [x]) == if keep(x) then Filter(keep, past) + [x] else Filter(keep, past)
  {
    assert (past + [x])[..|past|] == past;
  }

  lemma SameEntries<K, V>(a: map<K, V>, b: map<K, V>)
    requires (forall k :: k in a <==> k in b) && forall k :: k in a ==> a[k] == b[k]
    ensures a == b
  {
  }

  lemma {:induction false} FilterAll<T(!new)>(keep: T -> bool, s: seq<T>)
    requires forall x :: x in s ==> keep(x)
    ensures Filter(keep, s) == s
  {
    if s != [] {
      var past, x := s[..|s| - 1], s[|s| - 1];
      assert x in s && s == past + [x];
      FilterAll(keep, past);
    }
  }
}
