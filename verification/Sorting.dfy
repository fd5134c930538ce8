/** `Array.prototype.sort` with a comparator, as a stable insertion sort. */
module Sorting {

  /** The comparator's "comes first" is irreflexive and transitive. */
  ghost predicate Strict<T(!new)>(less: (T, T) -> bool) {
    && (forall a :: !less(a, a))
    && (forall a, b, c :: less(a, b) && less(b, c) ==> less(a, c))
  }

  /** It tells any two different elements apart. */
  ghost predicate TotalOn<T>(less: (T, T) -> bool, s: seq<T>) {
    forall i, j :: 0 <= i < |s| && 0 <= j < |s| && s[i] != s[j] ==> less(s[i], s[j]) || less(s[j], s[i])
  }

  ghost predicate Distinct<T>(s: seq<T>) {
    forall i, j :: 0 <= i < j < |s| ==> s[i] != s[j]
  }

  ghost predicate Ascending<T>(less: (T, T) -> bool, s: seq<T>) {
    forall i, j :: 0 <= i < j < |s| ==> less(s[i], s[j])
  }

  /** x goes before the first element it precedes. */
  function Insert<T>(less: (T, T) -> bool, x: T, s: seq<T>): seq<T> {
    if s == [] || less(x, s[0]) then [x] + s else [s[0]] + Insert(less, x, s[1..])
  }

  function SortBy<T>(less: (T, T) -> bool, s: seq<T>): seq<T> {
    if s == [] then [] else Insert(less, s[|s| - 1], SortBy(less, s[..|s| - 1]))
  }

  lemma {:induction false} InsertPermutes<T>(less: (T, T) -> bool, x: T, s: seq<T>)
    ensures multiset(Insert(less, x, s)) == multiset(s) + multiset{x}
  {
    if s != [] && !less(x, s[0]) {
      InsertPermutes(less, x, s[1..]);
      assert s == [s[0]] + s[1..];
    }
  }

  lemma {:induction false} SortPermutes<T>(less: (T, T) -> bool, s: seq<T>)
    ensures multiset(SortBy(less, s)) == multiset(s)
  {
    if s != [] {
      SortPermutes(less, s[..|s| - 1]);
      InsertPermutes(less, s[|s| - 1], SortBy(less, s[..|s| - 1]));
      assert s == s[..|s| - 1] + [s[|s| - 1]];
    }
  }

  lemma MembersOf<T>(a: seq<T>, b: seq<T>)
    requires multiset(a) == multiset(b)
    ensures |a| == |b| && forall x :: x in a <==> x in b
  {
    assert |a| == |multiset(a)| && |b| == |multiset(b)|;
    assert forall x :: x in a <==> x in multiset(a);
    assert forall x :: x in b <==> x in multiset(b);
  }

  lemma {:induction false} DistinctCounts<T>(s: seq<T>, x: T)
    requires Distinct(s)
    ensures multiset(s)[x] <= 1
  {
    if s != [] {
      var n := |s| - 1;
      DistinctCounts(s[..n], x);
      assert s == s[..n] + [s[n]] && s[n] !in s[..n];
    }
  }

  lemma PermutationDistinct<T>(a: seq<T>, b: seq<T>)
    requires Distinct(a) && multiset(a) == multiset(b)
    ensures Distinct(b)
  {
    forall i, j | 0 <= i < j < |b| ensures b[i] != b[j] {
      DistinctCounts(a, b[i]);
      assert b == b[..j] + b[j..] && b[i] in b[..j];
      assert multiset(b)[b[i]] == multiset(b[..j])[b[i]] + multiset(b[j..])[b[i]];
    }
  }

  lemma {:induction false} InsertAscending<T(!new)>(less: (T, T) -> bool, x: T, s: seq<T>)
    requires Strict(less) && Ascending(less, s)
    requires forall k :: 0 <= k < |s| ==> less(x, s[k]) || less(s[k], x)
    ensures Ascending(less, Insert(less, x, s))
  {
    if s != [] && !less(x, s[0]) {
      InsertAscending(less, x, s[1..]);
      InsertPermutes(less, x, s[1..]);
      var tail := Insert(less, x, s[1..]);
      MembersOf(tail, s[1..] + [x]);
      forall k | 0 <= k < |tail| ensures less(s[0], tail[k]) {
        assert tail[k] in s[1..] + [x];
      }
    }
  }

  /** Distinct elements that the comparator tells apart come out in its order. */
  lemma {:induction false} SortAscending<T(!new)>(less: (T, T) -> bool, s: seq<T>)
    requires Strict(less) && TotalOn(less, s) && Distinct(s)
    ensures Ascending(less, SortBy(less, s))
  {
    if s != [] {
      var n := |s| - 1;
      var past := s[..n];
      SortAscending(less, past);
      SortPermutes(less, past);
      MembersOf(SortBy(less, past), past);
      forall k | 0 <= k < |SortBy(less, past)|
        ensures less(s[n], SortBy(less, past)[k]) || less(SortBy(less, past)[k], s[n])
      {
        assert SortBy(less, past)[k] in past;
        var i :| 0 <= i < n && past[i] == SortBy(less, past)[k];
        assert s[i] != s[n];
      }
      InsertAscending(less, s[n], SortBy(less, past));
    }
  }

  lemma BothEmpty<T>(a: seq<T>, b: seq<T>)
    requires forall x :: x in a <==> x in b
    ensures a == [] <==> b == []
  {
    if a != [] { assert a[0] in a; }
    if b != [] { assert b[0] in b; }
  }

  /** An order has one arrangement of a given set of elements. */
  lemma {:induction false} AscendingUnique<T(!new)>(less: (T, T) -> bool, a: seq<T>, b: seq<T>)
    requires Strict(less) && Ascending(less, a) && Ascending(less, b)
    requires forall x :: x in a <==> x in b
    ensures a == b
    decreases |a|
  {
    BothEmpty(a, b);
    if a != [] {
      assert a[0] in b && b[0] in a;
      var i :| 0 <= i < |a| && a[i] == b[0];
      var j :| 0 <= j < |b| && b[j] == a[0];
      assert a[0] == b[0];
      forall x ensures x in a[1..] <==> x in b[1..] {
        TailMembers(less, a, x);
        TailMembers(less, b, x);
      }
      AscendingUnique(less, a[1..], b[1..]);
      assert a == [a[0]] + a[1..] && b == [b[0]] + b[1..];
    }
  }

  lemma TailMembers<T(!new)>(less: (T, T) -> bool, a: seq<T>, x: T)
    requires Strict(less) && Ascending(less, a) && a != []
    ensures x in a[1..] <==> x in a && x != a[0]
  {
    if x in a && x != a[0] {
      var i :| 0 <= i < |a| && a[i] == x;
      assert a[1..][i - 1] == x;
    }
  }

  /** No element precedes one to its left: what a stable sort reaches when the comparator has ties. */
  ghost predicate Settled<T>(less: (T, T) -> bool, s: seq<T>) {
    forall i, j :: 0 <= i < j < |s| ==> !less(s[j], s[i])
  }

  lemma SettledOnto<T>(less: (T, T) -> bool, x: T, s: seq<T>)
    requires Settled(less, s) && forall k :: 0 <= k < |s| ==> !less(s[k], x)
    ensures Settled(less, [x] + s)
  {
  }

  lemma {:induction false} InsertSettled<T(!new)>(less: (T, T) -> bool, x: T, s: seq<T>)
    requires Strict(less) && Settled(less, s)
    ensures Settled(less, Insert(less, x, s))
  {
    if s == [] {
    } else if less(x, s[0]) {
      assert forall j :: 0 <= j < |s| && less(s[j], x) ==> less(s[j], s[0]);
      SettledOnto(less, x, s);
    } else {
      var tail := Insert(less, x, s[1..]);
      InsertSettled(less, x, s[1..]);
      InsertPermutes(less, x, s[1..]);
      MembersOf(tail, s[1..] + [x]);
      forall k | 0 <= k < |tail| ensures !less(tail[k], s[0]) {
        assert tail[k] in s[1..] + [x];
      }
      hide Settled, Strict;
      SettledOnto(less, s[0], tail);
    }
  }

  lemma {:induction false} SortSettles<T(!new)>(less: (T, T) -> bool, s: seq<T>)
    requires Strict(less)
    ensures Settled(less, SortBy(less, s))
  {
    if s != [] {
      SortSettles(less, s[..|s| - 1]);
      InsertSettled(less, s[|s| - 1], SortBy(less, s[..|s| - 1]));
    }
  }

  lemma {:induction false} InsertLast<T>(less: (T, T) -> bool, x: T, s: seq<T>)
    requires forall i :: 0 <= i < |s| ==> !less(x, s[i])
    ensures Insert(less, x, s) == s + [x]
  {
    if s != [] {
      InsertLast(less, x, s[1..]);
    }
  }

  /** Sorting is stable: what is settled stays as it is. */
  lemma {:induction false} SortOfSettled<T>(less: (T, T) -> bool, s: seq<T>)
    requires Settled(less, s)
    ensures SortBy(less, s) == s
  {
    if s != [] {
      SortOfSettled(less, s[..|s| - 1]);
      InsertLast(less, s[|s| - 1], s[..|s| - 1]);
    }
  }

  // ----- ties -----

  ghost predicate Tied<T>(less: (T, T) -> bool, a: T, b: T) {
    !less(a, b) && !less(b, a)
  }

  /** A comparator that sorts into classes of tied elements. */
  ghost predicate WeakOrder<T(!new)>(less: (T, T) -> bool) {
    Strict(less) && forall a, b, c :: Tied(less, a, b) && Tied(less, b, c) ==> Tied(less, a, c)
  }

  /** a may stand before b: it comes first in the comparator's order, or is tied and related by p. */
  predicate Fits<T>(less: (T, T) -> bool, p: (T, T) -> bool, a: T, b: T) {
    less(a, b) || (!less(b, a) && p(a, b))
  }

  /** Every element may stand before the later ones. */
  ghost predicate Stable<T>(less: (T, T) -> bool, p: (T, T) -> bool, s: seq<T>) {
    forall i, j :: 0 <= i < j < |s| ==> Fits(less, p, s[i], s[j])
  }

  lemma BeforeTied<T(!new)>(less: (T, T) -> bool, x: T, a: T, b: T)
    requires WeakOrder(less) && less(x, a) && (less(a, b) || Tied(less, a, b))
    ensures less(x, b)
  {
    if Tied(less, a, b) && !less(x, b) {
      assert !less(b, x);
      assert Tied(less, x, b) && Tied(less, b, a);
    }
  }

  lemma BeforeAll<T(!new)>(less: (T, T) -> bool, p: (T, T) -> bool, x: T, s: seq<T>)
    requires WeakOrder(less) && Stable(less, p, s) && s != [] && less(x, s[0])
    ensures forall j :: 0 <= j < |s| ==> less(x, s[j])
  {
    forall j | 0 < j < |s| ensures less(x, s[j]) {
      BeforeTied(less, x, s[0], s[j]);
    }
  }

  lemma StableOnto<T>(less: (T, T) -> bool, p: (T, T) -> bool, x: T, s: seq<T>)
    requires Stable(less, p, s) && forall k :: 0 <= k < |s| ==> Fits(less, p, x, s[k])
    ensures Stable(less, p, [x] + s)
  {
  }

  lemma StableTail<T>(less: (T, T) -> bool, p: (T, T) -> bool, s: seq<T>)
    requires Stable(less, p, s) && s != []
    ensures Stable(less, p, s[1..]) && forall k :: 1 <= k < |s| ==> Fits(less, p, s[0], s[k])
  {
  }

  lemma {:induction false} InsertStable<T(!new)>(less: (T, T) -> bool, p: (T, T) -> bool, x: T, s: seq<T>)
    requires WeakOrder(less) && Stable(less, p, s)
    requires forall k :: 0 <= k < |s| && Tied(less, s[k], x) ==> p(s[k], x)
    ensures Stable(less, p, Insert(less, x, s))
  {
    if s == [] {
    } else if less(x, s[0]) {
      BeforeAll(less, p, x, s);
      hide WeakOrder, Stable;
      StableOnto(less, p, x, s);
    } else {
      var tail := Insert(less, x, s[1..]);
      StableTail(less, p, s);
      InsertStable(less, p, x, s[1..]);
      InsertPermutes(less, x, s[1..]);
      MembersOf(tail, s[1..] + [x]);
      hide WeakOrder, Stable;
      forall k | 0 <= k < |tail| ensures Fits(less, p, s[0], tail[k]) {
        assert tail[k] in s[1..] + [x];
      }
      StableOnto(less, p, s[0], tail);
    }
  }

  /** Tied elements keep the relation they have in the input. */
  lemma {:induction false} SortStable<T(!new)>(less: (T, T) -> bool, p: (T, T) -> bool, s: seq<T>)
    requires WeakOrder(less)
    requires forall i, j :: 0 <= i < j < |s| && Tied(less, s[i], s[j]) ==> p(s[i], s[j])
    ensures Stable(less, p, SortBy(less, s))
  {
    if s != [] {
      var past, x := s[..|s| - 1], s[|s| - 1];
      SortStable(less, p, past);
      SortPermutes(less, past);
      MembersOf(SortBy(less, past), past);
      var sorted := SortBy(less, past);
      forall k | 0 <= k < |sorted| && Tied(less, sorted[k], x) ensures p(sorted[k], x) {
        var y := sorted[k];
        assert y in past;
        var i :| 0 <= i < |past| && past[i] == y;
        assert s[i] == y;
      }
      InsertStable(less, p, x, sorted);
    }
  }

  /** Some element of a finite set has the lowest rank. */
  lemma {:induction false} SomeLowest<T(!new)>(s: set<T>, rank: T -> int)
    requires s != {}
    ensures exists m :: m in s && forall x :: x in s ==> rank(m) <= rank(x)
  {
    var e :| e in s;
    if s == {e} {
      assert forall x :: x in s ==> rank(e) <= rank(x);
    } else {
      SomeLowest(s - {e}, rank);
      var m :| m in s - {e} && forall x :: x in s - {e} ==> rank(m) <= rank(x);
      var lowest := if rank(e) < rank(m) then e else m;
      assert lowest in s && forall x :: x in s ==> rank(lowest) <= rank(x);
    }
  }
}
