/** Strings compared character by character. */
module Lexicographic {
  import Sorting

  predicate Precedes(a: string, b: string) {
    if a == "" then b != ""
    else b != "" && (a[0] < b[0] || (a[0] == b[0] && Precedes(a[1..], b[1..])))
  }

  lemma {:induction false} OrderLaws(a: string, b: string, c: string)
    ensures !Precedes(a, a)
    ensures Precedes(a, b) && Precedes(b, c) ==> Precedes(a, c)
    ensures a != b ==> Precedes(a, b) || Precedes(b, a)
    decreases |a| + |b| + |c|
  {
    if a != "" {
      OrderLaws(a[1..], if b == "" then b else b[1..], if c == "" then c else c[1..]);
      if b != "" && a[0] == b[0] && a != b {
        assert a == [a[0]] + a[1..] && b == [b[0]] + b[1..];
      }
    }
  }

  lemma PrecedesIsStrict()
    ensures Sorting.Strict(Precedes)
    ensures forall a, b :: a != b ==> Precedes(a, b) || Precedes(b, a)
  {
    forall a, b, c
      ensures !Precedes(a, a) && (Precedes(a, b) && Precedes(b, c) ==> Precedes(a, c))
      ensures a != b ==> Precedes(a, b) || Precedes(b, a)
    {
      OrderLaws(a, b, c);
    }
  }

  /** The first difference decides, and a text comes after its own beginnings. */
  lemma {:induction false} PrecedesMeans(p: string, a: string, b: string)
    ensures a != "" && b != "" && a[0] != b[0] ==> (Precedes(p + a, p + b) <==> a[0] < b[0])
    ensures b != "" ==> Precedes(p, p + b)
  {
    if p == "" {
      assert p + a == a && p + b == b;
    } else {
      assert (p + a)[1..] == p[1..] + a && (p + b)[1..] == p[1..] + b;
      PrecedesMeans(p[1..], a, b);
    }
  }
}
