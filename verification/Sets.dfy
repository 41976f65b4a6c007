/** Finite sets and their sizes. */
module Sets {
  lemma {:induction false} AtMost<T>(a: set<T>, b: set<T>)
    requires a <= b
    ensures |a| <= |b|
  {
    if x :| x in a { AtMost(a - {x}, b - {x}); }
  }

  lemma Fewer<T>(a: set<T>, b: set<T>)
    requires a < b
    ensures |a| < |b|
  {
    var x :| x in b && x !in a;
    AtMost(a, b - {x});
  }

  lemma SameSize<T>(a: set<T>, b: set<T>)
    requires a <= b && |a| == |b|
    ensures a == b
  {
    if a != b { Fewer(a, b); }
  }
}
