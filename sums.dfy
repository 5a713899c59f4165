/** Sums of natural numbers over a finite set, in no particular order:
    what a loop accumulating `+=` over the entries of a directory listing
    computes, whatever order the listing comes in. */
module Sums {

  ghost function SumOf<T>(s: set<T>, f: T -> nat): nat
    decreases |s|
  {
    if s == {} then 0 else var x :| x in s; f(x) + SumOf(s - {x}, f)
  }

  /** Any element can be taken out first. */
  lemma {:induction false} SumOfRemove<T>(s: set<T>, x: T, f: T -> nat)
    requires x in s
    ensures SumOf(s, f) == f(x) + SumOf(s - {x}, f)
    decreases |s|
  {
    var y :| y in s && SumOf(s, f) == f(y) + SumOf(s - {y}, f);
    if y != x {
      SumOfRemove(s - {y}, x, f);
      SumOfRemove(s - {x}, y, f);
      assert s - {y} - {x} == s - {x} - {y};
    }
  }

  /** Adding an element adds its value. */
  lemma SumOfAdd<T>(s: set<T>, x: T, f: T -> nat)
    requires x !in s
    ensures SumOf(s + {x}, f) == f(x) + SumOf(s, f)
  {
    SumOfRemove(s + {x}, x, f);
    assert s + {x} - {x} == s;
  }

  /** The sum only depends on the values of `f` on the set. */
  lemma {:induction false} SumOfCongruent<T>(s: set<T>, f: T -> nat, g: T -> nat)
    requires forall x :: x in s ==> f(x) == g(x)
    ensures SumOf(s, f) == SumOf(s, g)
    decreases |s|
  {
    if s != {} {
      var x :| x in s;
      SumOfRemove(s, x, f);
      SumOfRemove(s, x, g);
      SumOfCongruent(s - {x}, f, g);
    }
  }
}
