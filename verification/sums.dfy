/** Sums of natural numbers over finite sets. */
module Sums {

  ghost function Sum<T>(f: T -> nat, s: set<T>): nat {
    if s == {} then 0
    else
      var x :| x in s;
      f(x) + Sum(f, s - {x})
  }

  lemma {:induction false} SumRemove<T>(f: T -> nat, s: set<T>, x: T)
    requires x in s
    ensures Sum(f, s) == f(x) + Sum(f, s - {x})
    decreases s
  {
    var y :| y in s && Sum(f, s) == f(y) + Sum(f, s - {y});
    if y != x {
      SumRemove(f, s - {y}, x);
      SumRemove(f, s - {x}, y);
      assert s - {y} - {x} == s - {x} - {y};
    }
  }

  lemma {:induction false} SumUnion<T>(f: T -> nat, a: set<T>, b: set<T>)
    requires a !! b
    ensures Sum(f, a + b) == Sum(f, a) + Sum(f, b)
    decreases a
  {
    if a == {} {
      assert a + b == b;
    } else {
      var x :| x in a;
      SumRemove(f, a, x);
      SumRemove(f, a + b, x);
      assert a + b - {x} == (a - {x}) + b;
      SumUnion(f, a - {x}, b);
    }
  }

  lemma SumSubset<T>(f: T -> nat, a: set<T>, b: set<T>)
    requires a <= b
    ensures Sum(f, a) <= Sum(f, b)
  {
    SumUnion(f, a, b - a);
    assert a + (b - a) == b;
  }

  lemma {:induction false} SumSame<T>(f: T -> nat, g: T -> nat, s: set<T>)
    requires forall x :: x in s ==> f(x) == g(x)
    ensures Sum(f, s) == Sum(g, s)
    decreases s
  {
    if s != {} {
      var x :| x in s;
      SumRemove(f, s, x);
      SumRemove(g, s, x);
      SumSame(f, g, s - {x});
    }
  }
}
