/**
 * Sums of real values over a finite set of keys, for the totals the
 * importance analysis accumulates while iterating over a Python set.
 */
module Sums {
  import opened Graphs

  ghost function Pick(s: set<Id>): Id
    requires s != {}
  {
    var x :| x in s; x
  }

  /** The sum of `f[k]` over the keys `keys`. */
  ghost function SumOver(keys: set<Id>, f: map<Id, real>): real
    requires keys <= f.Keys
    decreases |keys|
  {
    if keys == {} then 0.0
    else
      var x := Pick(keys);
      f[x] + SumOver(keys - {x}, f)
  }

  /** The sum does not depend on which key is taken first. */
  lemma {:induction false} SumRemove(keys: set<Id>, f: map<Id, real>, y: Id)
    requires keys <= f.Keys && y in keys
    ensures SumOver(keys, f) == f[y] + SumOver(keys - {y}, f)
    decreases |keys|
  {
    var x := Pick(keys);
    if y != x {
      SumRemove(keys - {x}, f, y);
      SumRemove(keys - {y}, f, x);
      assert keys - {x} - {y} == keys - {y} - {x};
    }
  }

  /** Adding one key adds its value. */
  lemma SumAdd(keys: set<Id>, f: map<Id, real>, y: Id)
    requires keys <= f.Keys && y in f && y !in keys
    ensures SumOver(keys + {y}, f) == SumOver(keys, f) + f[y]
  {
    SumRemove(keys + {y}, f, y);
    assert keys + {y} - {y} == keys;
  }

  /** Two maps that agree on the keys have the same sum. */
  lemma {:induction false} SumAgree(keys: set<Id>, f: map<Id, real>, h: map<Id, real>)
    requires keys <= f.Keys && keys <= h.Keys
    requires forall k :: k in keys ==> f[k] == h[k]
    ensures SumOver(keys, f) == SumOver(keys, h)
    decreases |keys|
  {
    if keys != {} {
      SumAgree(keys - {Pick(keys)}, f, h);
    }
  }

  /** Dividing every value by `c` divides the sum by `c`. */
  lemma {:induction false} SumScale(keys: set<Id>, f: map<Id, real>, h: map<Id, real>, c: real)
    requires keys <= f.Keys && keys <= h.Keys && c > 0.0
    requires forall k :: k in keys ==> h[k] == f[k] / c
    ensures SumOver(keys, h) == SumOver(keys, f) / c
    decreases |keys|
  {
    if keys != {} {
      var x := Pick(keys);
      SumScale(keys - {x}, f, h, c);
      DivideSum(f[x], SumOver(keys - {x}, f), c);
    }
  }

  lemma DivideSum(a: real, b: real, c: real)
    requires c > 0.0
    ensures (a + b) / c == a / c + b / c
  {
    var qa, qb := a / c, b / c;
    assert qa * c == a && qb * c == b;
    assert (qa + qb) * c == a + b;
  }

  /** With non-negative values, the sum is at least every single value. */
  lemma {:induction false} SumBoundsTerm(keys: set<Id>, f: map<Id, real>)
    requires keys <= f.Keys && forall k :: k in keys ==> f[k] >= 0.0
    ensures SumOver(keys, f) >= 0.0
    ensures forall y :: y in keys ==> f[y] <= SumOver(keys, f)
    decreases |keys|
  {
    if keys != {} {
      var x := Pick(keys);
      SumBoundsTerm(keys - {x}, f);
      forall y | y in keys ensures f[y] <= SumOver(keys, f) {
        if y != x {
          assert y in keys - {x};
        }
      }
    }
  }
}
