/**
 Word-count vectors and finite sums over their words. The recommender
 accumulates each of its sums by walking a collection of words in
 whatever order the collection yields them; `SumOver` is the
 order-independent meaning of such a walk, and `SumOverRemove` is what
 makes every walking order give the same total.
 */
module Vectors {

  /** A word-count vector: each word present maps to its count. */
  type Vector = map<string, nat>

  /** The count of `w` in `v`, 0 when `w` is absent (the `|| 0` of the
      source). */
  function Get(v: Vector, w: string): nat {
    if w in v then v[w] else 0
  }

  /** The per-word quantities the recommender adds up. */
  datatype Summand =
    | CountIn(v: Vector)            // v[w]
    | Product(a: Vector, b: Vector) // a[w] * b[w]
    | Square(a: Vector)             // a[w] * a[w]

  function Eval(f: Summand, w: string): nat {
    match f
    case CountIn(v) => Get(v, w)
    case Product(a, b) => Get(a, w) * Get(b, w)
    case Square(a) => Get(a, w) * Get(a, w)
  }

  /** The sum of `f` over the words in `ks`. */
  ghost function SumOver(ks: set<string>, f: Summand): nat
    decreases |ks|
  {
    if ks == {} then 0
    else
      var k :| k in ks;
      Eval(f, k) + SumOver(ks - {k}, f)
  }

  /** Any word may be taken out first. */
  lemma {:induction false} SumOverRemove(ks: set<string>, f: Summand, k: string)
    requires k in ks
    ensures SumOver(ks, f) == Eval(f, k) + SumOver(ks - {k}, f)
    decreases |ks|
  {
    var j :| j in ks && SumOver(ks, f) == Eval(f, j) + SumOver(ks - {j}, f);
    if j != k {
      SumOverRemove(ks - {j}, f, k);
      SumOverRemove(ks - {k}, f, j);
      assert ks - {j} - {k} == ks - {k} - {j};
    }
  }

  /** Summands that agree on the words give the same sum. */
  lemma {:induction false} SumOverCongruent(ks: set<string>, f: Summand, g: Summand)
    requires forall w :: w in ks ==> Eval(f, w) == Eval(g, w)
    ensures SumOver(ks, f) == SumOver(ks, g)
    decreases |ks|
  {
    if ks != {} {
      var k :| k in ks;
      SumOverRemove(ks, f, k);
      SumOverRemove(ks, g, k);
      SumOverCongruent(ks - {k}, f, g);
    }
  }

  /** Extra words whose summand is 0 do not change the sum. */
  lemma {:induction false} SumOverZeroExtra(ks: set<string>, extra: set<string>, f: Summand)
    requires forall w :: w in extra ==> Eval(f, w) == 0
    ensures SumOver(ks + extra, f) == SumOver(ks, f)
    decreases |extra|
  {
    if extra != {} {
      var e :| e in extra;
      var rest := extra - {e};
      SumOverZeroExtra(ks, rest, f);
      if e !in ks + rest {
        SumOverRemove(ks + extra, f, e);
        assert (ks + extra) - {e} == ks + rest;
      } else {
        assert ks + extra == ks + rest;
      }
    }
  }

  /** When every summand is at least 1, the sum is at least the number of
      words. */
  lemma {:induction false} SumOverAtLeastSize(ks: set<string>, f: Summand)
    requires forall w :: w in ks ==> Eval(f, w) >= 1
    ensures SumOver(ks, f) >= |ks|
    decreases |ks|
  {
    if ks != {} {
      var k :| k in ks;
      SumOverRemove(ks, f, k);
      SumOverAtLeastSize(ks - {k}, f);
    }
  }
}
