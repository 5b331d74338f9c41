/**
 The exact part of `cosineSimilarity`: the dot product and the two squared
 norms, accumulated over the union of both vectors' words with a missing
 word counting 0. The final square root and division are floating point
 and not modelled; the lemmas here say what they would need (a non-zero
 denominator) and what the exact cosine would give (a value between 0 and
 1, and 1 for a vector against itself).
 */
module Similarity {
  import opened Vectors
  import opened Vectorizer

  /** The dot product, summed over the words of `a` alone. */
  ghost function DotProduct(a: Vector, b: Vector): nat {
    SumOver(a.Keys, Product(a, b))
  }

  /** The squared Euclidean norm: the sum of the squared counts. */
  ghost function SquaredNorm(a: Vector): nat {
    SumOver(a.Keys, Square(a))
  }

  /** Summing the products over any set of words that contains the words
      of `a` gives the dot product: the products elsewhere are 0. */
  lemma DotOverSuperset(a: Vector, b: Vector, ks: set<string>)
    requires a.Keys <= ks
    ensures SumOver(ks, Product(a, b)) == DotProduct(a, b)
  {
    SumOverZeroExtra(a.Keys, ks - a.Keys, Product(a, b));
    assert a.Keys + (ks - a.Keys) == ks;
  }

  /** Likewise for the squared norm: extra words add nothing. */
  lemma NormOverSuperset(a: Vector, ks: set<string>)
    requires a.Keys <= ks
    ensures SumOver(ks, Square(a)) == SquaredNorm(a)
  {
    SumOverZeroExtra(a.Keys, ks - a.Keys, Square(a));
    assert a.Keys + (ks - a.Keys) == ks;
  }

  /** The dot product is symmetric. */
  lemma DotSymmetric(a: Vector, b: Vector)
    ensures DotProduct(a, b) == DotProduct(b, a)
  {
    var u := a.Keys + b.Keys;
    DotOverSuperset(a, b, u);
    DotOverSuperset(b, a, u);
    SumOverCongruent(u, Product(a, b), Product(b, a));
  }

  /** The loop of the source: walk the union of both key sets, adding
      `a * b`, `a * a` and `b * b` with missing counts read as 0. The
      result is the dot product (in either argument order) and the squared
      norm of each vector, whatever extra words the other vector has. */
  method Accumulate(a: Vector, b: Vector) returns (dot: nat, normA: nat, normB: nat)
    ensures dot == DotProduct(a, b) && dot == DotProduct(b, a)
    ensures normA == SquaredNorm(a)
    ensures normB == SquaredNorm(b)
  {
    var allWords := a.Keys + b.Keys;
    var rest := allWords;
    dot, normA, normB := 0, 0, 0;
    while rest != {}
      invariant dot + SumOver(rest, Product(a, b)) == SumOver(allWords, Product(a, b))
      invariant normA + SumOver(rest, Square(a)) == SumOver(allWords, Square(a))
      invariant normB + SumOver(rest, Square(b)) == SumOver(allWords, Square(b))
      decreases |rest|
    {
      var word :| word in rest;
      var x := Get(a, word);
      var y := Get(b, word);
      SumOverRemove(rest, Product(a, b), word);
      SumOverRemove(rest, Square(a), word);
      SumOverRemove(rest, Square(b), word);
      dot := dot + x * y;
      normA := normA + x * x;
      normB := normB + y * y;
      rest := rest - {word};
    }
    UnionSums(a, b);
  }

  /** The three sums over the union of the key sets, in terms of the
      vectors alone. */
  lemma UnionSums(a: Vector, b: Vector)
    ensures SumOver(a.Keys + b.Keys, Product(a, b)) == DotProduct(a, b) == DotProduct(b, a)
    ensures SumOver(a.Keys + b.Keys, Square(a)) == SquaredNorm(a)
    ensures SumOver(a.Keys + b.Keys, Square(b)) == SquaredNorm(b)
  {
    DotOverSuperset(a, b, a.Keys + b.Keys);
    NormOverSuperset(a, a.Keys + b.Keys);
    NormOverSuperset(b, a.Keys + b.Keys);
    DotSymmetric(a, b);
  }

  /** Taking one word out of the three sums at once. */
  lemma TakeOne(ks: set<string>, a: Vector, b: Vector, w: string)
    requires w in ks
    ensures SumOver(ks, Product(a, b)) == Get(a, w) * Get(b, w) + SumOver(ks - {w}, Product(a, b))
    ensures SumOver(ks, Square(a)) == Get(a, w) * Get(a, w) + SumOver(ks - {w}, Square(a))
    ensures SumOver(ks, Square(b)) == Get(b, w) * Get(b, w) + SumOver(ks - {w}, Square(b))
  {
    SumOverRemove(ks, Product(a, b), w);
    SumOverRemove(ks, Square(a), w);
    SumOverRemove(ks, Square(b), w);
  }

  /** A vector against itself: the dot product is the squared norm, so the
      exact cosine dot / sqrt(normA * normB) is 1. */
  lemma SelfDot(a: Vector)
    ensures DotProduct(a, a) == SquaredNorm(a)
  {
    SumOverCongruent(a.Keys, Product(a, a), Square(a));
  }

  /** The squared norm of a well-formed vector is at least its number of
      words, hence at least 1. */
  lemma NormAtLeastSize(a: Vector)
    requires WellFormed(a)
    ensures SquaredNorm(a) >= |a| >= 1
  {
    forall w | w in a.Keys
      ensures Eval(Square(a), w) >= 1
    {
      assert a[w] >= 1;
    }
    SumOverAtLeastSize(a.Keys, Square(a));
    var w :| w in a;
  }

  /** For any two vectorised texts both squared norms are at least 1, so
      the denominator `sqrt(normA) * sqrt(normB)` is never 0. */
  lemma DenominatorPositive(s: string, t: string)
    ensures SquaredNorm(Vectorize(s)) >= 1
    ensures SquaredNorm(Vectorize(t)) >= 1
    ensures SquaredNorm(Vectorize(s)) * SquaredNorm(Vectorize(t)) >= 1
  {
    VectorizeWellFormed(s);
    VectorizeWellFormed(t);
    NormAtLeastSize(Vectorize(s));
    NormAtLeastSize(Vectorize(t));
    ProductAtLeastOne(SquaredNorm(Vectorize(s)), SquaredNorm(Vectorize(t)));
  }

  /* Small facts of integer arithmetic, kept apart so that each proof
     obligation sees only the product it needs. */

  lemma ProductAtLeastOne(m: nat, n: nat)
    requires m >= 1 && n >= 1
    ensures m * n >= 1
  {
  }

  lemma MulLeft(m: nat, n: nat, c: nat)
    requires m <= n
    ensures c * m <= c * n
  {
  }

  lemma SquareOfSum(u: int, v: int)
    ensures (u + v) * (u + v) == u * u + 2 * (u * v) + v * v
  {
  }

  lemma SquareOfDifference(u: int, v: int)
    ensures (u + v) * (u + v) - 4 * (u * v) == (u - v) * (u - v)
  {
  }

  lemma SquareNonNegative(u: int)
    ensures u * u >= 0
  {
  }

  lemma SquaresOrdered(t: nat, s: nat)
    requires t * t <= s * s
    ensures t <= s
  {
    if t > s {
      MulLeft(s, t, t);
      MulLeft(s, t, s);
    }
  }

  lemma Rearrange4(p: nat, q: nat, x: nat, y: nat)
    ensures (p * y) * (q * x) == (p * q) * (x * y)
  {
  }

  lemma Rearrange2(d: nat, e: nat)
    ensures (2 * (d * e)) * (2 * (d * e)) == 4 * ((d * d) * (e * e))
  {
  }

  lemma Rearrange3(x: nat, y: nat)
    ensures (x * y) * (x * y) == (x * x) * (y * y)
  {
  }

  lemma ProductExpand(p: nat, q: nat, xx: nat, yy: nat)
    ensures (p + xx) * (q + yy) == p * q + (p * yy + q * xx) + xx * yy
  {
  }

  /** The key inequality of the induction step: 2de <= pY + qX whenever
      d^2 <= pq and e^2 = XY. */
  lemma CrossTermBound(d: nat, p: nat, q: nat, x: nat, y: nat)
    requires d * d <= p * q
    ensures 2 * (d * (x * y)) <= p * (y * y) + q * (x * x)
  {
    var e, xx, yy := x * y, x * x, y * y;
    var u, v := p * yy, q * xx;
    var s, t := u + v, 2 * (d * e);
    SquareOfDifference(u, v);
    SquareNonNegative(u - v);
    Rearrange4(p, q, xx, yy);
    Rearrange3(x, y);
    assert u * v == (p * q) * (e * e);
    Rearrange2(d, e);
    MulLeft(d * d, p * q, e * e);
    assert (d * d) * (e * e) <= (p * q) * (e * e);
    assert t * t <= s * s;
    SquaresOrdered(t, s);
  }

  /** One induction step of Cauchy-Schwarz, as integer arithmetic: adding
      the pair (x, y) to sums d, p, q with d^2 <= pq keeps the inequality. */
  lemma CauchySchwarzStep(dot: nat, na: nat, nb: nat, d: nat, p: nat, q: nat, x: nat, y: nat)
    requires d * d <= p * q
    requires dot == d + x * y && na == p + x * x && nb == q + y * y
    ensures dot * dot <= na * nb
  {
    CrossTermBound(d, p, q, x, y);
    SquareOfSum(d, x * y);
    Rearrange3(x, y);
    ProductExpand(p, q, x * x, y * y);
  }

  lemma {:induction false} CauchySchwarzOver(ks: set<string>, a: Vector, b: Vector)
    ensures SumOver(ks, Product(a, b)) * SumOver(ks, Product(a, b))
         <= SumOver(ks, Square(a)) * SumOver(ks, Square(b))
    decreases |ks|
  {
    var dot, na, nb := SumOver(ks, Product(a, b)), SumOver(ks, Square(a)), SumOver(ks, Square(b));
    if ks == {} {
      assert dot == 0;
    } else {
      var k :| k in ks;
      var rest := ks - {k};
      TakeOne(ks, a, b, k);
      CauchySchwarzOver(rest, a, b);
      CauchySchwarzStep(dot, na, nb, SumOver(rest, Product(a, b)), SumOver(rest, Square(a)),
                        SumOver(rest, Square(b)), Get(a, k), Get(b, k));
    }
  }

  /** Cauchy-Schwarz: dot^2 <= normA * normB, so the exact cosine
      dot / sqrt(normA * normB) of two count vectors is at most 1 (and,
      counts being non-negative, at least 0). */
  lemma CauchySchwarz(a: Vector, b: Vector)
    ensures DotProduct(a, b) * DotProduct(a, b) <= SquaredNorm(a) * SquaredNorm(b)
  {
    var u := a.Keys + b.Keys;
    CauchySchwarzOver(u, a, b);
    DotOverSuperset(a, b, u);
    NormOverSuperset(a, u);
    NormOverSuperset(b, u);
  }
}
