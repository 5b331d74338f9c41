/**
 The ranking step of `recommendMovies`: score every other movie against
 the queried one, sort by score from highest to lowest, and keep the
 first ten. Scores are abstract integers produced by a scoring function
 (the source's scaled floating-point cosine similarity). The sort is
 stable and the candidates arrive in dataset order, so movies with equal
 scores stay in index order; `Before` states that order.
 */
module Ranking {
  import opened Optional
  import opened Text
  import opened Vectors
  import opened Catalog

  /** How many recommendations are kept. */
  const TopCount: nat := 10

  /** One scored candidate: its dataset index, its title and its score. */
  datatype Candidate = Candidate(index: nat, title: string, score: int)

  /** Scores a candidate's features against the queried movie's. */
  type Scorer = (Vector, Vector) -> int

  function Min(m: nat, n: nat): nat {
    if m <= n then m else n
  }

  /** Movie `j` scored against the queried movie `q`. */
  function Scored(movies: seq<Record>, q: nat, score: Scorer, j: nat): Candidate
    requires q < |movies| && j < |movies|
  {
    Candidate(j, movies[j].title, score(movies[q].features, movies[j].features))
  }

  /** Candidate `x` is ranked above `y`: a higher score, or an equal score
      and an earlier position in the dataset. */
  predicate Before(x: Candidate, y: Candidate) {
    x.score > y.score || (x.score == y.score && x.index < y.index)
  }

  /** Every candidate is ranked above every later one. */
  predicate Ranked(s: seq<Candidate>) {
    forall k, l :: 0 <= k < l < |s| ==> Before(s[k], s[l])
  }

  predicate DistinctIndices(s: seq<Candidate>) {
    forall k, l :: 0 <= k < l < |s| ==> s[k].index != s[l].index
  }

  /** The movies from position `i` on, except the queried one, scored, in
      dataset order. */
  function CandidatesFrom(movies: seq<Record>, q: nat, score: Scorer, i: nat): (cs: seq<Candidate>)
    requires q < |movies| && i <= |movies|
    ensures |cs| == |movies| - i - (if i <= q then 1 else 0)
    ensures forall k :: 0 <= k < |cs| ==>
              i <= cs[k].index < |movies| && cs[k].index != q
              && cs[k] == Scored(movies, q, score, cs[k].index)
    ensures forall k, l :: 0 <= k < l < |cs| ==> cs[k].index < cs[l].index
    ensures forall j :: i <= j < |movies| && j != q ==> Scored(movies, q, score, j) in cs
    decreases |movies| - i
  {
    if i == |movies| then []
    else if i == q then CandidatesFrom(movies, q, score, i + 1)
    else [Scored(movies, q, score, i)] + CandidatesFrom(movies, q, score, i + 1)
  }

  /** Every movie but the queried one, scored, in dataset order. */
  function Candidates(movies: seq<Record>, q: nat, score: Scorer): (cs: seq<Candidate>)
    requires q < |movies|
    ensures |cs| == |movies| - 1
    ensures forall k, l :: 0 <= k < l < |cs| ==> cs[k].index < cs[l].index
    ensures DistinctIndices(cs)
    ensures forall c :: c in cs ==> c.index < |movies| && c.index != q
                                    && c == Scored(movies, q, score, c.index)
    ensures forall j :: 0 <= j < |movies| && j != q ==> Scored(movies, q, score, j) in cs
  {
    CandidatesFrom(movies, q, score, 0)
  }

  /** Inserts `x` into a ranked list, keeping it ranked. */
  function Insert(x: Candidate, s: seq<Candidate>): (r: seq<Candidate>)
    requires Ranked(s)
    requires forall k :: 0 <= k < |s| ==> s[k].index != x.index
    ensures multiset(r) == multiset(s) + multiset{x}
    ensures forall e :: e in r <==> e == x || e in s
    ensures Ranked(r)
  {
    if |s| == 0 then [x]
    else if Before(x, s[0]) then [x] + s
    else
      var tail := Insert(x, s[1..]);
      assert s == [s[0]] + s[1..];
      RankedCons(s[0], tail);
      [s[0]] + tail
  }

  /** A candidate ranked above every element of a ranked list can head it. */
  lemma RankedCons(h: Candidate, t: seq<Candidate>)
    requires Ranked(t)
    requires forall e :: e in t ==> Before(h, e)
    ensures Ranked([h] + t)
  {
    var r := [h] + t;
    forall k, l | 0 <= k < l < |r|
      ensures Before(r[k], r[l])
    {
      assert r[l] == t[l - 1];
      if k > 0 {
        assert r[k] == t[k - 1];
      }
    }
  }

  /** Insertion sort: a permutation of the input, from best to worst. */
  function SortByScore(cs: seq<Candidate>): (r: seq<Candidate>)
    requires DistinctIndices(cs)
    ensures multiset(r) == multiset(cs)
    ensures forall e :: e in r <==> e in cs
    ensures Ranked(r)
  {
    if |cs| == 0 then []
    else
      assert cs == [cs[0]] + cs[1..];
      var rest := SortByScore(cs[1..]);
      assert forall k :: 0 <= k < |rest| ==> rest[k] in cs[1..];
      Insert(cs[0], rest)
  }

  /** The recommendations for the movie at index `q`: at most ten, never
      the movie itself, each the correctly scored candidate for its
      index, ranked from best to worst. */
  function Recommend(movies: seq<Record>, q: nat, score: Scorer): (r: seq<Candidate>)
    requires q < |movies|
    ensures |r| == Min(TopCount, |movies| - 1)
    ensures forall c :: c in r ==> c.index < |movies| && c.index != q
                                   && c == Scored(movies, q, score, c.index)
    ensures Ranked(r)
  {
    var sorted := SortByScore(Candidates(movies, q, score));
    assert |sorted| == |movies| - 1 by {
      assert |multiset(sorted)| == |multiset(Candidates(movies, q, score))|;
    }
    sorted[..Min(TopCount, |sorted|)]
  }

  /** A movie left out of the recommendations only when ten others were
      kept, each ranked above it. */
  lemma RecommendKeepsBest(movies: seq<Record>, q: nat, score: Scorer, j: nat)
    requires q < |movies| && j < |movies| && j != q
    requires Scored(movies, q, score, j) !in Recommend(movies, q, score)
    ensures |Recommend(movies, q, score)| == TopCount
    ensures forall c :: c in Recommend(movies, q, score) ==> Before(c, Scored(movies, q, score, j))
  {
    var sorted := SortByScore(Candidates(movies, q, score));
    var e := Scored(movies, q, score, j);
    var n := Min(TopCount, |sorted|);
    assert sorted[..n] == Recommend(movies, q, score);
    assert e in sorted;
    var p :| 0 <= p < |sorted| && sorted[p] == e;
    assert forall k :: 0 <= k < n ==> sorted[..n][k] == sorted[k];
    assert p >= n;
    forall c | c in sorted[..n]
      ensures Before(c, e)
    {
      var k :| 0 <= k < n && sorted[..n][k] == c;
      assert sorted[k] == c;
    }
  }

  /** The whole query: resolve the (trimmed) input title, then rank. None
      stands for the "not found" outcome, which happens exactly when no
      title matches. Otherwise the list is the ranking for the first
      matching movie, which it never contains. */
  function RecommendMovies(movies: seq<Record>, input: string, score: Scorer): (r: Option<seq<Candidate>>)
    ensures r.None? <==> forall i :: 0 <= i < |movies| ==> !TitleMatches(movies[i].title, input)
    ensures r.Some? ==> var q := GetIndexFromTitle(movies, input);
                        0 <= q < |movies| && r.value == Recommend(movies, q, score)
  {
    var q := GetIndexFromTitle(movies, Trim(input));
    LookupIgnoresSurroundingWhitespace(movies, input);
    if q == -1 then None else Some(Recommend(movies, q, score))
  }
}
