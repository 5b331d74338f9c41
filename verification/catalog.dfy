/**
 The loaded movie list and title lookup: each dataset row becomes a
 record holding its trimmed title and its word-count vector, and
 `getIndexFromTitle` finds the first record whose title equals the
 trimmed query, ignoring case.
 */
module Catalog {
  import opened Text
  import opened Vectors
  import opened Features
  import opened Vectorizer

  /** One loaded movie: its trimmed title and its feature vector. */
  datatype Record = Record(title: string, features: Vector)

  /** The invariant of a loaded record: the title has no white space at
      either end, and the vector is non-empty with positive counts and
      space-free, lower-case words. */
  predicate Loaded(r: Record) {
    && Trimmed(r.title)
    && WellFormed(r.features)
    && (forall w :: w in r.features ==> IsLowerCase(w))
  }

  /** The per-row mapping of the loader: trimmed title, vectorised
      features. Every prepared record satisfies the load invariant and
      its counts add up to the number of words in its feature text. */
  function Prepare(m: Movie): (r: Record)
    ensures Loaded(r)
    ensures Total(r.features) == Count(ExtractFeatures(m), ' ') + 1
  {
    var text := ExtractFeatures(m);
    VectorizeWellFormed(text);
    VectorizeTotal(text);
    Record(Trim(m.title), Vectorize(text))
  }

  /** The whole loaded list: one record per row, in row order. */
  function Load(data: seq<Movie>): (movies: seq<Record>)
    ensures |movies| == |data|
    ensures forall i :: 0 <= i < |data| ==> movies[i] == Prepare(data[i])
    ensures forall i :: 0 <= i < |movies| ==> Loaded(movies[i])
  {
    seq(|data|, i requires 0 <= i < |data| => Prepare(data[i]))
  }

  /** A stored title answers a query when they are equal once the query is
      trimmed and both are lower-cased. */
  predicate TitleMatches(title: string, query: string) {
    Lower(title) == Lower(Trim(query))
  }

  /** `findIndex` from position `i` on, for an already normalised key. */
  function FindFrom(movies: seq<Record>, key: string, i: nat): (r: int)
    requires i <= |movies|
    ensures r == -1 || i <= r < |movies|
    ensures r == -1 <==> forall k :: i <= k < |movies| ==> Lower(movies[k].title) != key
    ensures r != -1 ==> Lower(movies[r].title) == key
                        && forall k :: i <= k < r ==> Lower(movies[k].title) != key
    decreases |movies| - i
  {
    if i == |movies| then -1
    else if Lower(movies[i].title) == key then i
    else FindFrom(movies, key, i + 1)
  }

  /** The index of the first movie whose title matches the query, or -1
      when no title does. */
  function GetIndexFromTitle(movies: seq<Record>, query: string): (r: int)
    ensures -1 <= r < |movies|
    ensures r == -1 <==> forall i :: 0 <= i < |movies| ==> !TitleMatches(movies[i].title, query)
    ensures r != -1 ==> TitleMatches(movies[r].title, query)
                        && forall i :: 0 <= i < r ==> !TitleMatches(movies[i].title, query)
  {
    FindFrom(movies, Lower(Trim(query)), 0)
  }

  /** Surrounding white space in the query makes no difference. */
  lemma LookupIgnoresSurroundingWhitespace(movies: seq<Record>, query: string)
    ensures GetIndexFromTitle(movies, Trim(query)) == GetIndexFromTitle(movies, query)
  {
    TrimIdempotent(query);
  }

  /** The case of the query makes no difference. */
  lemma LookupIgnoresCase(movies: seq<Record>, query: string)
    ensures GetIndexFromTitle(movies, Lower(query)) == GetIndexFromTitle(movies, query)
  {
    TrimLowerCommute(query);
    LowerOfLowerCase(Lower(Trim(query)));
  }
}
