/**
 The bag-of-words vectoriser (`vectorize`): the text is split on the space
 character and each piece is counted.
 */
module Vectorizer {
  import opened Optional
  import opened Text
  import opened Vectors
  import opened Features

  /** Counts the words, visiting them left to right as `forEach` does.
      The count of each word is its number of occurrences in `words`,
      exactly the words that occur are keys, and every stored count is
      at least 1. */
  function Tally(words: seq<string>): (v: Vector)
    ensures forall w :: Get(v, w) == multiset(words)[w]
    ensures forall w :: w in v <==> w in words
    ensures forall w :: w in v ==> v[w] >= 1
    decreases |words|
  {
    if |words| == 0 then map[]
    else
      var front := words[..|words| - 1];
      var last := words[|words| - 1];
      assert words == front + [last];
      var counts := Tally(front);
      counts[last := Get(counts, last) + 1]
  }

  /** The word-count vector of a text. Its keys are exactly the pieces of
      `text.split(" ")`, including "" where spaces are adjacent or at
      either end; no key contains a space; each count is the number of
      times the piece occurs; and the vector is never empty. */
  function Vectorize(text: string): (v: Vector)
    ensures forall w :: Get(v, w) == multiset(Split(text))[w]
    ensures forall w :: w in v <==> w in Split(text)
    ensures forall w :: w in v ==> v[w] >= 1 && ' ' !in w
    ensures v != map[]
  {
    var words := Split(text);
    var v := Tally(words);
    assert words[0] in v;
    v
  }

  /** A vector the vectoriser can produce: non-empty, every count at
      least 1, no key containing a space. */
  predicate WellFormed(v: Vector) {
    && v != map[]
    && (forall w :: w in v ==> v[w] >= 1)
    && (forall w :: w in v ==> ' ' !in w)
  }

  /** The sum of all counts in `v`. */
  ghost function Total(v: Vector): nat {
    SumOver(v.Keys, CountIn(v))
  }

  /** Counting one more occurrence of a word raises the total by one. */
  lemma TotalAfterIncrement(c: Vector, w: string)
    ensures Total(c[w := Get(c, w) + 1]) == Total(c) + 1
  {
    var v := c[w := Get(c, w) + 1];
    SumOverCongruent(c.Keys - {w}, CountIn(v), CountIn(c));
    SumOverRemove(v.Keys, CountIn(v), w);
    if w in c {
      assert v.Keys == c.Keys;
      SumOverRemove(c.Keys, CountIn(c), w);
    } else {
      assert v.Keys - {w} == c.Keys;
      assert c.Keys - {w} == c.Keys;
    }
  }

  /** The counts of a tally add up to the number of words counted. */
  lemma {:induction false} TallyTotal(words: seq<string>)
    ensures Total(Tally(words)) == |words|
    decreases |words|
  {
    if |words| > 0 {
      var front := words[..|words| - 1];
      var last := words[|words| - 1];
      TallyTotal(front);
      TotalAfterIncrement(Tally(front), last);
    }
  }

  /** The counts of a vectorised text add up to the number of pieces,
      which is the number of spaces plus one. */
  lemma VectorizeTotal(text: string)
    ensures Total(Vectorize(text)) == Count(text, ' ') + 1
  {
    TallyTotal(Split(text));
  }

  /** Every vector the vectoriser produces is well formed, and its keys are
      lower case when the text is. */
  lemma VectorizeWellFormed(text: string)
    ensures WellFormed(Vectorize(text))
    ensures IsLowerCase(text) ==> forall w :: w in Vectorize(text) ==> IsLowerCase(w)
  {
    if IsLowerCase(text) {
      SplitLowerCase(text);
    }
  }

  /** The count of a word in the feature vector of a movie is the sum of
      its counts in the keywords, the cast and the genres, each
      lower-cased and vectorised on its own. */
  lemma FeatureCounts(m: Movie, w: string)
    ensures Get(Vectorize(ExtractFeatures(m)), w)
         == Get(Vectorize(Lower(FieldText(m.keywords))), w)
            + Get(Vectorize(Lower(FieldText(m.cast))), w)
            + Get(Vectorize(Lower(FieldText(m.genres))), w)
  {
    FeatureWords(m);
  }

  /** A text that starts with a space has the empty word as a key: the
      empty piece before the first space is counted like any other. */
  lemma LeadingSpaceCountsEmptyWord(text: string)
    requires |text| > 0 && text[0] == ' '
    ensures "" in Vectorize(text)
  {
    assert Split(text)[0] == "";
  }

  /** A movie with every field missing: its feature text is two spaces,
      whose three pieces are all empty. */
  lemma ExampleEmptyMovie()
    ensures Vectorize(ExtractFeatures(Movie("Gamma", None, None, None))) == map["" := 3]
  {
    EmptyMovieWords();
    var v := Vectorize("  ");
    assert multiset(["", "", ""])[""] == 3;
    assert v.Keys == {""};
  }

  /** The feature text of that movie, and its pieces. */
  lemma EmptyMovieWords()
    ensures ExtractFeatures(Movie("Gamma", None, None, None)) == "  "
    ensures Split("  ") == ["", "", ""]
  {
    assert Lower("") == "";
    assert Split(" ") == ["", ""] by {
      assert " "[1..] == "";
    }
    assert "  "[1..] == " ";
  }
}
