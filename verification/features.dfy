/**
 A movie as read from the dataset, and the feature text built from it
 (`extractFeatures`): keywords, cast and genres joined by single spaces and
 lower-cased.
 */
module Features {
  import opened Optional
  import opened Text

  /** One dataset row. A field that is absent (or empty, which the
      source treats the same way) is `None`. */
  datatype Movie = Movie(
    title: string,
    keywords: Option<string>,
    cast: Option<string>,
    genres: Option<string>)

  /** A field's text, with "" standing in for an absent field. */
  function FieldText(field: Option<string>): string {
    field.GetOr("")
  }

  /** The lower-cased combined feature text of a movie. It is the three
      lower-cased fields separated by exactly one space each, so it is
      lower case, two characters longer than the fields together, and
      contains at least two spaces. */
  function ExtractFeatures(m: Movie): (r: string)
    ensures r == Lower(FieldText(m.keywords)) + " " + Lower(FieldText(m.cast))
                 + " " + Lower(FieldText(m.genres))
    ensures IsLowerCase(r)
    ensures |r| == |FieldText(m.keywords)| + |FieldText(m.cast)| + |FieldText(m.genres)| + 2
    ensures Count(r, ' ') >= 2
  {
    var k, c, g := FieldText(m.keywords), FieldText(m.cast), FieldText(m.genres);
    var r := Lower(k + " " + c + " " + g);
    LowerAppend(k + " " + c, " " + g);
    LowerAppend(k + " ", c);
    LowerAppend(k, " ");
    LowerAppend(" ", g);
    assert Lower(" ") == " ";
    assert r == Lower(k) + " " + Lower(c) + " " + Lower(g);
    SplitAroundSpace(Lower(k) + " " + Lower(c), Lower(g));
    SplitAroundSpace(Lower(k), Lower(c));
    r
  }

  /** The words of the feature text are the words of the keywords, then
      those of the cast, then those of the genres, each lower-cased. */
  lemma FeatureWords(m: Movie)
    ensures Split(ExtractFeatures(m))
         == Split(Lower(FieldText(m.keywords))) + Split(Lower(FieldText(m.cast)))
            + Split(Lower(FieldText(m.genres)))
  {
    var k, c, g := Lower(FieldText(m.keywords)), Lower(FieldText(m.cast)), Lower(FieldText(m.genres));
    SplitAroundSpace(k + " " + c, g);
    SplitAroundSpace(k, c);
  }
}
