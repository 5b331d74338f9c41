# Movie recommender: text-similarity core in Dafny

This project models the text-similarity pipeline of the browser movie
recommender (`JavaScript/Movie-Recommender.js`) and proves properties of it.
The pipeline runs in these steps:

1. **Feature extraction** (`extractFeatures`). The keywords, cast and genres
   of a movie are joined with single spaces and lower-cased. A missing field
   contributes "".
2. **Vectorising** (`vectorize`). The feature text is split on the space
   character and each piece is counted, giving a word-count vector.
3. **Cosine similarity** (`cosineSimilarity`). The dot product and the two
   squared norms are accumulated over the union of both vectors' words. A
   missing word counts 0.
4. **Loading** (the per-row mapping of the dataset). Each row becomes a
   record holding its trimmed title and its vector.
5. **Title lookup** (`getIndexFromTitle`). The query is trimmed, and the
   first record whose title equals it case-insensitively is returned, or -1.
6. **Ranking** (`recommendMovies`). Every movie except the queried one is
   scored, the list is sorted by score from highest to lowest, and the first
   ten are kept.

The model is functional. Strings are `seq<char>`, vectors are
`map<string, nat>`, and every operation is a pure function. The one
exception is the accumulation loop of `cosineSimilarity`, which is a method
with loop invariants. The modules follow the pipeline:

- `Text`: ASCII lower-casing; trimming with the ECMAScript white-space set; splitting on " " and joining.
- `Optional`: absent values.
- `Features`: the movie row and its feature text.
- `Vectors`: vectors and order-independent sums over their words.
- `Vectorizer`: the bag of words.
- `Similarity`: dot product and norms.
- `Catalog`: loaded records and title lookup.
- `Ranking`: candidates, sorting, top ten and the whole query.

Scores are abstract integers. They come from a scoring function passed to
`Ranking.Recommend`, which stands for the source's scaled floating-point
cosine. The integer parts of the cosine are proved separately, together
with what they mean for the exact cosine dot / √(normA · normB):

- the denominator is never zero;
- dot² ≤ normA · normB, so the exact cosine lies between 0 and 1;
- a vector scored against itself has dot = norm², so its exact cosine is 1.

The repository's Python version (`Python/Movie Recommender.py`) differs
from the JavaScript file modelled here:

- Its feature text has a director field (line 22); the JavaScript one does not.
- It keeps twenty recommendations (line 83); the JavaScript one keeps ten.
- Its words are word-boundary tokens of `CountVectorizer` (line 37); the
  JavaScript words are the pieces of `split(" ")`, empty pieces included.
- It has a query cache (lines 44-70) and title suggestions (lines 57-59 and
  95-100); the JavaScript file has neither.

## Model

| member | source | states |
|---|---|---|
| `Text.Lower` | JavaScript/Movie-Recommender.js:9 | Lower-casing keeps the length, maps each ASCII capital to its small letter and leaves every other character alone; the result has no capital |
| `Text.Trim` | JavaScript/Movie-Recommender.js:58 | The trimmed string is a slice of the input, everything cut from either side is white space, and what remains has no white space at either end |
| `Text.TrimIdempotent` | JavaScript/Movie-Recommender.js:58 | Trimming twice is the same as trimming once |
| `Text.TrimLowerCommute` | JavaScript/Movie-Recommender.js:58-59 | Trimming then lower-casing equals lower-casing then trimming |
| `Text.Split` | JavaScript/Movie-Recommender.js:14 | `split(" ")` yields one more piece than there are spaces, no piece contains a space, and every character of a piece occurs in the text |
| `Text.JoinSplit` | JavaScript/Movie-Recommender.js:14 | Joining the pieces with single spaces gives back the original text, so no character is lost or invented by the split |
| `Text.SplitJoin` | JavaScript/Movie-Recommender.js:14 | Splitting a join of space-free pieces gives back exactly those pieces, empty ones included |
| `Text.SplitAroundSpace` | JavaScript/Movie-Recommender.js:9-14 | The pieces of `a + " " + b` are the pieces of `a` followed by those of `b` |
| `Features.ExtractFeatures` | JavaScript/Movie-Recommender.js:5-10 | The feature text is the lower-cased keywords, cast and genres (absent ones as "") separated by one space each: it is lower case, two characters longer than the fields, and has at least two spaces |
| `Features.FeatureWords` | JavaScript/Movie-Recommender.js:5-14 | The words of the feature text are the words of the keywords, then of the cast, then of the genres |
| `Vectorizer.Tally` | JavaScript/Movie-Recommender.js:15-19 | The left-to-right count gives each word its number of occurrences, has exactly the occurring words as keys, and stores no count below 1 |
| `Vectorizer.Vectorize` | JavaScript/Movie-Recommender.js:13-22 | The count of every word equals its occurrences among the pieces of `split(" ")`; keys are exactly those pieces ("" included); counts are at least 1; no key has a space; the vector is never empty |
| `Vectorizer.TallyTotal` | JavaScript/Movie-Recommender.js:14-19 | The counts of a tally add up to the number of words counted |
| `Vectorizer.VectorizeTotal` | JavaScript/Movie-Recommender.js:14-19 | The counts of a vectorised text add up to its number of spaces plus one |
| `Vectorizer.VectorizeWellFormed` | JavaScript/Movie-Recommender.js:13-21 | A vectorised text is non-empty with positive counts and space-free keys, and its keys are lower case when the text is |
| `Vectorizer.FeatureCounts` | JavaScript/Movie-Recommender.js:5-21 | A word's count in a movie's feature vector is the sum of its counts in the keywords, cast and genres vectorised separately |
| `Vectorizer.LeadingSpaceCountsEmptyWord` | JavaScript/Movie-Recommender.js:14-18 | A text that starts with a space stores the empty word as a key |
| `Vectorizer.ExampleEmptyMovie` | JavaScript/Movie-Recommender.js:6-18 | A movie with every field missing has feature text of two spaces and the vector {"": 3} |
| `Vectors.SumOverRemove` | JavaScript/Movie-Recommender.js:32-39 | A sum over a set of words may take any word out first, so the order in which the words are visited does not change the totals |
| `Vectors.SumOverZeroExtra` | JavaScript/Movie-Recommender.js:33-34 | Words whose summand is 0, such as words missing from a vector, add nothing to a sum |
| `Similarity.Accumulate` | JavaScript/Movie-Recommender.js:25-39 | Walking the union of both vectors' words gives the dot product in either argument order, and the squared norm of each vector whatever extra words the other has |
| `Similarity.DotSymmetric` | JavaScript/Movie-Recommender.js:30-36 | The dot product is symmetric in its two vectors |
| `Similarity.DotOverSuperset` | JavaScript/Movie-Recommender.js:30-36 | Summing `A[w]*B[w]` over any superset of A's words equals the sum over A's words alone |
| `Similarity.NormOverSuperset` | JavaScript/Movie-Recommender.js:30-37 | Summing `A[w]^2` over any superset of A's words equals the squared norm of A |
| `Similarity.SelfDot` | JavaScript/Movie-Recommender.js:36-41 | A vector's dot product with itself equals its squared norm, so the exact cosine of a vector with itself is 1 |
| `Similarity.NormAtLeastSize` | JavaScript/Movie-Recommender.js:37-41 | The squared norm of a well-formed vector is at least its number of words, hence at least 1 |
| `Similarity.DenominatorPositive` | JavaScript/Movie-Recommender.js:30-41 | For any two vectorised texts both squared norms are at least 1, so the denominator at line 41 is never 0 |
| `Similarity.CauchySchwarz` | JavaScript/Movie-Recommender.js:36-41 | dot² ≤ normA · normB, so the exact cosine dot / √(normA · normB) of two count vectors lies between 0 and 1 |
| `Catalog.Prepare` | JavaScript/Movie-Recommender.js:48-51 | A loaded record has a title with no white space at either end, and a non-empty vector of positive counts over space-free lower-case words whose counts add up to the feature text's spaces plus one |
| `Catalog.Load` | JavaScript/Movie-Recommender.js:48-51 | Loading maps row i to record i, and every record satisfies the load invariant |
| `Catalog.FindFrom` | JavaScript/Movie-Recommender.js:59 | `findIndex` from a position returns -1 exactly when no later title matches the key, and otherwise the first matching position |
| `Catalog.GetIndexFromTitle` | JavaScript/Movie-Recommender.js:57-60 | Returns -1 if and only if no title equals the trimmed query ignoring case; otherwise returns the smallest matching index |
| `Catalog.LookupIgnoresSurroundingWhitespace` | JavaScript/Movie-Recommender.js:58 | Looking up `trim(t)` gives the same index as looking up `t` |
| `Catalog.LookupIgnoresCase` | JavaScript/Movie-Recommender.js:59 | Looking up the lower-cased query gives the same index as the query |
| `Ranking.CandidatesFrom` | JavaScript/Movie-Recommender.js:73-76 | From a position on, every movie except the queried one appears once, in dataset order, with its own title and its score against the queried movie |
| `Ranking.Candidates` | JavaScript/Movie-Recommender.js:73-76 | The scored list has one entry per movie other than the queried one, in dataset order (so with distinct indices), each entry correctly scored |
| `Ranking.Insert` | JavaScript/Movie-Recommender.js:78 | Inserting into a ranked list adds exactly that candidate and keeps the list ranked |
| `Ranking.SortByScore` | JavaScript/Movie-Recommender.js:78 | The sorted list is a permutation of the input, by non-increasing score, with equal scores in dataset order as a stable sort leaves them |
| `Ranking.Recommend` | JavaScript/Movie-Recommender.js:73-79 | The result has min(10, n - 1) entries, never the queried movie, each correctly scored, ranked best first |
| `Ranking.RecommendKeepsBest` | JavaScript/Movie-Recommender.js:78-79 | A movie is left out only when ten were kept, and each kept one outranks it |
| `Ranking.RecommendMovies` | JavaScript/Movie-Recommender.js:63-79 | The query yields "not found" exactly when no title matches the trimmed input ignoring case; otherwise it yields the ranking for the first matching movie |

## Left out

- Dataset loading (lines 45-54): `fetch`, JSON parsing and `console` logging are I/O. Only the per-row mapping is modelled, by `Catalog.Prepare` and `Catalog.Load`. The global `movies` array is an explicit parameter.
- A row without a title: the source would throw at line 49. In the model every row has a title.
- A field holding a non-string value: the model's fields are strings or absent. An empty field and an absent one both give "", as in the source.
- The DOM and the UI: the input read at line 64, the alert at line 68, the rendering at lines 81-87, the popup functions at lines 91-99 and the event listener at line 101. The model trims the input, as line 64 does. The alert becomes the `None` result of `Ranking.RecommendMovies`.
- Floating point: `Math.sqrt` and the division at line 41, the `* 100` at line 75 and `toFixed(2)` at line 85. Scores are abstract integers from a scoring-function parameter.
- Rounding of the floating-point quotient at line 41: it can fall just outside [0, 1]. For a vector with squared norm 3 against itself, `3 / (Math.sqrt(3) * Math.sqrt(3))` is 1.0000000000000002. The bounds proved by `Similarity.CauchySchwarz` and `Similarity.SelfDot` hold for the exact cosine only.
- The self entry at line 74: the source stores the number `0` at the queried position. Its `.score` is undefined, so the comparator at line 78 yields NaN and the resulting order depends on the engine. If that entry reaches the top ten, line 85 reads a property of undefined. The model removes the queried movie before sorting, which is what the comment at line 74 intends.
- Object-prototype keys: in the source's plain `{}`, words such as "constructor" or "__proto__" hit inherited members at line 18. The model's vectors are plain maps from words to counts. In the source, a movie whose keywords, cast and genres are all "__proto__" gets a vector with no keys of its own, because the `__proto__` setter ignores the string it is given. Its `normA` is then 0 and line 41 yields NaN. Any vector holding the word "constructor" makes `a * b` NaN at line 36. So the non-emptiness promised by `Vectorizer.Vectorize` and the positive norms of `Similarity.DenominatorPositive` hold for the model's plain maps only.
- Unicode case mapping: `Text.Lower` maps only the ASCII letters. Trimming uses the complete ECMAScript WhiteSpace and LineTerminator set.
- The iteration order of the JavaScript `Set` at line 30: `Similarity.Accumulate` visits the words in an arbitrary order. `Vectors.SumOverRemove` shows that the order cannot change the sums.
- Similarity.Accumulate: the sums are unbounded integers, while JavaScript numbers are exact only up to 2^53. This matters only for counts far beyond real feature texts.
