/**
 The string primitives the recommender relies on: `toLowerCase`, `trim`,
 `split(" ")` and its inverse, `join(" ")`. Strings are `seq<char>`.
 Lower-casing covers the ASCII letters only; trimming uses the complete
 ECMAScript white-space and line-terminator set.
 */
module Text {

  /* ---------------------------------------------------------------------
     Case mapping
     --------------------------------------------------------------------- */

  predicate IsUpper(c: char) {
    'A' <= c <= 'Z'
  }

  /** ASCII lower-casing of one character; every other character is kept. */
  function LowerChar(c: char): (r: char)
    ensures !IsUpper(r)
    ensures IsUpper(c) ==> r as int == c as int + 32
    ensures !IsUpper(c) ==> r == c
  {
    if IsUpper(c) then (c as int + 32) as char else c
  }

  predicate IsLowerCase(s: string) {
    forall i :: 0 <= i < |s| ==> !IsUpper(s[i])
  }

  /** `s.toLowerCase()`, restricted to the ASCII case map. */
  function Lower(s: string): (r: string)
    ensures |r| == |s|
    ensures forall i :: 0 <= i < |s| ==> r[i] == LowerChar(s[i])
    ensures IsLowerCase(r)
  {
    seq(|s|, i requires 0 <= i < |s| => LowerChar(s[i]))
  }

  /** Lower-casing a string that is already lower case changes nothing. */
  lemma LowerOfLowerCase(s: string)
    requires IsLowerCase(s)
    ensures Lower(s) == s
  {
    assert forall i :: 0 <= i < |s| ==> Lower(s)[i] == s[i];
  }

  /** Lower-casing distributes over concatenation. */
  lemma LowerAppend(a: string, b: string)
    ensures Lower(a + b) == Lower(a) + Lower(b)
  {
    assert forall i :: 0 <= i < |a + b| ==> Lower(a + b)[i] == (Lower(a) + Lower(b))[i];
  }

  /* ---------------------------------------------------------------------
     Trimming
     --------------------------------------------------------------------- */

  /** The characters `String.prototype.trim` removes: the ECMAScript
      WhiteSpace set (tab, vertical tab, form feed, space, no-break space,
      byte-order mark, the other space separators) and the LineTerminator
      set (line feed, carriage return, line and paragraph separators). */
  predicate IsWhitespace(c: char) {
    c in WhitespaceChars || '\U{2000}' <= c <= '\U{200A}'
  }

  const WhitespaceChars: set<char> := {
    '\t', '\n', '\U{000B}', '\U{000C}', '\r', ' ', '\U{00A0}', '\U{1680}',
    '\U{2028}', '\U{2029}', '\U{202F}', '\U{205F}', '\U{3000}', '\U{FEFF}'
  }

  /** Neither the first nor the last character is white space. */
  predicate Trimmed(s: string) {
    |s| > 0 ==> !IsWhitespace(s[0]) && !IsWhitespace(s[|s| - 1])
  }

  /** The position of the first non-white-space character at or after
      `i`, or `|s|` when there is none. */
  function ContentStart(s: string, i: nat): (r: nat)
    requires i <= |s|
    ensures i <= r <= |s|
    ensures forall k :: i <= k < r ==> IsWhitespace(s[k])
    ensures r < |s| ==> !IsWhitespace(s[r])
    decreases |s| - i
  {
    if i < |s| && IsWhitespace(s[i]) then ContentStart(s, i + 1) else i
  }

  /** The position just after the last non-white-space character before
      `j` and at or after `lo`, or `lo` when there is none. */
  function ContentEnd(s: string, lo: nat, j: nat): (r: nat)
    requires lo <= j <= |s|
    ensures lo <= r <= j
    ensures forall k :: r <= k < j ==> IsWhitespace(s[k])
    ensures r > lo ==> !IsWhitespace(s[r - 1])
    decreases j
  {
    if j > lo && IsWhitespace(s[j - 1]) then ContentEnd(s, lo, j - 1) else j
  }

  /** `s.trim()`: the slice of `s` between its leading and its trailing
      white space. Everything cut off on either side is white space, and
      the result has no white space at either end. */
  function Trim(s: string): (r: string)
    ensures Trimmed(r)
    ensures var i := ContentStart(s, 0);
            && i + |r| <= |s| && r == s[i..i + |r|]
            && (forall k :: 0 <= k < i ==> IsWhitespace(s[k]))
            && (forall k :: i + |r| <= k < |s| ==> IsWhitespace(s[k]))
  {
    var i := ContentStart(s, 0);
    var j := ContentEnd(s, i, |s|);
    s[i..j]
  }

  /** A string with no white space at either end is its own trim. */
  lemma TrimOfTrimmed(s: string)
    requires Trimmed(s)
    ensures Trim(s) == s
  {
    assert ContentStart(s, 0) == 0;
    if |s| > 0 {
      assert ContentEnd(s, 0, |s|) == |s|;
    }
  }

  /** Trimming is idempotent. */
  lemma TrimIdempotent(s: string)
    ensures Trim(Trim(s)) == Trim(s)
  {
    TrimOfTrimmed(Trim(s));
  }

  /** ASCII lower-casing never turns a white-space character into a
      non-white-space one or back. */
  lemma LowerCharKeepsWhitespace(c: char)
    ensures IsWhitespace(LowerChar(c)) <==> IsWhitespace(c)
  {
  }

  lemma {:induction false} ContentStartLower(s: string, i: nat)
    requires i <= |s|
    ensures ContentStart(Lower(s), i) == ContentStart(s, i)
    decreases |s| - i
  {
    if i < |s| {
      LowerCharKeepsWhitespace(s[i]);
      ContentStartLower(s, i + 1);
    }
  }

  lemma {:induction false} ContentEndLower(s: string, lo: nat, j: nat)
    requires lo <= j <= |s|
    ensures ContentEnd(Lower(s), lo, j) == ContentEnd(s, lo, j)
    decreases j
  {
    if j > lo {
      LowerCharKeepsWhitespace(s[j - 1]);
      ContentEndLower(s, lo, j - 1);
    }
  }

  /** Trimming and lower-casing commute. */
  lemma TrimLowerCommute(s: string)
    ensures Trim(Lower(s)) == Lower(Trim(s))
  {
    ContentStartLower(s, 0);
    var i := ContentStart(s, 0);
    ContentEndLower(s, i, |s|);
    var j := ContentEnd(s, i, |s|);
    LowerSlice(s, i, j);
  }

  lemma LowerSlice(s: string, i: nat, j: nat)
    requires i <= j <= |s|
    ensures Lower(s)[i..j] == Lower(s[i..j])
  {
  }

  /* ---------------------------------------------------------------------
     Splitting on the space character, and joining
     --------------------------------------------------------------------- */

  /** Number of occurrences of `c` in `s`. */
  function Count(s: string, c: char): nat {
    if |s| == 0 then 0 else (if s[0] == c then 1 else 0) + Count(s[1..], c)
  }

  /** `s.split(" ")`: the pieces between consecutive space characters,
      including empty pieces where spaces are adjacent or at either end.
      There is one more piece than there are spaces, no piece contains
      a space, and every character of a piece occurs in the text. */
  function Split(s: string): (r: seq<string>)
    ensures |r| == Count(s, ' ') + 1
    ensures forall i :: 0 <= i < |r| ==> ' ' !in r[i]
    ensures forall i, c :: 0 <= i < |r| && c in r[i] ==> c in s
    decreases |s|
  {
    if |s| == 0 then [""]
    else
      var rest := Split(s[1..]);
      assert s == [s[0]] + s[1..];
      if s[0] == ' ' then [""] + rest
      else [[s[0]] + rest[0]] + rest[1..]
  }

  /** `pieces.join(" ")`. */
  function Join(pieces: seq<string>): string
  {
    if |pieces| == 0 then ""
    else if |pieces| == 1 then pieces[0]
    else pieces[0] + " " + Join(pieces[1..])
  }

  /** Splitting and then joining gives back the original text. */
  lemma {:induction false} JoinSplit(s: string)
    ensures Join(Split(s)) == s
    decreases |s|
  {
    if |s| > 0 {
      var rest := Split(s[1..]);
      JoinSplit(s[1..]);
      if s[0] == ' ' {
        assert Split(s) == [""] + rest;
        assert s == " " + s[1..];
      } else {
        assert Split(s) == [[s[0]] + rest[0]] + rest[1..];
        assert s == [s[0]] + s[1..];
        if |rest| > 1 {
          assert Join(rest) == rest[0] + " " + Join(rest[1..]);
        }
      }
    }
  }

  /** A space-free prefix becomes part of the first piece. */
  lemma {:induction false} SplitSpaceFreePrefix(p: string, t: string)
    requires ' ' !in p
    ensures Split(p + t) == [p + Split(t)[0]] + Split(t)[1..]
    decreases |p|
  {
    if |p| > 0 {
      assert (p + t)[1..] == p[1..] + t;
      assert (p + t)[0] == p[0];
      SplitSpaceFreePrefix(p[1..], t);
      assert [p[0]] + (p[1..] + Split(t)[0]) == p + Split(t)[0];
    } else {
      assert p + t == t;
      assert p + Split(t)[0] == Split(t)[0];
      assert Split(t) == [Split(t)[0]] + Split(t)[1..];
    }
  }

  /** Joining space-free pieces and splitting again gives back the pieces. */
  lemma {:induction false} SplitJoin(pieces: seq<string>)
    requires |pieces| > 0
    requires forall i :: 0 <= i < |pieces| ==> ' ' !in pieces[i]
    ensures Split(Join(pieces)) == pieces
    decreases |pieces|
  {
    var p := pieces[0];
    if |pieces| == 1 {
      SplitSpaceFreePrefix(p, "");
      assert p + "" == p;
    } else {
      SplitJoin(pieces[1..]);
      SplitJoinStep(p, pieces[1..]);
      assert pieces == [p] + pieces[1..];
    }
  }

  /** One more space-free piece in front keeps the round trip. */
  lemma SplitJoinStep(p: string, rest: seq<string>)
    requires ' ' !in p && |rest| > 0
    requires Split(Join(rest)) == rest
    ensures Split(Join([p] + rest)) == [p] + rest
  {
    var j := Join(rest);
    JoinCons(p, rest);
    SplitAfterSpace(j);
    SplitSpaceFreePrefix(p, " " + j);
    assert p + "" == p;
  }

  lemma JoinCons(p: string, rest: seq<string>)
    requires |rest| > 0
    ensures Join([p] + rest) == p + (" " + Join(rest))
  {
    var s := [p] + rest;
    assert s[0] == p && s[1..] == rest;
    assert Join(s) == p + " " + Join(rest);
  }

  lemma SplitAfterSpace(t: string)
    ensures Split(" " + t) == [""] + Split(t)
  {
    assert (" " + t)[1..] == t;
  }

  lemma {:induction false} JoinAppend(a: seq<string>, b: seq<string>)
    requires |a| > 0 && |b| > 0
    ensures Join(a + b) == Join(a) + " " + Join(b)
    decreases |a|
  {
    if |a| == 1 {
      assert (a + b)[1..] == b;
    } else {
      assert (a + b)[1..] == a[1..] + b;
      JoinAppend(a[1..], b);
    }
  }

  /** The pieces of `a + " " + b` are the pieces of `a` followed by the
      pieces of `b`. */
  lemma SplitAroundSpace(a: string, b: string)
    ensures Split(a + " " + b) == Split(a) + Split(b)
  {
    var pa, pb := Split(a), Split(b);
    JoinAppend(pa, pb);
    JoinSplit(a);
    JoinSplit(b);
    SplitJoin(pa + pb);
  }

  /** Every piece of a lower-case text is lower case. */
  lemma {:induction false} SplitLowerCase(s: string)
    requires IsLowerCase(s)
    ensures forall i :: 0 <= i < |Split(s)| ==> IsLowerCase(Split(s)[i])
    decreases |s|
  {
    if |s| > 0 {
      var rest := Split(s[1..]);
      SplitLowerCase(s[1..]);
      if s[0] != ' ' {
        assert IsLowerCase([s[0]] + rest[0]);
      }
    }
  }
}
