/** The test that decides whether a headword of the dictionary source is a real word
    worth storing, or a stray table row, number or sentence of documentation. */
module WordFilter {
  import opened Text

  // ---------------------------------------------------------------------------
  // Runs of one character class

  /** The first position at or after `i` whose character fails `p`, or `|s|`. */
  function Span(s: string, i: nat, p: char -> bool): (j: nat)
    requires i <= |s|
    ensures i <= j <= |s|
    ensures forall k :: i <= k < j ==> p(s[k])
    ensures j == |s| || !p(s[j])
    decreases |s| - i
  {
    if i == |s| || !p(s[i]) then i else Span(s, i + 1, p)
  }

  /** A run of `p` that cannot be extended is the one `Span` finds. */
  lemma SpanUnique(s: string, i: nat, p: char -> bool, j: nat)
    requires i <= j <= |s|
    requires forall k :: i <= k < j ==> p(s[k])
    requires j == |s| || !p(s[j])
    ensures Span(s, i, p) == j
  {
  }

  predicate NotSpace(c: char) {
    !IsSpace(c)
  }

  lemma WordCharIsNotSpace(c: char)
    requires IsWordChar(c)
    ensures !IsSpace(c)
  {
  }

  // ---------------------------------------------------------------------------
  // `re.split(r"\s+", s)`

  /** The pieces of `s` between maximal whitespace runs; a run at either edge
      yields an empty piece there, as Python's `re.split` does. */
  function SplitWs(s: string): (parts: seq<string>)
    ensures |parts| >= 1
    ensures forall k, c :: 0 <= k < |parts| && c in parts[k] ==> !IsSpace(c)
    decreases |s|
  {
    var j := Span(s, 0, NotSpace);
    if j == |s| then [s]
    else [s[..j]] + SplitWs(s[Span(s, j, IsSpace)..])
  }

  /** On stripped text every piece is a non-empty word. */
  lemma {:induction false} SplitWsOfStripped(s: string)
    requires s != [] && !IsSpace(s[0]) && !IsSpace(s[|s| - 1])
    ensures forall k :: 0 <= k < |SplitWs(s)| ==> SplitWs(s)[k] != []
    decreases |s|
  {
    var j := Span(s, 0, NotSpace);
    if j < |s| {
      var e := Span(s, j, IsSpace);
      assert e < |s| && e > 0;
      SplitWsOfStripped(s[e..]);
      assert j > 0;
    }
  }

  /** Text without whitespace is a single piece. */
  lemma SplitWsNoSpace(s: string)
    requires forall k :: 0 <= k < |s| ==> !IsSpace(s[k])
    ensures SplitWs(s) == [s]
  {
    SpanUnique(s, 0, NotSpace, |s|);
  }

  // ---------------------------------------------------------------------------
  // The individual checks

  /** `re.match(r"^[\d\(\)]+", w)` */
  predicate StartsNumeric(w: string) {
    w != [] && (IsDigit(w[0]) || w[0] == '(' || w[0] == ')')
  }

  /** `alpha_count / len(w) < 0.3`, in integers. A ratio other than 3/10 is at least
      `1/(10 × len(w))` away from it, so the double comparison decides the same way. */
  predicate MostlyNonAlpha(w: string) {
    |w| > 0 && 10 * CountLetters(w) < 3 * |w|
  }

  /** `re.search(r"\s{3,}", w)` */
  predicate HasSpaceRun3(w: string) {
    exists k :: 0 <= k < |w| - 2 && IsSpace(w[k]) && IsSpace(w[k + 1]) && IsSpace(w[k + 2])
  }

  function NonAlphaParts(parts: seq<string>): (n: nat)
    ensures n <= |parts|
  {
    if parts == [] then 0
    else NonAlphaParts(parts[..|parts| - 1]) + (if HasAsciiLetter(parts[|parts| - 1]) then 0 else 1)
  }

  /** More than two pieces, more than half of them without a letter. */
  predicate TableLike(parts: seq<string>) {
    |parts| > 2 && 2 * NonAlphaParts(parts) > |parts|
  }

  const Articles: set<string> := {"a", "an", "the", "this", "that", "these", "those"}

  const Verbs: seq<string> := ["is", "are", "was", "were", "contains", "contains", "represents", "used", "uses"]

  predicate StartsWithVerb(s: string) {
    exists v :: v in Verbs && StartsWithCI(s, v)
  }

  /** `re.match(r"^(A|An|The|This|That|These|Those)\s+[A-Z][a-z]+\s+(is|are|…)", w,
      re.IGNORECASE)`, decided by the maximal runs the regex is forced to take. */
  predicate SentenceLike(w: string) {
    var k1 := Span(w, 0, NotSpace);
    var k2 := Span(w, k1, IsSpace);
    var k3 := Span(w, k2, IsAsciiLetter);
    var k4 := Span(w, k3, IsSpace);
    Lower(w[..k1]) in Articles && k1 < k2 && k2 + 2 <= k3 && k3 < k4 && StartsWithVerb(w[k4..])
  }

  /** `(\s+\w+){n}` from `i`, by maximal runs. */
  predicate WordsFollow(w: string, i: nat, n: nat)
    requires i <= |w|
    decreases n
  {
    n == 0
    || (var a := Span(w, i, IsSpace);
        var b := Span(w, a, IsWordChar);
        i < a < b && WordsFollow(w, b, n - 1))
  }

  /** `re.match(r"^(A|An)\s+\w+\s+\w+\s+\w+\s+\w+\s+\w+", w, re.IGNORECASE)` */
  predicate LongPhrase(w: string) {
    var k1 := Span(w, 0, NotSpace);
    (Lower(w[..k1]) == "a" || Lower(w[..k1]) == "an") && WordsFollow(w, k1, 5)
  }

  const DocKeywords: seq<string> := [
    "separate file", "contains the list", "represent", "represented by", "used in",
    "used for", "used as", "placed in", "placed after", "indicated", "described",
    "explained", "following", "above", "below"]

  predicate HasDocKeyword(lw: string) {
    exists k :: 0 <= k < |DocKeywords| && ContainsSub(lw, DocKeywords[k])
  }

  /** `_is_valid_word`: an empty word is rejected at once, any other is judged by
      the checks on its stripped form. */
  function IsValidWord(word: string): (ok: bool)
    ensures ok ==> var w := Strip(word);
      0 < |w| <= 50 && HasAsciiLetter(w) && !StartsNumeric(w) && 10 * CountLetters(w) >= 3 * |w|
    ensures ok ==> var w := Strip(word); |w| > 20 ==> !HasDocKeyword(Lower(w))
  {
    word != [] && PassesChecks(Strip(word))
  }

  /** The checks in the source's order, on the stripped word `w`. */
  predicate PassesChecks(w: string) {
    if |w| > 50 then false
    else if StartsNumeric(w) then false
    else if MostlyNonAlpha(w) then false
    else if HasSpaceRun3(w) && TableLike(SplitWs(w)) then false
    else if !HasAsciiLetter(w) then false
    else if SentenceLike(w) || LongPhrase(w) then false
    else if |w| > 20 && HasDocKeyword(Lower(w)) then false
    else true
  }

  // ---------------------------------------------------------------------------
  // The sentence patterns read as regular expressions

  /** One way for pattern 1 to match: article, spaces, a word of two or more
      letters, spaces, a verb, with the runs at positions `k1..k4`. */
  ghost predicate SentenceShape(w: string, k1: nat, k2: nat, k3: nat, k4: nat) {
    0 < k1 < k2 && k2 + 2 <= k3 < k4 <= |w|
    && Lower(w[..k1]) in Articles
    && (forall k :: k1 <= k < k2 ==> IsSpace(w[k]))
    && (forall k :: k2 <= k < k3 ==> IsAsciiLetter(w[k]))
    && (forall k :: k3 <= k < k4 ==> IsSpace(w[k]))
    && StartsWithVerb(w[k4..])
  }

  /** Text whose lower-case form is a lower-case word is made of letters. */
  lemma {:induction false} LowerWordIsLetters(x: string)
    requires IsLowerWord(Lower(x))
    ensures AllLetters(x)
  {
    forall k | 0 <= k < |x| ensures IsAsciiLetter(x[k]) {
      var c := x[k];
      assert 'a' <= LowerChar(c) <= 'z' by { assert Lower(x)[k] == LowerChar(c); }
    }
  }

  lemma {:induction false} ArticlesAreWords(a: string)
    requires a in Articles
    ensures IsLowerWord(a)
  {
  }

  lemma {:induction false} VerbsAreWords(v: string)
    requires v in Verbs
    ensures IsLowerWord(v)
  {
  }

  lemma {:induction false} VerbStartsWithLetter(s: string)
    requires StartsWithVerb(s)
    ensures s != [] && IsAsciiLetter(s[0])
  {
    var v :| v in Verbs && StartsWithCI(s, v);
    VerbsAreWords(v);
    assert Lower(s[..|v|])[0] == LowerChar(s[0]);
  }

  lemma SpaceIsNotLetter(c: char)
    requires IsSpace(c)
    ensures !IsAsciiLetter(c)
  {
  }

  /** The maximal runs the computed test takes are a way for the pattern to match. */
  lemma {:induction false} SentenceLikeSound(w: string)
    requires SentenceLike(w)
    ensures exists k1, k2, k3, k4 :: SentenceShape(w, k1, k2, k3, k4)
  {
    var k1 := Span(w, 0, NotSpace);
    var k2 := Span(w, k1, IsSpace);
    var k3 := Span(w, k2, IsAsciiLetter);
    var k4 := Span(w, k3, IsSpace);
    ArticlesAreWords(Lower(w[..k1]));
    assert k1 > 0;
    assert SentenceShape(w, k1, k2, k3, k4);
  }

  /** Every way for the pattern to match is the one of maximal runs. */
  lemma {:induction false} SentenceLikeComplete(w: string, j1: nat, j2: nat, j3: nat, j4: nat)
    requires SentenceShape(w, j1, j2, j3, j4)
    ensures SentenceLike(w)
  {
    ShapeRunsAreMaximal(w, j1, j2, j3, j4);
  }

  /** The runs of a match of the pattern are the maximal runs. */
  lemma ShapeRunsAreMaximal(w: string, j1: nat, j2: nat, j3: nat, j4: nat)
    requires SentenceShape(w, j1, j2, j3, j4)
    ensures Span(w, 0, NotSpace) == j1 && Span(w, j1, IsSpace) == j2
    ensures Span(w, j2, IsAsciiLetter) == j3 && Span(w, j3, IsSpace) == j4
  {
    VerbStartsWithLetter(w[j4..]);
    assert w[j4..][0] == w[j4];
    ArticleRunIsMaximal(w, j1);
    InnerRunsAreMaximal(w, j1, j2, j3, j4);
  }

  /** Spaces, letters, spaces, then a letter: each run ends where the next begins. */
  lemma InnerRunsAreMaximal(w: string, j1: nat, j2: nat, j3: nat, j4: nat)
    requires j1 < j2 < j3 < j4 < |w|
    requires forall k :: j1 <= k < j2 ==> IsSpace(w[k])
    requires forall k :: j2 <= k < j3 ==> IsAsciiLetter(w[k])
    requires forall k :: j3 <= k < j4 ==> IsSpace(w[k])
    requires IsAsciiLetter(w[j4])
    ensures Span(w, j1, IsSpace) == j2 && Span(w, j2, IsAsciiLetter) == j3 && Span(w, j3, IsSpace) == j4
  {
    SpanUnique(w, j1, IsSpace, j2);
    SpaceIsNotLetter(w[j3]);
    SpanUnique(w, j2, IsAsciiLetter, j3);
    SpanUnique(w, j3, IsSpace, j4);
  }

  /** An article is a run of letters, so the first non-space run ends where it does. */
  lemma ArticleRunIsMaximal(w: string, j1: nat)
    requires 0 < j1 < |w| && Lower(w[..j1]) in Articles && IsSpace(w[j1])
    ensures Span(w, 0, NotSpace) == j1
  {
    ArticlesAreWords(Lower(w[..j1]));
    LowerWordIsLetters(w[..j1]);
    forall k | 0 <= k < j1 ensures NotSpace(w[k]) {
      assert IsAsciiLetter(w[..j1][k]);
    }
    SpanUnique(w, 0, NotSpace, j1);
  }

  /** `(\s+\w+){n}` read as a regular expression: any split of the text into
      whitespace runs and word runs, where only the last word may stop early. */
  ghost predicate PhraseShape(w: string, i: nat, n: nat)
    decreases n
  {
    i <= |w|
    && (n == 0
        || exists a, b :: SpaceThenWord(w, i, a, b) && PhraseShape(w, b, n - 1))
  }

  /** `w[i..a]` is whitespace and `w[a..b]` word characters, both non-empty. */
  ghost predicate SpaceThenWord(w: string, i: nat, a: nat, b: nat) {
    i < a < b <= |w|
    && (forall k :: i <= k < a ==> IsSpace(w[k]))
    && (forall k :: a <= k < b ==> IsWordChar(w[k]))
  }

  /** The maximal runs are a way for `(\s+\w+){n}` to match. */
  lemma {:induction false} WordsFollowSound(w: string, i: nat, n: nat)
    requires i <= |w| && WordsFollow(w, i, n)
    ensures PhraseShape(w, i, n)
    decreases n
  {
    if n > 0 {
      var a := Span(w, i, IsSpace);
      var b := Span(w, a, IsWordChar);
      WordsFollowSound(w, b, n - 1);
      PhraseStep(w, i, a, b, n);
    }
  }

  /** A whitespace run, a word run, then `n - 1` more pairs make `n` pairs. */
  lemma PhraseStep(w: string, i: nat, a: nat, b: nat, n: nat)
    requires n > 0 && i < a < b <= |w|
    requires forall k :: i <= k < a ==> IsSpace(w[k])
    requires forall k :: a <= k < b ==> IsWordChar(w[k])
    requires PhraseShape(w, b, n - 1)
    ensures PhraseShape(w, i, n)
  {
    assert SpaceThenWord(w, i, a, b);
  }

  /** Every way for `(\s+\w+){n}` to match is found by the maximal runs. */
  lemma {:induction false} WordsFollowComplete(w: string, i: nat, n: nat)
    requires PhraseShape(w, i, n)
    ensures WordsFollow(w, i, n)
    decreases n
  {
    if n > 0 {
      var a: nat, b: nat :| SpaceThenWord(w, i, a, b) && PhraseShape(w, b, n - 1);
      SpaceRunIsMaximal(w, i, a, b);
      if n > 1 {
        var a2: nat, b2: nat :| SpaceThenWord(w, b, a2, b2) && PhraseShape(w, b2, n - 2);
        WordRunIsMaximal(w, a, b, a2);
        WordsFollowComplete(w, b, n - 1);
      } else {
        assert WordsFollow(w, Span(w, a, IsWordChar), 0);
      }
    }
  }

  /** A whitespace run followed by a word character is the maximal one. */
  lemma SpaceRunIsMaximal(w: string, i: nat, a: nat, b: nat)
    requires SpaceThenWord(w, i, a, b)
    ensures Span(w, i, IsSpace) == a
  {
    WordCharIsNotSpace(w[a]);
    SpanUnique(w, i, IsSpace, a);
  }

  /** A word run followed by whitespace is the maximal one. */
  lemma WordRunIsMaximal(w: string, a: nat, b: nat, a2: nat)
    requires a < b < a2 <= |w|
    requires forall k :: a <= k < b ==> IsWordChar(w[k])
    requires IsSpace(w[b])
    ensures Span(w, a, IsWordChar) == b
  {
    SpanUnique(w, a, IsWordChar, b);
  }

  // ---------------------------------------------------------------------------
  // Properties of the whole test

  /** Stripping first changes nothing: the test already works on the stripped word. */
  lemma ValidWordStripInvariant(word: string)
    ensures IsValidWord(Strip(word)) == IsValidWord(word)
  {
    var w := Strip(word);
    StripNoop(w);
    if word != [] && w == [] {
      assert !PassesChecks(w) by { assert !HasAsciiLetter(w); }
    }
  }

  /** A word of ordinary letters of reasonable length passes. */
  lemma PlainWordIsValid(word: string)
    requires 0 < |word| <= 20 && AllLetters(word)
    ensures IsValidWord(word)
  {
    assert !IsSpace(word[0]) && !IsSpace(word[|word| - 1]);
    StripNoop(word);
    PlainWordPasses(word);
  }

  lemma PlainWordPasses(w: string)
    requires 0 < |w| <= 20 && AllLetters(w)
    ensures PassesChecks(w)
  {
    assert HasAsciiLetter(w) && !StartsNumeric(w) by { assert IsAsciiLetter(w[0]); }
    LettersCountAll(w);
    assert !MostlyNonAlpha(w);
    NoSpaceNoPattern(w);
  }

  /** Without whitespace, neither sentence pattern nor a table row can match. */
  lemma {:induction false} NoSpaceNoPattern(word: string)
    requires AllLetters(word)
    ensures !HasSpaceRun3(word) && !SentenceLike(word) && !LongPhrase(word)
  {
    SpanUnique(word, 0, NotSpace, |word|);
    SpanUnique(word, |word|, IsSpace, |word|);
    assert !WordsFollow(word, |word|, 5);
  }

  lemma {:induction false} LettersCountAll(s: string)
    requires AllLetters(s)
    ensures CountLetters(s) == |s|
  {
    if s != [] {
      LettersCountAll(s[1..]);
    }
  }

  /** Beyond fifty characters nothing is a word. */
  lemma LongTextIsInvalid(word: string)
    requires |Strip(word)| > 50
    ensures !IsValidWord(word)
  {
  }

  /** A long entry mentioning a documentation keyword is rejected. */
  lemma DocumentationIsInvalid(word: string)
    requires 20 < |Strip(word)| && HasDocKeyword(Lower(Strip(word)))
    ensures !IsValidWord(word)
  {
  }

  /** The keyword check applies only beyond twenty characters: "above" is itself a
      documentation keyword and still a valid word. */
  lemma AboveIsValid()
    ensures HasDocKeyword(Lower("above")) && IsValidWord("above")
  {
    AboveIsKeyword();
    AboveIsPlain();
  }

  lemma AboveIsKeyword()
    ensures HasDocKeyword(Lower("above"))
  {
    var w := "above";
    assert Lower(w) == w by {
      assert forall i :: 0 <= i < |w| ==> IsAsciiLetter(w[i]) && !IsUpper(w[i]);
    }
    assert OccursAt(w, DocKeywords[13], 0);
  }

  lemma AboveIsPlain()
    ensures IsValidWord("above")
  {
    var w := "above";
    assert AllLetters(w) by {
      assert forall i :: 0 <= i < |w| ==> IsAsciiLetter(w[i]);
    }
    PlainWordIsValid(w);
  }
}
