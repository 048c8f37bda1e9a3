/** Turning the text of one dictionary-source entry into a stored entry: the
    definition (one or more `<def>` bodies, cleaned of markup, each after its sense
    number), the pronunciation and the headword. */
module EntryParser {
  import opened Text
  import opened Regex
  import opened WordFilter

  datatype Entry = Entry(word: string, definition: string, pronunciation: Option<string>)

  // ---------------------------------------------------------------------------
  // The patterns

  /** `<def>((?:[^<]|<(?!/def>))*?)</def>`: the body runs to the first `</def>`. */
  const DefTag := Lazy("<def>", "</def>", false)
  const HwTag := Bounded("<hw>", "</hw>", 0, true)
  const PrTag := Bounded("<pr>", "</pr>", 0, true)
  const PosTag := Bounded("<pos>", "</pos>", 0, true)
  const EtyTag := Lazy("<ety>", "</ety>", true)
  const SnTag := Bounded("<sn>", "</sn>", 0, true)
  const SpaceRun := CharRun({' ', '\t'})
  const NewlineRun := CharRun({'\n'})
  /** `<pr>([^<]+)</pr>` and `<hw>([^<]+)</hw>`, which capture their body. */
  const PrGroup := Bounded("<pr>", "</pr>", 1, false)
  const HwGroup := Bounded("<hw>", "</hw>", 1, false)
  const Separator := "\n\n---\n\n"

  // ---------------------------------------------------------------------------
  // Cleaning

  /** One `re.sub(pattern, replacement, text)` call. */
  datatype Step = Step(pattern: Pattern, replacement: string)

  predicate ValidSteps(steps: seq<Step>) {
    forall k :: 0 <= k < |steps| ==> ValidPattern(steps[k].pattern)
  }

  /** The substitutions applied one after another, in order. */
  function Pipeline(steps: seq<Step>, s: string): string
    requires ValidSteps(steps)
  {
    if steps == [] then s
    else
      var last := steps[|steps| - 1];
      Replace(last.pattern, Pipeline(steps[..|steps| - 1], s), last.replacement)
  }

  /** Deleting steps never lengthen the text. */
  lemma {:induction false} DeletingPipelineShortens(steps: seq<Step>, s: string)
    requires ValidSteps(steps)
    requires forall k :: 0 <= k < |steps| ==> steps[k].replacement == []
    ensures |Pipeline(steps, s)| <= |s|
  {
    if steps != [] {
      var last := steps[|steps| - 1];
      DeletingPipelineShortens(steps[..|steps| - 1], s);
      DeleteShortens(last.pattern, Pipeline(steps[..|steps| - 1], s), 0);
    }
  }

  /** Headword, pronunciation, part-of-speech, etymology and sense-number tags go with
      their bodies, and so do source references. */
  const MetadataSteps := [
    Step(HwTag, ""), Step(PrTag, ""), Step(PosTag, ""), Step(EtyTag, ""),
    Step(SnTag, ""), Step(SourceRef, ""), Step(SourceTag, "")]

  /** Closing tags, then all tags, become spaces; runs of blanks and of newlines each
      become one space. */
  const TagSteps := [
    Step(ClosingTag, " "), Step(AnyTag, " "), Step(SpaceRun, " "), Step(NewlineRun, " ")]

  function StripMetadata(s: string): (r: string)
    ensures |r| <= |s|
  {
    DeletingPipelineShortens(MetadataSteps, s);
    Pipeline(MetadataSteps, s)
  }

  lemma TagStepsUnfold(s: string)
    ensures Pipeline(TagSteps, s) == Replace(NewlineRun, Replace(SpaceRun, Pipeline(TagSteps[..2], s), " "), " ")
  {
    assert TagSteps[..3][..2] == TagSteps[..2];
  }

  /** After the tag steps no newline or tab is left: tabs go with the blank runs,
      newlines with the newline runs, and neither comes back in a replacement. */
  lemma TagStepsLeaveOneLine(s: string)
    ensures '\n' !in Pipeline(TagSteps, s) && '\t' !in Pipeline(TagSteps, s)
  {
    var b := Pipeline(TagSteps[..2], s);
    var c := Replace(SpaceRun, b, " ");
    TagStepsUnfold(s);
    CharRunGone({' ', '\t'}, b, " ", 0, '\t');
    CharRunGone({'\n'}, c, " ", 0, '\n');
    SubKeepsOnly(NewlineRun, c, " ", 0, '\t');
  }

  /** Stripping only removes characters. */
  lemma StripKeepsOut(d: string, c: char)
    requires c !in d
    ensures c !in Strip(d)
  {
    var r := Strip(d);
    assert forall k :: 0 <= k < |r| ==> r[k] == d[StripOffset(d) + k];
  }

  /** Markup turned into spaces and the ends stripped: one stripped line without
      tabs. */
  function CleanText(s: string): (r: string)
    ensures '\n' !in r && '\t' !in r
    ensures r == [] || (!IsSpace(r[0]) && !IsSpace(r[|r| - 1]))
  {
    var d := Pipeline(TagSteps, s);
    TagStepsLeaveOneLine(s);
    StripKeepsOut(d, '\n');
    StripKeepsOut(d, '\t');
    Strip(d)
  }

  // ---------------------------------------------------------------------------
  // Sense numbers

  /** The last `<` strictly before `e`. */
  function LastLt(u: string, e: nat): (r: Option<nat>)
    requires e <= |u|
    ensures r.Some? ==> r.value < e && u[r.value] == '<'
    ensures r.Some? ==> forall k :: r.value < k < e ==> u[k] != '<'
    ensures r.None? ==> forall k :: 0 <= k < e ==> u[k] != '<'
  {
    if e == 0 then None
    else if u[e - 1] == '<' then Some(e - 1)
    else LastLt(u, e - 1)
  }

  /** `re.search(r"<sn>([^<]+)</sn>\s*$", before)`: the group of the sense-number tag
      that ends `before`, trailing whitespace aside. */
  function SenseNumber(before: string): (r: Option<string>)
    ensures r.Some? ==> r.value != [] && '<' !in r.value
  {
    SenseTag(TrimRight(before))
  }

  /** The body of a sense-number tag that ends `u`. */
  function SenseTag(u: string): Option<string> {
    if |u| < 5 || u[|u| - 5..] != "</sn>" then None
    else
      var e := |u| - 5;
      match LastLt(u, e)
      case None => None
      case Some(q) => if q + 4 < e && u[q..q + 4] == "<sn>" then Some(u[q + 4..e]) else None
  }

  /** The text the sense-number pattern matches: a tag with a non-empty body free of
      `<`, then only whitespace. */
  ghost predicate SenseShape(before: string, p: string, g: string, w: string) {
    before == p + "<sn>" + g + "</sn>" + w
    && g != [] && '<' !in g
    && forall k :: 0 <= k < |w| ==> IsSpace(w[k])
  }

  lemma SenseNumberSound(before: string)
    requires SenseNumber(before).Some?
    ensures exists p, w :: SenseShape(before, p, SenseNumber(before).value, w)
  {
    var u := TrimRight(before);
    var q := SenseTagParts(u);
    var w := before[|u|..];
    TrimmedPlusRest(before, u);
    assert SenseShape(before, u[..q], SenseTag(u).value, w);
  }

  /** A tag group found at the end of `u` sits between `<sn>` at `q` and the closing
      tag, and holds no `<`. */
  lemma SenseTagParts(u: string) returns (q: nat)
    requires SenseTag(u).Some?
    ensures q <= |u| && u == u[..q] + "<sn>" + SenseTag(u).value + "</sn>"
    ensures SenseTag(u).value != [] && '<' !in SenseTag(u).value
  {
    var e := |u| - 5;
    q := LastLt(u, e).value;
    var g := u[q + 4..e];
    assert SenseTag(u).value == g;
    assert forall k :: 0 <= k < |g| ==> g[k] == u[q + 4 + k];
    assert u == u[..q] + u[q..q + 4] + u[q + 4..e] + u[e..];
  }

  /** The right-trimmed text followed by what was trimmed is the text. */
  lemma TrimmedPlusRest(before: string, u: string)
    requires u == TrimRight(before)
    ensures before == u + before[|u|..]
    ensures forall k :: 0 <= k < |before[|u|..]| ==> IsSpace(before[|u|..][k])
  {
    assert forall k :: 0 <= k < |before[|u|..]| ==> before[|u|..][k] == before[|u| + k];
  }

  /** Text ending in a non-space, then whitespace, right-trims to the text. */
  lemma TrimRightSpaces(x: string, w: string)
    requires x != [] && !IsSpace(x[|x| - 1])
    requires forall k :: 0 <= k < |w| ==> IsSpace(w[k])
    ensures TrimRight(x + w) == x
  {
    var s := x + w;
    var r := TrimRight(s);
    assert !IsSpace(s[|x| - 1]);
    assert forall k :: |x| <= k < |s| ==> IsSpace(s[k]);
    assert forall k :: 0 <= k < |r| ==> r[k] == s[k];
    assert |r| == |x|;
    assert s[..|x|] == x;
  }

  lemma SenseNumberComplete(before: string, p: string, g: string, w: string)
    requires SenseShape(before, p, g, w)
    ensures SenseNumber(before) == Some(g)
  {
    var x := p + "<sn>" + g + "</sn>";
    assert before == x + w;
    TrimRightSpaces(x, w);
    TagFoundBack(p, g);
  }

  /** Searching back from the closing tag finds the opening one. */
  lemma TagFoundBack(p: string, g: string)
    requires g != [] && '<' !in g
    ensures SenseTag(p + "<sn>" + g + "</sn>") == Some(g)
  {
    var x := p + "<sn>" + g + "</sn>";
    var e := |x| - 5;
    assert x[e..] == "</sn>";
    assert x[|p|] == '<';
    assert forall k :: |p| < k < e ==> x[k] != '<' by {
      forall k | |p| < k < e ensures x[k] != '<' {
        if k >= |p| + 4 {
          assert x[k] == g[k - |p| - 4];
        }
      }
    }
    LastLtUnique(x, e, |p|);
    assert x[|p|..|p| + 4] == "<sn>";
    assert x[|p| + 4..e] == g;
  }

  /** The last `<` before `e` is the one after which no `<` comes before `e`. */
  lemma {:induction false} LastLtUnique(u: string, e: nat, q: nat)
    requires q < e <= |u| && u[q] == '<'
    requires forall k :: q < k < e ==> u[k] != '<'
    ensures LastLt(u, e) == Some(q)
    decreases e
  {
    if e - 1 != q {
      LastLtUnique(u, e - 1, q);
    }
  }

  // ---------------------------------------------------------------------------
  // Definitions

  /** `entry_content[max(0, start - 200):start]`, with Python's clamping of slice
      bounds to the text. */
  function SenseWindow(content: string, start: nat): (w: string)
    ensures start <= |content| ==> w == content[if start >= 200 then start - 200 else 0..start]
  {
    var hi := if start <= |content| then start else |content|;
    var lo := if start >= 200 then start - 200 else 0;
    if lo <= hi then content[lo..hi] else []
  }

  /** What one `<def>` match contributes: its cleaned body, after the sense number
      that directly precedes the match, or nothing when the body cleans to "". */
  function DefinitionPiece(content: string, m: Match): (piece: string)
    ensures piece == [] <==> CleanText(StripMetadata(m.group)) == []
    ensures piece != [] ==> EndsClean(piece)
  {
    var t := CleanText(StripMetadata(m.group));
    if t == [] then [] else WithSense(SenseNumber(SenseWindow(content, m.start)), t)
  }

  /** Non-empty, with a last character that is not whitespace. */
  predicate EndsClean(p: string) {
    p != [] && !IsSpace(p[|p| - 1])
  }

  /** `f"{sense_num} {def_text}"` when there is a sense number. */
  function WithSense(sense: Option<string>, t: string): (r: string)
    requires t != []
    ensures r != [] && r[|r| - 1] == t[|t| - 1]
  {
    match sense
    case Some(g) => Strip(g) + " " + t
    case None => t
  }

  /** A sense-number tag that directly precedes a definition, within the 200
      characters before it, is put in front of the cleaned body with one space. */
  lemma SenseNumberPrefix(content: string, m: Match, p: string, g: string, w: string)
    requires m.start <= |content|
    requires SenseShape(SenseWindow(content, m.start), p, g, w)
    requires CleanText(StripMetadata(m.group)) != []
    ensures DefinitionPiece(content, m) == Strip(g) + " " + CleanText(StripMetadata(m.group))
  {
    SenseNumberComplete(SenseWindow(content, m.start), p, g, w);
  }

  /** The non-empty pieces of the matches, in order. */
  function Pieces(content: string, ms: seq<Match>): (ps: seq<string>)
    ensures |ps| <= |ms|
    ensures forall p :: p in ps ==> EndsClean(p)
  {
    if ms == [] then []
    else
      var p := DefinitionPiece(content, ms[|ms| - 1]);
      Pieces(content, ms[..|ms| - 1]) + (if p == [] then [] else [p])
  }

  lemma PiecesStep(content: string, ms: seq<Match>, i: nat)
    requires i < |ms|
    ensures var p := DefinitionPiece(content, ms[i]);
      Pieces(content, ms[..i + 1]) == Pieces(content, ms[..i]) + (if p == [] then [] else [p])
  {
    assert ms[..i + 1][..i] == ms[..i];
  }

  function DefMatches(content: string): seq<Match> {
    FindAll(DefTag, content, 0)
  }

  /** `re.search(r"[a-zA-Z]{3,}", t)` */
  predicate HasLetterRun3(t: string) {
    exists k :: 0 <= k < |t| - 2 && IsAsciiLetter(t[k]) && IsAsciiLetter(t[k + 1]) && IsAsciiLetter(t[k + 2])
  }

  /** The definition used when no `<def>` body survives cleaning: the whole entry,
      cleaned, if it has ten characters and a three-letter run. */
  function FallbackDefinition(content: string): (d: string)
    ensures d == [] || (|d| >= 10 && HasLetterRun3(d))
    ensures '\n' !in d && '\t' !in d
    ensures d == [] || d == CleanText(StripMetadata(content))
    ensures var t := CleanText(StripMetadata(content)); d == [] <==> |t| < 10 || !HasLetterRun3(t)
  {
    var t := CleanText(StripMetadata(content));
    if |t| < 10 || !HasLetterRun3(t) then [] else t
  }

  /** The definition `_extract_definition_from_content` returns. */
  function DefinitionOf(content: string): string {
    var joined := Join(Pieces(content, DefMatches(content)), Separator);
    if joined != [] then joined else FallbackDefinition(content)
  }

  lemma {:induction false} JoinEnds(parts: seq<string>, sep: string)
    requires parts != [] && EndsClean(parts[|parts| - 1])
    ensures EndsClean(Join(parts, sep))
    decreases |parts|
  {
    if |parts| > 1 {
      JoinEnds(parts[1..], sep);
      var j := Join(parts[1..], sep);
      assert Join(parts, sep) == parts[0] + sep + j;
      assert Join(parts, sep)[|Join(parts, sep)| - 1] == j[|j| - 1];
    }
  }

  /** With at least one surviving `<def>` body, the definition is the bodies joined
      by the separator, and it ends in a non-space; otherwise it is the fallback. */
  lemma DefinitionJoinsPieces(content: string)
    ensures var ps := Pieces(content, DefMatches(content));
      (ps != [] ==> DefinitionOf(content) == Join(ps, Separator) && EndsClean(DefinitionOf(content)))
      && (ps == [] ==> DefinitionOf(content) == FallbackDefinition(content))
  {
    var ps := Pieces(content, DefMatches(content));
    if ps != [] {
      assert ps[|ps| - 1] in ps;
      JoinEnds(ps, Separator);
    }
  }

  /** `_extract_definition_from_content`: collect the pieces in a list, join them,
      and fall back to the whole entry when nothing was collected. */
  method ExtractDefinitionFromContent(content: string) returns (definition: string)
    ensures definition == DefinitionOf(content)
  {
    var definitions := CollectPieces(content, DefMatches(content));
    if |definitions| > 1 {
      definition := Join(definitions, Separator);
    } else if |definitions| == 1 {
      definition := definitions[0];
    } else {
      definition := [];
    }
    if definition == [] {
      definition := FallbackDefinition(content);
    }
  }

  /** The loop over the `<def>` matches: each body is cleaned and, when something is
      left, appended after its sense number. */
  method CollectPieces(content: string, defMatches: seq<Match>) returns (definitions: seq<string>)
    ensures definitions == Pieces(content, defMatches)
  {
    definitions := [];
    var i := 0;
    assert defMatches[..0] == [];
    while i < |defMatches|
      invariant 0 <= i <= |defMatches|
      invariant definitions == Pieces(content, defMatches[..i])
    {
      PiecesStep(content, defMatches, i);
      definitions := AddPiece(content, defMatches[i], definitions);
      i := i + 1;
    }
    assert defMatches[..i] == defMatches;
  }

  /** One pass of the loop over the `<def>` matches. */
  method AddPiece(content: string, m: Match, definitions: seq<string>) returns (next: seq<string>)
    ensures var p := DefinitionPiece(content, m);
      next == definitions + (if p == [] then [] else [p])
  {
    var snMatch := SenseNumber(SenseWindow(content, m.start));
    var defText := CleanText(StripMetadata(m.group));
    next := definitions;
    if defText != [] {
      if snMatch.Some? {
        defText := Strip(snMatch.value) + " " + defText;
      }
      assert defText == DefinitionPiece(content, m);
      next := definitions + [defText];
    }
  }

  // ---------------------------------------------------------------------------
  // Pronunciation

  function DropLeading(s: string, c: char): (r: string)
    ensures |r| <= |s|
    ensures r == s[|s| - |r|..]
    ensures r == [] || r[0] != c
    ensures forall k :: 0 <= k < |s| - |r| ==> s[k] == c
  {
    if s != [] && s[0] == c then
      var r := DropLeading(s[1..], c);
      assert s[1..][|s| - 1 - |r|..] == s[|s| - |r|..];
      r
    else s
  }

  function DropTrailing(s: string, c: char): (r: string)
    ensures |r| <= |s|
    ensures r == s[..|r|]
    ensures r == [] || r[|r| - 1] != c
    ensures forall k :: |r| <= k < |s| ==> s[k] == c
  {
    if s != [] && s[|s| - 1] == c then
      var r := DropTrailing(s[..|s| - 1], c);
      assert s[..|s| - 1][..|r|] == s[..|r|];
      r
    else s
  }

  /** `re.sub(r"^\(+|\)+$", "", s)`: the leading run of `(` and the trailing run of
      `)` go. */
  function StripParens(s: string): (r: string)
    ensures r == [] || (r[0] != '(' && r[|r| - 1] != ')')
  {
    DropTrailing(DropLeading(s, '('), ')')
  }

  lemma StripParensIdempotent(s: string)
    ensures StripParens(StripParens(s)) == StripParens(s)
  {
    var r := StripParens(s);
    assert DropLeading(r, '(') == r;
    assert DropTrailing(r, ')') == r;
  }

  /** The first `<pr>` body, stripped of whitespace and outer parentheses, when
      something is left. */
  function PronunciationOf(content: string): (r: Option<string>)
    ensures r.Some? ==> r.value != [] && !IsSpace(r.value[0]) && !IsSpace(r.value[|r.value| - 1])
  {
    match Search(PrGroup, content, 0)
    case None => None
    case Some(m) =>
      var t := Strip(StripParens(Strip(m.group)));
      if t != [] then Some(t) else None
  }

  // ---------------------------------------------------------------------------
  // Headwords

  const IgnoredMarks: set<char> := {'`', '\'', '"', '*', '^', '<', '>', '?', '/', '\\'}

  /** `re.sub(r"[`'\"\*\^<>\?\/\\\s]", "", s.lower())` */
  function Normalize(s: string): (r: string)
    ensures forall k :: 0 <= k < |r| ==> r[k] !in IgnoredMarks && !IsSpace(r[k]) && !IsUpper(r[k])
  {
    if s == [] then []
    else
      var c := LowerChar(s[0]);
      (if c in IgnoredMarks || IsSpace(c) then [] else [c]) + Normalize(s[1..])
  }

  /** Letters survive normalization. */
  lemma {:induction false} NormalizeKeepsLetters(s: string)
    requires HasAsciiLetter(s)
    ensures Normalize(s) != []
  {
    if !IsAsciiLetter(s[0]) {
      var k :| 0 <= k < |s| && IsAsciiLetter(s[k]);
      assert IsAsciiLetter(s[1..][k - 1]);
      NormalizeKeepsLetters(s[1..]);
    }
  }

  /** The first headword, stripped, whose normalized form is `target`. */
  function MatchingHeadword(hws: seq<Match>, target: string): (r: Option<string>)
    ensures r.Some? ==> Normalize(r.value) == target
    ensures r.Some? ==> exists k :: 0 <= k < |hws| && r.value == Strip(hws[k].group)
    ensures r.None? ==> forall k :: 0 <= k < |hws| ==> Normalize(Strip(hws[k].group)) != target
  {
    if hws == [] then None
    else
      var h := Strip(hws[0].group);
      if Normalize(h) == target then Some(h)
      else
        var r := MatchingHeadword(hws[1..], target);
        HeadwordsShift(hws, hws[1..], target, r);
        r
  }

  /** What holds of the headwords after the first holds of all of them, when the
      first does not match. */
  lemma HeadwordsShift(hws: seq<Match>, tail: seq<Match>, target: string, r: Option<string>)
    requires hws != [] && tail == hws[1..] && Normalize(Strip(hws[0].group)) != target
    requires r.Some? ==> exists k :: 0 <= k < |tail| && r.value == Strip(tail[k].group)
    requires r.None? ==> forall k :: 0 <= k < |tail| ==> Normalize(Strip(tail[k].group)) != target
    ensures r.Some? ==> exists k :: 0 <= k < |hws| && r.value == Strip(hws[k].group)
    ensures r.None? ==> forall k :: 0 <= k < |hws| ==> Normalize(Strip(hws[k].group)) != target
  {
    if r.Some? {
      FoundInTail(hws, tail, r.value);
    } else {
      NoneInTail(hws, tail, target);
    }
  }

  lemma FoundInTail(hws: seq<Match>, tail: seq<Match>, h: string)
    requires hws != [] && tail == hws[1..]
    requires exists k :: 0 <= k < |tail| && h == Strip(tail[k].group)
    ensures exists k :: 0 <= k < |hws| && h == Strip(hws[k].group)
  {
    var k :| 0 <= k < |tail| && h == Strip(tail[k].group);
    assert hws[k + 1] == tail[k];
  }

  lemma NoneInTail(hws: seq<Match>, tail: seq<Match>, target: string)
    requires hws != [] && tail == hws[1..] && Normalize(Strip(hws[0].group)) != target
    requires forall k :: 0 <= k < |tail| ==> Normalize(Strip(tail[k].group)) != target
    ensures forall k :: 0 <= k < |hws| ==> Normalize(Strip(hws[k].group)) != target
  {
    forall k | 0 < k < |hws| ensures hws[k].group == tail[k - 1].group {
    }
  }

  /** The search from headword `i` either stops there or goes on from `i + 1`. */
  lemma MatchingHeadwordStep(hws: seq<Match>, i: nat, target: string)
    requires i < |hws|
    ensures MatchingHeadword(hws[i..], target)
      == if Normalize(Strip(hws[i].group)) == target then Some(Strip(hws[i].group))
         else MatchingHeadword(hws[i + 1..], target)
  {
    assert hws[i..][0] == hws[i];
    assert hws[i..][1..] == hws[i + 1..];
  }

  function HeadwordsOf(content: string): seq<Match> {
    FindAll(HwGroup, content, 0)
  }

  /** The word stored for the entry: `entryWord`, unless no headword matches it and
      the only headword is much longer (or `entryWord` has no letter). */
  function ChosenWord(entryWord: string, hws: seq<Match>): (r: string)
    ensures r == entryWord || (|hws| == 1 && r == Strip(hws[0].group))
  {
    if hws == [] then entryWord
    else
      var found := MatchingHeadword(hws, Normalize(entryWord));
      if (found.None? || found.value == []) && |hws| == 1 then
        var headword := Strip(hws[0].group);
        if !HasAsciiLetter(entryWord) || 2 * |headword| > 3 * |entryWord| then headword else entryWord
      else entryWord
  }

  lemma StripKeepsLetter(s: string)
    requires HasAsciiLetter(Strip(s))
    ensures HasAsciiLetter(s)
  {
    var k :| 0 <= k < |Strip(s)| && IsAsciiLetter(Strip(s)[k]);
    assert Strip(s)[k] == s[StripOffset(s) + k];
  }

  /** For a valid entry word, the only other choice is a single headword that does
      not normalize to it and is more than half as long again, and such a headword
      is always chosen. */
  lemma ChosenWordSpec(entryWord: string, hws: seq<Match>)
    requires IsValidWord(entryWord)
    ensures var w := ChosenWord(entryWord, hws);
      w == entryWord
      || (|hws| == 1 && w == Strip(hws[0].group)
          && Normalize(w) != Normalize(entryWord) && 2 * |w| > 3 * |entryWord|)
    ensures |hws| == 1 && Normalize(Strip(hws[0].group)) != Normalize(entryWord)
            && 2 * |Strip(hws[0].group)| > 3 * |entryWord| ==>
              ChosenWord(entryWord, hws) == Strip(hws[0].group)
  {
    StripKeepsLetter(entryWord);
    ChosenForLettered(entryWord, hws);
    if |hws| == 1 && Normalize(Strip(hws[0].group)) != Normalize(entryWord)
       && 2 * |Strip(hws[0].group)| > 3 * |entryWord| {
      SoleHeadwordChosen(entryWord, hws);
    }
  }

  /** A sole headword that normalizes differently and is long enough is chosen. */
  lemma SoleHeadwordChosen(entryWord: string, hws: seq<Match>)
    requires |hws| == 1 && Normalize(Strip(hws[0].group)) != Normalize(entryWord)
    requires 2 * |Strip(hws[0].group)| > 3 * |entryWord|
    ensures ChosenWord(entryWord, hws) == Strip(hws[0].group)
  {
    assert MatchingHeadword(hws, Normalize(entryWord)).None?;
  }

  /** `ChosenWordSpec` for any entry word with a letter in it. */
  lemma ChosenForLettered(entryWord: string, hws: seq<Match>)
    requires HasAsciiLetter(entryWord)
    ensures var w := ChosenWord(entryWord, hws);
      w == entryWord
      || (|hws| == 1 && w == Strip(hws[0].group)
          && Normalize(w) != Normalize(entryWord) && 2 * |w| > 3 * |entryWord|)
  {
    NormalizeKeepsLetters(entryWord);
  }

  // ---------------------------------------------------------------------------
  // The entry

  /** `re.search(r"\s{4,}", d)` */
  predicate HasSpaceRun4(d: string) {
    exists k :: 0 <= k < |d| - 3 && IsSpace(d[k]) && IsSpace(d[k + 1]) && IsSpace(d[k + 2]) && IsSpace(d[k + 3])
  }

  /** A definition that reads like a table row: a wide gap and under 40% letters. */
  predicate TableLikeDefinition(d: string) {
    HasSpaceRun4(d) && 10 * CountLetters(d) < 4 * |d|
  }

  /** The last checks of `_parse_entry_content`, on the chosen word and the
      assembled definition. Taken in the source's order they come down to one
      conjunction; a definition of five characters or fewer never gets through. */
  function Accept(word: string, definition: string, pronunciation: Option<string>): (r: Option<Entry>)
    ensures r.Some? ==> r.value == Entry(word, definition, pronunciation)
    ensures r.Some? <==> IsValidWord(word) && |definition| > 5 && !MostlyNonAlpha(definition)
                         && !TableLikeDefinition(definition)
  {
    if !IsValidWord(word) then None
    else if definition != [] && (MostlyNonAlpha(definition) || |definition| < 5 || TableLikeDefinition(definition)) then None
    else if word != [] && definition != [] && |definition| > 5 then Some(Entry(word, definition, pronunciation))
    else None
  }

  /** `_parse_entry_content`: the entry word must be valid; the stored word, the
      definition and the pronunciation are then taken from the content and checked. */
  function EntryOf(entryWord: string, content: string): (r: Option<Entry>)
    ensures r.Some? ==> IsValidWord(entryWord) && IsValidWord(r.value.word)
    ensures r.Some? ==> var d := r.value.definition;
      |d| > 5 && 10 * CountLetters(d) >= 3 * |d| && !TableLikeDefinition(d)
    ensures r.Some? ==> r.value.definition == DefinitionOf(content)
    ensures r.Some? ==> r.value.pronunciation == PronunciationOf(content)
    ensures r.Some? ==> r.value.word == ChosenWord(entryWord, HeadwordsOf(content))
  {
    if !IsValidWord(entryWord) then None
    else Accept(ChosenWord(entryWord, HeadwordsOf(content)), DefinitionOf(content), PronunciationOf(content))
  }

  /** `_parse_entry_content` as the source writes it: the checks run in the same
      order and the same entry, or none, comes out. */
  method ParseEntryContent(entryWord: string, content: string) returns (entry: Option<Entry>)
    ensures entry == EntryOf(entryWord, content)
  {
    if !IsValidWord(entryWord) {
      return None;
    }
    var pronunciation := PronunciationOf(content);
    var word := ChooseWord(entryWord, HeadwordsOf(content));
    var definition := ExtractDefinitionFromContent(content);
    if !IsValidWord(word) {
      return None;
    }
    if definition != [] {
      if MostlyNonAlpha(definition) {
        return None;
      }
      if |definition| < 5 {
        return None;
      }
      if TableLikeDefinition(definition) {
        return None;
      }
    }
    if word != [] && definition != [] && |definition| > 5 {
      entry := Some(Entry(word, definition, pronunciation));
    } else {
      entry := None;
    }
  }

  /** The headword part of `_parse_entry_content`: a search loop that stops at the
      first headword normalizing like `entryWord`, then the single-headword rule. */
  method ChooseWord(entryWord: string, hwMatches: seq<Match>) returns (word: string)
    ensures word == ChosenWord(entryWord, hwMatches)
  {
    word := entryWord;
    if hwMatches != [] {
      var entryNormalized := Normalize(entryWord);
      var matchingHw: Option<string> := None;
      var i := 0;
      while i < |hwMatches| && matchingHw.None?
        invariant 0 <= i <= |hwMatches|
        invariant matchingHw.None? ==> MatchingHeadword(hwMatches, entryNormalized) == MatchingHeadword(hwMatches[i..], entryNormalized)
        invariant matchingHw.Some? ==> matchingHw == MatchingHeadword(hwMatches, entryNormalized)
      {
        var headword := Strip(hwMatches[i].group);
        MatchingHeadwordStep(hwMatches, i, entryNormalized);
        if Normalize(headword) == entryNormalized {
          matchingHw := Some(headword);
        }
        i := i + 1;
      }
      assert matchingHw == MatchingHeadword(hwMatches, entryNormalized);
      if (matchingHw.None? || matchingHw.value == []) && |hwMatches| == 1 {
        var headword := Strip(hwMatches[0].group);
        if !HasAsciiLetter(entryWord) || 2 * |headword| > 3 * |entryWord| {
          word := headword;
        }
      }
    }
  }
}
