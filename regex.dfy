/** The handful of regular expressions the dictionary-source parser uses, with the
    matching semantics of Python's `re`: a match is looked for at each position from
    left to right (`re.search`, `re.finditer`, `re.sub`), matches never overlap, and
    the greedy or lazy choice each pattern makes is resolved exactly.

    Literal parts are matched case-insensitively (ASCII) where the source passes
    `re.IGNORECASE`. */
module Regex {
  import opened Text

  /** A pattern of the parser. `open` and `close` are literals; `close` begins with `<`. */
  datatype Pattern =
      /** `open([^<]{min,})close`: a body free of `<` right up to `close`. */
    | Bounded(open: string, close: string, minBody: nat, ci: bool)
      /** `open(.*?)close` with DOTALL: the body ends at the first `close`. */
    | Lazy(open: string, close: string, ci: bool)
      /** `\[source[^\]]+\]` */
    | SourceRef
      /** `<source[^>]*>.*?</source>` with DOTALL and IGNORECASE */
    | SourceTag
      /** `</[^>]+>` */
    | ClosingTag
      /** `<[^>]+>` */
    | AnyTag
      /** `[cs]+`, for example `[ \t]+` or `\n+` */
    | CharRun(cs: set<char>)

  predicate ValidPattern(p: Pattern) {
    match p
    case Bounded(open, close, _, _) => |open| > 0 && |close| > 0 && close[0] == '<'
    case Lazy(open, _, _) => |open| > 0
    case CharRun(cs) => true
    case _ => true
  }

  /** One match: where it starts and ends, and the text of its group. */
  datatype Match = Match(start: nat, end: nat, group: string)

  /** `lit` occurs at `i`, case-insensitively when `ci`. */
  predicate LiteralAt(s: string, lit: string, i: nat, ci: bool) {
    i + |lit| <= |s| && (if ci then Lower(s[i..i + |lit|]) == Lower(lit) else s[i..i + |lit|] == lit)
  }

  /** The first position at or after `i` that holds `c`, or `|s|`. */
  function NextChar(s: string, c: char, i: nat): (j: nat)
    requires i <= |s|
    ensures i <= j <= |s|
    ensures j < |s| ==> s[j] == c
    ensures forall k :: i <= k < j ==> s[k] != c
    decreases |s| - i
  {
    if i == |s| || s[i] == c then i else NextChar(s, c, i + 1)
  }

  /** The first position at or after `i` that holds a character outside `cs`, or `|s|`. */
  function SkipSet(s: string, cs: set<char>, i: nat): (j: nat)
    requires i <= |s|
    ensures i <= j <= |s|
    ensures j < |s| ==> s[j] !in cs
    ensures forall k :: i <= k < j ==> s[k] in cs
    decreases |s| - i
  {
    if i == |s| || s[i] !in cs then i else SkipSet(s, cs, i + 1)
  }

  /** The first position at or after `i` where `lit` occurs. */
  function FindLiteral(s: string, lit: string, i: nat, ci: bool): (r: Option<nat>)
    requires i <= |s|
    ensures r.Some? ==> i <= r.value && LiteralAt(s, lit, r.value, ci)
    ensures r.Some? ==> forall k :: i <= k < r.value ==> !LiteralAt(s, lit, k, ci)
    ensures r.None? ==> forall k :: i <= k ==> !LiteralAt(s, lit, k, ci)
    decreases |s| - i
  {
    if i + |lit| > |s| then None
    else if LiteralAt(s, lit, i, ci) then Some(i)
    else FindLiteral(s, lit, i + 1, ci)
  }

  /** `open[^stop]{minBody,}stop`: the body runs up to the first `stop`. The whole
      match is its own group. */
  function DelimitedAt(s: string, open: string, ci: bool, stop: char, minBody: nat, i: nat): (r: Option<Match>)
    requires i <= |s| && |open| > 0
    ensures r.Some? ==> r.value.start == i && i < r.value.end <= |s|
  {
    if !LiteralAt(s, open, i, ci) then None
    else
      var j := NextChar(s, stop, i + |open|);
      if j >= i + |open| + minBody && j < |s| then Some(Match(i, j + 1, s[i..j + 1])) else None
  }

  function BoundedAt(s: string, open: string, close: string, minBody: nat, ci: bool, i: nat): (r: Option<Match>)
    requires i <= |s| && |open| > 0
    ensures r.Some? ==> r.value.start == i && i < r.value.end <= |s|
  {
    if !LiteralAt(s, open, i, ci) then None
    else
      var j := NextChar(s, '<', i + |open|);
      if j - (i + |open|) >= minBody && LiteralAt(s, close, j, ci)
      then Some(Match(i, j + |close|, s[i + |open|..j]))
      else None
  }

  /** The lazy body is the shortest: it ends at the first `close` after `open`. */
  function LazyAt(s: string, open: string, close: string, ci: bool, i: nat): (r: Option<Match>)
    requires i <= |s| && |open| > 0
    ensures r.Some? ==> r.value.start == i && i < r.value.end <= |s|
    ensures r.Some? <==> LiteralAt(s, open, i, ci) && exists k :: i + |open| <= k && LiteralAt(s, close, k, ci)
    ensures r.Some? ==> var j := r.value.end - |close|;
      i + |open| <= j && LiteralAt(s, close, j, ci) && r.value.group == s[i + |open|..j]
      && forall k :: i + |open| <= k < j ==> !LiteralAt(s, close, k, ci)
  {
    if !LiteralAt(s, open, i, ci) then None
    else
      match FindLiteral(s, close, i + |open|, ci)
      case Some(j) => Some(Match(i, j + |close|, s[i + |open|..j]))
      case None => None
  }

  function SourceTagAt(s: string, i: nat): (r: Option<Match>)
    requires i <= |s|
    ensures r.Some? ==> r.value.start == i && i < r.value.end <= |s|
  {
    match DelimitedAt(s, "<source", true, '>', 0, i)
    case None => None
    case Some(m) =>
      match FindLiteral(s, "</source>", m.end, true)
      case Some(k) => Some(Match(i, k + 9, s[i..k + 9]))
      case None => None
  }

  /** The match of `p` that starts at `i`, if there is one. */
  function MatchAt(p: Pattern, s: string, i: nat): (r: Option<Match>)
    requires ValidPattern(p) && i <= |s|
    ensures r.Some? ==> r.value.start == i && i < r.value.end <= |s|
  {
    match p
    case Bounded(open, close, minBody, ci) => BoundedAt(s, open, close, minBody, ci, i)
    case Lazy(open, close, ci) => LazyAt(s, open, close, ci, i)
    case SourceRef => DelimitedAt(s, "[source", false, ']', 1, i)
    case SourceTag => SourceTagAt(s, i)
    case ClosingTag => DelimitedAt(s, "</", false, '>', 1, i)
    case AnyTag => DelimitedAt(s, "<", false, '>', 1, i)
    case CharRun(cs) =>
      if i == |s| || s[i] !in cs then None
      else
        var j := SkipSet(s, cs, i);
        Some(Match(i, j, s[i..j]))
  }

  /** `open([^<]{min,})close` read as a regular expression: some body free of `<`, at
      least `min` long, followed by `close`. */
  ghost predicate BoundedShape(s: string, open: string, close: string, minBody: nat, ci: bool, i: nat, j: nat) {
    LiteralAt(s, open, i, ci) && i + |open| + minBody <= j <= |s|
    && (forall k :: i + |open| <= k < j ==> s[k] != '<')
    && LiteralAt(s, close, j, ci)
  }

  /** The greedy body is the only one: a bounded pattern matches at `i` exactly when
      some body has the regular-expression shape, and the match ends after it. */
  lemma BoundedMatchSpec(s: string, open: string, close: string, minBody: nat, ci: bool, i: nat)
    requires ValidPattern(Bounded(open, close, minBody, ci)) && i <= |s|
    ensures MatchAt(Bounded(open, close, minBody, ci), s, i).Some? <==>
            exists j: nat :: BoundedShape(s, open, close, minBody, ci, i, j)
    ensures forall j: nat :: BoundedShape(s, open, close, minBody, ci, i, j) ==>
              MatchAt(Bounded(open, close, minBody, ci), s, i) == Some(Match(i, j + |close|, s[i + |open|..j]))
  {
    forall j: nat | BoundedShape(s, open, close, minBody, ci, i, j)
      ensures MatchAt(Bounded(open, close, minBody, ci), s, i) == Some(Match(i, j + |close|, s[i + |open|..j]))
    {
      var n := NextChar(s, '<', i + |open|);
      assert s[j] == '<' by {
        if ci {
          assert Lower(s[j..j + |close|])[0] == Lower(close)[0];
          assert LowerChar(s[j]) == '<';
        } else {
          assert s[j..j + |close|][0] == close[0];
        }
      }
      assert n == j;
    }
    if MatchAt(Bounded(open, close, minBody, ci), s, i).Some? {
      var n := NextChar(s, '<', i + |open|);
      assert BoundedShape(s, open, close, minBody, ci, i, n);
    }
  }

  // ---------------------------------------------------------------------------
  // Scanning

  /** `re.search(p, s[i:])`: the leftmost match at or after `i`. */
  function Search(p: Pattern, s: string, i: nat): (r: Option<Match>)
    requires ValidPattern(p) && i <= |s|
    ensures r.Some? ==> i <= r.value.start <= |s| && MatchAt(p, s, r.value.start) == r
    ensures r.Some? ==> forall k :: i <= k < r.value.start ==> MatchAt(p, s, k).None?
    ensures r.None? ==> forall k :: i <= k <= |s| ==> MatchAt(p, s, k).None?
    decreases |s| - i
  {
    if i == |s| then MatchAt(p, s, i)
    else
      match MatchAt(p, s, i)
      case Some(m) => Some(m)
      case None => Search(p, s, i + 1)
  }

  /** The matches of `re.finditer` from `i`: leftmost first, each search resuming where
      the previous match ended. */
  function FindAll(p: Pattern, s: string, i: nat): (ms: seq<Match>)
    requires ValidPattern(p) && i <= |s|
    ensures forall k :: 0 <= k < |ms| ==> i <= ms[k].start <= |s| && MatchAt(p, s, ms[k].start) == Some(ms[k])
    ensures forall k :: 0 <= k < |ms| - 1 ==> ms[k].end <= ms[k + 1].start
    ensures forall k, q :: 0 <= k < |ms| - 1 && ms[k].end <= q < ms[k + 1].start ==> MatchAt(p, s, q).None?
    ensures ms == [] <==> Search(p, s, i).None?
    ensures ms != [] ==> Search(p, s, i) == Some(ms[0])
    decreases |s| - i
  {
    match Search(p, s, i)
    case None => []
    case Some(m) =>
      var rest := if m.end <= |s| then FindAll(p, s, m.end) else [];
      GapBeforeNext(p, s, m.end, rest);
      ConsStarts(p, s, i, m, rest);
      ConsOrdered(m, rest);
      ConsGaps(p, s, m, rest);
      [m] + rest
  }

  /** The leftmost match, then the later matches, each one a match at its own start. */
  lemma ConsStarts(p: Pattern, s: string, i: nat, m: Match, rest: seq<Match>)
    requires ValidPattern(p) && i <= |s| && Search(p, s, i) == Some(m)
    requires forall k :: 0 <= k < |rest| ==> m.end <= rest[k].start <= |s| && MatchAt(p, s, rest[k].start) == Some(rest[k])
    ensures forall k :: 0 <= k < |[m] + rest| ==>
      i <= ([m] + rest)[k].start <= |s| && MatchAt(p, s, ([m] + rest)[k].start) == Some(([m] + rest)[k])
  {
    var ms := [m] + rest;
    forall k | 0 < k < |ms|
      ensures i <= ms[k].start <= |s| && MatchAt(p, s, ms[k].start) == Some(ms[k])
    {
      assert ms[k] == rest[k - 1];
    }
  }

  /** Putting a match before matches that start at or after its end keeps them in order. */
  lemma ConsOrdered(m: Match, rest: seq<Match>)
    requires rest != [] ==> m.end <= rest[0].start
    requires forall k :: 0 <= k < |rest| - 1 ==> rest[k].end <= rest[k + 1].start
    ensures forall k :: 0 <= k < |[m] + rest| - 1 ==> ([m] + rest)[k].end <= ([m] + rest)[k + 1].start
  {
    var ms := [m] + rest;
    forall k | 0 < k < |ms| - 1
      ensures ms[k].end <= ms[k + 1].start
    {
      assert ms[k] == rest[k - 1] && ms[k + 1] == rest[k];
    }
  }

  /** No match starts in a gap: the one before the next match, nor any between later matches. */
  lemma ConsGaps(p: Pattern, s: string, m: Match, rest: seq<Match>)
    requires ValidPattern(p) && forall k :: 0 <= k < |rest| ==> rest[k].start <= |s|
    requires rest != [] ==> forall q :: m.end <= q < rest[0].start ==> MatchAt(p, s, q).None?
    requires forall k, q :: 0 <= k < |rest| - 1 && rest[k].end <= q < rest[k + 1].start ==> MatchAt(p, s, q).None?
    ensures forall k, q :: 0 <= k < |[m] + rest| - 1 && ([m] + rest)[k].end <= q < ([m] + rest)[k + 1].start ==>
      MatchAt(p, s, q).None?
  {
    var ms := [m] + rest;
    forall k, q | 0 <= k < |ms| - 1 && ms[k].end <= q < ms[k + 1].start
      ensures MatchAt(p, s, q).None?
    {
      assert ms[k + 1] == rest[k];
      if k > 0 { assert ms[k] == rest[k - 1]; }
    }
  }

  /** No match starts between a search's origin and the match it finds. */
  lemma GapBeforeNext(p: Pattern, s: string, i: nat, rest: seq<Match>)
    requires ValidPattern(p) && i <= |s| && (rest != [] ==> Search(p, s, i) == Some(rest[0]))
    ensures rest != [] ==> forall q :: i <= q < rest[0].start ==> MatchAt(p, s, q).None?
  {
  }

  /** `re.sub(p, rep, s[i:])` */
  function Sub(p: Pattern, s: string, rep: string, i: nat): string
    requires ValidPattern(p) && i <= |s|
    decreases |s| - i
  {
    if i == |s| then []
    else
      match MatchAt(p, s, i)
      case Some(m) => rep + Sub(p, s, rep, m.end)
      case None => [s[i]] + Sub(p, s, rep, i + 1)
  }

  function Replace(p: Pattern, s: string, rep: string): string
    requires ValidPattern(p)
  {
    Sub(p, s, rep, 0)
  }

  /** Where nothing matches, substitution leaves the text alone. */
  lemma {:induction false} SubNoMatch(p: Pattern, s: string, rep: string, i: nat)
    requires ValidPattern(p) && i <= |s|
    requires forall k :: i <= k <= |s| ==> MatchAt(p, s, k).None?
    ensures Sub(p, s, rep, i) == s[i..]
    decreases |s| - i
  {
    if i < |s| {
      SubNoMatch(p, s, rep, i + 1);
      assert s[i..] == [s[i]] + s[i + 1..];
    }
  }

  /** Deleting matches never lengthens the text. */
  lemma {:induction false} DeleteShortens(p: Pattern, s: string, i: nat)
    requires ValidPattern(p) && i <= |s|
    ensures |Sub(p, s, "", i)| <= |s| - i
    decreases |s| - i
  {
    if i < |s| {
      match MatchAt(p, s, i)
      case Some(m) => DeleteShortens(p, s, m.end);
      case None => DeleteShortens(p, s, i + 1);
    }
  }

  /** After replacing every run of `cs` with `rep`, a character of `cs` can only come
      from `rep`. */
  lemma {:induction false} CharRunGone(cs: set<char>, s: string, rep: string, i: nat, c: char)
    requires i <= |s| && c in cs && c !in rep
    ensures c !in Sub(CharRun(cs), s, rep, i)
    decreases |s| - i
  {
    if i < |s| {
      match MatchAt(CharRun(cs), s, i)
      case Some(m) => CharRunGone(cs, s, rep, m.end, c);
      case None => CharRunGone(cs, s, rep, i + 1, c);
    }
  }

  /** A character at which a match starts wherever it occurs, and which `rep` does
      not hold, is gone after substitution. */
  lemma {:induction false} SubKeepsOnly(p: Pattern, s: string, rep: string, i: nat, c: char)
    requires ValidPattern(p) && i <= |s| && c !in rep
    requires forall k :: i <= k < |s| && s[k] == c ==> MatchAt(p, s, k).Some?
    ensures c !in Sub(p, s, rep, i)
    decreases |s| - i
  {
    if i < |s| {
      match MatchAt(p, s, i)
      case Some(m) => SubKeepsOnly(p, s, rep, m.end, c);
      case None => SubKeepsOnly(p, s, rep, i + 1, c);
    }
  }
}
