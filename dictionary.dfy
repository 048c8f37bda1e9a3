/** The dictionary service (app/services/dictionary.py): lexicon lookups, on-demand
    link extraction and the neighbourhood expansion behind `/words/{word}/neighbors`.

    The `words` table is an in-memory sequence of rows. Its order stands for the
    order in which the database returns rows; `word_lower` is not unique, so case
    variants of one spelling are separate rows with the same key. */
module Dictionary {
  import opened Text
  import opened Sorting

  datatype Row = Row(id: int, word: string, wordLower: string, pronunciation: Option<string>, definition: string)

  /** The record `get_definition` returns. */
  datatype Definition = Definition(id: int, word: string, pronunciation: Option<string>, definition: string)

  ghost predicate HasKey(lexicon: seq<Row>, key: string) {
    exists r :: r in lexicon && r.wordLower == key
  }

  /** Index of the first row whose `word_lower` is `key`. */
  function FirstRowWithKey(lexicon: seq<Row>, key: string): (r: Option<nat>)
    ensures r.None? <==> !HasKey(lexicon, key)
    ensures r.Some? ==> r.value < |lexicon| && lexicon[r.value].wordLower == key
    ensures r.Some? ==> forall j :: 0 <= j < r.value ==> lexicon[j].wordLower != key
  {
    if lexicon == [] then None
    else if lexicon[0].wordLower == key then Some(0)
    else
      var t := FirstRowWithKey(lexicon[1..], key);
      assert forall r :: r in lexicon[1..] ==> r in lexicon;
      assert HasKey(lexicon, key) ==> HasKey(lexicon[1..], key) by {
        if HasKey(lexicon, key) {
          var r :| r in lexicon && r.wordLower == key;
          var i :| 0 <= i < |lexicon| && lexicon[i] == r;
          assert lexicon[1..][i - 1] == r;
        }
      }
      if t.None? then None else Some(t.value + 1)
  }

  /** `get_definition`: the row `SELECT ... WHERE word_lower = word.lower()` returns first. */
  function GetDefinition(lexicon: seq<Row>, word: string): (r: Option<Definition>)
    ensures r.None? <==> !HasKey(lexicon, Lower(word))
    ensures r.Some? ==> exists row :: row in lexicon && row.wordLower == Lower(word)
                          && r.value == Definition(row.id, row.word, row.pronunciation, row.definition)
  {
    match FirstRowWithKey(lexicon, Lower(word))
    case None => None
    case Some(i) =>
      var row := lexicon[i];
      Some(Definition(row.id, row.word, row.pronunciation, row.definition))
  }

  /** `word_exists`. */
  function WordExists(lexicon: seq<Row>, word: string): (b: bool)
    ensures b <==> HasKey(lexicon, Lower(word))
  {
    FirstRowWithKey(lexicon, Lower(word)).Some?
  }

  /** Both lookups normalise the word the same way, so a word exists exactly when
      its definition can be fetched. */
  lemma ExistsIffDefinition(lexicon: seq<Row>, word: string)
    ensures WordExists(lexicon, word) <==> GetDefinition(lexicon, word).Some?
  {
  }

  // ---------------------------------------------------------------------------
  // Link extraction

  /** The stop words of `extract_linked_words`. */
  const OnDemandStopWords: set<string> := {
    "a", "an", "the", "and", "or", "but", "in", "on", "at", "to", "for", "of", "with",
    "by", "from", "as", "is", "was", "are", "were", "be", "been", "being", "have", "has",
    "had", "do", "does"
  } + {
    "did", "will", "would", "could", "should", "may", "might", "must",
    "can", "this", "that", "these", "those", "it", "its", "which", "who", "what", "when",
    "where", "why", "how", "not", "no", "nor", "so", "than", "too", "very"
  }

  /** `filtered_words`: distinct tokens of the lowercased definition that are not stop
      words, differ from the lowercased source word and are longer than two characters. */
  function Candidates(sourceWord: string, definition: string): set<string> {
    set t | t in Tokens(Lower(definition)) && t !in OnDemandStopWords
              && t != Lower(sourceWord) && |t| > 2
  }

  /** `SELECT word_lower FROM words WHERE word_lower IN (...)`: one result per row. */
  function MatchingKeys(lexicon: seq<Row>, keys: set<string>): (r: seq<string>)
    ensures forall w :: w in r ==> w in keys && HasKey(lexicon, w)
  {
    if lexicon == [] then []
    else
      var rest := MatchingKeys(lexicon[1..], keys);
      assert forall w :: HasKey(lexicon[1..], w) ==> HasKey(lexicon, w) by {
        forall w | HasKey(lexicon[1..], w) ensures HasKey(lexicon, w) {
          var r :| r in lexicon[1..] && r.wordLower == w;
          assert r in lexicon;
        }
      }
      (if lexicon[0].wordLower in keys then [lexicon[0].wordLower] else []) + rest
  }

  /** Number of rows whose `word_lower` is `key`. */
  function CountRows(lexicon: seq<Row>, key: string): nat {
    if lexicon == [] then 0
    else (if lexicon[0].wordLower == key then 1 else 0) + CountRows(lexicon[1..], key)
  }

  lemma {:induction false} MatchingKeysCount(lexicon: seq<Row>, keys: set<string>, w: string)
    ensures multiset(MatchingKeys(lexicon, keys))[w] == if w in keys then CountRows(lexicon, w) else 0
  {
    if lexicon != [] {
      MatchingKeysCount(lexicon[1..], keys, w);
    }
  }

  lemma {:induction false} CountRowsPositive(lexicon: seq<Row>, key: string)
    ensures CountRows(lexicon, key) > 0 <==> HasKey(lexicon, key)
  {
    if lexicon != [] {
      CountRowsPositive(lexicon[1..], key);
      if HasKey(lexicon, key) && lexicon[0].wordLower != key {
        var r :| r in lexicon && r.wordLower == key;
        assert r in lexicon[1..];
      }
      if HasKey(lexicon[1..], key) {
        var r :| r in lexicon[1..] && r.wordLower == key;
        assert r in lexicon;
      }
    }
  }

  /** `extract_linked_words(source_word, definition)`. */
  function ExtractLinkedWords(lexicon: seq<Row>, sourceWord: string, definition: string): (r: seq<string>)
    ensures SortedStrings(r)
    ensures Candidates(sourceWord, definition) == {} ==> r == []
  {
    var candidates := Candidates(sourceWord, definition);
    if candidates == {} then [] else SortStrings(MatchingKeys(lexicon, candidates))
  }

  /** Every linked word is a filtered token of the definition and a stored key. */
  lemma LinkedWordsSound(lexicon: seq<Row>, sourceWord: string, definition: string, w: string)
    requires w in ExtractLinkedWords(lexicon, sourceWord, definition)
    ensures w in Tokens(Lower(definition)) && IsLowerWord(w)
    ensures w !in OnDemandStopWords && w != Lower(sourceWord) && |w| > 2
    ensures HasKey(lexicon, w)
  {
    var candidates := Candidates(sourceWord, definition);
    var keys := MatchingKeys(lexicon, candidates);
    assert candidates != {};
    assert w in multiset(SortStrings(keys));
    assert w in multiset(keys);
    assert w in candidates;
    TokensOfLowerAreLowerWords(definition, w);
  }

  /** Each candidate occurs in the result once per row that carries it, so a
      spelling stored in several case variants is linked several times. */
  lemma LinkedWordsMultiplicity(lexicon: seq<Row>, sourceWord: string, definition: string, w: string)
    ensures multiset(ExtractLinkedWords(lexicon, sourceWord, definition))[w]
            == if w in Candidates(sourceWord, definition) then CountRows(lexicon, w) else 0
  {
    MatchingKeysCount(lexicon, Candidates(sourceWord, definition), w);
  }

  /** A filtered token that is a stored key is always linked. */
  lemma LinkedWordsComplete(lexicon: seq<Row>, sourceWord: string, definition: string, w: string)
    requires w in Candidates(sourceWord, definition) && HasKey(lexicon, w)
    ensures w in ExtractLinkedWords(lexicon, sourceWord, definition)
  {
    LinkedWordsMultiplicity(lexicon, sourceWord, definition, w);
    CountRowsPositive(lexicon, w);
  }

  // ---------------------------------------------------------------------------
  // Prefix search

  /** PostgreSQL `s LIKE p` with the default escape character `\`:
      `%` matches any run, `_` any one character. */
  function LikeMatch(p: string, s: string): bool
    decreases |p| + |s|
  {
    if p == [] then s == []
    else if p[0] == '%' then LikeMatch(p[1..], s) || (s != [] && LikeMatch(p, s[1..]))
    else if p[0] == '_' then s != [] && LikeMatch(p[1..], s[1..])
    else if p[0] == '\\' && |p| >= 2 then s != [] && s[0] == p[1] && LikeMatch(p[2..], s[1..])
    else s != [] && s[0] == p[0] && LikeMatch(p[1..], s[1..])
  }

  predicate NoLikeMetachars(q: string) {
    forall k :: 0 <= k < |q| ==> q[k] != '%' && q[k] != '_' && q[k] != '\\'
  }

  lemma {:induction false} LikeAnything(s: string)
    ensures LikeMatch("%", s)
    decreases |s|
  {
    if s != [] {
      LikeAnything(s[1..]);
    }
  }

  /** Without metacharacters in the query, `LIKE query%` is a prefix test. */
  lemma {:induction false} LikePrefix(q: string, s: string)
    requires NoLikeMetachars(q)
    ensures LikeMatch(q + "%", s) <==> StartsWith(s, q)
    decreases |q|
  {
    if q == [] {
      assert q + "%" == "%";
      LikeAnything(s);
    } else {
      assert (q + "%")[0] == q[0];
      assert (q + "%")[1..] == q[1..] + "%";
      if s != [] {
        LikePrefix(q[1..], s[1..]);
        if StartsWith(s, q) {
          assert s[1..][..|q| - 1] == q[1..];
        }
        if s[0] == q[0] && StartsWith(s[1..], q[1..]) {
          assert s[..|q|] == [s[0]] + s[1..][..|q| - 1];
        }
      }
    }
  }

  /** `_` in the query is not escaped: `LIKE a_b%` holds of every text that starts
      with `a`, then any one character, then `b`. */
  lemma {:induction false} UnderscoreIsWildcard(a: string, b: string, s: string)
    requires NoLikeMetachars(a) && NoLikeMetachars(b)
    ensures LikeMatch(a + "_" + b + "%", s) <==>
              |s| > |a| && StartsWith(s, a) && StartsWith(s[|a| + 1..], b)
    decreases |a|
  {
    var p := a + "_" + b + "%";
    if a == [] {
      assert p == "_" + (b + "%");
      if s != [] {
        LikePrefix(b, s[1..]);
      }
    } else {
      assert p[0] == a[0];
      assert p[1..] == a[1..] + "_" + b + "%";
      if s != [] {
        UnderscoreIsWildcard(a[1..], b, s[1..]);
        if |s| > |a| {
          assert s[1..][|a| - 1 + 1..] == s[|a| + 1..];
        }
        if StartsWith(s, a) {
          assert s[1..][..|a| - 1] == a[1..];
        }
        if |s| > |a| && s[0] == a[0] && StartsWith(s[1..], a[1..]) {
          assert s[..|a|] == [s[0]] + s[1..][..|a| - 1];
        }
      }
    }
  }

  /** `word` of every row whose `word_lower` is LIKE `pattern`, in row order. */
  function WordsLike(lexicon: seq<Row>, pattern: string): (r: seq<string>)
    ensures forall w :: w in r ==> exists row :: row in lexicon && row.word == w && LikeMatch(pattern, row.wordLower)
  {
    if lexicon == [] then []
    else
      var rest := WordsLike(lexicon[1..], pattern);
      assert forall row :: row in lexicon[1..] ==> row in lexicon;
      (if LikeMatch(pattern, lexicon[0].wordLower) then [lexicon[0].word] else []) + rest
  }

  /** `search_words(query, limit)`: `WHERE word_lower LIKE query.lower() || '%'
      ORDER BY word LIMIT limit`. */
  function SearchWords(lexicon: seq<Row>, query: string, limit: nat): (r: seq<string>)
    ensures |r| <= limit
    ensures SortedStrings(r)
    ensures forall w :: w in r ==>
              exists row :: row in lexicon && row.word == w && LikeMatch(Lower(query) + "%", row.wordLower)
    ensures multiset(r) <= multiset(WordsLike(lexicon, Lower(query) + "%"))
    ensures forall w :: w in WordsLike(lexicon, Lower(query) + "%") && w !in r ==>
              |r| == limit && forall v :: v in r ==> StrLe(v, w)
  {
    var matching := WordsLike(lexicon, Lower(query) + "%");
    var all := SortStrings(matching);
    var r := SliceTo(all, limit);
    assert all == r + all[|r|..];
    assert multiset(all) == multiset(r) + multiset(all[|r|..]);
    forall i, j | 0 <= i < j < |r| ensures StrLe(r[i], r[j]) {
      assert r[i] == all[i] && r[j] == all[j];
    }
    forall w | w in r ensures w in matching {
      assert w in all;
      assert w in multiset(all);
    }
    forall w | w in matching && w !in r ensures |r| == limit && forall v :: v in r ==> StrLe(v, w) {
      assert w in multiset(all);
      var j :| 0 <= j < |all| && all[j] == w;
      assert j >= |r|;
      forall v | v in r ensures StrLe(v, w) {
        var i :| 0 <= i < |r| && r[i] == v;
        assert all[i] == v;
      }
    }
    r
  }

  /** With an ordinary query, every hit's `word_lower` starts with the lowercased query. */
  lemma SearchWordsPrefix(lexicon: seq<Row>, query: string, limit: nat, w: string)
    requires NoLikeMetachars(Lower(query))
    requires w in SearchWords(lexicon, query, limit)
    ensures exists row :: row in lexicon && row.word == w && StartsWith(row.wordLower, Lower(query))
  {
    var row :| row in lexicon && row.word == w && LikeMatch(Lower(query) + "%", row.wordLower);
    LikePrefix(Lower(query), row.wordLower);
  }

  // ---------------------------------------------------------------------------
  // Neighbourhood expansion

  /** What `bfs` adds for one word: the linked words of its definition, or nothing
      when the word has no row. */
  function Linked(lexicon: seq<Row>, word: string): seq<string> {
    match GetDefinition(lexicon, word)
    case None => []
    case Some(d) => ExtractLinkedWords(lexicon, word, d.definition)
  }
  /** One expansion by `bfs`: the word, its level and the links recorded for it. */
  datatype Step = Step(word: string, level: nat, links: seq<string>)

  /** The words expanded so far, in expansion order. */
  type Expansion = seq<Step>

  function ExpandedWords(log: Expansion): set<string> {
    if log == [] then {} else ExpandedWords(log[..|log| - 1]) + {log[|log| - 1].word}
  }

  /** `visited` holds exactly the expanded words. */
  lemma {:induction false} ExpandedWordsSpec(log: Expansion, w: string)
    ensures w in ExpandedWords(log) <==> exists i :: 0 <= i < |log| && log[i].word == w
  {
    if log != [] {
      var init := log[..|log| - 1];
      ExpandedWordsSpec(init, w);
      if exists i :: 0 <= i < |init| && init[i].word == w {
        var i :| 0 <= i < |init| && init[i].word == w;
        assert log[i] == init[i];
      }
      if exists i :: 0 <= i < |log| && log[i].word == w {
        var i :| 0 <= i < |log| && log[i].word == w;
        if i < |init| {
          assert init[i] == log[i];
        }
      }
    }
  }

  /** `neighbors_by_depth` after the steps of `log`, in order. */
  function ByLevel(log: Expansion): map<nat, seq<string>>
  {
    if log == [] then map[]
    else
      var e := log[|log| - 1];
      AddLinks(ByLevel(log[..|log| - 1]), e.level, e.links)
  }

  /** `neighbors_by_depth[level].extend(links)`, creating the entry when missing. */
  function AddLinks(m: map<nat, seq<string>>, level: nat, links: seq<string>): (m': map<nat, seq<string>>)
    ensures m'.Keys == m.Keys + {level}
    ensures m'[level] == (if level in m then m[level] else []) + links
    ensures forall d :: d in m && d != level ==> m'[d] == m[d]
  {
    m[level := (if level in m then m[level] else []) + links]
  }

  /** Creating a missing entry and then extending it (or leaving it empty) is
      `AddLinks`. */
  lemma EnsureThenExtend(m: map<nat, seq<string>>, level: nat, links: seq<string>)
    ensures var m1 := if level in m then m else m[level := []];
            m1[level := m1[level] + links] == AddLinks(m, level, links)
    ensures links == [] ==> (if level in m then m else m[level := []]) == AddLinks(m, level, links)
  {
    var m1 := if level in m then m else m[level := []];
    assert m1[level] == if level in m then m[level] else [];
    if links == [] {
      assert m1[level] + links == m1[level];
      assert m1 == m1[level := m1[level]];
    }
  }

  lemma {:induction false} ByLevelKeys(log: Expansion, d: nat)
    ensures d in ByLevel(log) <==> exists i :: 0 <= i < |log| && log[i].level == d
  {
    if log != [] {
      var init := log[..|log| - 1];
      ByLevelKeys(init, d);
      if exists i :: 0 <= i < |init| && init[i].level == d {
        var i :| 0 <= i < |init| && init[i].level == d;
        assert log[i] == init[i];
      }
      if exists i :: 0 <= i < |log| && log[i].level == d {
        var i :| 0 <= i < |log| && log[i].level == d;
        if i < |init| {
          assert init[i] == log[i];
        }
      }
    }
  }

  /** A level expanded only by the first step lists exactly that step's links. */
  lemma {:induction false} ByLevelSingle(log: Expansion, d: nat)
    requires log != [] && log[0].level == d
    requires forall i :: 0 < i < |log| ==> log[i].level != d
    ensures d in ByLevel(log) && ByLevel(log)[d] == log[0].links
  {
    if |log| > 1 {
      var init := log[..|log| - 1];
      ByLevelSingle(init, d);
    }
  }

  /** Every word a level lists comes from the links of some step at that level. */
  lemma {:induction false} ByLevelFromLinks(log: Expansion, d: nat, w: string)
    requires d in ByLevel(log) && w in ByLevel(log)[d]
    ensures exists i :: 0 <= i < |log| && log[i].level == d && w in log[i].links
  {
    var init := log[..|log| - 1];
    var e := log[|log| - 1];
    var m := ByLevel(init);
    if d == e.level && w in e.links {
    } else {
      ByLevelFromLinks(init, d, w);
      var i :| 0 <= i < |init| && init[i].level == d && w in init[i].links;
      assert log[i] == init[i];
    }
  }

  /** Some step of `log` one level above `level` links to `w`. */
  ghost predicate HasParent(log: Expansion, w: string, level: nat) {
    exists j :: 0 <= j < |log| && log[j].level + 1 == level && w in log[j].links
  }

  /** What `bfs` guarantees of a step taken after the steps of `prior`: a word not
      yet visited, a level within the bound, its own links recorded, and (unless it
      is the first step) a link to it from a step one level up. */
  ghost predicate StepOk(linksOf: string -> seq<string>, depth: int, prior: Expansion, e: Step) {
    && e.word !in ExpandedWords(prior)
    && 1 <= e.level <= depth
    && e.links == linksOf(e.word)
    && (prior != [] ==> HasParent(prior, e.word, e.level))
  }

  /** Every step of the expansion is `StepOk` with respect to the steps before it. */
  ghost predicate WellFormed(linksOf: string -> seq<string>, depth: int, log: Expansion) {
    log == [] || (WellFormed(linksOf, depth, log[..|log| - 1]) && StepOk(linksOf, depth, log[..|log| - 1], log[|log| - 1]))
  }

  lemma WellFormedAppend(linksOf: string -> seq<string>, depth: int, log: Expansion, e: Step)
    requires WellFormed(linksOf, depth, log) && StepOk(linksOf, depth, log, e)
    ensures WellFormed(linksOf, depth, log + [e])
    ensures ExpandedWords(log + [e]) == ExpandedWords(log) + {e.word}
    ensures ByLevel(log + [e]) == AddLinks(ByLevel(log), e.level, e.links)
  {
    assert (log + [e])[..|log|] == log;
  }

  lemma {:induction false} WellFormedStep(linksOf: string -> seq<string>, depth: int, log: Expansion, i: nat)
    requires WellFormed(linksOf, depth, log) && i < |log|
    ensures StepOk(linksOf, depth, log[..i], log[i])
  {
    var init := log[..|log| - 1];
    if i < |init| {
      WellFormedStep(linksOf, depth, init, i);
      assert init[..i] == log[..i] && init[i] == log[i];
    }
  }

  /** The invariant of the search, step by step: levels stay within 1..depth, each
      step holds its word's links, no word is expanded twice, and every step after
      the first was reached from a step one level up that links to it. */
  lemma ExpansionFacts(linksOf: string -> seq<string>, depth: int, log: Expansion, i: nat)
    requires WellFormed(linksOf, depth, log) && i < |log|
    ensures 1 <= log[i].level <= depth
    ensures log[i].links == linksOf(log[i].word)
    ensures forall j :: 0 <= j < i ==> log[j].word != log[i].word
    ensures i > 0 ==> exists j :: 0 <= j < i && log[j].level + 1 == log[i].level && log[i].word in log[j].links
  {
    WellFormedStep(linksOf, depth, log, i);
    var prior := log[..i];
    forall j | 0 <= j < i ensures log[j].word != log[i].word {
      ExpandedWordsSpec(prior, log[j].word);
      assert prior[j] == log[j];
    }
    if i > 0 {
      var j :| 0 <= j < |prior| && prior[j].level + 1 == log[i].level && log[i].word in prior[j].links;
      assert prior[j] == log[j];
    }
  }

  /** Extending the log never forgets an expanded word. */
  lemma {:induction false} ExpandedWordsGrow(before: Expansion, after: Expansion)
    requires before <= after
    ensures ExpandedWords(before) <= ExpandedWords(after)
    decreases |after|
  {
    if |after| > |before| {
      var init := after[..|after| - 1];
      assert before == init[..|before|];
      ExpandedWordsGrow(before, init);
    } else {
      assert before == after;
    }
  }

  /** Every step of `log` from `from` on that lies below the depth bound has had all
      of its links expanded somewhere in `log`. */
  ghost predicate LinksExpanded(log: Expansion, from: nat, depth: int) {
    forall k :: from <= k < |log| && log[k].level < depth ==>
      forall w :: w in log[k].links ==> w in ExpandedWords(log)
  }

  /** Steps whose links were expanded in a shorter log keep them expanded in a longer
      one. */
  lemma LinksExpandedChain(before: Expansion, after: Expansion, from: nat, depth: int)
    requires before <= after && from <= |before|
    requires LinksExpanded(before, from, depth) && LinksExpanded(after, |before|, depth)
    ensures LinksExpanded(after, from, depth)
  {
    ExpandedWordsGrow(before, after);
    forall k | from <= k < |before| ensures after[k] == before[k] {
    }
  }

  /** A step whose links were expanded (when below the bound), followed by steps
      whose links were expanded, leaves every step from it on expanded. */
  lemma StepExpanded(prior: Expansion, e: Step, log: Expansion, depth: int)
    requires prior + [e] <= log
    requires e.level < depth ==> forall w :: w in e.links ==> w in ExpandedWords(log)
    requires |log| > |prior| + 1 ==> LinksExpanded(log, |prior| + 1, depth)
    ensures LinksExpanded(log, |prior|, depth)
  {
    assert log[|prior|] == e;
  }

  /** One turn of the loop over `linked`: after expanding a link from `before`,
      every link so far is expanded and the new steps' links are expanded. */
  lemma LinkVisited(before: Expansion, after: Expansion, linked: seq<string>, i: nat, depth: int)
    requires before <= after && i < |linked|
    requires forall k :: 0 <= k < i ==> linked[k] in ExpandedWords(before)
    requires |after| > |before| && after[|before|].word == linked[i]
    requires LinksExpanded(after, |before|, depth)
    ensures forall k :: 0 <= k <= i ==> linked[k] in ExpandedWords(after)
    ensures forall from: nat :: from <= |before| && LinksExpanded(before, from, depth) ==> LinksExpanded(after, from, depth)
  {
    ExpandedWordsGrow(before, after);
    ExpandedWordsSpec(after, linked[i]);
    forall from: nat | from <= |before| && LinksExpanded(before, from, depth) ensures LinksExpanded(after, from, depth) {
      LinksExpandedChain(before, after, from, depth);
    }
  }

  /** The links of each step are all listed at that step's level. */
  lemma {:induction false} ByLevelHasLinks(log: Expansion, j: nat)
    requires j < |log|
    ensures log[j].level in ByLevel(log)
    ensures forall v :: v in log[j].links ==> v in ByLevel(log)[log[j].level]
  {
    var init := log[..|log| - 1];
    var e := log[|log| - 1];
    if j < |init| {
      ByLevelHasLinks(init, j);
      assert init[j] == log[j];
    }
  }

  /** The log `after` extends `before`, and every step past `from` is deeper than `level`. */
  ghost predicate ExtendsDeeper(before: Expansion, after: Expansion, from: nat, level: nat) {
    before <= after && forall k :: from <= k < |after| ==> after[k].level > level
  }

  /** A step of the log before the loop stays in the log, so each of its links
      keeps a parent. */
  lemma ParentKept(log0: Expansion, log: Expansion, parent: nat, w: string)
    requires log0 <= log && parent < |log0| && w in log0[parent].links
    ensures HasParent(log, w, log0[parent].level + 1)
  {
    assert log[parent] == log0[parent];
  }

  /** Steps added at deeper levels after steps that were already deeper are deeper. */
  lemma DeeperChains(log0: Expansion, before: Expansion, after: Expansion, level: nat)
    requires ExtendsDeeper(log0, before, |log0|, level)
    requires ExtendsDeeper(before, after, |before| + 1, level + 1)
    requires |after| > |before| ==> after[|before|].level == level + 1
    ensures ExtendsDeeper(log0, after, |log0|, level)
  {
    forall k | |log0| <= k < |after| ensures after[k].level > level {
      if k < |before| {
        assert after[k] == before[k];
      }
    }
  }

  /** The state of one `get_neighbors` call: the `visited` set and the
      `neighbors_by_depth` dictionary the inner `bfs` closure mutates. `linksOf`
      stands for the two lookups `bfs` makes for a word (`get_definition`, then
      `extract_linked_words` when a definition exists); `GetNeighbors` passes
      `Linked`. */
  class NeighborSearch {
    const linksOf: string -> seq<string>
    const depth: int
    var visited: set<string>
    var neighborsByDepth: map<nat, seq<string>>
    ghost var log: Expansion

    ghost predicate Valid()
      reads this
    {
      && visited == ExpandedWords(log)
      && neighborsByDepth == ByLevel(log)
      && WellFormed(linksOf, depth, log)
    }

    constructor (linksOf: string -> seq<string>, depth: int)
      ensures Valid()
      ensures this.linksOf == linksOf && this.depth == depth && log == []
    {
      this.linksOf := linksOf;
      this.depth := depth;
      visited := {};
      neighborsByDepth := map[];
      log := [];
    }

    /** The recursive `bfs(current_word, current_depth)`: a word already visited or
        beyond the depth bound is skipped; otherwise it is recorded at its level and,
        below the bound, each of its links not yet visited is expanded one level
        deeper. */
    method Bfs(current: string, level: nat)
      requires Valid()
      requires level >= 1
      requires log != [] ==> HasParent(log, current, level)
      modifies this
      ensures Valid()
      ensures ExtendsDeeper(old(log), log, |old(log)| + 1, level)
      ensures level > depth || current in old(visited) ==> log == old(log)
      ensures level <= depth && current !in old(visited) ==>
                |log| > |old(log)| && log[|old(log)|].word == current && log[|old(log)|].level == level
      ensures level < depth && current !in old(visited) ==> forall w :: w in linksOf(current) ==> w in visited
      ensures LinksExpanded(log, |old(log)|, depth)
      decreases if level <= depth then depth - level + 1 else 0, 1
    {
      if level > depth || current in visited {
        return;
      }
      var linked := Visit(current, level);
      if level < depth {
        ghost var mid := log;
        ExpandLinks(linked, level);
        assert log[|old(log)|] == mid[|old(log)|];
      }
      StepExpanded(old(log), Step(current, level, linked), log, depth);
    }

    /** Marks `current` visited, makes sure its level has an entry, and appends the
        words linked from its definition there (none when it has no definition). */
    method Visit(current: string, level: nat) returns (linked: seq<string>)
      requires Valid()
      requires 1 <= level <= depth && current !in visited
      requires log != [] ==> HasParent(log, current, level)
      modifies this
      ensures Valid()
      ensures linked == linksOf(current)
      ensures log == old(log) + [Step(current, level, linked)]
    {
      var byDepth := neighborsByDepth;
      if level !in byDepth {
        byDepth := byDepth[level := []];
      }
      linked := linksOf(current);
      byDepth := byDepth[level := byDepth[level] + linked];
      EnsureThenExtend(neighborsByDepth, level, linked);
      ghost var step := Step(current, level, linked);
      WellFormedAppend(linksOf, depth, log, step);
      visited, neighborsByDepth, log := visited + {current}, byDepth, log + [step];
    }

    /** The `for neighbor in linked` loop of `bfs`: expands each link not yet visited
        at the next level. */
    method ExpandLinks(linked: seq<string>, level: nat)
      requires Valid()
      requires 1 <= level < depth
      requires log != [] && log[|log| - 1].level == level && log[|log| - 1].links == linked
      modifies this
      ensures Valid()
      ensures ExtendsDeeper(old(log), log, |old(log)|, level)
      ensures forall k :: 0 <= k < |linked| ==> linked[k] in visited
      ensures LinksExpanded(log, |old(log)|, depth)
      decreases depth - level + 1, 0
    {
      ghost var log0 := log;
      ghost var parent := |log| - 1;
      var i := 0;
      while i < |linked|
        invariant 0 <= i <= |linked|
        invariant Valid()
        invariant ExtendsDeeper(log0, log, |log0|, level)
        invariant forall k :: 0 <= k < i ==> linked[k] in visited
        invariant LinksExpanded(log, |log0|, depth)
      {
        if linked[i] !in visited {
          ParentKept(log0, log, parent, linked[i]);
          ghost var before := log;
          Bfs(linked[i], level + 1);
          DeeperChains(log0, before, log, level);
          LinkVisited(before, log, linked, i, depth);
        }
        i := i + 1;
      }
    }
  }

  // Decimal keys

  function DigitChar(d: nat): (c: char)
    requires d < 10
    ensures IsDigit(c) && c as int - '0' as int == d
  {
    ('0' as int + d) as char
  }

  /** `str(n)` for a natural number. */
  function DecimalString(n: nat): (s: string)
    ensures |s| > 0
    ensures forall k :: 0 <= k < |s| ==> IsDigit(s[k])
    decreases n
  {
    if n < 10 then [DigitChar(n)] else DecimalString(n / 10) + [DigitChar(n % 10)]
  }

  /** `int(s)` for a string of decimal digits. */
  function DecimalValue(s: string): nat
    requires forall k :: 0 <= k < |s| ==> IsDigit(s[k])
  {
    if s == [] then 0
    else
      var c := s[|s| - 1];
      assert IsDigit(c);
      10 * DecimalValue(s[..|s| - 1]) + (c as int - '0' as int)
  }

  lemma {:induction false} DecimalRoundTrip(n: nat)
    ensures DecimalValue(DecimalString(n)) == n
    decreases n
  {
    if n >= 10 {
      DecimalRoundTrip(n / 10);
      var s := DecimalString(n);
      assert s[..|s| - 1] == DecimalString(n / 10);
    }
  }

  lemma DecimalStringInjective(m: nat, n: nat)
    requires DecimalString(m) == DecimalString(n)
    ensures m == n
  {
    DecimalRoundTrip(m);
    DecimalRoundTrip(n);
  }

  /** The JSON body: keys stringified, each level's words deduplicated. */
  function NeighborsOutput(byLevel: map<nat, seq<string>>): (out: map<string, set<string>>)
    ensures forall d :: d in byLevel ==> DecimalString(d) in out && out[DecimalString(d)] == set w | w in byLevel[d]
    ensures forall key :: key in out ==> exists d :: d in byLevel && key == DecimalString(d)
  {
    forall m, n | DecimalString(m) == DecimalString(n) ensures m == n {
      DecimalStringInjective(m, n);
    }
    map d | d in byLevel :: DecimalString(d) := set w | w in byLevel[d]
  }

  /** What a finished expansion from `word` at level 1 yields: levels 1..depth only,
      level 1 holding exactly the links of `word`, and only stored keys. */
  lemma ExpansionResult(lexicon: seq<Row>, linksOf: string -> seq<string>, depth: int, log: Expansion, word: string)
    requires forall w :: linksOf(w) == Linked(lexicon, w)
    requires WellFormed(linksOf, depth, log)
    requires depth >= 1 ==> log != [] && log[0].word == word && log[0].level == 1
    requires forall i :: 0 < i < |log| ==> log[i].level > 1
    ensures forall d :: d in ByLevel(log) ==> 1 <= d <= depth
    ensures depth >= 1 ==> 1 in ByLevel(log) && ByLevel(log)[1] == Linked(lexicon, word)
    ensures forall d, w :: d in ByLevel(log) && w in ByLevel(log)[d] ==> HasKey(lexicon, w)
  {
    forall d | d in ByLevel(log) ensures 1 <= d <= depth {
      ByLevelKeys(log, d);
      var i :| 0 <= i < |log| && log[i].level == d;
      ExpansionFacts(linksOf, depth, log, i);
    }
    if depth >= 1 {
      ByLevelSingle(log, 1);
      ExpansionFacts(linksOf, depth, log, 0);
    }
    forall d, w | d in ByLevel(log) && w in ByLevel(log)[d] ensures HasKey(lexicon, w) {
      ByLevelFromLinks(log, d, w);
      var i :| 0 <= i < |log| && log[i].level == d && w in log[i].links;
      ExpansionFacts(linksOf, depth, log, i);
      var def := GetDefinition(lexicon, log[i].word).value;
      LinkedWordsSound(lexicon, log[i].word, def.definition, w);
    }
  }

  /** Some level in 1..depth lists every word of `links`. */
  ghost predicate ListedAtSomeLevel(byLevel: map<nat, seq<string>>, depth: int, links: seq<string>) {
    exists e :: e in byLevel && 1 <= e <= depth && forall v :: v in links ==> v in byLevel[e]
  }

  /** A finished expansion is closed below the bound: each word listed at a level
      under `depth` was itself expanded, so its own links are listed at some level. */
  lemma ExpansionClosed(lexicon: seq<Row>, linksOf: string -> seq<string>, depth: int, log: Expansion)
    requires forall w :: linksOf(w) == Linked(lexicon, w)
    requires WellFormed(linksOf, depth, log) && LinksExpanded(log, 0, depth)
    ensures forall d: nat, w :: d in ByLevel(log) && d < depth && w in ByLevel(log)[d] ==>
              ListedAtSomeLevel(ByLevel(log), depth, Linked(lexicon, w))
  {
    forall d: nat, w | d in ByLevel(log) && d < depth && w in ByLevel(log)[d]
      ensures ListedAtSomeLevel(ByLevel(log), depth, Linked(lexicon, w))
    {
      ByLevelFromLinks(log, d, w);
      var i :| 0 <= i < |log| && log[i].level == d && w in log[i].links;
      assert w in ExpandedWords(log);
      ExpandedWordsSpec(log, w);
      var j :| 0 <= j < |log| && log[j].word == w;
      ExpansionFacts(linksOf, depth, log, j);
      ByLevelHasLinks(log, j);
      assert log[j].level in ByLevel(log) && 1 <= log[j].level <= depth;
    }
  }

  /** Some key `str(e)` for a level `e` in 1..depth lists every word of `links`. */
  ghost predicate ListedUnderSomeKey(out: map<string, set<string>>, depth: int, links: seq<string>) {
    exists e: nat :: 1 <= e <= depth && DecimalString(e) in out && forall v :: v in links ==> v in out[DecimalString(e)]
  }

  /** The JSON body of a closed expansion is closed in the same way. */
  lemma OutputClosed(lexicon: seq<Row>, depth: int, byLevel: map<nat, seq<string>>)
    requires forall d: nat, w :: d in byLevel && d < depth && w in byLevel[d] ==>
               ListedAtSomeLevel(byLevel, depth, Linked(lexicon, w))
    ensures var out := NeighborsOutput(byLevel);
      forall d: nat, w :: d < depth && DecimalString(d) in out && w in out[DecimalString(d)] ==>
        ListedUnderSomeKey(out, depth, Linked(lexicon, w))
  {
    var out := NeighborsOutput(byLevel);
    forall d: nat, w | d < depth && DecimalString(d) in out && w in out[DecimalString(d)]
      ensures ListedUnderSomeKey(out, depth, Linked(lexicon, w))
    {
      var d' :| d' in byLevel && DecimalString(d) == DecimalString(d');
      DecimalStringInjective(d, d');
      var e :| e in byLevel && 1 <= e <= depth && forall v :: v in Linked(lexicon, w) ==> v in byLevel[e];
      assert DecimalString(e) in out;
    }
  }

  /** Level `d - 1` lists a word whose links include `v`. */
  ghost predicate ParentListed(lexicon: seq<Row>, byLevel: map<nat, seq<string>>, d: nat, v: string) {
    d >= 1 && d - 1 in byLevel && exists u :: u in byLevel[d - 1] && v in Linked(lexicon, u)
  }

  /** A finished expansion started at level 1 records nothing spurious deeper down:
      each word a level from 2 on lists is a link of a word the level above lists. */
  lemma ExpansionSound(lexicon: seq<Row>, linksOf: string -> seq<string>, depth: int, log: Expansion)
    requires forall w :: linksOf(w) == Linked(lexicon, w)
    requires WellFormed(linksOf, depth, log)
    requires log != [] ==> log[0].level == 1
    ensures forall d: nat, v :: d >= 2 && d in ByLevel(log) && v in ByLevel(log)[d] ==>
              ParentListed(lexicon, ByLevel(log), d, v)
  {
    forall d: nat, v | d >= 2 && d in ByLevel(log) && v in ByLevel(log)[d]
      ensures ParentListed(lexicon, ByLevel(log), d, v)
    {
      ByLevelFromLinks(log, d, v);
      var i :| 0 <= i < |log| && log[i].level == d && v in log[i].links;
      ExpansionFacts(linksOf, depth, log, i);
      var j :| 0 <= j < i && log[j].level + 1 == log[i].level && log[i].word in log[j].links;
      ByLevelHasLinks(log, j);
      assert log[i].word in ByLevel(log)[d - 1] && v in Linked(lexicon, log[i].word);
    }
  }

  /** Key `str(d - 1)` lists a word whose links include `v`. */
  ghost predicate ParentUnderKey(lexicon: seq<Row>, out: map<string, set<string>>, d: nat, v: string) {
    d >= 1 && DecimalString(d - 1) in out && exists u :: u in out[DecimalString(d - 1)] && v in Linked(lexicon, u)
  }

  /** The JSON body of a sound expansion is sound in the same way. */
  lemma OutputSound(lexicon: seq<Row>, byLevel: map<nat, seq<string>>)
    requires forall d: nat, v :: d >= 2 && d in byLevel && v in byLevel[d] ==> ParentListed(lexicon, byLevel, d, v)
    ensures var out := NeighborsOutput(byLevel);
      forall d: nat, v :: d >= 2 && DecimalString(d) in out && v in out[DecimalString(d)] ==>
        ParentUnderKey(lexicon, out, d, v)
  {
    var out := NeighborsOutput(byLevel);
    forall d: nat, v | d >= 2 && DecimalString(d) in out && v in out[DecimalString(d)]
      ensures ParentUnderKey(lexicon, out, d, v)
    {
      var d' :| d' in byLevel && DecimalString(d) == DecimalString(d');
      DecimalStringInjective(d, d');
      var u :| u in byLevel[d - 1] && v in Linked(lexicon, u);
      assert u in out[DecimalString(d - 1)];
    }
  }

  /** `key` is `str(d)` for a level `d` in 1..depth. */
  ghost predicate IsLevelKey(key: string, depth: int) {
    exists d: nat :: 1 <= d <= depth && key == DecimalString(d)
  }

  /** The JSON body built from a finished expansion keeps its guarantees. */
  lemma OutputFacts(lexicon: seq<Row>, depth: int, byLevel: map<nat, seq<string>>, first: seq<string>)
    requires forall d :: d in byLevel ==> 1 <= d <= depth
    requires depth >= 1 ==> 1 in byLevel && byLevel[1] == first
    requires forall d, w :: d in byLevel && w in byLevel[d] ==> HasKey(lexicon, w)
    ensures forall key :: key in NeighborsOutput(byLevel) ==> IsLevelKey(key, depth)
    ensures depth >= 1 ==> "1" in NeighborsOutput(byLevel) && NeighborsOutput(byLevel)["1"] == set w | w in first
    ensures forall key, w :: key in NeighborsOutput(byLevel) && w in NeighborsOutput(byLevel)[key] ==> HasKey(lexicon, w)
  {
    var out := NeighborsOutput(byLevel);
    if depth >= 1 {
      assert DecimalString(1) == "1";
      assert out[DecimalString(1)] == set w | w in byLevel[1];
    }
    forall key | key in out ensures IsLevelKey(key, depth) {
      var d :| d in byLevel && key == DecimalString(d);
      assert 1 <= d <= depth && key == DecimalString(d);
    }
    forall key, w | key in out && w in out[key] ensures HasKey(lexicon, w) {
      var d :| d in byLevel && key == DecimalString(d);
    }
  }

  /** `get_neighbors(word, depth)`: `None` for an unknown word, otherwise its
      neighbours keyed by level. */
  method GetNeighbors(lexicon: seq<Row>, word: string, depth: int) returns (r: Option<map<string, set<string>>>)
    ensures r.None? <==> !WordExists(lexicon, word)
    ensures r.Some? ==> forall key :: key in r.value ==> IsLevelKey(key, depth)
    ensures r.Some? && depth >= 1 ==> "1" in r.value && r.value["1"] == set w | w in Linked(lexicon, word)
    ensures r.Some? ==> forall key, w :: key in r.value && w in r.value[key] ==> HasKey(lexicon, w)
    ensures r.Some? ==> forall d: nat, w :: d < depth && DecimalString(d) in r.value && w in r.value[DecimalString(d)] ==>
              ListedUnderSomeKey(r.value, depth, Linked(lexicon, w))
    ensures r.Some? ==> forall d: nat, v :: d >= 2 && DecimalString(d) in r.value && v in r.value[DecimalString(d)] ==>
              ParentUnderKey(lexicon, r.value, d, v)
  {
    if !WordExists(lexicon, word) {
      return None;
    }
    var linksOf := w => Linked(lexicon, w);
    var search := new NeighborSearch(linksOf, depth);
    search.Bfs(word, 1);
    ExpansionResult(lexicon, linksOf, depth, search.log, word);
    OutputFacts(lexicon, depth, search.neighborsByDepth, Linked(lexicon, word));
    ExpansionClosed(lexicon, linksOf, depth, search.log);
    OutputClosed(lexicon, depth, search.neighborsByDepth);
    ExpansionSound(lexicon, linksOf, depth, search.log);
    OutputSound(lexicon, search.neighborsByDepth);
    r := Some(NeighborsOutput(search.neighborsByDepth));
  }
}
