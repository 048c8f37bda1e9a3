/** The offline link precompute (app/data/compute_word_links.py): every definition is
    tokenised once and a link row `(source_word_id, target_word_id)` is stored for
    each filtered token that is a known `word_lower`. The database is modelled by
    the rows of `words` (in scan order) and the set of rows in `word_links`. */
module WordLinks {
  import opened Text
  import opened Batching
  import Dictionary

  type Link = (int, int)

  /** `get_stop_words()`: the on-demand list plus "also". */
  const OfflineStopWords: set<string> := Dictionary.OnDemandStopWords + {"also"}

  /** The offline list filters strictly more: "also" is dropped only here. */
  lemma StopWordListsDiffer()
    ensures Dictionary.OnDemandStopWords < OfflineStopWords
    ensures OfflineStopWords - Dictionary.OnDemandStopWords == {"also"}
  {
    AlsoIsNotOnDemand();
  }

  lemma AlsoIsNotOnDemand()
    ensures "also" !in Dictionary.OnDemandStopWords
  {
  }

  /** `extract_words_from_definition(definition, stop_words)`. */
  function ExtractWordsFromDefinition(definition: string, stopWords: set<string>): (ws: set<string>)
    ensures forall w :: w in ws ==> IsLowerWord(w) && |w| > 2 && w !in stopWords
  {
    var ws := set t | t in Tokens(Lower(definition)) && t !in stopWords && |t| > 2;
    forall w | w in ws ensures IsLowerWord(w) {
      TokensOfLowerAreLowerWords(definition, w);
    }
    ws
  }

  /** The on-demand extractor's candidates are the offline extractor's words under
      the on-demand stop list, less the lowercased source word. */
  lemma CandidatesAgree(sourceWord: string, definition: string)
    ensures Dictionary.Candidates(sourceWord, definition)
            == ExtractWordsFromDefinition(definition, Dictionary.OnDemandStopWords) - {Lower(sourceWord)}
  {
  }

  /** For a row whose `word_lower` is its word lowercased, the offline targets are the
      on-demand candidates without "also". */
  lemma OfflineTargetsAreCandidatesWithoutAlso(row: Dictionary.Row)
    requires row.wordLower == Lower(row.word)
    ensures ExtractWordsFromDefinition(row.definition, OfflineStopWords) - {row.wordLower}
            == Dictionary.Candidates(row.word, row.definition) - {"also"}
  {
    StopWordListsDiffer();
  }

  // ---------------------------------------------------------------------------
  // The word index

  /** `build_word_index()`: `{word_lower: id}` over the scanned rows, so a later row
      overwrites an earlier one with the same key. */
  function BuildWordIndex(rows: seq<Dictionary.Row>): (index: map<string, int>)
    ensures index.Keys == set r | r in rows :: r.wordLower
  {
    if rows == [] then map[]
    else
      var init := rows[..|rows| - 1];
      var last := rows[|rows| - 1];
      assert rows == init + [last];
      BuildWordIndex(init)[last.wordLower := last.id]
  }

  /** The index maps each key to the id of the last row that carries it. */
  lemma {:induction false} WordIndexLastWins(rows: seq<Dictionary.Row>, k: string)
    requires k in BuildWordIndex(rows)
    ensures exists i :: 0 <= i < |rows| && rows[i].wordLower == k && rows[i].id == BuildWordIndex(rows)[k]
                        && forall j :: i < j < |rows| ==> rows[j].wordLower != k
  {
    var init := rows[..|rows| - 1];
    var last := rows[|rows| - 1];
    if last.wordLower != k {
      WordIndexLastWins(init, k);
      var i :| 0 <= i < |init| && init[i].wordLower == k && init[i].id == BuildWordIndex(init)[k]
               && forall j :: i < j < |init| ==> init[j].wordLower != k;
      LastStaysLast(rows, init, k, i);
    }
  }

  /** A row that is the last to carry `k` before a row with another key stays the last. */
  lemma LastStaysLast(rows: seq<Dictionary.Row>, init: seq<Dictionary.Row>, k: string, i: nat)
    requires rows != [] && init == rows[..|rows| - 1] && rows[|rows| - 1].wordLower != k
    requires i < |init| && forall j :: i < j < |init| ==> init[j].wordLower != k
    ensures rows[i] == init[i]
    ensures forall j :: i < j < |rows| ==> rows[j].wordLower != k
  {
    forall j | i < j < |rows| ensures rows[j].wordLower != k {
      if j < |init| {
        assert rows[j] == init[j];
      }
    }
  }

  /** Row ids are the table's primary key. */
  ghost predicate DistinctIds(rows: seq<Dictionary.Row>) {
    forall i, j :: 0 <= i < j < |rows| ==> rows[i].id != rows[j].id
  }

  ghost predicate InjectiveIndex(index: map<string, int>) {
    forall a, b :: a in index && b in index && a != b ==> index[a] != index[b]
  }

  /** With distinct ids, different keys name different rows and so different ids;
      the key of an id is the key of the row that has it. */
  lemma WordIndexInjective(rows: seq<Dictionary.Row>)
    ensures DistinctIds(rows) ==> InjectiveIndex(BuildWordIndex(rows))
  {
    var index := BuildWordIndex(rows);
    forall a, b | DistinctIds(rows) && a in index && b in index && a != b ensures index[a] != index[b] {
      WordIndexLastWins(rows, a);
      WordIndexLastWins(rows, b);
    }
  }

  // ---------------------------------------------------------------------------
  // Links

  /** The words a row links to: its filtered tokens without its own `word_lower`. */
  function TargetWords(row: Dictionary.Row): (r: set<string>)
    ensures row.wordLower !in r
    ensures r <= ExtractWordsFromDefinition(row.definition, OfflineStopWords)
  {
    ExtractWordsFromDefinition(row.definition, OfflineStopWords) - {row.wordLower}
  }

  /** The links one row contributes: one per target word that is indexed. */
  function RowLinks(id: int, targets: set<string>, index: map<string, int>): (r: set<Link>)
    ensures forall l :: l in r ==> l.0 == id
  {
    set t | t in targets && t in index :: (id, index[t])
  }

  /** Handling one more target word adds at most its own link. */
  lemma RowLinksInsert(id: int, done: set<string>, t: string, index: map<string, int>)
    ensures RowLinks(id, done + {t}, index)
            == RowLinks(id, done, index) + (if t in index then {(id, index[t])} else {})
  {
  }

  /** Under an injective index, the link of a word not yet handled is new. */
  lemma RowLinksFresh(id: int, done: set<string>, t: string, index: map<string, int>)
    requires InjectiveIndex(index) && t in index && t !in done
    ensures (id, index[t]) !in RowLinks(id, done, index)
  {
  }

  /** The links of all `rows`, where `targetsOf` gives each row's target words
      (`TargetWords` in the precompute) and `index` resolves them to ids. */
  function Links(rows: seq<Dictionary.Row>, targetsOf: Dictionary.Row -> set<string>, index: map<string, int>): set<Link> {
    if rows == [] then {}
    else
      var last := rows[|rows| - 1];
      Links(rows[..|rows| - 1], targetsOf, index) + RowLinks(last.id, targetsOf(last), index)
  }

  /** A link is stored exactly when it goes from some row to the indexed id of one of
      that row's target words. */
  lemma {:induction false} LinksSpec(rows: seq<Dictionary.Row>, targetsOf: Dictionary.Row -> set<string>,
                                     index: map<string, int>, l: Link)
    ensures l in Links(rows, targetsOf, index) <==>
            exists i, t :: 0 <= i < |rows| && t in targetsOf(rows[i]) && t in index && l == (rows[i].id, index[t])
  {
    if rows != [] {
      var init := rows[..|rows| - 1];
      var last := rows[|rows| - 1];
      LinksSpec(init, targetsOf, index, l);
      if l in Links(rows, targetsOf, index) {
        if l in Links(init, targetsOf, index) {
          var i, t :| 0 <= i < |init| && t in targetsOf(init[i]) && t in index && l == (init[i].id, index[t]);
          assert rows[i] == init[i];
        } else {
          var t :| t in targetsOf(last) && t in index && l == (last.id, index[t]);
          assert rows[|rows| - 1] == last;
        }
      }
      if exists i, t :: 0 <= i < |rows| && t in targetsOf(rows[i]) && t in index && l == (rows[i].id, index[t]) {
        var i, t :| 0 <= i < |rows| && t in targetsOf(rows[i]) && t in index && l == (rows[i].id, index[t]);
        if i < |init| {
          assert init[i] == rows[i];
        } else {
          assert l in RowLinks(last.id, targetsOf(last), index);
        }
      }
    }
  }

  /** Every link leaves one of the rows. */
  lemma LinkSource(rows: seq<Dictionary.Row>, targetsOf: Dictionary.Row -> set<string>, index: map<string, int>, l: Link)
    requires l in Links(rows, targetsOf, index)
    ensures exists i :: 0 <= i < |rows| && l.0 == rows[i].id
  {
    LinksSpec(rows, targetsOf, index, l);
  }

  /** No word links to itself: a target's key differs from the source's key, and
      with distinct ids the indexed row is therefore another row. */
  lemma NoSelfLinks(rows: seq<Dictionary.Row>, l: Link)
    requires DistinctIds(rows)
    requires l in Links(rows, TargetWords, BuildWordIndex(rows))
    ensures l.0 != l.1
  {
    var index := BuildWordIndex(rows);
    LinksSpec(rows, TargetWords, index, l);
    var i, t :| 0 <= i < |rows| && t in TargetWords(rows[i]) && t in index && l == (rows[i].id, index[t]);
    WordIndexLastWins(rows, t);
    var k :| 0 <= k < |rows| && rows[k].wordLower == t && rows[k].id == index[t]
             && forall j :: k < j < |rows| ==> rows[j].wordLower != t;
    assert rows[i].wordLower != t;
  }

  // ---------------------------------------------------------------------------
  // The precompute

  function Elements(s: seq<Link>): set<Link> {
    set x | x in s
  }

  ghost predicate NoDuplicates(s: seq<Link>) {
    forall i, j :: 0 <= i < j < |s| ==> s[i] != s[j]
  }

  lemma AppendOne(s: seq<Link>, x: Link)
    ensures Elements(s + [x]) == Elements(s) + {x}
    ensures NoDuplicates(s) && x !in Elements(s) ==> NoDuplicates(s + [x])
  {
    assert forall k :: 0 <= k < |s| ==> (s + [x])[k] == s[k];
    if NoDuplicates(s) && x !in Elements(s) {
      forall i, j | 0 <= i < j < |s| + 1 ensures (s + [x])[i] != (s + [x])[j] {
        if j == |s| {
          assert s[i] in Elements(s);
        }
      }
    }
  }

  /** Flushed batches: every batch reached the batch size, except possibly a last,
      non-empty remainder. */
  ghost predicate BatchSizes(batches: seq<seq<Link>>, batchSize: int) {
    forall i :: 0 <= i < |batches| ==>
      |batches[i]| >= batchSize || (i == |batches| - 1 && 0 < |batches[i]| < batchSize)
  }

  /** The inner `for target_word_lower in words_in_def` loop for one row: one link per
      indexed target word, in the set's iteration order. */
  method LinksForRow(id: int, wordsInDef: set<string>, index: map<string, int>) returns (links: seq<Link>)
    ensures Elements(links) == RowLinks(id, wordsInDef, index)
    ensures InjectiveIndex(index) ==> NoDuplicates(links)
  {
    var remaining := wordsInDef;
    links := [];
    ghost var done: set<string> := {};
    while remaining != {}
      invariant remaining <= wordsInDef && done == wordsInDef - remaining
      invariant Elements(links) == RowLinks(id, done, index)
      invariant InjectiveIndex(index) ==> NoDuplicates(links)
      decreases |remaining|
    {
      var target :| target in remaining;
      LinksStep(id, done, target, index, links);
      if target in index {
        links := links + [(id, index[target])];
      }
      remaining := remaining - {target};
      done := done + {target};
      assert done == wordsInDef - remaining;
    }
  }

  /** Handling one more target word appends its link, if it has one, and keeps the
      list free of duplicates under an injective index. */
  lemma LinksStep(id: int, done: set<string>, t: string, index: map<string, int>, links: seq<Link>)
    requires t !in done && Elements(links) == RowLinks(id, done, index)
    requires InjectiveIndex(index) ==> NoDuplicates(links)
    ensures var next := if t in index then links + [(id, index[t])] else links;
      Elements(next) == RowLinks(id, done + {t}, index)
      && (InjectiveIndex(index) ==> NoDuplicates(next))
  {
    RowLinksInsert(id, done, t, index);
    if t in index {
      if InjectiveIndex(index) {
        RowLinksFresh(id, done, t, index);
      }
      AppendOne(links, (id, index[t]));
    }
  }

  /** `compute_word_links(batch_size)`: clears any existing links, then stores the
      links of every row, in batches. Returns the flushed batches, the final contents
      of `word_links` and the number of rows processed. */
  method ComputeWordLinks(rows: seq<Dictionary.Row>, batchSize: int, existing: set<Link>)
    returns (batches: seq<seq<Link>>, stored: set<Link>, processed: nat, ghost perRow: seq<seq<Link>>)
    ensures processed == |rows|
    ensures stored == Links(rows, TargetWords, BuildWordIndex(rows))
    ensures Elements(Flatten(batches)) == stored
    ensures DistinctIds(rows) ==> NoDuplicates(Flatten(batches))
    ensures BatchSizes(batches, batchSize)
    ensures |perRow| == |rows| && Flatten(batches) == Flatten(perRow)
    ensures forall i :: 0 <= i < |rows| ==>
      Elements(perRow[i]) == RowLinks(rows[i].id, TargetWords(rows[i]), BuildWordIndex(rows))
  {
    var wordIndex := BuildWordIndex(rows);
    WordIndexInjective(rows);
    var cleared: set<Link> := if |existing| > 0 then {} else existing;
    batches, stored, processed, perRow := ScanRows(rows, TargetWords, wordIndex, batchSize, cleared);
  }

  /** The scan loop of `compute_word_links`: for each row, in order, buffer one link
      per indexed target word (`targetsOf` is the row's filtered definition words,
      less its own key), flush the buffer into the table whenever it holds at least
      `batchSize` links, and flush a non-empty remainder at the end. */
  method ScanRows(rows: seq<Dictionary.Row>, targetsOf: Dictionary.Row -> set<string>, wordIndex: map<string, int>,
                  batchSize: int, initial: set<Link>)
    returns (batches: seq<seq<Link>>, stored: set<Link>, processed: nat, ghost perRow: seq<seq<Link>>)
    ensures processed == |rows|
    ensures Elements(Flatten(batches)) == Links(rows, targetsOf, wordIndex)
    ensures stored == initial + Elements(Flatten(batches))
    ensures DistinctIds(rows) && InjectiveIndex(wordIndex) ==> NoDuplicates(Flatten(batches))
    ensures BatchSizes(batches, batchSize)
    ensures |perRow| == |rows| && Flatten(batches) == Flatten(perRow)
    ensures forall i :: 0 <= i < |rows| ==>
      Elements(perRow[i]) == RowLinks(rows[i].id, targetsOf(rows[i]), wordIndex)
    ensures InjectiveIndex(wordIndex) ==> forall i :: 0 <= i < |rows| ==> NoDuplicates(perRow[i])
  {
    ghost var injective := DistinctIds(rows) && InjectiveIndex(wordIndex);
    stored := initial;
    var linksBatch: seq<Link> := [];
    batches := [];
    processed := 0;
    ghost var emitted: seq<Link> := [];
    perRow := [];
    while processed < |rows|
      invariant processed <= |rows|
      invariant emitted == Flatten(batches) + linksBatch
      invariant |perRow| == processed && emitted == Flatten(perRow)
      invariant forall i :: 0 <= i < processed ==>
        Elements(perRow[i]) == RowLinks(rows[i].id, targetsOf(rows[i]), wordIndex)
      invariant InjectiveIndex(wordIndex) ==> forall i :: 0 <= i < processed ==> NoDuplicates(perRow[i])
      invariant stored == initial + Elements(Flatten(batches))
      invariant Elements(emitted) == Links(rows[..processed], targetsOf, wordIndex)
      invariant injective ==> NoDuplicates(emitted)
      invariant forall i :: 0 <= i < |batches| ==> |batches[i]| >= batchSize
      invariant linksBatch != [] ==> |linksBatch| < batchSize
    {
      var row := rows[processed];
      var links := LinksForRow(row.id, targetsOf(row), wordIndex);
      AppendRow(rows, processed, targetsOf, wordIndex, emitted, links);
      BufferMore(batches, linksBatch, emitted, links);
      FlattenAppend(perRow, links);
      perRow := perRow + [links];
      emitted := emitted + links;
      linksBatch := linksBatch + links;
      if |linksBatch| >= batchSize {
        FlushBuffer(batches, linksBatch, emitted);
        FlattenAppend(batches, linksBatch);
        batches := batches + [linksBatch];
        stored := stored + Elements(linksBatch);
        linksBatch := [];
      }
      processed := processed + 1;
    }
    assert rows[..processed] == rows;
    if linksBatch != [] {
      FlattenAppend(batches, linksBatch);
      batches := batches + [linksBatch];
      stored := stored + Elements(linksBatch);
    } else {
      assert emitted == Flatten(batches);
    }
  }

  /** Appending one row's links to the links of the rows before it. */
  lemma AppendRow(rows: seq<Dictionary.Row>, i: nat, targetsOf: Dictionary.Row -> set<string>, index: map<string, int>,
                  emitted: seq<Link>, links: seq<Link>)
    requires i < |rows|
    requires Elements(emitted) == Links(rows[..i], targetsOf, index)
    requires Elements(links) == RowLinks(rows[i].id, targetsOf(rows[i]), index)
    requires DistinctIds(rows) && InjectiveIndex(index) ==> NoDuplicates(emitted) && NoDuplicates(links)
    ensures Elements(emitted + links) == Links(rows[..i + 1], targetsOf, index)
    ensures DistinctIds(rows) && InjectiveIndex(index) ==> NoDuplicates(emitted + links)
  {
    assert rows[..i + 1][..i] == rows[..i];
    assert Elements(emitted + links) == Elements(emitted) + Elements(links);
    if DistinctIds(rows) && InjectiveIndex(index) {
      forall a, b | 0 <= a < |emitted| && 0 <= b < |links| ensures emitted[a] != links[b] {
        assert emitted[a] in Elements(emitted);
        LinkSource(rows[..i], targetsOf, index, emitted[a]);
        assert links[b] in Elements(links);
      }
      var s := emitted + links;
      forall p, q | 0 <= p < q < |s| ensures s[p] != s[q] {
        if q < |emitted| {
          assert s[p] == emitted[p] && s[q] == emitted[q];
        } else if p >= |emitted| {
          assert s[p] == links[p - |emitted|] && s[q] == links[q - |emitted|];
        } else {
          assert s[p] == emitted[p] && s[q] == links[q - |emitted|];
        }
      }
    }
  }
}
