# xNillio word-link engine in Dafny

xNillio turns the GNU Collaborative International Dictionary of English (GCIDE) into
a graph of words. In that graph, a word links to each dictionary word its definition
mentions. This project models the parts of that engine that decide what ends up in
the dictionary and which links exist:

- **the dictionary-source parser** (`app/data/process_gcide.py`). It splits an
  HTML-like GCIDE file into `<p><ent>word</ent>…` sections. For each section it
  assembles the definition from the `<def>` bodies, after their sense numbers, with the
  markup removed. It picks the stored word from the `<hw>` headwords, and it validates
  both word and definition. It also splits the plain-text alternative format and
  batches the entries into database rows;
- **the dictionary service** (`app/services/dictionary.py`). This covers
  lookups by lowercased word, on-demand link extraction, prefix search, and the
  level-by-level neighbour expansion behind `/words/{word}/neighbors`;
- **the link precompute** (`app/data/compute_word_links.py`). It builds the
  word index, runs the per-row link loop with its self-link exclusion, and inserts the
  links in batches;
- **the graph service** (`app/services/graph.py`). It builds the directed graph once
  and caches it, and it reports degree statistics, top words and cycles.

The modules follow the program:

| module | file | covers |
|---|---|---|
| `Text` | `text.dfy` | characters, `lower()`, `strip()`, the `\b[a-zA-Z]+\b` tokenizer, `split`/`join` |
| `Sorting` | `sorting.dfy` | code-point string order, `sorted()`, the stable descending sort by degree, Python slicing |
| `Regex` | `regex.dfy` | the parser's regular expressions, with `re.search`/`finditer`/`sub` semantics |
| `WordFilter` | `word_filter.dfy` | `_is_valid_word` |
| `EntryParser` | `entry_parser.dfy` | definition extraction and `_parse_entry_content` |
| `GcideFiles` | `gcide_files.dfy` | the HTML and text file parsers, `load_entries`, the download progress percentage |
| `Batching` | `batching.dfy` | the buffer-and-flush pattern both loaders share |
| `Dictionary` | `dictionary.dfy` | `DictionaryService` |
| `WordLinks` | `word_links.dfy` | `compute_word_links.py` |
| `Graph` | `graph.dfy` | `GraphService` |

The database is modelled as values:

- The `words` table is a sequence of rows. Their order stands for the order in which
  the database returns them.
- `word_lower` is not unique. Case variants of one spelling are separate rows with
  the same key.
- The `word_links` table is a set of `(source id, target id)` pairs. An insert with
  `ON CONFLICT DO NOTHING` is set union.

Two kinds of state become classes:

- The neighbour search keeps its `visited` set and `neighbors_by_depth` dictionary as
  fields of `Dictionary.NeighborSearch`. Its recursive `bfs` is a method.
- The graph cache is a field of `Graph.GraphService`.

Loops the source writes as loops are methods with loop invariants. Each is proved
against a specification function, and the properties the source relies on are
lemmas about that function.

Python's iteration over a `set` has an unspecified order:

- The link loop picks each target word with a choice, so its guarantees hold for every
  order.
- `list(set(words))` in the neighbour output is modelled as a set.

Where the specification of the system and its code differ, the model follows the
code:

- The specification describes a compound-phrase scan, in which a multi-word entry
  suppresses the single words inside it. The code has no such scan, and links are
  single words only.
- The specification wants one stop-word list shared by every caller. The code's
  on-demand extractor (`dictionary.py`) has no `"also"` in its list, and the precompute
  (`compute_word_links.py`) does. So the stored links are the on-demand links minus
  `also` (`WordLinks.OfflineTargetsAreCandidatesWithoutAlso`).
- The specification asks for zero averages on an empty graph. The code returns an
  error result instead (`Graph.GraphStatistics`).
- `sample_cycles` is `cycles[:5]` cut again to three, so at most three cycles are
  reported.
- `get_top_words` applies `[:limit]` as Python does. A negative limit drops the last
  `|limit|` words rather than being rejected.
- The specification says a word listed at depth 1 is never listed again at depth 2.
  In the code only expansion checks `visited`; recording does not. Each expanded word
  appends all of its links to its level's list (`Dictionary.NeighborSearch.Visit`).
  So key `"2"` can list the start word or a word from key `"1"` again, for instance
  when a word listed under `"1"` mentions the start word in its definition.

## Model

| member | source | states |
|---|---|---|
| Text.Lower | app/services/dictionary.py:43 | `lower()` keeps the length and lowers each ASCII capital by 32 code points, leaving other characters alone |
| Text.LowerIdempotent | app/services/dictionary.py:138 | lowering twice is lowering once, so comparing against `source_word.lower()` is stable |
| Text.Strip | app/data/process_gcide.py:140 | the stripped text is the slice of the input between its leading and trailing whitespace: every character cut off on either side is whitespace, and the kept text neither starts nor ends with whitespace |
| Text.StripNoop | app/data/process_gcide.py:140 | stripping text that has no whitespace at either end changes nothing |
| Text.CountLettersPositive | app/data/process_gcide.py:153 | the letter count is positive exactly when the text has an ASCII letter |
| Text.ContainsSub | app/data/process_gcide.py:202 | the substring test answers true exactly when the pattern occurs at some position |
| Text.TokensSpec | app/services/dictionary.py:68 | a string is a token of `\b[a-zA-Z]+\b` exactly when it is a maximal letter run with no word character on either side |
| Text.TokensOfLowerAreLowerWords | app/services/dictionary.py:68 | every token of lowered text is a non-empty run of lowercase letters |
| Text.JoinAppend | app/data/process_gcide.py:83 | joining one more part adds the separator and that part at the end |
| Text.IndexOf | app/data/process_gcide.py:403 | the first position of the character: it is there and nowhere before |
| Text.SplitChar | app/data/process_gcide.py:403 | `split` gives at least one part and no part holds the separator |
| Text.SplitCharJoin | app/data/process_gcide.py:403-406 | joining the parts of a split with the separator gives back the text |
| Text.JoinSplitChar | app/data/process_gcide.py:403-406 | splitting a join of separator-free parts gives back the parts |
| Sorting.StrLeTotal | app/services/dictionary.py:157 | code-point string order is total |
| Sorting.StrLeTransitive | app/services/dictionary.py:157 | code-point string order is transitive |
| Sorting.StrLeAntisymmetric | app/services/dictionary.py:157 | code-point string order is antisymmetric |
| Sorting.SortStrings | app/services/dictionary.py:157 | `sorted()` is an ascending permutation of its input |
| Sorting.SortedStringsUnique | app/services/dictionary.py:157 | two ascending permutations of the same strings are equal, so the sorted result is determined |
| Sorting.SortDesc | app/services/graph.py:83-87 | sorting by degree in reverse gives a permutation in non-increasing degree |
| Sorting.SortDescStable | app/services/graph.py:83-87 | the sort is stable: the words of any one degree keep their input order |
| Sorting.SliceTo | app/services/graph.py:87 | `[:n]` keeps a prefix of length `min(n, len)`, and for negative `n` drops the last `-n` |
| Regex.NextChar | app/data/process_gcide.py:38 | the first occurrence of the character at or after the start, with none before it |
| Regex.FindLiteral | app/data/process_gcide.py:400 | the first position at or after the start where the literal occurs, or none anywhere |
| Regex.LazyAt | app/data/process_gcide.py:38 | a lazy `open(.*?)close` match exists exactly when `open` is here and some `close` follows; it ends at the first `close` and captures the text between |
| Regex.BoundedMatchSpec | app/data/process_gcide.py:305 | an `open([^<]+)close` match exists exactly when a `<`-free body of the minimum length runs up to `close`, and the match is that body |
| Regex.MatchAt | app/data/process_gcide.py:38 | a match found at a position starts there and ends after it, inside the text |
| Regex.Search | app/data/process_gcide.py:326 | `re.search` gives the leftmost position where the pattern matches, or none when no position matches |
| Regex.FindAll | app/data/process_gcide.py:307 | `re.finditer` lists genuine matches in order, without overlap and with no match skipped between two of them; the first one is what `re.search` finds |
| Regex.SubNoMatch | app/data/process_gcide.py:51 | `re.sub` leaves text where the pattern matches nowhere unchanged |
| Regex.DeleteShortens | app/data/process_gcide.py:51-61 | deleting matches never lengthens the text |
| Regex.CharRunGone | app/data/process_gcide.py:68-70 | after `[ \t]+` or `\n+` is replaced by a space, none of those characters is left |
| Regex.SubKeepsOnly | app/data/process_gcide.py:65-70 | a character every occurrence of which starts a match does not survive the substitution |
| WordFilter.IsValidWord | app/data/process_gcide.py:135-206 | an accepted word has a stripped form of 1 to 50 characters with a letter, not starting with a digit or parenthesis, at least 30% letters, and no documentation keyword when longer than 20 |
| WordFilter.PassesChecks | app/data/process_gcide.py:140-206 | the rejections in the source's order, on the stripped word; `IsValidWord`'s contract and the `SentenceLike`/`WordsFollow` lemmas state what they exclude |
| WordFilter.ValidWordStripInvariant | app/data/process_gcide.py:137-140 | a word and its stripped form are judged alike |
| WordFilter.PlainWordIsValid | app/data/process_gcide.py:135-206 | every plain word of 1 to 20 ASCII letters is accepted |
| WordFilter.LongTextIsInvalid | app/data/process_gcide.py:144-145 | a word longer than 50 characters once stripped is rejected |
| WordFilter.DocumentationIsInvalid | app/data/process_gcide.py:199-204 | a stripped word longer than 20 characters containing a documentation keyword is rejected |
| WordFilter.AboveIsValid | app/data/process_gcide.py:196-202 | the keyword test applies only to long entries: `above` is itself a keyword and still a valid word |
| WordFilter.SentenceLikeSound | app/data/process_gcide.py:174 | a rejected sentence has the shape article, spaces, a word of two or more letters, spaces, a listed verb |
| WordFilter.SentenceLikeComplete | app/data/process_gcide.py:174 | every text of that shape is rejected as a sentence |
| WordFilter.WordsFollowSound | app/data/process_gcide.py:175 | the long-phrase test passes only on `a`/`an` followed by five space-separated words |
| WordFilter.WordsFollowComplete | app/data/process_gcide.py:175 | every text of that shape passes the long-phrase test |
| EntryParser.DeletingPipelineShortens | app/data/process_gcide.py:51-61 | a chain of deleting substitutions never lengthens the text |
| EntryParser.StripMetadata | app/data/process_gcide.py:51-61 | removing headword, pronunciation, part-of-speech, etymology, sense and source markup never lengthens the text |
| EntryParser.TagStepsLeaveOneLine | app/data/process_gcide.py:65-70 | after tags and blank runs are replaced no newline or tab is left |
| EntryParser.CleanText | app/data/process_gcide.py:65-71 | the cleaned text has no newline or tab and no whitespace at either end |
| EntryParser.SenseNumber | app/data/process_gcide.py:46 | a sense number found is non-empty and free of `<`; `SenseNumberSound` and `SenseNumberComplete` characterise it both ways |
| EntryParser.SenseNumberSound | app/data/process_gcide.py:45-46 | a found sense number comes from `<sn>g</sn>` followed only by whitespace, with `g` non-empty and free of `<` |
| EntryParser.SenseNumberComplete | app/data/process_gcide.py:45-46 | every text ending in `<sn>g</sn>` and whitespace gives sense number `g` |
| EntryParser.LastLtUnique | app/data/process_gcide.py:46 | the last `<` before a position is found, whichever search finds it |
| EntryParser.DefinitionPiece | app/data/process_gcide.py:43-78 | one `<def>` contributes a piece exactly when its cleaned body is non-empty, and the piece ends in a non-space |
| EntryParser.WithSense | app/data/process_gcide.py:75-77 | prefixing the sense number keeps the piece non-empty and its last character |
| EntryParser.SenseNumberPrefix | app/data/process_gcide.py:45-77 | with a sense number in the 200 characters before a `<def>`, the piece is the stripped number, a space and the cleaned body |
| EntryParser.Pieces | app/data/process_gcide.py:42-78 | at most one piece per `<def>`, each non-empty and ending in a non-space |
| EntryParser.FallbackDefinition | app/data/process_gcide.py:89-130 | the fallback is the cleaned, metadata-free content, and it is empty exactly when that text is under ten characters or has no run of three letters; it has no newline or tab |
| EntryParser.JoinEnds | app/data/process_gcide.py:81-85 | a join ends as its last part does |
| EntryParser.DefinitionOf | app/data/process_gcide.py:31-132 | the definition `_extract_definition_from_content` returns; `DefinitionJoinsPieces`, `FallbackDefinition` and `CleanText` state what it holds |
| EntryParser.DefinitionJoinsPieces | app/data/process_gcide.py:80-132 | with pieces, the definition is their join with the separator and ends in a non-space; without, it is the fallback |
| EntryParser.ExtractDefinitionFromContent | app/data/process_gcide.py:31-132 | the loop over `<def>` matches produces the definition just described |
| EntryParser.CollectPieces | app/data/process_gcide.py:42-78 | the loop collects exactly the pieces, in match order |
| EntryParser.DropLeading | app/data/process_gcide.py:222 | removing leading `(` leaves a suffix that does not start with `(`, and only `(` was removed |
| EntryParser.DropTrailing | app/data/process_gcide.py:222 | removing trailing `)` leaves a prefix that does not end with `)`, and only `)` was removed |
| EntryParser.StripParens | app/data/process_gcide.py:222 | what remains neither starts with `(` nor ends with `)`; `DropLeading` and `DropTrailing` say only those runs go |
| EntryParser.StripParensIdempotent | app/data/process_gcide.py:222 | removing outer parentheses twice is removing them once |
| EntryParser.PronunciationOf | app/data/process_gcide.py:216-225 | a pronunciation, when there is one, is non-empty with no whitespace at either end |
| EntryParser.Normalize | app/data/process_gcide.py:234 | normalising leaves no pronunciation mark, whitespace or capital |
| EntryParser.NormalizeKeepsLetters | app/data/process_gcide.py:234 | a word with a letter does not normalise to nothing |
| EntryParser.MatchingHeadword | app/data/process_gcide.py:237-245 | the headword found is a stripped `<hw>` body that normalises to the target; none found means no headword does |
| EntryParser.MatchingHeadwordStep | app/data/process_gcide.py:238-245 | the search takes the first matching headword in order |
| EntryParser.ChosenWord | app/data/process_gcide.py:230-257 | the stored word is the entry word or the single headword; `ChosenWordSpec` says which, both ways |
| EntryParser.ChosenWordSpec | app/data/process_gcide.py:230-257 | for a valid entry word, the stored word is that word or the only headword; the only headword is stored exactly when it normalises differently and is more than 1.5 times as long |
| EntryParser.ChooseWord | app/data/process_gcide.py:230-257 | the headword loop gives the chosen word |
| EntryParser.Accept | app/data/process_gcide.py:262-286 | an entry is produced exactly when the word is valid and the definition is longer than 5, at least 30% letters and not table-like |
| EntryParser.EntryOf | app/data/process_gcide.py:209-286 | a parsed entry has a valid entry word and stored word, an acceptable definition, and the definition, pronunciation and word the content gives |
| EntryParser.ParseEntryContent | app/data/process_gcide.py:209-286 | the checks in the source's order give that same entry or none |
| GcideFiles.Slice | app/data/process_gcide.py:317-319 | a Python slice with valid bounds is the sequence slice |
| GcideFiles.SectionEntry | app/data/process_gcide.py:326-337 | a section with no `<ent>` tag gives no entry; otherwise the entry of the stripped text after the tag; `SectionFindsTag` shows the tag is found |
| GcideFiles.HtmlEntries | app/data/process_gcide.py:313-337 | at most one entry per `<ent>` section |
| GcideFiles.ParseGcideHtml | app/data/process_gcide.py:289-345 | the parser returns the entries of the sections in file order |
| GcideFiles.CollectHtmlEntries | app/data/process_gcide.py:313-337 | the section loop collects exactly those entries |
| GcideFiles.SectionFindsTag | app/data/process_gcide.py:326-330 | inside each section, `<ent>[^<]+</ent>` is found at offset 3 with the entry word, so `continue` is never taken |
| GcideFiles.EntStartsTile | app/data/process_gcide.py:313-319 | the sections laid end to end are the file from the first `<p><ent>` on |
| GcideFiles.EntStartsInOrder | app/data/process_gcide.py:307-310 | entry starts lie inside the file in increasing order |
| GcideFiles.SplitBlankLines | app/data/process_gcide.py:400 | `re.split(r"\n\n+")` gives at least one part, none holds a blank line, and parts do not start or end with a newline where the split leaves none |
| GcideFiles.JoinSplitBlankLines | app/data/process_gcide.py:400 | splitting paragraphs joined by blank lines gives back the paragraphs |
| GcideFiles.TextEntry | app/data/process_gcide.py:402-409 | an entry it gives has a non-empty word and definition and no pronunciation; `TextEntrySpec` characterises it both ways |
| GcideFiles.TextEntrySpec | app/data/process_gcide.py:402-409 | a text block gives an entry exactly when its stripped text has a line break with text on both sides; the word is the first line and the definition the rest, both stripped |
| GcideFiles.TextEntries | app/data/process_gcide.py:402-409 | at most one entry per block, each with a non-empty word and definition and no pronunciation |
| GcideFiles.ParseGcideText | app/data/process_gcide.py:388-413 | the text parser returns the entries of the blocks in order |
| GcideFiles.CollectTextEntries | app/data/process_gcide.py:402-409 | the block loop collects exactly those entries |
| GcideFiles.ParseTextBlock | app/data/process_gcide.py:403-409 | one block's lines give that block's entry |
| GcideFiles.BatchLimit | app/data/process_gcide.py:508 | a batch is flushed at `batch_size` rows, or after every row when `batch_size` is below 1 |
| GcideFiles.RecordOf | app/data/process_gcide.py:494-505 | a row keeps the entry's word, pronunciation and definition, with `word_lower` the lowered word and `definition_length` the definition's length |
| GcideFiles.Records | app/data/process_gcide.py:494-505 | one row per entry, in entry order |
| GcideFiles.LoadEntries | app/data/process_gcide.py:481-522 | the flushed batches are every entry's row in order; all but the last are full, the last is non-empty, and there are `ceil(n / size)` of them |
| GcideFiles.ProgressPercent | app/data/process_gcide.py:591-594 | the percentage is 0 without a total size, 100 once the download reaches it, and otherwise the floor of downloaded/total × 100 |
| GcideFiles.ProgressMonotone | app/data/process_gcide.py:594 | the percentage never goes down as blocks arrive |
| Batching.FlattenAppend | app/data/compute_word_links.py:185-209 | flushing one more batch appends its contents to what was written |
| Batching.FlushBuffer | app/data/compute_word_links.py:185-209 | flushing the buffer keeps everything emitted accounted for in the batches |
| Dictionary.FirstRowWithKey | app/services/dictionary.py:41-44 | the first row whose `word_lower` is the key, or none when no row has it |
| Dictionary.GetDefinition | app/services/dictionary.py:37-52 | a definition exactly when a row has the lowercased word, and then that row's fields |
| Dictionary.WordExists | app/services/dictionary.py:54-61 | true exactly when a row has the lowercased word |
| Dictionary.ExistsIffDefinition | app/services/dictionary.py:37-61 | a word exists exactly when it has a definition |
| Dictionary.ExtractLinkedWords | app/services/dictionary.py:63-157 | the linked words are sorted, and empty when no candidate word survives the filter |
| Dictionary.LinkedWordsSound | app/services/dictionary.py:68-155 | each linked word is a lowercase token of the definition, not a stop word, not the source word, longer than two, and a dictionary key |
| Dictionary.LinkedWordsComplete | app/services/dictionary.py:134-155 | every candidate that is a dictionary key is linked |
| Dictionary.LinkedWordsMultiplicity | app/services/dictionary.py:151-155 | each candidate appears once per row with that key, since the `IN` query returns every matching row |
| Dictionary.MatchingKeysCount | app/services/dictionary.py:151-155 | the `IN` query returns a key as often as rows have it |
| Dictionary.LikeMatch | app/services/dictionary.py:201-204 | PostgreSQL `LIKE` with `%`, `_` and `\` escapes; `LikePrefix` and `UnderscoreIsWildcard` state what a query pattern matches |
| Dictionary.WordsLike | app/services/dictionary.py:201-204 | every word listed belongs to a row whose key matches the pattern; `SearchWords` is stated against it |
| Dictionary.LikePrefix | app/services/dictionary.py:201-204 | for a query without `%`, `_` or `\`, `LIKE query%` is a prefix test |
| Dictionary.UnderscoreIsWildcard | app/services/dictionary.py:202-203 | for any query `a_b` without other metacharacters, a key matches exactly when it starts with `a`, has one more character of any kind, and then starts with `b` |
| Dictionary.SearchWords | app/services/dictionary.py:197-206 | the first `limit` words, in order, of the rows whose key matches `LIKE query%`: the result is sorted, drawn from those words without repetition beyond theirs, and any matching word left out means the list is full of words no greater than it |
| Dictionary.SearchWordsPrefix | app/services/dictionary.py:201-206 | for an ordinary query every result's key starts with the lowercased query |
| Dictionary.Linked | app/services/dictionary.py:175-181 | the words `bfs` records for a word: none without a definition, else the extracted linked words; `LinkedWordsSound`, `LinkedWordsComplete` and `LinkedWordsMultiplicity` characterise them |
| Dictionary.ExpandedWordsSpec | app/services/dictionary.py:171 | the visited set is exactly the words expanded so far |
| Dictionary.ByLevelKeys | app/services/dictionary.py:173-174 | a level has an entry exactly when some word was expanded at it |
| Dictionary.EnsureThenExtend | app/services/dictionary.py:173-181 | creating the level's list if missing and then extending it adds the links at that level and changes no other level |
| Dictionary.NeighborSearch.constructor | app/services/dictionary.py:164-165 | the search starts with nothing visited and no levels |
| Dictionary.NeighborSearch.Bfs | app/services/dictionary.py:167-186 | a word beyond the depth or already visited changes nothing; otherwise it is recorded at its level first and everything after is deeper; below the depth bound all of its links end up visited, and every step it adds below the bound has its links expanded |
| Dictionary.NeighborSearch.Visit | app/services/dictionary.py:171-181 | the word becomes visited and its links are appended at its level |
| Dictionary.NeighborSearch.ExpandLinks | app/services/dictionary.py:183-186 | afterwards every link is visited, each step added below the depth bound has its links expanded, and the steps added are deeper |
| Dictionary.ExpansionFacts | app/services/dictionary.py:168-186 | every expanded word has a level from 1 to depth, its own links, is expanded once, and is linked from a word one level up |
| Dictionary.ExpansionResult | app/services/dictionary.py:167-188 | after `bfs(word, 1)` every level lies between 1 and depth, level 1 holds the word's own links, and every neighbour is a dictionary key |
| Dictionary.DecimalRoundTrip | app/services/dictionary.py:193 | `str(d)` reads back as `d` |
| Dictionary.DecimalStringInjective | app/services/dictionary.py:193 | different levels get different keys |
| Dictionary.NeighborsOutput | app/services/dictionary.py:190-195 | each level `d` appears under `str(d)` as the set of its words, and no other key appears |
| Dictionary.OutputFacts | app/services/dictionary.py:190-195 | output keys are levels 1 to depth; key `"1"` holds the word's links; every neighbour is a dictionary key |
| Dictionary.ExpansionClosed | app/services/dictionary.py:167-186 | after the search, every word listed at a level below `depth` was itself expanded, so all its links are listed at some level from 1 to `depth` |
| Dictionary.OutputClosed | app/services/dictionary.py:190-195 | the same closure holds for the `str(level)` keys of the JSON body |
| Dictionary.ExpansionSound | app/services/dictionary.py:171-186 | after the search, every word a level from 2 on lists is a link of some word the level above lists |
| Dictionary.OutputSound | app/services/dictionary.py:190-195 | the same holds between keys `str(d)` and `str(d - 1)` of the JSON body |
| Dictionary.GetNeighbors | app/services/dictionary.py:159-195 | none exactly for an unknown word; otherwise keys are levels 1 to depth, `"1"` holds the word's own links when depth ≥ 1, every neighbour is a dictionary word, every word under a key `str(d)` with d ≥ 2 is a link of a word under `str(d - 1)`, and every word listed under a level below `depth` has all its links listed under some level key |
| WordLinks.StopWordListsDiffer | app/data/compute_word_links.py:19-80 | the offline stop list is the on-demand one plus exactly `also` |
| WordLinks.AlsoIsNotOnDemand | app/services/dictionary.py:74-132 | `also` is not an on-demand stop word |
| WordLinks.ExtractWordsFromDefinition | app/data/compute_word_links.py:83-86 | every extracted word is a lowercase letter run longer than two and not a stop word |
| WordLinks.CandidatesAgree | app/data/compute_word_links.py:83-86 | the on-demand candidates are the offline extraction with the on-demand stop list, minus the source word |
| WordLinks.OfflineTargetsAreCandidatesWithoutAlso | app/data/compute_word_links.py:173-176 | the precompute's targets for a row are the on-demand candidates minus `also` |
| WordLinks.BuildWordIndex | app/data/compute_word_links.py:89-96 | the index has exactly the keys of the rows |
| WordLinks.WordIndexLastWins | app/data/compute_word_links.py:94 | a key maps to the id of the last row with that key |
| WordLinks.WordIndexInjective | app/data/compute_word_links.py:94 | with distinct row ids, distinct keys get distinct ids |
| WordLinks.TargetWords | app/data/compute_word_links.py:173-176 | a row's targets are among its extracted words and never its own key |
| WordLinks.RowLinks | app/data/compute_word_links.py:179-182 | every link of a row starts at that row; `RowLinksInsert` builds it one target at a time |
| WordLinks.Links | app/data/compute_word_links.py:169-182 | the links of all rows; `LinksSpec` states exactly which links it holds |
| WordLinks.RowLinksInsert | app/data/compute_word_links.py:179-182 | one more target adds its link exactly when it is indexed |
| WordLinks.RowLinksFresh | app/data/compute_word_links.py:179-182 | with an injective index a new target gives a link not yet produced |
| WordLinks.LinksSpec | app/data/compute_word_links.py:169-182 | a link is stored exactly when some row has an indexed target word leading to it |
| WordLinks.LinkSource | app/data/compute_word_links.py:169-182 | every link starts at a processed row |
| WordLinks.NoSelfLinks | app/data/compute_word_links.py:176 | with distinct row ids no word links to itself |
| WordLinks.LinksForRow | app/data/compute_word_links.py:179-182 | one row's loop produces exactly its links, without duplicates when the index is injective |
| WordLinks.LinksStep | app/data/compute_word_links.py:179-182 | one step of that loop keeps both facts |
| WordLinks.AppendRow | app/data/compute_word_links.py:169-182 | adding a row's links to what was emitted gives the links of one more row, still without duplicates |
| WordLinks.ScanRows | app/data/compute_word_links.py:165-209 | every row is processed, the flushed batches carry exactly the links, the store gains just them, no link is emitted twice, and batches are full except a non-empty last one; read in order, the batches are the rows' link lists in row order, each list holding exactly that row's links |
| WordLinks.ComputeWordLinks | app/data/compute_word_links.py:99-215 | after clearing, the stored links are exactly the links of all rows, all flushed in batches of the batch size, in row order with each row's links together |
| Graph.AddNode | app/services/graph.py:37 | adding a node keeps the graph well formed and adds just that node |
| Graph.AddEdge | app/services/graph.py:44 | adding an edge adds it and its missing endpoints and keeps the graph well formed |
| Graph.AddEdges | app/services/graph.py:43-44 | the new edges are from the word to each linked word, and the nodes grow by their endpoints |
| Graph.AddLinkedEdges | app/services/graph.py:43-44 | the edge loop adds exactly those edges |
| Graph.ScanIntoGraph | app/services/graph.py:30-44 | the row loop builds exactly the graph of the rows |
| Graph.GraphOf | app/services/graph.py:27-44 | the built graph is well formed: distinct nodes and edges between nodes |
| Graph.GraphOfNodes | app/services/graph.py:33-44 | a node exists exactly when some row's lowercased word or linked word is that word |
| Graph.GraphOfEdges | app/services/graph.py:33-44 | an edge exists exactly when some row's definition links its word to the target |
| Graph.NoSelfLoops | app/services/graph.py:40-44 | an extractor that never returns the source word gives a graph without self-loops |
| Graph.ExtractorExcludesSource | app/services/dictionary.py:138 | the on-demand extractor never returns the source word |
| Graph.SumInCounts | app/services/graph.py:79 | the in-degrees of distinct nodes add up to the edges into them |
| Graph.SumOutCounts | app/services/graph.py:80 | the out-degrees of distinct nodes add up to the edges out of them |
| Graph.DegreeSums | app/services/graph.py:125-130 | in-degree and out-degree totals both equal the edge count |
| Graph.InDegrees | app/services/graph.py:79 | one in-degree per node, in node order |
| Graph.OutDegrees | app/services/graph.py:80 | one out-degree per node, in node order |
| Graph.TotalDegrees | app/services/graph.py:146-148 | one total degree per node, in node order |
| Graph.TopK | app/services/graph.py:83-87 | the top `k` are sorted by degree, a sub-multiset of the input, and number `min(k, len)` |
| Graph.TopKNamesDistinct | app/services/graph.py:83-87 | cutting a ranking whose names are distinct keeps them distinct |
| Graph.TopKIsTop | app/services/graph.py:83-87 | nothing left out ranks above anything kept |
| Graph.TopKStable | app/services/graph.py:83-87 | the kept words of each degree are the first words of that degree in input order |
| Graph.CycleHasTwoWords | app/services/graph.py:114 | without self-loops every simple cycle has at least two words |
| Graph.LargestSize | app/services/graph.py:101-104 | the largest component size is the size of some component and at least every other, and 0 without components |
| Graph.LargestComponentPositive | app/services/graph.py:97-104 | a non-empty graph has a largest component of at least one word |
| Graph.GraphStatistics | app/services/graph.py:67-140 | an error exactly for an empty graph; otherwise the node and edge counts, the top ten of the in-degree and out-degree rankings (so `TopKIsTop` applies), the size of the largest component, the cycle count and at most three sample cycles from the start of the list |
| Graph.StatisticsFacts | app/services/graph.py:114-139 | both degree totals equal the edge count, and the sample is the first three cycles |
| Graph.TopWords | app/services/graph.py:142-164 | the top `limit` of the total-degree ranking, `min(limit, nodes)` words, each with its true in-, out- and total degree, in non-increasing total degree |
| Graph.TopWordsAreTop | app/services/graph.py:146-164 | a node not listed has a total degree no higher than any listed word's |
| Graph.TopWordsDistinct | app/services/graph.py:146-164 | in a well-formed graph no word is listed twice |
| Graph.FindCycles | app/services/graph.py:166-175 | the full cycle count and the first 20 cycles |
| Graph.GraphService.constructor | app/services/graph.py:10-16 | a service starts with an empty cache |
| Graph.GraphService.BuildGraph | app/services/graph.py:18-47 | the result is the graph of the rows; the cache is filled with it and, once filled, never replaced |
| Graph.GraphService.GetTopWords | app/services/graph.py:142-164 | the top words of the cached graph |

## Left out

- Database access (asyncpg, psycopg2, aiosqlite, connection pools, transactions, `COUNT(*)` reporting, the schema setup) is left out. Tables are in-memory values, and `word_links` is assumed to exist.
- `_insert_batch` is left out. Its `ON CONFLICT (word) DO UPDATE` merging and the `inserted`/`skipped` counters depend on database state and exceptions. `LoadEntries` states which rows are flushed in which batches, not what the table holds afterwards.
- The order of `ORDER BY word` is taken as code-point order. Database collations are not modelled.
- `async`/`await` and concurrency are left out. The services run sequentially.
- Unicode is approximated by ASCII. `isalpha`, `lower()`, `\w` and `\d` are modelled on ASCII. Whitespace is Python's `str.isspace` set.
- Floating-point arithmetic is left out. `WordFilter.IsValidWord` writes `alpha_count / len(w) < 0.3` as `10 × letters < 3 × length`, and `EntryParser.Accept` writes `def_alpha_count < len(definition) * 0.4` as `10 × letters < 4 × length`. These integer forms decide the same way as the IEEE double comparisons for every length below 2^52. A ratio that is not exactly 3/10 is at least `1/(10 × length)` away from it, far more than the rounding error. When 0.4 × length is a whole number, the double product rounds back to that whole number, because the double nearest 0.4 is too large by only 2^-54 of its value.
- Graph averages (`round(sum / nodes, 2)`) are represented by their numerators, the degree sums, which are proved equal to the edge count.
- networkx is left out. `simple_cycles` and `weakly_connected_components` are computed outside the model and taken as arguments. Predicates state what a valid cycle and a valid component cover are.
- `GraphService._build_graph` constructs `DictionaryService(str(self.db_path))`, but `DictionaryService()` takes no arguments. The model passes the extractor in as a function instead of reproducing that call.
- `GraphService.get_overview_stats` is a pair of SQL aggregates and is not part of this model.
- File reading, downloads with retry, `main` and the command-line wrappers are left out, as are printing and exception handlers that print and return what was collected so far.
- The megabyte figure shown by the progress hook is output only and is left out.
- `parse_gcide_xml` is left out. It delegates to `parse_gcide_html` for the real GCIDE files, and its XML branch relies on ElementTree.
- The HTTP routes in `app/api/routes` are left out. They forward to the services modelled here.
- `Dictionary.GetNeighbors` returns only the `neighbors_by_depth` part of the response. The `"word"` field echoes the argument.
- The `list(set(words))` lists of the neighbour output are modelled as sets, because their order is unspecified.
