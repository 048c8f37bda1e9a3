/** The file-level side of `process_gcide.py`: splitting a GCIDE file into entries
    (the HTML-like dictionary files and the plain-text alternative), turning the
    entries into database rows in batches, and the download progress percentage. */
module GcideFiles {
  import opened Text
  import opened Regex
  import opened EntryParser
  import opened Batching

  // ---------------------------------------------------------------------------
  // The HTML-like format: `<p><ent>word</ent>...`

  /** `<p><ent>([^<]+)</ent>`: where an entry begins, and its word. */
  const EntStart := Bounded("<p><ent>", "</ent>", 1, false)
  /** `<ent>[^<]+</ent>`: the word tag searched for inside an entry's section. */
  const EntTag := Bounded("<ent>", "</ent>", 1, false)

  /** `s[a:b]` for non-negative bounds: clamped to the text, empty when `a` is past `b`. */
  function Slice(s: string, a: nat, b: nat): (r: string)
    ensures a <= b <= |s| ==> r == s[a..b]
    ensures |r| <= |s|
  {
    var hi := if b <= |s| then b else |s|;
    if a <= hi then s[a..hi] else []
  }

  /** Where the i-th section ends: at the start of the next entry, or at the end of
      the file. */
  function SectionEnd(content: string, ents: seq<Match>, i: nat): nat
    requires i < |ents|
  {
    if i + 1 < |ents| then ents[i + 1].start else |content|
  }

  /** The text that belongs to the i-th entry: from its `<p><ent>` up to the next one. */
  function Section(content: string, ents: seq<Match>, i: nat): string
    requires i < |ents|
  {
    Slice(content, ents[i].start, SectionEnd(content, ents, i))
  }

  /** One section: find its word tag again, and parse what follows the tag, stripped. */
  function SectionEntry(word: string, section: string): Option<Entry> {
    match Search(EntTag, section, 0)
    case None => None
    case Some(m) => EntryOf(word, Strip(section[m.end..]))
  }

  /** The entries of the first `n` sections, in file order: at most one per
      section, kept when `_parse_entry_content` produced one. */
  function HtmlEntries(content: string, ents: seq<Match>, n: nat): (r: seq<Entry>)
    requires n <= |ents|
    ensures |r| <= n
  {
    if n == 0 then []
    else
      var prev := HtmlEntries(content, ents, n - 1);
      match SectionEntry(Strip(ents[n - 1].group), Section(content, ents, n - 1))
      case Some(e) => prev + [e]
      case None => prev
  }

  function EntStarts(content: string): seq<Match> {
    FindAll(EntStart, content, 0)
  }

  /** `parse_gcide_html` on the text of one file. */
  function GcideHtmlEntries(content: string): seq<Entry> {
    var ents := EntStarts(content);
    HtmlEntries(content, ents, |ents|)
  }

  /** `parse_gcide_html`: find every entry start first, then parse the sections one by
      one. */
  method ParseGcideHtml(content: string) returns (entries: seq<Entry>)
    ensures entries == GcideHtmlEntries(content)
  {
    entries := CollectHtmlEntries(content, EntStarts(content));
  }

  /** The second loop of `parse_gcide_html`, over the entry starts in order. */
  method CollectHtmlEntries(content: string, ents: seq<Match>) returns (entries: seq<Entry>)
    ensures entries == HtmlEntries(content, ents, |ents|)
  {
    entries := [];
    var idx := 0;
    while idx < |ents|
      invariant idx <= |ents|
      invariant entries == HtmlEntries(content, ents, idx)
    {
      var entryWord := Strip(ents[idx].group);
      var entrySection: string;
      if idx + 1 < |ents| {
        entrySection := Slice(content, ents[idx].start, ents[idx + 1].start);
      } else {
        entrySection := Slice(content, ents[idx].start, |content|);
      }
      var entTagMatch := Search(EntTag, entrySection, 0);
      if entTagMatch.None? {
        idx := idx + 1;
        continue;
      }
      var entryContent := Strip(entrySection[entTagMatch.value.end..]);
      var entry := ParseEntryContent(entryWord, entryContent);
      if entry.Some? {
        entries := entries + [entry.value];
      }
      idx := idx + 1;
    }
  }

  /** Every section starts with its own `<p><ent>word</ent>`, so the word tag is
      always found again, three characters in, with the same word: the entry's
      content is everything after `</ent>` up to the next entry, and the `continue`
      for a section without a tag is never taken. */
  lemma SectionFindsTag(content: string, ents: seq<Match>, i: nat)
    requires ents == EntStarts(content) && i < |ents|
    ensures Search(EntTag, Section(content, ents, i), 0)
      == Some(Match(3, ents[i].end - ents[i].start, ents[i].group))
  {
    EntStartFacts(content, ents, i);
    MatchedSectionFindsTag(content, ents, i);
  }

  /** The same, for any entry start that matches `<p><ent>word</ent>` and lies inside
      its section. */
  lemma MatchedSectionFindsTag(content: string, ents: seq<Match>, i: nat)
    requires i < |ents| && ents[i].start <= |content|
    requires MatchAt(EntStart, content, ents[i].start) == Some(ents[i])
    requires ents[i].end <= SectionEnd(content, ents, i) <= |content|
    ensures Search(EntTag, Section(content, ents, i), 0)
      == Some(Match(3, ents[i].end - ents[i].start, ents[i].group))
  {
    EntStartShape(content, ents[i]);
    SectionStartsWithTag(content, ents, i);
  }

  /** What `finditer` promises about one entry start. */
  lemma EntStartFacts(content: string, ents: seq<Match>, i: nat)
    requires ents == EntStarts(content) && i < |ents|
    ensures ents[i].start <= |content| && MatchAt(EntStart, content, ents[i].start) == Some(ents[i])
    ensures ents[i].end <= SectionEnd(content, ents, i) <= |content|
  {
  }

  lemma SectionStartsWithTag(content: string, ents: seq<Match>, i: nat)
    requires i < |ents| && ents[i].end >= 6
    requires BoundedShape(content, "<p><ent>", "</ent>", 1, false, ents[i].start, ents[i].end - 6)
    requires ents[i].group == content[ents[i].start + 8..ents[i].end - 6]
    requires ents[i].end <= SectionEnd(content, ents, i) <= |content|
    ensures Search(EntTag, Section(content, ents, i), 0)
      == Some(Match(3, ents[i].end - ents[i].start, ents[i].group))
  {
    var m := ents[i];
    var e := SectionEnd(content, ents, i);
    TagInSlice(content, m.start, e, m.end - 6);
    assert Section(content, ents, i) == content[m.start..e];
  }

  /** A match of `<p><ent>([^<]+)</ent>` read back as its shape. */
  lemma EntStartShape(content: string, m: Match)
    requires m.start <= |content| && MatchAt(EntStart, content, m.start) == Some(m)
    ensures m.end >= 6 && BoundedShape(content, "<p><ent>", "</ent>", 1, false, m.start, m.end - 6)
    ensures m.group == content[m.start + 8..m.end - 6]
  {
    BoundedMatchSpec(content, "<p><ent>", "</ent>", 1, false, m.start);
  }

  /** Cut out from the start of a `<p><ent>word</ent>` to anywhere after it, the text
      finds its word tag three characters in. */
  lemma TagInSlice(content: string, st: nat, e: nat, j: nat)
    requires BoundedShape(content, "<p><ent>", "</ent>", 1, false, st, j)
    requires j + 6 <= e <= |content|
    ensures Search(EntTag, content[st..e], 0) == Some(Match(3, j - st + 6, content[st + 8..j]))
  {
    var t := content[st..e];
    var jt := j - st;
    BoundedShift(content, "<p><ent>", "</ent>", 1, false, st, j, st, e);
    EntTagAfterStart(t, jt);
    assert Match(3, jt + 6, t[8..jt]) == Match(3, j - st + 6, content[st + 8..j]);
  }

  /** A bounded match is found the same inside any slice that contains it. */
  lemma BoundedShift(s: string, open: string, close: string, minBody: nat, ci: bool, i: nat, j: nat, a: nat, b: nat)
    requires BoundedShape(s, open, close, minBody, ci, i, j)
    requires a <= i && j + |close| <= b <= |s|
    ensures BoundedShape(s[a..b], open, close, minBody, ci, i - a, j - a)
    ensures s[a..b][i - a + |open|..j - a] == s[i + |open|..j]
  {
    var t := s[a..b];
    assert forall k :: i - a <= k < j - a + |close| ==> t[k] == s[k + a];
    assert t[i - a..i - a + |open|] == s[i..i + |open|];
    assert t[j - a..j - a + |close|] == s[j..j + |close|];
  }

  /** In a text that starts with `<p><ent>word</ent>`, the leftmost `<ent>word</ent>`
      is the one three characters in. */
  lemma EntTagAfterStart(t: string, j: nat)
    requires BoundedShape(t, "<p><ent>", "</ent>", 1, false, 0, j)
    ensures Search(EntTag, t, 0) == Some(Match(3, j + 6, t[8..j]))
  {
    assert t[..8] == "<p><ent>";
    assert t[1] == 'p' && t[2] == '>';
    assert BoundedShape(t, "<ent>", "</ent>", 1, false, 3, j) by {
      assert t[3..8] == "<ent>";
    }
    BoundedMatchSpec(t, "<ent>", "</ent>", 1, false, 3);
    assert !LiteralAt(t, "<ent>", 0, false) by { assert t[0..5][1] == 'p'; }
    assert !LiteralAt(t, "<ent>", 1, false) by { assert t[1..6][0] == 'p'; }
    assert !LiteralAt(t, "<ent>", 2, false) by { assert t[2..7][0] == '>'; }
    assert Search(EntTag, t, 2) == MatchAt(EntTag, t, 3);
  }

  /** Matches whose starts stay inside the text and never go back. */
  predicate StartsInOrder(content: string, ents: seq<Match>) {
    (forall k :: 0 <= k < |ents| ==> ents[k].start <= |content|)
    && (forall k :: 0 <= k < |ents| - 1 ==> ents[k].start <= ents[k + 1].start)
  }

  /** The sections of the first `n` entries. */
  function Sections(content: string, ents: seq<Match>, n: nat): seq<string>
    requires n <= |ents|
  {
    if n == 0 then [] else Sections(content, ents, n - 1) + [Section(content, ents, n - 1)]
  }

  /** The sections tile the file from the first entry start: no text is given to two
      entries, and none after the first start is dropped. */
  lemma {:induction false} SectionsTile(content: string, ents: seq<Match>, n: nat)
    requires StartsInOrder(content, ents)
    requires 0 < n <= |ents|
    ensures ents[0].start <= ents[n - 1].start <= SectionEnd(content, ents, n - 1)
    ensures Flatten(Sections(content, ents, n)) == content[ents[0].start..SectionEnd(content, ents, n - 1)]
  {
    var b := ents[n - 1].start;
    var c := SectionEnd(content, ents, n - 1);
    assert Section(content, ents, n - 1) == content[b..c];
    assert Sections(content, ents, n) == Sections(content, ents, n - 1) + [content[b..c]];
    FlattenAppend(Sections(content, ents, n - 1), content[b..c]);
    if n > 1 {
      SectionsTile(content, ents, n - 1);
      var a := ents[0].start;
      assert SectionEnd(content, ents, n - 2) == b;
      assert content[a..b] + content[b..c] == content[a..c];
    } else {
      assert Sections(content, ents, 0) == [];
    }
  }

  /** The entry starts found in a file run forward, so the sections of all of them
      tile the file from the first start to the end. */
  lemma EntStartsTile(content: string)
    requires EntStarts(content) != []
    ensures var ents := EntStarts(content);
      Flatten(Sections(content, ents, |ents|)) == content[ents[0].start..]
  {
    var ents := EntStarts(content);
    EntStartsInOrder(content);
    SectionsTile(content, ents, |ents|);
    assert SectionEnd(content, ents, |ents| - 1) == |content|;
    SuffixSlice(content, ents[0].start);
  }

  lemma SuffixSlice(s: string, a: nat)
    requires a <= |s|
    ensures s[a..|s|] == s[a..]
  {
  }

  lemma EntStartsInOrder(content: string)
    ensures StartsInOrder(content, EntStarts(content))
  {
    var ents := EntStarts(content);
    assert forall k :: 0 <= k < |ents| ==> ents[k].start < ents[k].end <= |content|;
  }

  // ---------------------------------------------------------------------------
  // The plain-text format: `WORD\nDefinition text\n\n`

  /** Two newlines in a row start at `k`. */
  predicate BlankAt(s: string, k: int) {
    0 <= k && k + 1 < |s| && s[k] == '\n' && s[k + 1] == '\n'
  }

  /** A text without two newlines in a row. */
  predicate NoBlankLine(s: string) {
    forall k :: 0 <= k < |s| ==> !BlankAt(s, k)
  }

  lemma BlankAtIsLiteral(s: string, k: nat)
    ensures LiteralAt(s, "\n\n", k, false) <==> BlankAt(s, k)
  {
    if k + 2 <= |s| && s[k] == '\n' && s[k + 1] == '\n' {
      assert s[k..k + 2] == "\n\n";
    }
  }

  /** `re.split(r"\n\n+", s)`: the pieces between maximal runs of two or more
      newlines, empty pieces at the edges included. */
  function SplitBlankLines(s: string): (parts: seq<string>)
    ensures |parts| >= 1
    ensures forall k :: 0 <= k < |parts| ==> NoBlankLine(parts[k])
    ensures forall k :: 0 < k < |parts| ==> parts[k] == [] || parts[k][0] != '\n'
    ensures forall k :: 0 <= k < |parts| - 1 ==> parts[k] != [] ==> parts[k][|parts[k]| - 1] != '\n'
    decreases |s|
  {
    match FindLiteral(s, "\n\n", 0, false)
    case None =>
      assert NoBlankLine(s) by {
        forall k | 0 <= k < |s| ensures !BlankAt(s, k) { BlankAtIsLiteral(s, k); }
      }
      [s]
    case Some(j) =>
      BlankAtIsLiteral(s, j);
      var e := SkipSet(s, {'\n'}, j);
      assert e >= j + 2;
      var head := s[..j];
      assert NoBlankLine(head) by {
        forall k | 0 <= k < |head| ensures !BlankAt(head, k) {
          BlankAtIsLiteral(s, k);
        }
      }
      assert head != [] ==> head[|head| - 1] != '\n' by {
        if head != [] { BlankAtIsLiteral(s, j - 1); }
      }
      [head] + SplitBlankLines(s[e..])
  }

  /** A piece that `SplitBlankLines` gives back unchanged after a join. */
  predicate Paragraph(p: string) {
    p != [] && p[0] != '\n' && p[|p| - 1] != '\n' && NoBlankLine(p)
  }

  /** Joining paragraphs with a blank line and splitting on blank lines gives the
      paragraphs back. */
  lemma {:induction false} JoinSplitBlankLines(parts: seq<string>)
    requires parts != []
    requires forall k :: 0 <= k < |parts| ==> Paragraph(parts[k])
    ensures SplitBlankLines(Join(parts, "\n\n")) == parts
    decreases |parts|
  {
    var p := parts[0];
    if |parts| == 1 {
      SplitOneParagraph(p);
    } else {
      var rest := Join(parts[1..], "\n\n");
      JoinStartsWith(parts[1..]);
      SplitFirstParagraph(p, rest);
      JoinSplitBlankLines(parts[1..]);
      assert parts == [p] + parts[1..];
    }
  }

  /** A paragraph alone is not split. */
  lemma SplitOneParagraph(p: string)
    requires Paragraph(p)
    ensures SplitBlankLines(p) == [p]
  {
    assert FindLiteral(p, "\n\n", 0, false).None? by {
      forall k: nat ensures !LiteralAt(p, "\n\n", k, false) { BlankAtIsLiteral(p, k); }
    }
  }

  /** A paragraph, one blank line and a text that starts with something other than a
      newline split after the paragraph. */
  lemma SplitFirstParagraph(p: string, rest: string)
    requires Paragraph(p) && rest != [] && rest[0] != '\n'
    ensures SplitBlankLines(p + "\n\n" + rest) == [p] + SplitBlankLines(rest)
  {
    var s := p + "\n\n" + rest;
    FirstBlankLine(p, rest);
    SkipBlankLine(p, rest);
    assert s[..|p|] == p;
    assert s[|p| + 2..] == rest;
  }

  /** The first blank line of a paragraph followed by a blank line is that one. */
  lemma FirstBlankLine(p: string, rest: string)
    requires Paragraph(p)
    ensures FindLiteral(p + "\n\n" + rest, "\n\n", 0, false) == Some(|p|)
  {
    var s := p + "\n\n" + rest;
    var j := |p|;
    forall k | 0 <= k < j ensures !LiteralAt(s, "\n\n", k, false) {
      BlankAtIsLiteral(s, k);
      if k < j - 1 { assert !BlankAt(p, k); }
    }
    BlankAtIsLiteral(s, j);
  }

  /** The run of newlines after a paragraph is exactly the blank line. */
  lemma SkipBlankLine(p: string, rest: string)
    requires rest != [] && rest[0] != '\n'
    ensures SkipSet(p + "\n\n" + rest, {'\n'}, |p|) == |p| + 2
  {
    var s := p + "\n\n" + rest;
    assert s[|p|] == '\n' && s[|p| + 1] == '\n' && s[|p| + 2] == rest[0];
  }

  /** A join starts with its first part. */
  lemma JoinStartsWith(parts: seq<string>)
    requires parts != [] && parts[0] != []
    ensures Join(parts, "\n\n") != [] && Join(parts, "\n\n")[0] == parts[0][0]
  {
  }

  /** One block of the text format: the first line is the word, the other lines,
      joined back and stripped, the definition. */
  function TextEntry(block: string): (r: Option<Entry>)
    ensures r.Some? ==> PlainEntry(r.value)
  {
    var lines := SplitChar(Strip(block), '\n');
    if |lines| >= 2 then
      var word := Strip(lines[0]);
      var definition := Strip(Join(lines[1..], "\n"));
      if word != [] && definition != [] then Some(Entry(word, definition, None)) else None
    else None
  }

  /** A block gives an entry exactly when its stripped text has a line break with
      something on both sides; the word is the text before the first break and the
      definition everything after it, each stripped. */
  lemma TextEntrySpec(block: string)
    ensures var t := Strip(block);
      TextEntry(block).Some? <==>
        '\n' in t && Strip(t[..IndexOf(t, '\n')]) != [] && Strip(t[IndexOf(t, '\n') + 1..]) != []
    ensures var t := Strip(block);
      TextEntry(block).Some? ==> var j := IndexOf(t, '\n');
        TextEntry(block) == Some(Entry(Strip(t[..j]), Strip(t[j + 1..]), None))
  {
    var t := Strip(block);
    if '\n' in t {
      FirstLineAndRest(t);
    }
  }

  /** Split at line breaks, `t` has a first line up to its first break, and the
      other lines join back into the rest of `t`. */
  lemma FirstLineAndRest(t: string)
    requires '\n' in t
    ensures var lines := SplitChar(t, '\n'); var j := IndexOf(t, '\n');
      |lines| >= 2 && lines[0] == t[..j] && Join(lines[1..], "\n") == t[j + 1..]
  {
    var lines := SplitChar(t, '\n');
    var j := IndexOf(t, '\n');
    assert lines[1..] == SplitChar(t[j + 1..], '\n');
    SplitCharJoin(t[j + 1..], '\n');
  }

  /** An entry of the text format: a word and a definition, and no pronunciation. */
  predicate PlainEntry(e: Entry) {
    e.word != [] && e.definition != [] && e.pronunciation.None?
  }

  /** The entries of the first `n` text blocks, in order, at most one per block. */
  function TextEntries(blocks: seq<string>, n: nat): (r: seq<Entry>)
    requires n <= |blocks|
    ensures |r| <= n
    ensures forall k :: 0 <= k < |r| ==> PlainEntry(r[k])
  {
    if n == 0 then []
    else
      var prev := TextEntries(blocks, n - 1);
      var entry := TextEntry(blocks[n - 1]);
      if entry.Some? then
        AppendPlain(prev, entry.value);
        prev + [entry.value]
      else prev
  }

  lemma AppendPlain(prev: seq<Entry>, e: Entry)
    requires forall k :: 0 <= k < |prev| ==> PlainEntry(prev[k])
    requires PlainEntry(e)
    ensures forall k :: 0 <= k < |prev + [e]| ==> PlainEntry((prev + [e])[k])
  {
  }

  /** `parse_gcide_text` on the text of one file. */
  function GcideTextEntries(content: string): seq<Entry> {
    var blocks := SplitBlankLines(content);
    TextEntries(blocks, |blocks|)
  }

  /** `parse_gcide_text`: split the file on blank lines, then parse the blocks in
      order. */
  method ParseGcideText(content: string) returns (entries: seq<Entry>)
    ensures entries == GcideTextEntries(content)
  {
    entries := CollectTextEntries(SplitBlankLines(content));
  }

  /** The loop of `parse_gcide_text` over the blocks. */
  method CollectTextEntries(rawEntries: seq<string>) returns (entries: seq<Entry>)
    ensures entries == TextEntries(rawEntries, |rawEntries|)
  {
    entries := [];
    var i := 0;
    while i < |rawEntries|
      invariant i <= |rawEntries|
      invariant entries == TextEntries(rawEntries, i)
    {
      entries := AddTextBlock(rawEntries, i, entries);
      i := i + 1;
    }
  }

  /** One pass of the loop of `parse_gcide_text`: parse block `i` and keep its entry. */
  method AddTextBlock(rawEntries: seq<string>, i: nat, entries: seq<Entry>) returns (next: seq<Entry>)
    requires i < |rawEntries| && entries == TextEntries(rawEntries, i)
    ensures next == TextEntries(rawEntries, i + 1)
  {
    var entry := ParseTextBlock(rawEntries[i]);
    next := entries;
    if entry.Some? {
      next := entries + [entry.value];
    }
  }

  /** The body of the loop of `parse_gcide_text` for one block. */
  method ParseTextBlock(rawEntry: string) returns (entry: Option<Entry>)
    ensures entry == TextEntry(rawEntry)
  {
    entry := None;
    var lines := SplitChar(Strip(rawEntry), '\n');
    if |lines| >= 2 {
      var word := Strip(lines[0]);
      var definition := Strip(Join(lines[1..], "\n"));
      if word != [] && definition != [] {
        entry := Some(Entry(word, definition, None));
      }
    }
  }

  // ---------------------------------------------------------------------------
  // `load_entries`

  /** One row of the `words` insert: word, lower-cased key, pronunciation, definition
      and its length. */
  datatype Record = Record(word: string, wordLower: string, pronunciation: Option<string>,
                           definition: string, definitionLength: nat)

  function RecordOf(e: Entry): (r: Record)
    ensures r.word == e.word && r.wordLower == Lower(r.word)
    ensures r.definition == e.definition && r.definitionLength == |r.definition|
    ensures r.pronunciation == e.pronunciation
  {
    Record(e.word, Lower(e.word), e.pronunciation, e.definition, |e.definition|)
  }

  function Records(entries: seq<Entry>): (r: seq<Record>)
    ensures |r| == |entries| && forall i :: 0 <= i < |entries| ==> r[i] == RecordOf(entries[i])
  {
    seq(|entries|, i requires 0 <= i < |entries| => RecordOf(entries[i]))
  }

  /** One more record converted extends the records gathered so far. */
  lemma RecordsStep(entries: seq<Entry>, records: seq<Record>, batches: seq<seq<Record>>, batch: seq<Record>, i: nat)
    requires records == Records(entries) && i < |entries|
    requires Flatten(batches) + batch == records[..i]
    ensures Flatten(batches) + (batch + [RecordOf(entries[i])]) == records[..i + 1]
  {
    assert records[..i + 1] == records[..i] + [records[i]];
  }

  /** The size every flushed batch has: a batch is flushed as soon as it holds
      `batchSize` records, or after every record when `batchSize` is below one. */
  function BatchLimit(batchSize: int): (n: nat)
    ensures n >= 1 && (batchSize >= 1 ==> n == batchSize)
  {
    if batchSize < 1 then 1 else batchSize
  }

  /** `load_entries`: the batches handed to `_insert_batch`, in order. Every entry's
      record lands in exactly one batch, in entry order; every batch but the last is
      full, and the last holds what was left over. */
  method LoadEntries(entries: seq<Entry>, batchSize: int) returns (batches: seq<seq<Record>>)
    ensures Flatten(batches) == Records(entries)
    ensures forall k :: 0 <= k < |batches| - 1 ==> |batches[k]| == BatchLimit(batchSize)
    ensures batches != [] ==> 0 < |batches[|batches| - 1]| <= BatchLimit(batchSize)
    ensures |batches| == (|entries| + BatchLimit(batchSize) - 1) / BatchLimit(batchSize)
  {
    var limit := BatchLimit(batchSize);
    var records := Records(entries);
    batches := [];
    var batch: seq<Record> := [];
    var i := 0;
    while i < |entries|
      invariant i <= |entries|
      invariant Flatten(batches) + batch == records[..i]
      invariant forall k :: 0 <= k < |batches| ==> |batches[k]| == limit
      invariant |batch| < limit
      invariant i == |batches| * limit + |batch|
    {
      var entry := entries[i];
      RecordsStep(entries, records, batches, batch, i);
      batch := batch + [Record(entry.word, Lower(entry.word), entry.pronunciation,
                               entry.definition, |entry.definition|)];
      if |batch| >= batchSize {
        FlattenAppend(batches, batch);
        Distribute(|batches|, 1, limit);
        batches := batches + [batch];
        batch := [];
      }
      i := i + 1;
    }
    assert records[..i] == records;
    var full := |batches|;
    if batch != [] {
      FlattenAppend(batches, batch);
      batches := batches + [batch];
    }
    CeilingDivision(full, |batch|, limit);
  }

  /** `n = q*k + r` with `0 <= r < k`: `ceil(n / k)` counts the full parts and one more
      for a non-empty remainder. */
  lemma CeilingDivision(q: nat, r: nat, k: nat)
    requires 0 <= r < k
    ensures (q * k + r + k - 1) / k == q + (if r > 0 then 1 else 0)
  {
    if r > 0 {
      Distribute(q, 1, k);
      DivisionOf(q * k + r + k - 1, k, q + 1, r - 1);
    } else {
      DivisionOf(q * k + r + k - 1, k, q, k - 1);
    }
  }

  lemma DivBounds(n: int, k: int)
    requires k > 0
    ensures (n / k) * k <= n < (n / k) * k + k
  {
  }

  lemma MulAtLeast(g: int, k: int)
    requires g >= 1 && k > 0
    ensures g * k >= k
  {
  }

  lemma Distribute(x: int, g: int, k: int)
    ensures (x + g) * k == x * k + g * k
  {
  }

  /** `x * k` grows by at least `k` for every step of `x`. */
  lemma MulGap(x: int, y: int, k: int)
    requires x < y && k > 0
    ensures x * k + k <= y * k
  {
    MulAtLeast(y - x, k);
    Distribute(x, y - x, k);
  }

  lemma DivisionOf(n: int, k: int, q: int, r: int)
    requires k > 0 && 0 <= r < k && n == q * k + r
    ensures n / k == q
  {
    DivBounds(n, k);
    var d := n / k;
    if d < q {
      MulGap(d, q, k);
    } else if q < d {
      MulGap(q, d, k);
    }
  }

  lemma DivisionMonotone(a: int, b: int, k: int)
    requires k > 0 && a <= b
    ensures a / k <= b / k
  {
    DivBounds(a, k);
    DivBounds(b, k);
    if b / k < a / k {
      MulGap(b / k, a / k, k);
    }
  }

  // ---------------------------------------------------------------------------
  // `_download_progress_hook`

  /** The percentage printed while downloading. Python's `//` rounds toward minus
      infinity; with the positive divisor it is given here that is exactly Dafny's
      `/`. */
  function ProgressPercent(count: int, blockSize: int, totalSize: int): (percent: int)
    ensures percent <= 100
    ensures totalSize <= 0 ==> percent == 0
    ensures totalSize > 0 && count * blockSize >= 0 ==> percent >= 0
    ensures totalSize > 0 && count * blockSize >= totalSize ==> percent == 100
    ensures totalSize > 0 && count * blockSize < totalSize ==>
      percent * totalSize <= count * blockSize * 100 < percent * totalSize + totalSize
  {
    if totalSize > 0 then
      var downloaded := count * blockSize;
      PercentBounds(downloaded, totalSize);
      Min(100, (downloaded * 100) / totalSize)
    else 0
  }

  function Min(a: int, b: int): int {
    if a <= b then a else b
  }

  /** The floor of `100 * d / t` is in `[0, 100)` exactly when `d` is in `[0, t)`. */
  lemma PercentBounds(d: int, t: int)
    requires t > 0
    ensures d >= 0 ==> (d * 100) / t >= 0
    ensures d >= t ==> (d * 100) / t >= 100
    ensures d < t ==> (d * 100) / t < 100
    ensures ((d * 100) / t) * t <= d * 100 < ((d * 100) / t) * t + t
  {
    DivBounds(d * 100, t);
    if d >= 0 {
      DivisionMonotone(0, d * 100, t);
      DivisionOf(0, t, 0, 0);
    }
    if d >= t {
      DivisionMonotone(100 * t, d * 100, t);
      DivisionOf(100 * t, t, 100, 0);
    } else {
      DivisionMonotone(d * 100, 100 * t - 1, t);
      DivisionOf(100 * t - 1, t, 99, t - 1);
    }
  }

  /** The percentage never goes down as more blocks arrive. */
  lemma ProgressMonotone(count1: int, count2: int, blockSize: int, totalSize: int)
    requires count1 <= count2 && blockSize >= 0
    ensures ProgressPercent(count1, blockSize, totalSize) <= ProgressPercent(count2, blockSize, totalSize)
  {
    if totalSize > 0 {
      if count1 < count2 && blockSize > 0 {
        MulGap(count1, count2, blockSize);
      }
      DivisionMonotone(count1 * blockSize * 100, count2 * blockSize * 100, totalSize);
    }
  }
}
