/** Character classes, case folding, whitespace stripping and the word tokenizer
    shared by the link extractors and the dictionary-source parser.

    Only ASCII is modelled for letters, digits and case: Python's Unicode `lower()`,
    `isalpha()` and `\w` are approximated by their ASCII parts. Whitespace follows
    Python's `str.isspace`, which is also what `\s` and `strip()` use. */
module Text {

  datatype Option<T> = None | Some(value: T)

  predicate IsAsciiLetter(c: char) {
    ('a' <= c <= 'z') || ('A' <= c <= 'Z')
  }

  predicate IsUpper(c: char) {
    'A' <= c <= 'Z'
  }

  predicate IsDigit(c: char) {
    '0' <= c <= '9'
  }

  /** A character matched by the regex class `\w` (ASCII approximation). */
  predicate IsWordChar(c: char) {
    IsAsciiLetter(c) || IsDigit(c) || c == '_'
  }

  /** Python's `str.isspace` (and the regex class `\s`). */
  predicate IsSpace(c: char) {
    c == ' ' || c == '\t' || c == '\n' || c == '\r' || c == '\U{B}' || c == '\U{C}'
    || ('\U{1C}' <= c <= '\U{1F}') || c == '\U{85}' || c == '\U{A0}' || c == '\U{1680}'
    || ('\U{2000}' <= c <= '\U{200A}') || c == '\U{2028}' || c == '\U{2029}'
    || c == '\U{202F}' || c == '\U{205F}' || c == '\U{3000}'
  }

  function LowerChar(c: char): (r: char)
    ensures IsUpper(c) ==> r as int == c as int + 32
    ensures !IsUpper(c) ==> r == c
    ensures !IsUpper(r)
  {
    if IsUpper(c) then (c as int + 32) as char else c
  }

  /** `str.lower()` restricted to ASCII. */
  function Lower(s: string): (r: string)
    ensures |r| == |s|
    ensures forall k :: 0 <= k < |s| ==> r[k] == LowerChar(s[k])
  {
    seq(|s|, k requires 0 <= k < |s| => LowerChar(s[k]))
  }

  lemma LowerIdempotent(s: string)
    ensures Lower(Lower(s)) == Lower(s)
  {
    assert forall k :: 0 <= k < |s| ==> LowerChar(LowerChar(s[k])) == LowerChar(s[k]);
  }

  predicate AllLetters(s: string) {
    forall k :: 0 <= k < |s| ==> IsAsciiLetter(s[k])
  }

  predicate IsLowerWord(s: string) {
    |s| > 0 && forall k :: 0 <= k < |s| ==> 'a' <= s[k] <= 'z'
  }

  predicate HasAsciiLetter(s: string) {
    exists k :: 0 <= k < |s| && IsAsciiLetter(s[k])
  }

  function CountLetters(s: string): (n: nat)
    ensures n <= |s|
  {
    if s == [] then 0 else (if IsAsciiLetter(s[0]) then 1 else 0) + CountLetters(s[1..])
  }

  lemma CountLettersPositive(s: string)
    ensures CountLetters(s) > 0 <==> HasAsciiLetter(s)
  {
    if s != [] {
      CountLettersPositive(s[1..]);
      if HasAsciiLetter(s[1..]) {
        var k :| 0 <= k < |s[1..]| && IsAsciiLetter(s[1..][k]);
        assert IsAsciiLetter(s[k + 1]);
      }
      if HasAsciiLetter(s) && !IsAsciiLetter(s[0]) {
        var k :| 0 <= k < |s| && IsAsciiLetter(s[k]);
        assert s[1..][k - 1] == s[k];
      }
    }
  }

  // ---------------------------------------------------------------------------
  // Stripping

  function TrimLeft(s: string): (r: string)
    ensures |r| <= |s| && r == s[|s| - |r|..]
    ensures r == [] || !IsSpace(r[0])
    ensures forall k :: 0 <= k < |s| - |r| ==> IsSpace(s[k])
  {
    if s != [] && IsSpace(s[0]) then
      var r := TrimLeft(s[1..]);
      assert s[1..][|s| - 1 - |r|..] == s[|s| - |r|..];
      r
    else s
  }

  function TrimRight(s: string): (r: string)
    ensures |r| <= |s| && r == s[..|r|]
    ensures r == [] || !IsSpace(r[|r| - 1])
    ensures forall k :: |r| <= k < |s| ==> IsSpace(s[k])
  {
    if s != [] && IsSpace(s[|s| - 1]) then TrimRight(s[..|s| - 1]) else s
  }

  /** `str.strip()`: the infix left once the whitespace at both ends is removed. */
  function Strip(s: string): (r: string)
    ensures |r| <= |s| - StripOffset(s)
    ensures r == [] || (!IsSpace(r[0]) && !IsSpace(r[|r| - 1]))
    ensures r == s[StripOffset(s)..StripOffset(s) + |r|]
    ensures forall k :: 0 <= k < StripOffset(s) ==> IsSpace(s[k])
    ensures forall k :: StripOffset(s) + |r| <= k < |s| ==> IsSpace(s[k])
  {
    var t := TrimLeft(s);
    var r := TrimRight(t);
    forall k | StripOffset(s) + |r| <= k < |s| ensures IsSpace(s[k]) {
      assert s[k] == t[k - StripOffset(s)];
    }
    r
  }

  /** Number of leading whitespace characters `strip()` removes. */
  function StripOffset(s: string): (n: nat)
    ensures n <= |s|
  {
    |s| - |TrimLeft(s)|
  }

  lemma StripNoop(s: string)
    requires s == [] || (!IsSpace(s[0]) && !IsSpace(s[|s| - 1]))
    ensures Strip(s) == s
  {
  }

  // ---------------------------------------------------------------------------
  // Substrings

  predicate StartsWith(s: string, p: string) {
    |p| <= |s| && s[..|p|] == p
  }

  /** Prefix test under ASCII case folding (a regex literal with IGNORECASE). */
  predicate StartsWithCI(s: string, p: string) {
    |p| <= |s| && Lower(s[..|p|]) == Lower(p)
  }

  predicate OccursAt(s: string, p: string, k: int) {
    0 <= k <= |s| - |p| && s[k..k + |p|] == p
  }

  ghost predicate Contains(s: string, p: string) {
    exists k :: OccursAt(s, p, k)
  }

  /** Computable form of `p in s`, searching from position `i`. */
  function ContainsFrom(s: string, p: string, i: nat): (b: bool)
    requires i <= |s|
    ensures b <==> exists k :: i <= k && OccursAt(s, p, k)
    decreases |s| - i
  {
    if i + |p| > |s| then false
    else if s[i..i + |p|] == p then assert OccursAt(s, p, i); true
    else ContainsFrom(s, p, i + 1)
  }

  function ContainsSub(s: string, p: string): (b: bool)
    ensures b <==> Contains(s, p)
  {
    ContainsFrom(s, p, 0)
  }

  // ---------------------------------------------------------------------------
  // The tokenizer of `re.findall(r"\b[a-zA-Z]+\b", text)`

  /** First position at or after `i` that does not hold a word character. */
  function RunEnd(s: string, i: nat): (j: nat)
    requires i <= |s|
    ensures i <= j <= |s|
    ensures forall k :: i <= k < j ==> IsWordChar(s[k])
    ensures j == |s| || !IsWordChar(s[j])
    decreases |s| - i
  {
    if i == |s| || !IsWordChar(s[i]) then i else RunEnd(s, i + 1)
  }

  /** `s[a..b]` is one match of `\b[a-zA-Z]+\b`: a non-empty run of ASCII letters
      with a non-word character (or the text's edge) on both sides. */
  ghost predicate TokenAt(s: string, a: int, b: int) {
    0 <= a < b <= |s|
    && (forall k :: a <= k < b ==> IsAsciiLetter(s[k]))
    && (a == 0 || !IsWordChar(s[a - 1]))
    && (b == |s| || !IsWordChar(s[b]))
  }

  /** `i` does not lie strictly inside a run of word characters. */
  ghost predicate AtBoundary(s: string, i: nat) {
    i <= |s| && (i == 0 || i == |s| || !IsWordChar(s[i - 1]) || !IsWordChar(s[i]))
  }

  /** Scans `s` from `i`: every maximal run of word characters that consists of
      letters only is a token; runs holding a digit or `_` are skipped whole. */
  function TokensFrom(s: string, i: nat): (ts: seq<string>)
    requires i <= |s|
    ensures forall t :: t in ts ==> |t| > 0 && AllLetters(t)
    decreases |s| - i
  {
    if i == |s| then []
    else if !IsWordChar(s[i]) then TokensFrom(s, i + 1)
    else
      var j := RunEnd(s, i);
      (if AllLetters(s[i..j]) then [s[i..j]] else []) + TokensFrom(s, j)
  }

  function Tokens(s: string): seq<string> {
    TokensFrom(s, 0)
  }

  lemma {:induction false} TokensFromSound(s: string, i: nat, t: string)
    requires AtBoundary(s, i)
    requires t in TokensFrom(s, i)
    ensures exists a, b :: i <= a && TokenAt(s, a, b) && t == s[a..b]
    decreases |s| - i
  {
    if i == |s| {
    } else if !IsWordChar(s[i]) {
      TokensFromSound(s, i + 1, t);
    } else {
      var j := RunEnd(s, i);
      if AllLetters(s[i..j]) && t == s[i..j] {
        assert TokenAt(s, i, j);
      } else {
        TokensFromSound(s, j, t);
      }
    }
  }

  lemma {:induction false} TokensFromComplete(s: string, i: nat, a: nat, b: nat)
    requires AtBoundary(s, i)
    requires i <= a && TokenAt(s, a, b)
    ensures s[a..b] in TokensFrom(s, i)
    decreases |s| - i
  {
    if i == |s| {
    } else if !IsWordChar(s[i]) {
      TokensFromComplete(s, i + 1, a, b);
    } else {
      var j := RunEnd(s, i);
      if a < j {
        assert a == i;
        assert b == j;
        assert AllLetters(s[i..j]);
      } else {
        TokensFromComplete(s, j, a, b);
      }
    }
  }

  /** The tokenizer finds exactly the matches of `\b[a-zA-Z]+\b`. */
  lemma TokensSpec(s: string, t: string)
    ensures t in Tokens(s) <==> exists a, b :: TokenAt(s, a, b) && t == s[a..b]
  {
    if t in Tokens(s) {
      TokensFromSound(s, 0, t);
    }
    if exists a, b :: TokenAt(s, a, b) && t == s[a..b] {
      var a, b :| TokenAt(s, a, b) && t == s[a..b];
      TokensFromComplete(s, 0, a, b);
    }
  }

  /** Every token of a lowercased text is a non-empty run of lowercase ASCII letters. */
  lemma TokensOfLowerAreLowerWords(s: string, t: string)
    requires t in Tokens(Lower(s))
    ensures IsLowerWord(t)
  {
    var ls := Lower(s);
    TokensSpec(ls, t);
    var a, b :| TokenAt(ls, a, b) && t == ls[a..b];
    forall k | 0 <= k < |t| ensures 'a' <= t[k] <= 'z' {
      assert t[k] == ls[a + k] == LowerChar(s[a + k]);
    }
  }

  // ---------------------------------------------------------------------------
  // `sep.join(parts)` and `s.split(c)`

  function Join(parts: seq<string>, sep: string): string {
    if parts == [] then []
    else if |parts| == 1 then parts[0]
    else parts[0] + sep + Join(parts[1..], sep)
  }

  lemma {:induction false} JoinAppend(parts: seq<string>, p: string, sep: string)
    requires parts != []
    ensures Join(parts + [p], sep) == Join(parts, sep) + sep + p
    decreases |parts|
  {
    if |parts| > 1 {
      assert (parts + [p])[1..] == parts[1..] + [p];
      JoinAppend(parts[1..], p, sep);
    }
  }

  /** The first position of `c` in `s`. */
  function IndexOf(s: string, c: char): (j: nat)
    requires c in s
    ensures j < |s| && s[j] == c && c !in s[..j]
  {
    if s[0] == c then 0
    else
      assert c in s[1..] by { assert s == [s[0]] + s[1..]; }
      var j := IndexOf(s[1..], c);
      assert s[..j + 1] == [s[0]] + s[1..][..j];
      j + 1
  }

  /** `s.split(c)` for a one-character separator: the pieces between occurrences of
      `c`, empty pieces included. */
  function SplitChar(s: string, c: char): (parts: seq<string>)
    ensures |parts| >= 1
    ensures forall k :: 0 <= k < |parts| ==> c !in parts[k]
    decreases |s|
  {
    if c !in s then [s]
    else
      var j := IndexOf(s, c);
      [s[..j]] + SplitChar(s[j + 1..], c)
  }

  /** Splitting and joining with the same character gives the text back. */
  lemma {:induction false} SplitCharJoin(s: string, c: char)
    ensures Join(SplitChar(s, c), [c]) == s
    decreases |s|
  {
    if c in s {
      var j := IndexOf(s, c);
      var parts := SplitChar(s, c);
      assert parts == [s[..j]] + SplitChar(s[j + 1..], c);
      assert parts[1..] == SplitChar(s[j + 1..], c);
      assert Join(parts, [c]) == s[..j] + [c] + Join(parts[1..], [c]);
      SplitCharJoin(s[j + 1..], c);
      assert s == s[..j] + [c] + s[j + 1..];
    }
  }

  /** Joining pieces free of `c` and splitting again gives the pieces back. */
  lemma {:induction false} JoinSplitChar(parts: seq<string>, c: char)
    requires parts != []
    requires forall k :: 0 <= k < |parts| ==> c !in parts[k]
    ensures SplitChar(Join(parts, [c]), c) == parts
    decreases |parts|
  {
    if |parts| > 1 {
      var rest := Join(parts[1..], [c]);
      assert Join(parts, [c]) == parts[0] + [c] + rest;
      SplitAtFirst(parts[0], rest, c);
      JoinSplitChar(parts[1..], c);
      assert parts == [parts[0]] + parts[1..];
    } else {
      assert Join(parts, [c]) == parts[0];
    }
  }

  /** Splitting a text whose first `c` follows `p` gives `p`, then the pieces after it. */
  lemma SplitAtFirst(p: string, rest: string, c: char)
    requires c !in p
    ensures SplitChar(p + [c] + rest, c) == [p] + SplitChar(rest, c)
  {
    var s := p + [c] + rest;
    assert s[|p|] == c;
    assert s[..|p|] == p;
    IndexOfFirst(s, c, |p|);
    assert s[|p| + 1..] == rest;
  }

  /** A position holding `c` with no `c` before it is the first one. */
  lemma IndexOfFirst(s: string, c: char, j: nat)
    requires j < |s| && s[j] == c && c !in s[..j]
    ensures IndexOf(s, c) == j
  {
  }
}
