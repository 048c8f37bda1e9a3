/** The two orderings the services rely on: Python's `sorted()` on strings
    (code-point lexicographic order) and `sorted(pairs, key=degree, reverse=True)`,
    which is stable, so entries with equal degree keep their original order. */
module Sorting {

  // ---------------------------------------------------------------------------
  // Lexicographic order on strings

  /** `a <= b` for Python strings: compare code points, a proper prefix is smaller. */
  predicate StrLe(a: string, b: string) {
    if a == [] then true
    else if b == [] then false
    else if a[0] != b[0] then a[0] < b[0]
    else StrLe(a[1..], b[1..])
  }

  lemma {:induction false} StrLeTotal(a: string, b: string)
    ensures StrLe(a, b) || StrLe(b, a)
  {
    if a != [] && b != [] && a[0] == b[0] {
      StrLeTotal(a[1..], b[1..]);
    }
  }

  lemma {:induction false} StrLeReflexive(a: string)
    ensures StrLe(a, a)
  {
    if a != [] {
      StrLeReflexive(a[1..]);
    }
  }

  lemma {:induction false} StrLeTransitive(a: string, b: string, c: string)
    requires StrLe(a, b) && StrLe(b, c)
    ensures StrLe(a, c)
  {
    if a != [] && b != [] && c != [] && a[0] == b[0] && b[0] == c[0] {
      StrLeTransitive(a[1..], b[1..], c[1..]);
    }
  }

  lemma {:induction false} StrLeAntisymmetric(a: string, b: string)
    requires StrLe(a, b) && StrLe(b, a)
    ensures a == b
  {
    if a != [] && b != [] {
      StrLeAntisymmetric(a[1..], b[1..]);
      assert a == [a[0]] + a[1..];
      assert b == [b[0]] + b[1..];
    }
  }

  ghost predicate SortedStrings(s: seq<string>) {
    forall i, j :: 0 <= i < j < |s| ==> StrLe(s[i], s[j])
  }

  function InsertString(x: string, l: seq<string>): (r: seq<string>)
    requires SortedStrings(l)
    ensures multiset(r) == multiset(l) + multiset{x}
    ensures SortedStrings(r)
  {
    if l == [] || StrLe(x, l[0]) then
      StringBeforeHead(x, l);
      [x] + l
    else
      var r' := InsertString(x, l[1..]);
      StringBehindHead(x, l, r');
      [l[0]] + r'
  }

  /** Putting the head of `l` back in front of the insertion into its tail keeps
      the order and the elements. */
  lemma StringBehindHead(x: string, l: seq<string>, r': seq<string>)
    requires SortedStrings(l) && l != [] && !StrLe(x, l[0])
    requires multiset(r') == multiset(l[1..]) + multiset{x} && SortedStrings(r')
    ensures multiset([l[0]] + r') == multiset(l) + multiset{x}
    ensures SortedStrings([l[0]] + r')
  {
    StrLeTotal(x, l[0]);
    forall j | 0 <= j < |r'| ensures StrLe(l[0], r'[j]) {
      assert r'[j] in multiset(r');
      assert r'[j] == x || r'[j] in l[1..];
    }
    assert l == [l[0]] + l[1..];
  }

  /** A string no greater than the head of a sorted list goes in front of it. */
  lemma StringBeforeHead(x: string, l: seq<string>)
    requires SortedStrings(l) && (l == [] || StrLe(x, l[0]))
    ensures SortedStrings([x] + l)
  {
    forall j | 0 <= j < |l| ensures StrLe(x, l[j]) {
      if j > 0 {
        StrLeTransitive(x, l[0], l[j]);
      }
    }
  }

  /** `sorted(xs)` for a list of strings. */
  function SortStrings(s: seq<string>): (r: seq<string>)
    ensures multiset(r) == multiset(s)
    ensures SortedStrings(r)
  {
    if s == [] then []
    else
      assert s == [s[0]] + s[1..];
      InsertString(s[0], SortStrings(s[1..]))
  }

  /** The least element of a sorted list is its head. */
  lemma SortedHeadIsLeast(a: seq<string>, x: string)
    requires SortedStrings(a) && x in a
    ensures StrLe(a[0], x)
  {
    var i :| 0 <= i < |a| && a[i] == x;
    if i == 0 {
      StrLeReflexive(x);
    }
  }

  lemma SortedTail(a: seq<string>)
    requires SortedStrings(a) && a != []
    ensures SortedStrings(a[1..])
  {
    forall i, j | 0 <= i < j < |a| - 1 ensures StrLe(a[1..][i], a[1..][j]) {
      assert a[1..][i] == a[i + 1] && a[1..][j] == a[j + 1];
    }
  }

  lemma TailMultiset(a: seq<string>, b: seq<string>)
    requires a != [] && b != [] && a[0] == b[0] && multiset(a) == multiset(b)
    ensures multiset(a[1..]) == multiset(b[1..])
  {
    assert a == [a[0]] + a[1..];
    assert b == [b[0]] + b[1..];
    assert multiset(a) == multiset{a[0]} + multiset(a[1..]);
    assert multiset(b) == multiset{b[0]} + multiset(b[1..]);
    forall x ensures multiset(a[1..])[x] == multiset(b[1..])[x] {
      assert multiset(a)[x] == multiset{a[0]}[x] + multiset(a[1..])[x];
      assert multiset(b)[x] == multiset{b[0]}[x] + multiset(b[1..])[x];
    }
  }

  /** Two sorted lists with the same elements are equal, so `SortStrings`
      agrees with every correct sort, Python's included. */
  lemma {:induction false} SortedStringsUnique(a: seq<string>, b: seq<string>)
    requires SortedStrings(a) && SortedStrings(b)
    requires multiset(a) == multiset(b)
    ensures a == b
    decreases |a|
  {
    if a != [] {
      assert |b| == |a| by { assert |multiset(a)| == |multiset(b)|; }
      assert a[0] in multiset(b) && b[0] in multiset(a);
      SortedHeadIsLeast(b, a[0]);
      SortedHeadIsLeast(a, b[0]);
      StrLeAntisymmetric(a[0], b[0]);
      TailMultiset(a, b);
      SortedTail(a);
      SortedTail(b);
      SortedStringsUnique(a[1..], b[1..]);
      assert a == [a[0]] + a[1..];
      assert b == [b[0]] + b[1..];
    } else {
      assert |b| == 0 by { assert |multiset(a)| == |multiset(b)|; }
    }
  }

  // ---------------------------------------------------------------------------
  // Stable descending sort by an integer key

  type Ranked = (string, int)

  ghost predicate SortedDesc(s: seq<Ranked>) {
    forall i, j :: 0 <= i < j < |s| ==> s[i].1 >= s[j].1
  }

  /** The entries of `s` whose key is `k`, in their order in `s`. */
  function WithKey(s: seq<Ranked>, k: int): (r: seq<Ranked>)
    ensures |r| <= |s|
  {
    if s == [] then []
    else (if s[0].1 == k then [s[0]] else []) + WithKey(s[1..], k)
  }

  lemma {:induction false} WithKeyAppend(a: seq<Ranked>, b: seq<Ranked>, k: int)
    ensures WithKey(a + b, k) == WithKey(a, k) + WithKey(b, k)
  {
    if a != [] {
      var h := if a[0].1 == k then [a[0]] else [];
      assert (a + b)[0] == a[0];
      assert (a + b)[1..] == a[1..] + b;
      assert WithKey(a + b, k) == h + WithKey(a[1..] + b, k);
      assert WithKey(a, k) == h + WithKey(a[1..], k);
      WithKeyAppend(a[1..], b, k);
    } else {
      assert a + b == b;
    }
  }

  function InsertDesc(x: Ranked, l: seq<Ranked>): (r: seq<Ranked>)
    requires SortedDesc(l)
    ensures multiset(r) == multiset(l) + multiset{x}
    ensures SortedDesc(r)
  {
    if l == [] || x.1 >= l[0].1 then
      [x] + l
    else
      var r' := InsertDesc(x, l[1..]);
      InsertBehindHead(x, l, r');
      [l[0]] + r'
  }

  /** Putting the head of `l` back in front of the insertion into its tail keeps
      the order and the elements. */
  lemma InsertBehindHead(x: Ranked, l: seq<Ranked>, r': seq<Ranked>)
    requires SortedDesc(l) && l != [] && x.1 < l[0].1
    requires multiset(r') == multiset(l[1..]) + multiset{x} && SortedDesc(r')
    ensures multiset([l[0]] + r') == multiset(l) + multiset{x}
    ensures SortedDesc([l[0]] + r')
  {
    forall j | 0 <= j < |r'| ensures l[0].1 >= r'[j].1 {
      assert r'[j] in multiset(r');
      assert r'[j] == x || r'[j] in l[1..];
    }
    assert l == [l[0]] + l[1..];
  }

  /** Inserting `x` in front of all entries with a smaller key keeps it ahead of
      every entry that has its key. */
  lemma {:induction false} InsertDescWithKey(x: Ranked, l: seq<Ranked>, k: int)
    requires SortedDesc(l)
    ensures WithKey(InsertDesc(x, l), k) == WithKey([x], k) + WithKey(l, k)
  {
    if l == [] || x.1 >= l[0].1 {
      WithKeyAppend([x], l, k);
    } else {
      InsertDescWithKey(x, l[1..], k);
      KeysSwap(x, l[0], l[1..], InsertDesc(x, l[1..]), k);
      assert l == [l[0]] + l[1..];
    }
  }

  /** An entry `h` whose key differs from that of `x` can be moved past `x`
      without changing the entries of any one key. */
  lemma KeysSwap(x: Ranked, h: Ranked, t: seq<Ranked>, r: seq<Ranked>, k: int)
    requires x.1 != h.1
    requires WithKey(r, k) == WithKey([x], k) + WithKey(t, k)
    ensures WithKey([h] + r, k) == WithKey([x], k) + WithKey([h] + t, k)
  {
    WithKeyAppend([h], r, k);
    WithKeyAppend([h], t, k);
    if x.1 == k {
      assert WithKey([h], k) == [];
    } else {
      assert WithKey([x], k) == [];
    }
  }

  /** `sorted(s, key=lambda e: e[1], reverse=True)`. */
  function SortDesc(s: seq<Ranked>): (r: seq<Ranked>)
    ensures multiset(r) == multiset(s)
    ensures SortedDesc(r)
  {
    if s == [] then []
    else
      assert s == [s[0]] + s[1..];
      InsertDesc(s[0], SortDesc(s[1..]))
  }

  /** Stability: for every key, the entries carrying it appear in the same
      relative order before and after sorting. */
  lemma {:induction false} SortDescStable(s: seq<Ranked>, k: int)
    ensures WithKey(SortDesc(s), k) == WithKey(s, k)
  {
    if s != [] {
      var t := SortDesc(s[1..]);
      assert SortDesc(s) == InsertDesc(s[0], t);
      SortDescStable(s[1..], k);
      InsertDescWithKey(s[0], t, k);
      assert s == [s[0]] + s[1..];
      WithKeyAppend([s[0]], s[1..], k);
    }
  }

  /** Python's `xs[:n]`: a negative `n` counts from the end. */
  function SliceTo<T>(xs: seq<T>, n: int): (r: seq<T>)
    ensures n >= 0 ==> |r| == if n < |xs| then n else |xs|
    ensures n < 0 ==> |r| == if |xs| + n > 0 then |xs| + n else 0
    ensures r == xs[..|r|]
  {
    if n >= 0 then (if n < |xs| then xs[..n] else xs)
    else if |xs| + n > 0 then xs[..|xs| + n]
    else []
  }
}
