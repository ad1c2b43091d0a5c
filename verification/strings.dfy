/** Text utilities shared by the completion engine, the display sanitiser and
    the REPL command parser: prefix tests, Rust's byte-wise string ordering and
    the sort built on it, decimal and hexadecimal rendering, and
    `str::split_whitespace`.

    Strings are sequences of Unicode scalar values. Rust compares `String`s by
    their UTF-8 bytes, and UTF-8 preserves code-point order, so comparing code
    points left to right gives the same order. */
module Strings {

  /* ---------------------------------------------------------------------- */
  /*  Prefixes                                                              */
  /* ---------------------------------------------------------------------- */

  /** Rust's `str::starts_with` with a string pattern. */
  predicate StartsWith(s: string, prefix: string) {
    prefix <= s
  }

  /* ---------------------------------------------------------------------- */
  /*  Lexicographic order                                                   */
  /* ---------------------------------------------------------------------- */

  /** `a <= b` in Rust's `Ord for str`: the first differing code point decides,
      and a proper prefix comes first. */
  predicate Le(a: string, b: string) {
    |a| == 0 || (|b| > 0 && (a[0] < b[0] || (a[0] == b[0] && Le(a[1..], b[1..]))))
  }

  lemma LeReflexive(a: string)
    ensures Le(a, a)
  {
    if |a| > 0 {
      LeReflexive(a[1..]);
    }
  }

  lemma LeTotal(a: string, b: string)
    ensures Le(a, b) || Le(b, a)
  {
    if |a| > 0 && |b| > 0 && a[0] == b[0] {
      LeTotal(a[1..], b[1..]);
    }
  }

  lemma LeAntisymmetric(a: string, b: string)
    requires Le(a, b) && Le(b, a)
    ensures a == b
  {
    if |a| > 0 && |b| > 0 {
      LeAntisymmetric(a[1..], b[1..]);
      assert a == [a[0]] + a[1..] && b == [b[0]] + b[1..];
    }
  }

  lemma LeTransitive(a: string, b: string, c: string)
    requires Le(a, b) && Le(b, c)
    ensures Le(a, c)
  {
    if |a| > 0 && |b| > 0 && |c| > 0 && a[0] == b[0] && b[0] == c[0] {
      LeTransitive(a[1..], b[1..], c[1..]);
    }
  }

  /* ---------------------------------------------------------------------- */
  /*  Sorting                                                               */
  /* ---------------------------------------------------------------------- */

  predicate Sorted(xs: seq<string>) {
    forall i, j :: 0 <= i < j < |xs| ==> Le(xs[i], xs[j])
  }

  /** The first element of a sorted sequence is below every element of it. */
  lemma SortedHeadLeast(xs: seq<string>, y: string)
    requires Sorted(xs) && y in multiset(xs)
    ensures Le(xs[0], y)
  {
    var i :| 0 <= i < |xs| && xs[i] == y;
    if i == 0 {
      LeReflexive(y);
    }
  }

  /** Inserting `x` into a sorted sequence keeps it sorted and adds exactly one
      copy of `x`. */
  function Insert(x: string, xs: seq<string>): (r: seq<string>)
    requires Sorted(xs)
    ensures Sorted(r)
    ensures multiset(r) == multiset(xs) + multiset{x}
  {
    if |xs| == 0 then [x]
    else if Le(x, xs[0]) then
      assert forall j :: 0 <= j < |xs| ==> Le(x, xs[j]) by {
        forall j | 0 <= j < |xs| ensures Le(x, xs[j]) {
          if j > 0 {
            LeTransitive(x, xs[0], xs[j]);
          }
        }
      }
      [x] + xs
    else
      LeTotal(x, xs[0]);
      var rest := Insert(x, xs[1..]);
      assert xs == [xs[0]] + xs[1..];
      assert forall j :: 0 <= j < |rest| ==> Le(xs[0], rest[j]) by {
        forall j | 0 <= j < |rest| ensures Le(xs[0], rest[j]) {
          assert rest[j] in multiset(rest);
          if rest[j] != x {
            assert rest[j] in multiset(xs[1..]);
            SortedHeadLeast(xs, rest[j]);
          }
        }
      }
      [xs[0]] + rest
  }

  /** `slice::sort` on strings: a sorted permutation of the input. Stability is
      invisible here, since strings equal under `Le` are identical. */
  function Sort(xs: seq<string>): (r: seq<string>)
    ensures Sorted(r)
    ensures multiset(r) == multiset(xs)
  {
    if |xs| == 0 then []
    else
      assert xs == [xs[0]] + xs[1..];
      Insert(xs[0], Sort(xs[1..]))
  }

  /** A sorted permutation is unique: whatever algorithm sorts, the result is
      determined by the multiset of the input. */
  lemma {:induction false} SortedUnique(a: seq<string>, b: seq<string>)
    requires Sorted(a) && Sorted(b)
    requires multiset(a) == multiset(b)
    ensures a == b
  {
    assert |a| == |multiset(a)| == |multiset(b)| == |b|;
    if |a| > 0 {
      SameHead(a, b);
      DropHead(a);
      DropHead(b);
      SortedUnique(a[1..], b[1..]);
      assert a == [a[0]] + a[1..];
      assert b == [b[0]] + b[1..];
    }
  }

  /** Two sorted permutations of each other start with the same string. */
  lemma SameHead(a: seq<string>, b: seq<string>)
    requires Sorted(a) && Sorted(b) && multiset(a) == multiset(b)
    requires |a| > 0 && |b| > 0
    ensures a[0] == b[0]
  {
    assert a[0] in multiset(a);
    assert b[0] in multiset(b);
    SortedHeadLeast(b, a[0]);
    SortedHeadLeast(a, b[0]);
    LeAntisymmetric(a[0], b[0]);
  }

  /** The tail of a sorted sequence is sorted and lacks one copy of the head. */
  lemma DropHead(a: seq<string>)
    requires Sorted(a) && |a| > 0
    ensures Sorted(a[1..])
    ensures multiset(a[1..]) == multiset(a) - multiset{a[0]}
  {
    assert a == [a[0]] + a[1..];
  }

  /* ---------------------------------------------------------------------- */
  /*  Prefix filtering                                                      */
  /* ---------------------------------------------------------------------- */

  /** Regrouping a concatenation, kept out of larger proofs. */
  lemma Regroup<T>(a: seq<T>, b: seq<T>, c: seq<T>)
    ensures a + (b + c) == a + b + c
  {
  }

  /** Slicing a suffix again, kept out of larger proofs. */
  lemma Reslice<T>(s: seq<T>, a: nat, b: nat)
    requires a + b <= |s|
    ensures s[a..][..b] == s[a..a + b] && s[a..][b..] == s[a + b..]
    ensures s[..a + b][a..] == s[a..a + b]
  {
  }

  /** A sequence is its prefix followed by the matching suffix. */
  lemma Split<T>(s: seq<T>, n: nat)
    requires n <= |s|
    ensures s[..n] + s[n..] == s
  {
  }

  /** Slicing a concatenation inside its first part. */
  lemma SliceConcat<T>(a: seq<T>, t: seq<T>, n: nat)
    requires n <= |a|
    ensures (a + t)[..n] == a[..n] && (a + t)[n..] == a[n..] + t
  {
  }

  /** The two halves of a concatenation can be sliced back out. */
  lemma DropPrefix<T>(a: seq<T>, b: seq<T>)
    ensures (a + b)[..|a|] == a && (a + b)[|a|..] == b
  {
  }

  /** `iter().filter(|s| s.starts_with(query))`. */
  function FilterPrefix(query: string, xs: seq<string>): seq<string> {
    if |xs| == 0 then []
    else
      var rest := FilterPrefix(query, xs[1..]);
      if StartsWith(xs[0], query) then [xs[0]] + rest else rest
  }

  /** Filtering keeps, with their multiplicity, exactly the strings that start
      with `query`. */
  lemma {:induction false} FilterPrefixCount(query: string, xs: seq<string>)
    ensures forall y :: multiset(FilterPrefix(query, xs))[y] == if StartsWith(y, query) then multiset(xs)[y] else 0
  {
    if |xs| > 0 {
      assert xs == [xs[0]] + xs[1..];
      FilterPrefixCount(query, xs[1..]);
    }
  }

  /** A string that starts with the query survives filtering, in front. */
  lemma FilterPrefixKeep(query: string, x: string, xs: seq<string>, rest: seq<string>)
    requires StartsWith(x, query) && FilterPrefix(query, xs) == rest
    ensures FilterPrefix(query, [x] + xs) == [x] + rest
  {
    assert ([x] + xs)[1..] == xs;
  }

  /** A string that does not start with the query is filtered out. */
  lemma FilterPrefixDrop(query: string, x: string, xs: seq<string>, rest: seq<string>)
    requires !StartsWith(x, query) && FilterPrefix(query, xs) == rest
    ensures FilterPrefix(query, [x] + xs) == rest
  {
    assert ([x] + xs)[1..] == xs;
  }

  /** Filtering a concatenation filters each part. */
  lemma {:induction false} FilterPrefixAppend(query: string, a: seq<string>, b: seq<string>)
    ensures FilterPrefix(query, a + b) == FilterPrefix(query, a) + FilterPrefix(query, b)
  {
    if |a| > 0 {
      assert (a + b)[1..] == a[1..] + b;
      FilterPrefixAppend(query, a[1..], b);
    } else {
      assert a + b == b;
    }
  }

  /** Filtering keeps the relative order, so it keeps a sorted list sorted. */
  lemma {:induction false} FilterPrefixSorted(query: string, xs: seq<string>)
    requires Sorted(xs)
    ensures Sorted(FilterPrefix(query, xs))
  {
    if |xs| > 0 {
      var tail := xs[1..];
      FilterPrefixSorted(query, tail);
      var rest := FilterPrefix(query, tail);
      if StartsWith(xs[0], query) {
        forall j | 0 <= j < |rest| ensures Le(xs[0], rest[j]) {
          FilterPrefixIn(query, tail, rest[j]);
          var k :| 0 <= k < |tail| && tail[k] == rest[j];
          assert xs[k + 1] == rest[j];
        }
        SortedCons(xs[0], rest);
      }
    }
  }

  /** Filtering only keeps strings of its input. */
  lemma {:induction false} FilterPrefixIn(query: string, xs: seq<string>, y: string)
    requires y in FilterPrefix(query, xs)
    ensures y in xs
  {
    if |xs| > 0 && y != xs[0] {
      FilterPrefixIn(query, xs[1..], y);
    }
  }

  /** A string below every element of a sorted sequence can go in front. */
  lemma SortedCons(x: string, xs: seq<string>)
    requires Sorted(xs)
    requires forall j :: 0 <= j < |xs| ==> Le(x, xs[j])
    ensures Sorted([x] + xs)
  {
  }

  /* ---------------------------------------------------------------------- */
  /*  Number rendering                                                      */
  /* ---------------------------------------------------------------------- */

  predicate IsDecimalDigit(c: char) {
    '0' <= c <= '9'
  }

  function DecimalDigit(d: nat): (c: char)
    requires d < 10
    ensures IsDecimalDigit(c) && c as int - '0' as int == d
  {
    ('0' as int + d) as char
  }

  /** The number a string of decimal digits denotes. */
  function DecimalValue(s: string): nat
    requires forall i :: 0 <= i < |s| ==> IsDecimalDigit(s[i])
  {
    if |s| == 0 then 0
    else DecimalValue(s[..|s| - 1]) * 10 + DecimalDigitValue(s[|s| - 1])
  }

  function DecimalDigitValue(c: char): (d: nat)
    requires IsDecimalDigit(c)
    ensures d < 10
  {
    assert '0' as int <= c as int <= '9' as int;
    c as int - '0' as int
  }

  /** Rust's `{}` formatting of an unsigned integer: the shortest decimal
      rendering, read back as the same number. */
  function Decimal(n: nat): (r: string)
    ensures 1 <= |r|
    ensures forall i :: 0 <= i < |r| ==> IsDecimalDigit(r[i])
    ensures DecimalValue(r) == n
    ensures r[0] == '0' ==> |r| == 1
  {
    if n < 10 then [DecimalDigit(n)]
    else
      var r := Decimal(n / 10) + [DecimalDigit(n % 10)];
      assert r[..|r| - 1] == Decimal(n / 10);
      r
  }

  predicate IsUpperHexDigit(c: char) {
    '0' <= c <= '9' || 'A' <= c <= 'F'
  }

  function HexDigit(d: nat): (c: char)
    requires d < 16
    ensures IsUpperHexDigit(c)
  {
    if d < 10 then ('0' as int + d) as char else ('A' as int + d - 10) as char
  }

  function HexDigitValue(c: char): nat
    requires IsUpperHexDigit(c)
  {
    if c <= '9' then c as int - '0' as int else c as int - 'A' as int + 10
  }

  /** The number a string of upper-case hexadecimal digits denotes. */
  function HexValue(s: string): nat
    requires forall i :: 0 <= i < |s| ==> IsUpperHexDigit(s[i])
  {
    if |s| == 0 then 0
    else HexValue(s[..|s| - 1]) * 16 + HexDigitValue(s[|s| - 1])
  }

  /** Rust's `{:X}` (and `{:X?}`) formatting: upper-case hexadecimal without
      padding, read back as the same number; a byte of 16 or more takes
      exactly two digits. */
  function HexUpper(n: nat): (r: string)
    ensures 1 <= |r|
    ensures forall i :: 0 <= i < |r| ==> IsUpperHexDigit(r[i])
    ensures HexValue(r) == n
    ensures 16 <= n < 256 ==> |r| == 2
  {
    if n < 16 then [HexDigit(n)]
    else
      var r := HexUpper(n / 16) + [HexDigit(n % 16)];
      assert r[..|r| - 1] == HexUpper(n / 16);
      r
  }

  /* ---------------------------------------------------------------------- */
  /*  Whitespace tokenisation                                               */
  /* ---------------------------------------------------------------------- */

  /** Rust's `char::is_whitespace`: the Unicode White_Space property. */
  predicate IsWhitespace(c: char) {
    || ('\t' <= c <= '\r')
    || c == ' '
    || c == '\U{0085}'
    || c == '\U{00A0}'
    || c == '\U{1680}'
    || ('\U{2000}' <= c <= '\U{200A}')
    || c == '\U{2028}'
    || c == '\U{2029}'
    || c == '\U{202F}'
    || c == '\U{205F}'
    || c == '\U{3000}'
  }

  /** A token of `split_whitespace`: non-empty and free of whitespace. */
  predicate IsWord(w: string) {
    |w| > 0 && forall i :: 0 <= i < |w| ==> !IsWhitespace(w[i])
  }

  predicate AllWhitespace(s: string) {
    forall i :: 0 <= i < |s| ==> IsWhitespace(s[i])
  }

  /** Length of the run of non-whitespace characters that opens `s`. */
  function WordLength(s: string): (n: nat)
    ensures n <= |s|
    ensures forall i :: 0 <= i < n ==> !IsWhitespace(s[i])
    ensures n < |s| ==> IsWhitespace(s[n])
  {
    if |s| == 0 || IsWhitespace(s[0]) then 0 else 1 + WordLength(s[1..])
  }

  /** `str::split_whitespace`: the maximal whitespace-free runs, in order. */
  function Tokens(s: string): (r: seq<string>)
    ensures forall i :: 0 <= i < |r| ==> IsWord(r[i])
    decreases |s|
  {
    if |s| == 0 then []
    else if IsWhitespace(s[0]) then Tokens(s[1..])
    else
      var n := WordLength(s);
      [s[..n]] + Tokens(s[n..])
  }

  /** Leading whitespace, however much, produces no token. */
  lemma {:induction false} TokensSkipWhitespace(ws: string, s: string)
    requires AllWhitespace(ws)
    ensures Tokens(ws + s) == Tokens(s)
  {
    if |ws| > 0 {
      var t := ws + s;
      assert t[0] == ws[0] && IsWhitespace(t[0]);
      assert t[1..] == ws[1..] + s;
      assert Tokens(t) == Tokens(t[1..]);
      TokensSkipWhitespace(ws[1..], s);
    } else {
      assert ws + s == s;
    }
  }

  /** A whitespace character splits the tokens of a line exactly there. */
  lemma {:induction false} TokensSplit(a: string, w: char, b: string)
    requires IsWhitespace(w)
    ensures Tokens(a + [w] + b) == Tokens(a) + Tokens(b)
    decreases |a|
  {
    var t := [w] + b;
    Regroup(a, [w], b);
    DropPrefix([w], b);
    if |a| == 0 {
      assert a + t == t;
    } else if IsWhitespace(a[0]) {
      SliceConcat(a, t, 1);
      Regroup(a[1..], [w], b);
      TokensSplit(a[1..], w, b);
    } else {
      var n := WordLengthPrefix(a, t);
      SliceConcat(a, t, n);
      if n < |a| {
        Regroup(a[n..], [w], b);
        TokensSplit(a[n..], w, b);
      } else {
        assert a[n..] + t == t;
      }
    }
  }


  /** The word that opens `a` is unaffected by what follows `a` when that starts
      with whitespace. */
  lemma WordLengthPrefix(a: string, t: string) returns (n: nat)
    requires |t| > 0 && IsWhitespace(t[0])
    ensures n == WordLength(a) == WordLength(a + t)
  {
    n := WordLength(a);
    if |a| > 0 && !IsWhitespace(a[0]) {
      assert (a + t)[1..] == a[1..] + t;
      var m := WordLengthPrefix(a[1..], t);
    } else if |a| == 0 {
      assert a + t == t;
    }
  }

  /** Runs of whitespace of any length separate tokens just like one space. */
  lemma TokensAroundWhitespace(a: string, ws: string, b: string)
    requires |ws| > 0 && AllWhitespace(ws)
    ensures Tokens(a + ws + b) == Tokens(a) + Tokens(b)
  {
    assert a + ws + b == a + [ws[0]] + (ws[1..] + b);
    TokensSplit(a, ws[0], ws[1..] + b);
    TokensSkipWhitespace(ws[1..], b);
  }

  /** Words joined by single spaces. */
  function Unwords(ws: seq<string>): string {
    if |ws| == 0 then []
    else if |ws| == 1 then ws[0]
    else ws[0] + " " + Unwords(ws[1..])
  }

  /** A single word is its own only token. */
  lemma TokensOfWord(w: string)
    requires IsWord(w)
    ensures Tokens(w) == [w]
  {
    assert WordLength(w) == |w|;
    assert w[..|w|] == w;
    assert w[|w|..] == [];
  }

  /** `split_whitespace` inverts joining words with spaces. */
  lemma {:induction false} TokensUnwords(ws: seq<string>)
    requires forall i :: 0 <= i < |ws| ==> IsWord(ws[i])
    ensures Tokens(Unwords(ws)) == ws
  {
    if |ws| == 1 {
      TokensOfWord(ws[0]);
    } else if |ws| > 1 {
      TokensOfWord(ws[0]);
      TokensSplit(ws[0], ' ', Unwords(ws[1..]));
      TokensUnwords(ws[1..]);
      assert ws == [ws[0]] + ws[1..];
    }
  }
}
