/** Optional values, used wherever the source returns None / null or a default applies. */
module Wrappers {
  datatype Option<T> = None | Some(value: T) {
    function GetOr(default: T): T {
      match this
      case Some(v) => v
      case None => default
    }
  }
}

/** Order-preserving subsequences of sequences. */
module Seqs {

  /** `a` is `b` with some elements left out, the rest kept in order. */
  predicate IsSubsequence<T(==)>(a: seq<T>, b: seq<T>)
    decreases |b|
  {
    if a == [] then true
    else if b == [] then false
    else if a[0] == b[0] then IsSubsequence(a[1..], b[1..])
    else IsSubsequence(a, b[1..])
  }

  lemma {:induction false} SubsequenceOfTail<T>(a: seq<T>, b: seq<T>)
    requires b != [] && IsSubsequence(a, b[1..])
    ensures IsSubsequence(a, b)
    decreases |b|, |a|
  {
    if a != [] && a[0] == b[0] {
      SubsequenceDropHead(a, b[1..]);
    }
  }

  lemma {:induction false} SubsequenceDropHead<T>(a: seq<T>, c: seq<T>)
    requires a != [] && IsSubsequence(a, c)
    ensures IsSubsequence(a[1..], c)
    decreases |c|, |a|
  {
    if a[0] == c[0] {
      if a[1..] != [] { SubsequenceOfTail(a[1..], c); }
    } else {
      SubsequenceDropHead(a, c[1..]);
      if a[1..] != [] { SubsequenceOfTail(a[1..], c); }
    }
  }

  lemma {:induction false} SubsequenceReflexive<T>(a: seq<T>)
    ensures IsSubsequence(a, a)
  {
    if a != [] { SubsequenceReflexive(a[1..]); }
  }
}

/**
 * String helpers shared by the Python generator and the browser script:
 * lowercasing, substring tests, prefixes and the code-point order that
 * Python's `sorted` uses on strings.
 */
module Text {

  /** Upper-case letters that `str.lower()` / `toLowerCase()` change in this model:
      ASCII A-Z and the Latin-1 capitals U+00C0..U+00DE (except U+00D7, the multiplication sign). */
  predicate IsUpper(c: char) {
    ('A' <= c <= 'Z') || ('À' <= c <= 'Þ' && c != '×')
  }

  function LowerChar(c: char): (r: char)
    ensures !IsUpper(r)
    ensures IsUpper(c) ==> r as int == c as int + 32
    ensures !IsUpper(c) ==> r == c
  {
    if IsUpper(c) then (c as int + 32) as char else c
  }

  /** Lowercasing, character by character. */
  function Lower(s: string): string {
    seq(|s|, i requires 0 <= i < |s| => LowerChar(s[i]))
  }

  predicate IsAsciiDigit(c: char) { '0' <= c <= '9' }

  /** Python's `str.isdigit()` restricted to ASCII digits: true of a non-empty all-digit string. */
  predicate IsDigits(s: string) {
    |s| > 0 && forall i :: 0 <= i < |s| ==> IsAsciiDigit(s[i])
  }

  /** Python's `str.startswith`. */
  predicate StartsWith(s: string, prefix: string) {
    |prefix| <= |s| && s[..|prefix|] == prefix
  }

  /** A common first part keeps a prefix a prefix. */
  lemma StartsWithPrepend(a: string, s: string, prefix: string)
    requires StartsWith(s, prefix)
    ensures StartsWith(a + s, a + prefix)
  {
    assert (a + s)[..|a + prefix|] == a + s[..|prefix|];
  }

  /** Substring test: Python's `needle in s`, JavaScript's `s.includes(needle)`. */
  predicate Contains(s: string, needle: string)
    decreases |s|
  {
    StartsWith(s, needle) || (s != [] && Contains(s[1..], needle))
  }

  /** Python's `any(x in s for x in needles)`. */
  predicate ContainsAny(s: string, needles: seq<string>) {
    |needles| > 0 && (Contains(s, needles[0]) || ContainsAny(s, needles[1..]))
  }

  /** `needle` occurs in `s` starting at position `i`. */
  predicate OccursAt(s: string, needle: string, i: int) {
    0 <= i && i + |needle| <= |s| && s[i..i + |needle|] == needle
  }

  /** The recursive substring test means "occurs at some position". */
  lemma {:induction false} ContainsAt(s: string, needle: string)
    ensures Contains(s, needle) <==> exists i :: OccursAt(s, needle, i)
  {
    if Contains(s, needle) {
      if StartsWith(s, needle) {
        assert OccursAt(s, needle, 0);
      } else {
        ContainsAt(s[1..], needle);
        var i :| OccursAt(s[1..], needle, i);
        assert s[1..][i..i + |needle|] == s[i + 1..i + 1 + |needle|];
        assert OccursAt(s, needle, i + 1);
      }
    }
    if exists i :: OccursAt(s, needle, i) {
      var i :| OccursAt(s, needle, i);
      if i == 0 {
        assert StartsWith(s, needle);
      } else {
        assert s[1..][i - 1..i - 1 + |needle|] == s[i..i + |needle|];
        assert OccursAt(s[1..], needle, i - 1);
        ContainsAt(s[1..], needle);
      }
    }
  }

  /** `c` is one of the characters of `s`. */
  predicate OccursIn(c: char, s: string) {
    exists k :: 0 <= k < |s| && s[k] == c
  }

  /** A string lacking one of the needle's characters does not contain the needle. */
  lemma NotContainsMissingChar(s: string, needle: string, j: int)
    requires 0 <= j < |needle|
    requires forall k :: 0 <= k < |s| ==> s[k] != needle[j]
    ensures !Contains(s, needle)
  {
    ContainsAt(s, needle);
  }

  /** A string lacking a character that every needle has contains none of them. */
  lemma {:induction false} NotContainsAnyMissingChar(s: string, needles: seq<string>, c: char)
    requires forall n :: n in needles ==> OccursIn(c, n)
    requires forall k :: 0 <= k < |s| ==> s[k] != c
    ensures !ContainsAny(s, needles)
  {
    if needles != [] {
      assert OccursIn(c, needles[0]) by { assert needles[0] in needles; }
      var k :| 0 <= k < |needles[0]| && needles[0][k] == c;
      NotContainsMissingChar(s, needles[0], k);
      NotContainsAnyMissingChar(s, needles[1..], c);
    }
  }

  /** Lowercasing works character by character, so it keeps every occurrence of a substring. */
  lemma ContainsLower(s: string, needle: string)
    requires Contains(s, needle)
    ensures Contains(Lower(s), Lower(needle))
  {
    ContainsAt(s, needle);
    var i :| OccursAt(s, needle, i);
    assert Lower(s)[i..i + |needle|] == Lower(needle);
    assert OccursAt(Lower(s), Lower(needle), i);
    ContainsAt(Lower(s), Lower(needle));
  }

  /** Lexicographic order by code point: how Python compares (and `sorted` orders) strings. */
  predicate StrLess(a: string, b: string)
    decreases |a|
  {
    if a == [] then b != []
    else if b == [] then false
    else if a[0] < b[0] then true
    else a[0] == b[0] && StrLess(a[1..], b[1..])
  }

  lemma {:induction false} StrLessIrreflexive(a: string)
    ensures !StrLess(a, a)
  {
    if a != [] { StrLessIrreflexive(a[1..]); }
  }

  lemma {:induction false} StrLessTransitive(a: string, b: string, c: string)
    requires StrLess(a, b) && StrLess(b, c)
    ensures StrLess(a, c)
  {
    if a != [] && b != [] && c != [] && a[0] == b[0] && b[0] == c[0] {
      StrLessTransitive(a[1..], b[1..], c[1..]);
    }
  }

  lemma {:induction false} StrLessTotal(a: string, b: string)
    requires a != b
    ensures StrLess(a, b) || StrLess(b, a)
  {
    if a != [] && b != [] && a[0] == b[0] {
      assert a == [a[0]] + a[1..] && b == [b[0]] + b[1..];
      StrLessTotal(a[1..], b[1..]);
    }
  }

  /** Every finite non-empty set of strings has a least element in code-point order. */
  lemma {:induction false} LeastExists(s: set<string>)
    requires s != {}
    ensures exists m :: m in s && forall r :: r in s && r != m ==> StrLess(m, r)
    decreases |s|
  {
    var x :| x in s;
    if s == {x} {
      assert forall r :: r in s ==> r == x;
    } else {
      var rest := s - {x};
      LeastExists(rest);
      var m :| m in rest && forall r :: r in rest && r != m ==> StrLess(m, r);
      if StrLess(x, m) {
        forall r | r in s && r != x ensures StrLess(x, r) {
          if r != m {
            assert r in rest;
            StrLessTransitive(x, m, r);
          }
        }
        assert x in s;
      } else {
        StrLessTotal(m, x);
        forall r | r in s && r != m ensures StrLess(m, r) {
          if r != x { assert r in rest; }
        }
        assert m in s;
      }
    }
  }

  /** `sep.join(parts)`. */
  function Join(sep: string, parts: seq<string>): (r: string)
  {
    if parts == [] then ""
    else if |parts| == 1 then parts[0]
    else parts[0] + sep + Join(sep, parts[1..])
  }
}
