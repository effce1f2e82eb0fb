/**
 * The match list of app.js: the match records, `normalizeString`, the team and
 * search predicates that `filterMatches` chains, and the "HH:MM" ordering that
 * `renderMatches` sorts by.
 */
module Matches {
  import opened Wrappers
  import opened Seqs
  import opened Text

  datatype TeamRef = TeamRef(name: string, logo: string)
  datatype Channel = Channel(name: string, logo: string)
  datatype Match = Match(
    id: int, homeTeam: TeamRef, awayTeam: TeamRef, time: string, league: string,
    isLive: bool, channels: seq<Channel>, slug: string)

  // ---------------------------------------------------------------------------
  // Filtering, as Array.prototype.filter does it

  /** The elements of `s` that satisfy `p`, in their original order. */
  function Filter<T(!new)>(s: seq<T>, p: T -> bool): (r: seq<T>)
    ensures forall x :: x in r <==> x in s && p(x)
    decreases |s|
  {
    if s == [] then []
    else
      var rest := Filter(s[1..], p);
      assert forall x :: x in s <==> x == s[0] || x in s[1..];
      if p(s[0]) then [s[0]] + rest else rest
  }

  /** What the filter keeps stays in its original order. */
  lemma {:induction false} FilterIsSubsequence<T(!new)>(s: seq<T>, p: T -> bool)
    ensures IsSubsequence(Filter(s, p), s)
    decreases |s|
  {
    if s != [] {
      FilterIsSubsequence(s[1..], p);
      if !p(s[0]) {
        SubsequenceOfTail(Filter(s[1..], p), s);
      }
    }
  }

  /** Filtering twice is filtering once by both predicates. */
  lemma {:induction false} FilterFusion<T(!new)>(s: seq<T>, p: T -> bool, q: T -> bool, pq: T -> bool)
    requires forall x :: pq(x) == (p(x) && q(x))
    ensures Filter(Filter(s, p), q) == Filter(s, pq)
    decreases |s|
  {
    if s != [] {
      FilterFusion(s[1..], p, q, pq);
      if p(s[0]) {
        assert Filter(s, p)[1..] == Filter(s[1..], p);
      }
    }
  }

  lemma {:induction false} FilterAppend<T(!new)>(a: seq<T>, b: seq<T>, p: T -> bool)
    ensures Filter(a + b, p) == Filter(a, p) + Filter(b, p)
    decreases |a|
  {
    if a != [] {
      assert (a + b)[1..] == a[1..] + b;
      FilterAppend(a[1..], b, p);
    } else {
      assert a + b == b;
    }
  }

  lemma FilterSingle<T(!new)>(x: T, p: T -> bool)
    ensures Filter([x], p) == if p(x) then [x] else []
  {
    assert [x][1..] == [];
  }

  /** Filtering a non-empty list: the front filtered, then the last element if it passes. */
  lemma FilterSnoc<T(!new)>(s: seq<T>, p: T -> bool)
    requires s != []
    ensures Filter(s, p) ==
      Filter(s[..|s| - 1], p) + (if p(s[|s| - 1]) then [s[|s| - 1]] else [])
  {
    var n := |s| - 1;
    assert s[..n] + [s[n]] == s;
    FilterAppend(s[..n], [s[n]], p);
    FilterSingle(s[n], p);
  }

  /** A filter every element passes changes nothing. */
  lemma {:induction false} FilterAllPass<T(!new)>(s: seq<T>, p: T -> bool)
    requires forall i :: 0 <= i < |s| ==> p(s[i])
    ensures Filter(s, p) == s
    decreases |s|
  {
    if s != [] {
      FilterAllPass(s[1..], p);
    }
  }

  // ---------------------------------------------------------------------------
  // normalizeString: lowercase, canonical decomposition, combining marks removed

  /** The combining diacritical marks block, U+0300..U+036F. */
  predicate IsCombiningMark(c: char) {
    '̀' <= c <= 'ͯ'
  }

  /** Canonical decomposition of the precomposed lower-case Latin-1 letters:
      base letter and combining mark. */
  function LowerDecomposition(c: char): (r: Option<(char, char)>)
    ensures r.Some? ==> IsAsciiLower(r.value.0) && IsCombiningMark(r.value.1) && !IsUpper(c)
    ensures r.Some? ==> c as int >= 0xE0
  {
    match c
    case 'à' => Some(('a', '̀'))  case 'á' => Some(('a', '́'))
    case 'â' => Some(('a', '̂'))  case 'ã' => Some(('a', '̃'))
    case 'ä' => Some(('a', '̈'))  case 'å' => Some(('a', '̊'))
    case 'ç' => Some(('c', '̧'))
    case 'è' => Some(('e', '̀'))  case 'é' => Some(('e', '́'))
    case 'ê' => Some(('e', '̂'))  case 'ë' => Some(('e', '̈'))
    case 'ì' => Some(('i', '̀'))  case 'í' => Some(('i', '́'))
    case 'î' => Some(('i', '̂'))  case 'ï' => Some(('i', '̈'))
    case 'ñ' => Some(('n', '̃'))
    case 'ò' => Some(('o', '̀'))  case 'ó' => Some(('o', '́'))
    case 'ô' => Some(('o', '̂'))  case 'õ' => Some(('o', '̃'))
    case 'ö' => Some(('o', '̈'))
    case 'ù' => Some(('u', '̀'))  case 'ú' => Some(('u', '́'))
    case 'û' => Some(('u', '̂'))  case 'ü' => Some(('u', '̈'))
    case 'ý' => Some(('y', '́'))  case 'ÿ' => Some(('y', '̈'))
    case _ => None
  }

  predicate IsAsciiLower(c: char) { 'a' <= c <= 'z' }

  /** `normalize('NFD')` of one character: a precomposed Latin-1 letter becomes its base
      letter followed by a combining mark; every other character stays as it is. */
  function Decompose(c: char): (r: string)
    ensures |r| == 1 <==> LowerDecomposition(LowerChar(c)).None?
    ensures |r| == 1 ==> r[0] == c
    ensures |r| == 2 ==> IsCombiningMark(r[1]) && IsAsciiLower(LowerChar(r[0]))
    ensures |r| == 2 && !IsUpper(c) ==> IsAsciiLower(r[0])
  {
    match LowerDecomposition(c)
    case Some((base, mark)) => [base, mark]
    case None =>
      if IsUpper(c) && LowerDecomposition(LowerChar(c)).Some? then
        var (base, mark) := LowerDecomposition(LowerChar(c)).value;
        [(base as int - 32) as char, mark]
      else [c]
  }

  function Nfd(s: string): string
    decreases |s|
  {
    if s == [] then [] else Decompose(s[0]) + Nfd(s[1..])
  }

  /** `replace(/[̀-ͯ]/g, '')`. */
  function StripMarks(s: string): string {
    Filter(s, c => !IsCombiningMark(c))
  }

  function Normalize(s: string): string {
    StripMarks(Nfd(Lower(s)))
  }

  /** A character `normalizeString` leaves alone: not upper case, not decomposable,
      not a combining mark. */
  predicate IsNormalChar(c: char) {
    !IsUpper(c) && LowerDecomposition(c).None? && !IsCombiningMark(c)
  }

  /** Decomposing a string that has no upper-case letter yields no upper-case letter and
      no decomposable letter. */
  lemma {:induction false} NfdOfLower(s: string)
    requires forall i :: 0 <= i < |s| ==> !IsUpper(s[i])
    ensures forall i :: 0 <= i < |Nfd(s)| ==>
      !IsUpper(Nfd(s)[i]) && LowerDecomposition(Nfd(s)[i]).None?
    decreases |s|
  {
    if s != [] {
      NfdOfLower(s[1..]);
      var d := Decompose(s[0]);
      assert forall i :: 0 <= i < |d| ==> !IsUpper(d[i]) && LowerDecomposition(d[i]).None?;
      assert forall i :: 0 <= i < |Nfd(s)| ==>
        Nfd(s)[i] == if i < |d| then d[i] else Nfd(s[1..])[i - |d|];
    }
  }

  /** The output of `normalizeString` holds only characters it leaves alone: no combining
      mark, no upper-case letter (in particular none of A-Z), no precomposed letter. */
  lemma NormalizeIsNormal(s: string)
    ensures forall i :: 0 <= i < |Normalize(s)| ==> IsNormalChar(Normalize(s)[i])
    ensures forall i :: 0 <= i < |Normalize(s)| ==> !('A' <= Normalize(s)[i] <= 'Z')
  {
    NfdOfLower(Lower(s));
    var n := Normalize(s);
    forall i | 0 <= i < |n| ensures IsNormalChar(n[i]) {
      assert n[i] in n;
    }
  }

  /** Decomposition is the identity on strings with no decomposable letter. */
  lemma {:induction false} NfdIdentity(s: string)
    requires forall i :: 0 <= i < |s| ==> IsNormalChar(s[i])
    ensures Nfd(s) == s
    decreases |s|
  {
    if s != [] {
      NfdIdentity(s[1..]);
    }
  }

  /** `normalizeString` is idempotent. */
  lemma NormalizeIdempotent(s: string)
    ensures Normalize(Normalize(s)) == Normalize(s)
  {
    var n := Normalize(s);
    NormalizeIsNormal(s);
    assert Lower(n) == n;
    NfdIdentity(n);
    FilterAllPass(n, c => !IsCombiningMark(c));
  }

  lemma NormalizeExample()
    ensures Normalize("São") == "sao"
  {
    assert Lower("São") == "são";
    assert Nfd("são") == "são" by {
      assert Nfd("o") == "o";
      assert Nfd("ão") == "ão";
    }
    assert StripMarks("̃o") == "o";
    assert StripMarks("ão") == "ao";
  }

  // ---------------------------------------------------------------------------
  // The predicates of filterMatches

  /** The team filter: the normalised filter occurs in the home or the away name. */
  predicate MatchesTeam(m: Match, teamFilter: string) {
    var f := Normalize(teamFilter);
    Contains(Normalize(m.homeTeam.name), f) || Contains(Normalize(m.awayTeam.name), f)
  }

  /** The normalised channel names joined by single spaces. */
  function ChannelText(m: Match): string {
    Join(" ", seq(|m.channels|, i requires 0 <= i < |m.channels| => Normalize(m.channels[i].name)))
  }

  /** The search: the normalised term occurs in a team name, the league or the channels. */
  predicate MatchesSearch(m: Match, searchTerm: string) {
    var q := Normalize(searchTerm);
    Contains(Normalize(m.homeTeam.name), q) || Contains(Normalize(m.awayTeam.name), q) ||
    Contains(Normalize(m.league), q) || Contains(ChannelText(m), q)
  }

  /** A match survives both filters: each applies unless switched off ("todos", empty term). */
  predicate Kept(m: Match, searchTerm: string, teamFilter: string) {
    (teamFilter != "todos" ==> MatchesTeam(m, teamFilter)) &&
    (searchTerm != "" ==> MatchesSearch(m, searchTerm))
  }

  /** The callbacks handed to `filter`. */
  function TeamTest(teamFilter: string): Match -> bool {
    m => MatchesTeam(m, teamFilter)
  }

  function SearchTest(searchTerm: string): Match -> bool {
    m => MatchesSearch(m, searchTerm)
  }

  function KeptTest(searchTerm: string, teamFilter: string): Match -> bool {
    m => Kept(m, searchTerm, teamFilter)
  }

  /** The list `filterMatches` builds: the team filter first, then the search. */
  function FilterResult(all: seq<Match>, searchTerm: string, teamFilter: string): seq<Match> {
    var byTeam := if teamFilter != "todos" then Filter(all, TeamTest(teamFilter)) else all;
    if searchTerm != "" then Filter(byTeam, SearchTest(searchTerm)) else byTeam
  }

  /** The two chained filters keep, in their original order, exactly the matches that pass
      both active predicates. */
  lemma FilterResultIsKept(all: seq<Match>, searchTerm: string, teamFilter: string)
    ensures FilterResult(all, searchTerm, teamFilter) ==
      Filter(all, KeptTest(searchTerm, teamFilter))
  {
    var team := TeamTest(teamFilter);
    var search := SearchTest(searchTerm);
    var kept := KeptTest(searchTerm, teamFilter);
    if teamFilter != "todos" && searchTerm != "" {
      FilterFusion(all, team, search, kept);
    } else if teamFilter != "todos" {
      FilterFusion(all, team, _ => true, kept);
      FilterAllPass(Filter(all, team), _ => true);
    } else if searchTerm != "" {
      FilterFusion(all, _ => true, search, kept);
      FilterAllPass(all, _ => true);
    } else {
      FilterAllPass(all, kept);
    }
  }

  /** The filter result is an order-preserving subsequence of the list, holding exactly the
      matches that pass both active filters; with no filter it is the whole list. */
  lemma FilterResultSpec(all: seq<Match>, searchTerm: string, teamFilter: string)
    ensures var r := FilterResult(all, searchTerm, teamFilter);
      && IsSubsequence(r, all)
      && (forall m :: m in r <==> m in all && Kept(m, searchTerm, teamFilter))
      && (searchTerm == "" && teamFilter == "todos" ==> r == all)
  {
    FilterResultIsKept(all, searchTerm, teamFilter);
    FilterIsSubsequence(all, KeptTest(searchTerm, teamFilter));
  }

  // ---------------------------------------------------------------------------
  // The "HH:MM" key: time.split(':').map(Number), then hours * 60 + minutes

  /** `s.split(':')`. */
  function SplitColon(s: string): (r: seq<string>)
    ensures |r| >= 1
    decreases |s|
  {
    if s == [] then [""]
    else if s[0] == ':' then [""] + SplitColon(s[1..])
    else
      var rest := SplitColon(s[1..]);
      [[s[0]] + rest[0]] + rest[1..]
  }

  /** One step of the split: a separator starts a new field, any other character
      extends the first field. */
  lemma SplitColonCons(c: char, s: string)
    ensures SplitColon([c] + s) ==
      if c == ':' then [""] + SplitColon(s) else [[c] + SplitColon(s)[0]] + SplitColon(s)[1..]
  {
    assert ([c] + s)[0] == c && ([c] + s)[1..] == s;
  }

  /** Splitting is undone by joining with the separator, and no field holds a separator. */
  lemma {:induction false} SplitColonRoundTrip(s: string)
    ensures Join(":", SplitColon(s)) == s
    ensures forall i, k :: 0 <= i < |SplitColon(s)| && 0 <= k < |SplitColon(s)[i]| ==>
      SplitColon(s)[i][k] != ':'
    decreases |s|
  {
    if s != [] {
      SplitColonRoundTrip(s[1..]);
      var rest := SplitColon(s[1..]);
      if s[0] == ':' {
        assert SplitColon(s)[1..] == rest;
      } else {
        var r := SplitColon(s);
        assert r[0] == [s[0]] + rest[0] && r[1..] == rest[1..];
        if |rest| == 1 {
          assert Join(":", r) == [s[0]] + rest[0];
        } else {
          assert Join(":", rest) == rest[0] + ":" + Join(":", rest[1..]);
        }
        forall i, k | 0 <= i < |r| && 0 <= k < |r[i]| ensures r[i][k] != ':' {
          if i == 0 && k > 0 { assert r[0][k] == rest[0][k - 1]; }
          if i > 0 { assert r[i] == rest[i]; }
        }
      }
    }
  }

  /** A field that `Number` reads as a non-negative integer: ASCII digits only
      (`Number("")` is 0). */
  predicate IsNumeral(s: string) {
    forall i :: 0 <= i < |s| ==> IsAsciiDigit(s[i])
  }

  function DigitValue(c: char): nat {
    if IsAsciiDigit(c) then (c as int - '0' as int) as nat else 0
  }

  /** The decimal value of a numeral. */
  function Number(s: string): nat
    decreases |s|
  {
    if s == [] then 0 else Number(s[..|s| - 1]) * 10 + DigitValue(s[|s| - 1])
  }

  /** Minutes after midnight, when the first two fields are numerals; `None` stands for the
      NaN the comparator computes otherwise. */
  function MinuteKey(time: string): Option<int> {
    var f := SplitColon(time);
    if |f| >= 2 && IsNumeral(f[0]) && IsNumeral(f[1]) then Some(Number(f[0]) * 60 + Number(f[1]))
    else None
  }

  function DigitChar(d: nat): char
    requires d < 10
  {
    ('0' as int + d) as char
  }

  /** A two-digit, zero-padded numeral. */
  function TwoDigits(n: nat): (r: string)
    requires n < 100
    ensures |r| == 2 && IsNumeral(r) && Number(r) == n
  {
    var r := [DigitChar(n / 10), DigitChar(n % 10)];
    assert r[..1] == [DigitChar(n / 10)] && r[..1][..0] == [];
    assert DigitValue(r[0]) == n / 10 && DigitValue(r[1]) == n % 10;
    assert Number(r[..1]) == n / 10;
    assert Number(r) == Number(r[..1]) * 10 + n % 10;
    r
  }

  /** Every "HH:MM" clock reading gets the key hours * 60 + minutes. */
  lemma ClockKey(h: nat, m: nat)
    requires h < 100 && m < 100
    ensures MinuteKey(TwoDigits(h) + ":" + TwoDigits(m)) == Some(h * 60 + m)
  {
    var hh, mm := TwoDigits(h), TwoDigits(m);
    var a, b, c, d := hh[0], hh[1], mm[0], mm[1];
    assert hh == [a, b] && mm == [c, d];
    assert a != ':' && b != ':' && c != ':' && d != ':';
    SplitColonCons(d, []);
    assert [d] + [] == [d] && [d] + "" == [d];
    SplitColonCons(c, [d]);
    assert [c] + [d] == [c, d];
    SplitColonCons(':', [c, d]);
    assert [':'] + [c, d] == [':', c, d];
    SplitColonCons(b, [':', c, d]);
    assert [b] + [':', c, d] == [b, ':', c, d] && [b] + "" == [b];
    SplitColonCons(a, [b, ':', c, d]);
    assert [a] + [b, ':', c, d] == [a, b, ':', c, d] && [a] + [b] == [a, b];
    assert hh + ":" + mm == [a, b, ':', c, d];
  }

  /** The key the comparator computes. Times that do not parse are given 0 here; see the
      notes on unparsable times. */
  function KeyOf(m: Match): int {
    MinuteKey(m.time).GetOr(0)
  }

  // ---------------------------------------------------------------------------
  // The stable sort by an integer key

  predicate SortedBy<T>(s: seq<T>, key: T -> int) {
    forall i, j :: 0 <= i < j < |s| ==> key(s[i]) <= key(s[j])
  }

  /** Appending an element whose key is not below any key keeps the order. */
  lemma SortedAppend<T>(s: seq<T>, y: T, key: T -> int)
    requires SortedBy(s, key)
    requires forall i :: 0 <= i < |s| ==> key(s[i]) <= key(y)
    ensures SortedBy(s + [y], key)
  {
  }

  /** Inserts `x` after every element whose key is not greater than its own. */
  function InsertBy<T>(sorted: seq<T>, x: T, key: T -> int): (r: seq<T>)
    requires SortedBy(sorted, key)
    ensures SortedBy(r, key)
    ensures multiset(r) == multiset(sorted) + multiset{x}
    decreases |sorted|
  {
    if sorted == [] then [x]
    else
      var n := |sorted| - 1;
      var last := sorted[n];
      if key(last) <= key(x) then
        SortedAppend(sorted, x, key);
        sorted + [x]
      else
        var front := InsertBy(sorted[..n], x, key);
        InsertBelow(sorted, x, front, key);
        assert sorted == sorted[..n] + [last];
        front + [last]
  }

  /** The keys of the insertion into the front of a sorted list stay at or below the key of
      the last element, when `x`'s key is below it. */
  lemma InsertBelow<T>(sorted: seq<T>, x: T, front: seq<T>, key: T -> int)
    requires SortedBy(sorted, key) && sorted != []
    requires key(x) < key(sorted[|sorted| - 1])
    requires SortedBy(front, key)
    requires multiset(front) == multiset(sorted[..|sorted| - 1]) + multiset{x}
    ensures SortedBy(front + [sorted[|sorted| - 1]], key)
  {
    var n := |sorted| - 1;
    forall i | 0 <= i < |front| ensures key(front[i]) <= key(sorted[n]) {
      assert front[i] in multiset(front);
      if front[i] != x {
        assert front[i] in multiset(sorted[..n]);
        var j :| 0 <= j < n && sorted[..n][j] == front[i];
        assert sorted[j] == front[i];
      }
    }
    SortedAppend(front, sorted[n], key);
  }

  /** A stable sort, inserting the elements one by one in their original order. */
  function SortBy<T>(s: seq<T>, key: T -> int): (r: seq<T>)
    ensures SortedBy(r, key)
    ensures multiset(r) == multiset(s)
    decreases |s|
  {
    if s == [] then []
    else
      var n := |s| - 1;
      assert s == s[..n] + [s[n]];
      InsertBy(SortBy(s[..n], key), s[n], key)
  }

  /** The elements whose key is `k`. */
  function HasKey<T>(key: T -> int, k: int): T -> bool {
    y => key(y) == k
  }

  /** Insertion keeps the elements of each key in their order, the new one last. */
  lemma {:induction false} InsertByStable<T(!new)>(sorted: seq<T>, x: T, key: T -> int, k: int)
    requires SortedBy(sorted, key)
    ensures Filter(InsertBy(sorted, x, key), HasKey(key, k)) ==
      Filter(sorted, HasKey(key, k)) + (if key(x) == k then [x] else [])
    decreases |sorted|
  {
    FilterSingle(x, HasKey(key, k));
    if sorted != [] {
      var n := |sorted| - 1;
      if key(sorted[n]) <= key(x) {
        FilterAppend(sorted, [x], HasKey(key, k));
      } else {
        InsertByStable(sorted[..n], x, key, k);
        InsertBelowStable(sorted, x, key, k);
      }
    }
  }

  /** The step of `InsertByStable` where `x` goes before the last element. */
  lemma InsertBelowStable<T(!new)>(sorted: seq<T>, x: T, key: T -> int, k: int)
    requires SortedBy(sorted, key) && sorted != []
    requires key(x) < key(sorted[|sorted| - 1])
    requires var front := sorted[..|sorted| - 1];
      Filter(InsertBy(front, x, key), HasKey(key, k)) ==
      Filter(front, HasKey(key, k)) + (if key(x) == k then [x] else [])
    ensures Filter(InsertBy(sorted, x, key), HasKey(key, k)) ==
      Filter(sorted, HasKey(key, k)) + (if key(x) == k then [x] else [])
  {
    var p := HasKey(key, k);
    var n := |sorted| - 1;
    var last := sorted[n];
    var front := InsertBy(sorted[..n], x, key);
    var a := Filter(sorted[..n], p);
    var xs: seq<T> := if key(x) == k then [x] else [];
    var ls: seq<T> := if p(last) then [last] else [];
    InsertByLast(sorted, x, key);
    FilterSnoc(front + [last], p);
    assert (front + [last])[..|front|] == front;
    assert Filter(InsertBy(sorted, x, key), p) == (a + xs) + ls;
    FilterSnoc(sorted, p);
    assert Filter(sorted, p) == a + ls;
    assert p(last) <==> key(last) == k;
    if key(x) == k {
      assert ls == [];
      assert (a + xs) + ls == a + xs && (a + ls) + xs == a + xs;
    } else {
      assert xs == [];
      assert (a + xs) + ls == a + ls && (a + ls) + xs == a + ls;
    }
  }

  /** Inserting below the last element leaves the last element last. */
  lemma InsertByLast<T>(sorted: seq<T>, x: T, key: T -> int)
    requires SortedBy(sorted, key) && sorted != []
    requires key(x) < key(sorted[|sorted| - 1])
    ensures InsertBy(sorted, x, key) ==
      InsertBy(sorted[..|sorted| - 1], x, key) + [sorted[|sorted| - 1]]
  {
  }

  /** The sort is stable: the elements sharing a key keep their original relative order. */
  lemma {:induction false} SortByStable<T(!new)>(s: seq<T>, key: T -> int, k: int)
    ensures Filter(SortBy(s, key), HasKey(key, k)) == Filter(s, HasKey(key, k))
    decreases |s|
  {
    if s != [] {
      var p := HasKey(key, k);
      var n := |s| - 1;
      SortByStable(s[..n], key, k);
      InsertByStable(SortBy(s[..n], key), s[n], key, k);
      FilterSnoc(s, p);
    }
  }

  /** `[...matches].sort((a, b) => minutes(a) - minutes(b))`. */
  function SortByTime(matches: seq<Match>): seq<Match> {
    SortBy(matches, KeyOf)
  }

  /** The sorted copy is a permutation of the matches, ordered by minutes after midnight,
      with matches at the same time left in their original order. */
  lemma SortByTimeSpec(matches: seq<Match>)
    ensures var r := SortByTime(matches);
      && multiset(r) == multiset(matches)
      && (forall i, j :: 0 <= i < j < |r| ==> KeyOf(r[i]) <= KeyOf(r[j]))
      && (forall k :: Filter(r, HasKey(KeyOf, k)) == Filter(matches, HasKey(KeyOf, k)))
  {
    forall k ensures Filter(SortByTime(matches), HasKey(KeyOf, k)) ==
      Filter(matches, HasKey(KeyOf, k))
    {
      SortByStable(matches, KeyOf, k);
    }
  }

  // ---------------------------------------------------------------------------
  // The built-in match list

  const MockMatches: seq<Match> := [
    Match(1, TeamRef("Flamengo", "assets/times/flamengo.png"),
      TeamRef("Vasco", "assets/times/vasco.png"), "16:00", "Campeonato Carioca", true,
      [Channel("SporTV", "assets/canais/sportv.png"), Channel("Premiere", "")],
      "flamengo-x-vasco-16-jan-2026"),
    Match(2, TeamRef("Palmeiras", "assets/times/palmeiras.png"),
      TeamRef("Corinthians", "assets/times/corinthians.png"), "18:30", "Paulistão", false,
      [Channel("Record", ""), Channel("CazéTV", "")],
      "palmeiras-x-corinthians-16-jan-2026"),
    Match(3, TeamRef("São Paulo", "assets/times/sao-paulo.png"),
      TeamRef("Santos", "assets/times/santos.png"), "20:00", "Paulistão", false,
      [Channel("TNT Sports", ""), Channel("Max", "")],
      "sao-paulo-x-santos-16-jan-2026"),
    Match(4, TeamRef("Botafogo", "assets/times/botafogo.png"),
      TeamRef("Fluminense", "assets/times/fluminense.png"), "21:30", "Campeonato Carioca", false,
      [Channel("Band", ""), Channel("SporTV", "assets/canais/sportv.png")],
      "botafogo-x-fluminense-16-jan-2026"),
    Match(5, TeamRef("Atlético-MG", "assets/times/atletico-mg.png"),
      TeamRef("Cruzeiro", "assets/times/cruzeiro.png"), "19:00", "Campeonato Mineiro", false,
      [Channel("Globo", ""), Channel("Premiere", "")],
      "atletico-mg-x-cruzeiro-16-jan-2026")
  ]
}
