/**
 * `slugify` of spiders/generate_team_pages.py: a display name becomes a URL
 * slug by lowercasing, folding the Portuguese accented letters to ASCII,
 * turning every run of characters outside [a-z0-9] into one hyphen and
 * trimming hyphens from both ends.
 */
module Slug {
  import opened Text

  /** The characters `[a-z0-9]` that survive the regular expression. */
  predicate IsAlnum(c: char) { ('a' <= c <= 'z') || ('0' <= c <= '9') }

  /** The chained `str.replace` calls: each listed accented letter becomes its ASCII base. */
  function FoldChar(c: char): char {
    match c
    case 'ã' | 'á' | 'â' => 'a'
    case 'é' | 'ê' => 'e'
    case 'í' => 'i'
    case 'ó' | 'õ' | 'ô' => 'o'
    case 'ú' => 'u'
    case 'ç' => 'c'
    case _ => c
  }

  function Fold(s: string): string {
    seq(|s|, i requires 0 <= i < |s| => FoldChar(s[i]))
  }

  /** Drops the leading characters outside [a-z0-9]: the rest of one run matched by `[^a-z0-9]+`. */
  function SkipRun(s: string): (r: string)
    ensures |r| <= |s|
    ensures r == [] || IsAlnum(r[0])
  {
    if s != [] && !IsAlnum(s[0]) then SkipRun(s[1..]) else s
  }

  /** `re.sub(r'[^a-z0-9]+', '-', s)`: every maximal run outside [a-z0-9] becomes one '-'. */
  function Collapse(s: string): string
    decreases |s|
  {
    if s == [] then []
    else if IsAlnum(s[0]) then [s[0]] + Collapse(s[1..])
    else "-" + Collapse(SkipRun(s[1..]))
  }

  /** `s.strip('-')`: hyphens removed from both ends. */
  function TrimStart(s: string): (r: string)
    ensures |r| <= |s|
  {
    if s != [] && s[0] == '-' then TrimStart(s[1..]) else s
  }

  function TrimEnd(s: string): (r: string)
    ensures |r| <= |s|
  {
    if s != [] && s[|s| - 1] == '-' then TrimEnd(s[..|s| - 1]) else s
  }

  function Trim(s: string): string {
    TrimEnd(TrimStart(s))
  }

  function Slugify(text: string): string {
    Trim(Collapse(Fold(Lower(text))))
  }

  /** Only a-z, 0-9 and '-', no "--". */
  predicate IsSlugBody(t: string) {
    && (forall i :: 0 <= i < |t| ==> IsAlnum(t[i]) || t[i] == '-')
    && (forall i :: 0 <= i < |t| - 1 ==> !(t[i] == '-' && t[i + 1] == '-'))
  }

  /** A well-formed slug: a slug body that neither starts nor ends with '-'. */
  predicate IsSlug(t: string) {
    IsSlugBody(t) && (t != [] ==> t[0] != '-' && t[|t| - 1] != '-')
  }

  /** The characters of `s` that lie in [a-z0-9], in order: what a slug keeps of its input. */
  function Alnums(s: string): string {
    if s == [] then [] else (if IsAlnum(s[0]) then [s[0]] else []) + Alnums(s[1..])
  }

  /** Putting one more character in front of a slug body. */
  lemma SlugBodyCons(c: char, t: string)
    requires IsSlugBody(t)
    requires IsAlnum(c) || (c == '-' && (t == [] || t[0] != '-'))
    ensures IsSlugBody([c] + t)
  {
    var u := [c] + t;
    forall i | 0 <= i < |u| - 1 ensures !(u[i] == '-' && u[i + 1] == '-') {
      if i > 0 { assert u[i] == t[i - 1] && u[i + 1] == t[i]; }
    }
    forall i | 0 <= i < |u| ensures IsAlnum(u[i]) || u[i] == '-' {
      if i > 0 { assert u[i] == t[i - 1]; }
    }
  }

  lemma {:induction false} CollapseIsSlugBody(s: string)
    ensures IsSlugBody(Collapse(s))
    ensures Collapse(s) != [] && Collapse(s)[0] == '-' ==> s != [] && !IsAlnum(s[0])
    decreases |s|
  {
    if s == [] {
    } else if IsAlnum(s[0]) {
      CollapseIsSlugBody(s[1..]);
      SlugBodyCons(s[0], Collapse(s[1..]));
    } else {
      var rest := SkipRun(s[1..]);
      CollapseIsSlugBody(rest);
      // the run is over, so the next output character is not another '-'
      assert Collapse(rest) != [] ==> Collapse(rest)[0] != '-';
      SlugBodyCons('-', Collapse(rest));
    }
  }

  lemma {:induction false} TrimStartKeeps(s: string)
    requires IsSlugBody(s)
    ensures IsSlugBody(TrimStart(s))
    ensures TrimStart(s) != [] ==> TrimStart(s)[0] != '-'
    ensures TrimStart(s) == s[|s| - |TrimStart(s)|..]
  {
    if s != [] && s[0] == '-' {
      assert IsSlugBody(s[1..]);
      TrimStartKeeps(s[1..]);
    }
  }

  lemma {:induction false} TrimEndKeeps(s: string)
    requires IsSlugBody(s)
    requires s != [] ==> s[0] != '-'
    ensures IsSlug(TrimEnd(s))
    ensures TrimEnd(s) == s[..|TrimEnd(s)|]
    decreases |s|
  {
    if s != [] && s[|s| - 1] == '-' {
      var p := s[..|s| - 1];
      assert IsSlugBody(p);
      TrimEndKeeps(p);
    }
  }

  /** After the substitution and the strip of `slugify`, the slug has only a-z, 0-9 and
      '-', never starts or ends with '-' and never contains "--". */
  lemma SlugifyIsSlug(text: string)
    ensures IsSlug(Slugify(text))
  {
    var c := Collapse(Fold(Lower(text)));
    CollapseIsSlugBody(Fold(Lower(text)));
    TrimStartKeeps(c);
    TrimEndKeeps(TrimStart(c));
  }

  lemma {:induction false} CollapseFixesSlugBody(t: string)
    requires IsSlugBody(t)
    ensures Collapse(t) == t
  {
    if t != [] {
      assert IsSlugBody(t[1..]);
      CollapseFixesSlugBody(t[1..]);
      if !IsAlnum(t[0]) {
        assert t[1..] == [] || IsAlnum(t[1]);
        assert SkipRun(t[1..]) == t[1..];
      }
    }
  }

  lemma LowerFoldFixSlugBody(t: string)
    requires IsSlugBody(t)
    ensures Lower(t) == t && Fold(t) == t
  {
    forall i | 0 <= i < |t| ensures Lower(t)[i] == t[i] && Fold(t)[i] == t[i] {
      assert IsAlnum(t[i]) || t[i] == '-';
    }
  }

  /** A well-formed slug is left as it is by every step of `slugify`. */
  lemma SlugifyFixesSlugs(t: string)
    requires IsSlug(t)
    ensures Slugify(t) == t
  {
    LowerFoldFixSlugBody(t);
    CollapseFixesSlugBody(t);
    assert TrimStart(t) == t;
    assert TrimEnd(t) == t;
  }

  /** The slugs are exactly the fixed points of `slugify`. */
  lemma SlugifyFixedPoints(t: string)
    ensures Slugify(t) == t <==> IsSlug(t)
  {
    SlugifyIsSlug(t);
    if IsSlug(t) { SlugifyFixesSlugs(t); }
  }

  /** `slugify` is idempotent: slugifying a slug changes nothing. */
  lemma SlugifyIdempotent(text: string)
    ensures Slugify(Slugify(text)) == Slugify(text)
  {
    SlugifyIsSlug(text);
    SlugifyFixesSlugs(Slugify(text));
  }

  lemma {:induction false} AlnumsAppend(a: string, b: string)
    ensures Alnums(a + b) == Alnums(a) + Alnums(b)
  {
    if a != [] {
      var head := if IsAlnum(a[0]) then [a[0]] else [];
      assert (a + b)[0] == a[0] && (a + b)[1..] == a[1..] + b;
      AlnumsAppend(a[1..], b);
      calc {
        Alnums(a + b);
        head + Alnums(a[1..] + b);
        head + (Alnums(a[1..]) + Alnums(b));
        (head + Alnums(a[1..])) + Alnums(b);
        Alnums(a) + Alnums(b);
      }
    } else {
      assert a + b == b;
    }
  }

  lemma {:induction false} AlnumsSkipRun(s: string)
    ensures Alnums(SkipRun(s)) == Alnums(s)
  {
    if s != [] && !IsAlnum(s[0]) { AlnumsSkipRun(s[1..]); }
  }

  lemma {:induction false} AlnumsCollapse(s: string)
    ensures Alnums(Collapse(s)) == Alnums(s)
    decreases |s|
  {
    if s != [] {
      if IsAlnum(s[0]) {
        AlnumsCollapse(s[1..]);
        AlnumsAppend([s[0]], Collapse(s[1..]));
      } else {
        AlnumsCollapse(SkipRun(s[1..]));
        AlnumsSkipRun(s[1..]);
        AlnumsAppend("-", Collapse(SkipRun(s[1..])));
      }
    }
  }

  lemma {:induction false} AlnumsTrimStart(s: string)
    ensures Alnums(TrimStart(s)) == Alnums(s)
  {
    if s != [] && s[0] == '-' { AlnumsTrimStart(s[1..]); }
  }

  lemma {:induction false} AlnumsTrimEnd(s: string)
    ensures Alnums(TrimEnd(s)) == Alnums(s)
    decreases |s|
  {
    if s != [] && s[|s| - 1] == '-' {
      var p := s[..|s| - 1];
      AlnumsTrimEnd(p);
      assert s == p + "-";
      AlnumsAppend(p, "-");
    }
  }

  /** The slug loses only separators: its letters and digits are exactly those of the
      lowercased, accent-folded name, in the same order. */
  lemma SlugifyKeepsAlnums(text: string)
    ensures Alnums(Slugify(text)) == Alnums(Fold(Lower(text)))
  {
    var c := Collapse(Fold(Lower(text)));
    AlnumsCollapse(Fold(Lower(text)));
    AlnumsTrimStart(c);
    AlnumsTrimEnd(TrimStart(c));
  }

  predicate IsWord(w: string) {
    forall i :: 0 <= i < |w| ==> IsAlnum(w[i])
  }

  /** A word of [a-z0-9] passes through `re.sub` unchanged. */
  lemma {:induction false} CollapseWordPrefix(w: string, rest: string)
    requires IsWord(w)
    ensures Collapse(w + rest) == w + Collapse(rest)
  {
    if w != [] {
      assert (w + rest)[0] == w[0] && (w + rest)[1..] == w[1..] + rest;
      CollapseWordPrefix(w[1..], rest);
    } else {
      assert w + rest == rest;
    }
  }

  lemma {:induction false} SkipRunSeparators(sep: string, rest: string)
    requires forall i :: 0 <= i < |sep| ==> !IsAlnum(sep[i])
    requires rest == [] || IsAlnum(rest[0])
    ensures SkipRun(sep + rest) == rest
  {
    if sep != [] {
      assert (sep + rest)[0] == sep[0] && (sep + rest)[1..] == sep[1..] + rest;
      SkipRunSeparators(sep[1..], rest);
    } else {
      assert sep + rest == rest;
    }
  }

  /** Two words with a run of separators between them come out joined by one hyphen. */
  lemma CollapseTwoWords(w1: string, sep: string, w2: string)
    requires IsWord(w1) && IsWord(w2) && w2 != []
    requires sep != [] && forall i :: 0 <= i < |sep| ==> !IsAlnum(sep[i])
    ensures Collapse(w1 + sep + w2) == w1 + "-" + w2
  {
    CollapseWordPrefix(w1, sep + w2);
    assert w1 + sep + w2 == w1 + (sep + w2);
    assert (sep + w2)[0] == sep[0] && (sep + w2)[1..] == sep[1..] + w2;
    SkipRunSeparators(sep[1..], w2);
    CollapseWordPrefix(w2, []);
    assert w2 + [] == w2;
  }

  /** A name that folds to two words with separators between them slugifies to the
      two words joined by one hyphen. */
  lemma SlugifyTwoWords(text: string, w1: string, sep: string, w2: string)
    requires Fold(Lower(text)) == w1 + sep + w2
    requires IsWord(w1) && IsWord(w2) && w1 != [] && w2 != []
    requires sep != [] && forall i :: 0 <= i < |sep| ==> !IsAlnum(sep[i])
    ensures Slugify(text) == w1 + "-" + w2
  {
    CollapseTwoWords(w1, sep, w2);
    var t := w1 + "-" + w2;
    assert t[0] == w1[0] && t[|t| - 1] == w2[|w2| - 1];
    assert TrimStart(t) == t;
    assert TrimEnd(t) == t;
  }

  /** Lowercasing and accent folding of three team names of the `TEAMS` table. */
  lemma FoldedTeamNames()
    ensures Fold(Lower("São Paulo")) == "sao" + " " + "paulo"
    ensures Fold(Lower("Grêmio")) == "gremio" + []
    ensures Fold(Lower("Atlético Mineiro")) == "atletico" + " " + "mineiro"
  {
  }

  lemma SlugWords()
    ensures IsWord("sao") && IsWord("paulo") && IsWord("gremio")
    ensures IsWord("atletico") && IsWord("mineiro")
    ensures "sao" + "-" + "paulo" == "sao-paulo"
    ensures "atletico" + "-" + "mineiro" == "atletico-mineiro"
  {
  }

  /** The slugs of the team names of the `TEAMS` table. */
  lemma SlugifyExamples()
    ensures Slugify("São Paulo") == "sao-paulo"
    ensures Slugify("Grêmio") == "gremio"
    ensures Slugify("Atlético Mineiro") == "atletico-mineiro"
  {
    FoldedTeamNames();
    SlugWords();
    SlugifyTwoWords("São Paulo", "sao", " ", "paulo");
    SlugifyTwoWords("Atlético Mineiro", "atletico", " ", "mineiro");
    CollapseWordPrefix("gremio", []);
  }
}
