/**
 * The link filter of `extract_teams_from_league` in spiders/generate_team_pages.py:
 * which anchors of a Wikipedia league table are taken for team pages, and the
 * dictionary of teams the scan builds from them, keyed by link text.
 */
module Links {
  import opened Text

  /** One `<a>` element: its `href` and `title` attributes and its stripped text. */
  datatype Link = Link(href: string, title: string, text: string)

  /** The value stored per team: name, absolute Wikipedia URL, title attribute. */
  datatype WikiTeam = WikiTeam(name: string, wikiUrl: string, wikiTitle: string)

  const WikiPrefix: string := "/wiki/"
  const WikiHost: string := "https://pt.wikipedia.org"

  /** Namespace markers that disqualify a link (files, categories, help pages). */
  const ExcludedMarkers: seq<string> :=
    ["Ficheiro:", "File:", "Categoria:", "Category:", "Wikipedia:", "Ajuda:"]

  /** Words in the link text that suggest a club. */
  const TextIndicators: seq<string> :=
    ["FC", "SC", "EC", "AC", "Clube", "Esporte", "Sport", "Futebol"]

  /** Words in the title attribute that suggest a club. */
  const TitleIndicators: seq<string> := ["Futebol", "Clube"]

  /** The href names an article outside the excluded namespaces. */
  predicate IsArticleHref(href: string) {
    StartsWith(href, WikiPrefix) && !ContainsAny(href, ExcludedMarkers)
  }

  /** The link text is long enough, not a number, and not about football itself. */
  predicate IsTeamLikeText(text: string) {
    |text| > 2 && !IsDigits(text) && !Contains(Lower(text), "futebol")
  }

  /** The whole acceptance test: article href, team-like text, and an indicator in
      the text or, failing that, in the title. */
  predicate IsTeamLink(l: Link) {
    IsArticleHref(l.href) && IsTeamLikeText(l.text) &&
    (ContainsAny(l.text, TextIndicators) || ContainsAny(l.title, TitleIndicators))
  }

  /** The entry stored for an accepted link. */
  function Entry(l: Link): WikiTeam {
    WikiTeam(l.text, WikiHost + l.href, l.title)
  }

  /** The dictionary after scanning `links` in document order: every accepted link
      stores its entry under its text, a later one overwriting an earlier one. */
  function Collected(links: seq<Link>): map<string, WikiTeam>
    decreases |links|
  {
    if links == [] then map[]
    else
      var before := Collected(links[..|links| - 1]);
      var l := links[|links| - 1];
      if IsTeamLink(l) then before[l.text := Entry(l)] else before
  }

  /** The scan loop over the links of the league tables. */
  method CollectTeamLinks(links: seq<Link>) returns (teams: map<string, WikiTeam>)
    ensures teams == Collected(links)
  {
    teams := map[];
    var i := 0;
    while i < |links|
      invariant 0 <= i <= |links|
      invariant teams == Collected(links[..i])
    {
      var l := links[i];
      assert links[..i + 1][..i] == links[..i];
      if IsTeamLink(l) {
        teams := teams[l.text := Entry(l)];
      }
      i := i + 1;
    }
    assert links[..i] == links;
  }

  /** The link at position `i` is accepted and has text `t`. */
  predicate AcceptedAt(links: seq<Link>, i: int, t: string) {
    0 <= i < |links| && IsTeamLink(links[i]) && links[i].text == t
  }

  /** ... and no later accepted link has the same text. */
  predicate LastAcceptedAt(links: seq<Link>, i: int, t: string) {
    AcceptedAt(links, i, t) && forall j :: i < j < |links| ==> !AcceptedAt(links, j, t)
  }

  /** The keys are exactly the texts of the accepted links. */
  lemma {:induction false} CollectedKeys(links: seq<Link>)
    ensures forall t :: t in Collected(links) <==> exists i :: AcceptedAt(links, i, t)
    decreases |links|
  {
    if links != [] {
      var n := |links| - 1;
      var front := links[..n];
      CollectedKeys(front);
      forall t ensures t in Collected(links) <==> exists i :: AcceptedAt(links, i, t) {
        if t in Collected(links) && !AcceptedAt(links, n, t) {
          assert t in Collected(front);
          var i :| AcceptedAt(front, i, t);
          assert AcceptedAt(links, i, t);
        }
        if exists i :: AcceptedAt(links, i, t) {
          var i :| AcceptedAt(links, i, t);
          if i < n {
            assert AcceptedAt(front, i, t);
            assert t in Collected(front);
          }
        }
      }
    }
  }

  /** Each value is the entry of the last accepted link with its key as text. */
  lemma {:induction false} CollectedLastWins(links: seq<Link>)
    ensures forall t :: t in Collected(links) ==>
      exists i :: LastAcceptedAt(links, i, t) && Collected(links)[t] == Entry(links[i])
    decreases |links|
  {
    if links != [] {
      var n := |links| - 1;
      var front := links[..n];
      CollectedLastWins(front);
      forall t | t in Collected(links)
        ensures exists i :: LastAcceptedAt(links, i, t) && Collected(links)[t] == Entry(links[i])
      {
        if AcceptedAt(links, n, t) {
          assert LastAcceptedAt(links, n, t);
        } else {
          assert t in Collected(front) && Collected(links)[t] == Collected(front)[t];
          var i :| LastAcceptedAt(front, i, t) && Collected(front)[t] == Entry(front[i]);
          LastAcceptedExtends(links, i, t);
        }
      }
    }
  }

  /** Appending a link that is not accepted under `t` keeps the last position for `t`. */
  lemma LastAcceptedExtends(links: seq<Link>, i: int, t: string)
    requires links != [] && LastAcceptedAt(links[..|links| - 1], i, t)
    requires !AcceptedAt(links, |links| - 1, t)
    ensures LastAcceptedAt(links, i, t) && links[i] == links[..|links| - 1][i]
  {
    var front := links[..|links| - 1];
    assert front[i] == links[i];
    forall j | i < j < |links| ensures !AcceptedAt(links, j, t) {
      if j < |front| { assert front[j] == links[j] && !AcceptedAt(front, j, t); }
    }
  }

  /** The entry of an accepted link is named by its text and points at the Wikipedia
      host followed by an article href. */
  lemma EntryWellFormed(l: Link)
    requires IsTeamLink(l)
    ensures Entry(l).name == l.text && |l.text| > 2 && !IsDigits(l.text)
    ensures StartsWith(Entry(l).wikiUrl, WikiHost + WikiPrefix)
  {
    StartsWithPrepend(WikiHost, l.href, WikiPrefix);
  }

  /** Every stored entry is keyed by its own name, and points at the Wikipedia host
      followed by an article href. */
  lemma CollectedEntriesWellFormed(links: seq<Link>)
    ensures forall t :: t in Collected(links) ==>
      var e := Collected(links)[t];
      && e.name == t
      && StartsWith(e.wikiUrl, WikiHost + WikiPrefix)
      && |t| > 2 && !IsDigits(t)
  {
    CollectedLastWins(links);
    forall t | t in Collected(links)
      ensures var e := Collected(links)[t];
        e.name == t && StartsWith(e.wikiUrl, WikiHost + WikiPrefix) && |t| > 2 && !IsDigits(t)
    {
      var i :| LastAcceptedAt(links, i, t) && Collected(links)[t] == Entry(links[i]);
      EntryWellFormed(links[i]);
    }
  }

  /** An href without a colon is never in an excluded namespace: every marker ends in ':'. */
  lemma ColonFreeHrefIsArticle(href: string)
    requires StartsWith(href, WikiPrefix)
    requires forall k :: 0 <= k < |href| ==> href[k] != ':'
    ensures IsArticleHref(href)
  {
    forall n | n in ExcludedMarkers ensures OccursIn(':', n) {
      assert n[|n| - 1] == ':';
    }
    NotContainsAnyMissingChar(href, ExcludedMarkers, ':');
  }

  /** "Futebol" in the text-indicator list can never be what admits a link: a text
      containing it also contains "futebol" once lowercased, which rejects the link. */
  lemma FutebolTextIndicatorIsDead(l: Link)
    requires Contains(l.text, "Futebol")
    ensures !IsTeamLink(l)
  {
    ContainsLower(l.text, "Futebol");
    assert Lower("Futebol") == "futebol";
  }

  /** Lowercasing does not create a lower-case letter absent in both of its cases. */
  lemma LowerWithout(s: string, lower: char, upper: char)
    requires IsUpper(upper) && lower as int == upper as int + 32
    requires forall k :: 0 <= k < |s| ==> s[k] != lower && s[k] != upper
    ensures forall k :: 0 <= k < |Lower(s)| ==> Lower(s)[k] != lower
  {
  }

  lemma ExampleHrefIsArticle()
    ensures IsArticleHref("/wiki/Esporte_Clube_Bahia")
  {
    ColonFreeHrefIsArticle("/wiki/Esporte_Clube_Bahia");
  }

  lemma ExampleTextHasIndicator()
    ensures ContainsAny("EC Bahia", TextIndicators)
  {
    var t := "EC Bahia";
    assert Contains(t, TextIndicators[2]) by { assert StartsWith(t, "EC"); }
    assert ContainsAny(t, TextIndicators[2..]);
    assert ContainsAny(t, TextIndicators[1..]);
  }

  lemma ExampleTextIsTeamLike()
    ensures IsTeamLikeText("EC Bahia")
  {
    var t := "EC Bahia";
    LowerWithout(t, 'f', 'F');
    assert "futebol"[0] == 'f';
    NotContainsMissingChar(Lower(t), "futebol", 0);
  }

  /** A club link of a league table is accepted. */
  lemma AcceptedExample()
    ensures IsTeamLink(Link("/wiki/Esporte_Clube_Bahia", "Esporte Clube Bahia", "EC Bahia"))
  {
    ExampleHrefIsArticle();
    ExampleTextHasIndicator();
    ExampleTextIsTeamLike();
  }

  lemma ExampleFileHrefExcluded()
    ensures !IsArticleHref("/wiki/Ficheiro:Escudo.png")
  {
    var f := "/wiki/Ficheiro:Escudo.png";
    assert StartsWith(f[6..], "Ficheiro:");
    assert Contains(f[5..], "Ficheiro:") && Contains(f[4..], "Ficheiro:");
    assert Contains(f[3..], "Ficheiro:") && Contains(f[2..], "Ficheiro:");
    assert Contains(f[1..], "Ficheiro:") && Contains(f, "Ficheiro:");
  }

  /** A file link, a year link and a two-letter text are all rejected. */
  lemma RejectedExamples()
    ensures !IsTeamLink(Link("/wiki/Ficheiro:Escudo.png", "Clube", "Escudo do Clube"))
    ensures !IsTeamLink(Link("/wiki/2026", "2026", "2026"))
    ensures !IsTeamLink(Link("/wiki/EC", "Clube", "EC"))
  {
    ExampleFileHrefExcluded();
    assert IsDigits("2026");
  }
}
