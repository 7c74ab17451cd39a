/** The team list of the conference page: every link to a school page gives
    a team slug and the team's full URL, the list is cut to the first team
    of each slug, and each team page is saved under `{slug}_2025.html`. */
module Scrape {
  import opened Wrappers
  import opened Text
  import opened Seqs
  import RosterParse

  const BaseUrl := "https://www.sports-reference.com"

  /** The 2024-25 season is labelled 2025 on the site. */
  const SportsRefYear := 2025

  /** A link of the conference page: its `href` and its stripped text. */
  datatype Link = Link(href: string, name: string)

  datatype Team = Team(name: string, slug: string, url: string)

  // ----- One link -----

  /** `href.strip("/").split("/")`, kept when there are at least four parts
      and the second is "schools"; the slug is the third part. */
  function TeamFromLink(link: Link): (r: Option<Team>)
    ensures r.Some? ==> r.value.name == link.name && r.value.url == BaseUrl + link.href
    ensures r.Some? ==> '/' !in r.value.slug
  {
    var parts := Split(StripChar(link.href, '/'), '/');
    if |parts| >= 4 && parts[1] == "schools" then
      Some(Team(link.name, parts[2], BaseUrl + link.href))
    else None
  }

  /** A school-season link `/cbb/schools/{slug}/{page}` gives back `slug`,
      for any slug and page free of '/'. */
  lemma SchoolLinkGivesSlug(slug: string, page: string, name: string)
    requires '/' !in slug && '/' !in page && page != []
    ensures var href := "/cbb/schools/" + slug + "/" + page;
      TeamFromLink(Link(href, name)) == Some(Team(name, slug, BaseUrl + href))
  {
    var href := "/cbb/schools/" + slug + "/" + page;
    var inner := "cbb" + "/schools/" + slug + "/" + page;
    assert href == ['/'] + inner;
    assert inner[|inner| - 1] == page[|page| - 1];
    StripCharUnchanged(inner, '/');
    var cbb := "cbb";
    assert '/' !in cbb by {
      assert forall k :: 0 <= k < |cbb| ==> cbb[k] != '/';
    }
    SchoolLinkGivesTeam(Link(href, name), cbb, slug, page);
  }

  /** Only a link whose stripped href reads `{a}/schools/{slug}/{rest}`,
      with no '/' in `a` and something after the slug's '/', gives a team;
      its slug is the part after "schools". An absolute URL is not such a
      link, since its first '/' is followed by another '/'. */
  lemma TeamFromLinkIsSchoolLink(link: Link, t: Team)
    requires TeamFromLink(link) == Some(t)
    ensures exists a, rest ::
      ('/' !in a && rest != [] && StripChar(link.href, '/') == a + "/schools/" + t.slug + "/" + rest)
  {
    var s := StripChar(link.href, '/');
    var parts := Split(s, '/');
    SplitShape(s, parts);
    var rest := Join(parts[3..], '/');
    SchoolPath(parts[0], t.slug, rest);
  }

  /** The path `{a}/schools/{slug}/{rest}` written part by part. */
  lemma SchoolPath(a: string, slug: string, rest: string)
    ensures a + ['/'] + "schools" + ['/'] + slug + ['/'] + rest == a + "/schools/" + slug + "/" + rest
  {
    assert ['/'] + "schools" + ['/'] == "/schools/";
  }

  /** A string with no trailing '/' that splits into at least four parts is
      its first three parts, each followed by '/', then a non-empty rest. */
  lemma SplitShape(s: string, parts: seq<string>)
    requires parts == Split(s, '/') && |parts| >= 4
    requires s == [] || s[|s| - 1] != '/'
    ensures '/' !in parts[0] && Join(parts[3..], '/') != []
    ensures s == parts[0] + ['/'] + parts[1] + ['/'] + parts[2] + ['/'] + Join(parts[3..], '/')
  {
    var rest := Join(parts[3..], '/');
    var head := parts[0] + ['/'] + parts[1] + ['/'] + parts[2] + ['/'];
    JoinFirstThree(parts, '/');
    assert s == head + rest;
    assert head[|head| - 1] == '/';
  }

  /** Joining at least four parts puts the first three in front. */
  lemma JoinFirstThree(parts: seq<string>, sep: char)
    requires |parts| >= 4
    ensures Join(parts, sep) == parts[0] + [sep] + parts[1] + [sep] + parts[2] + [sep] + Join(parts[3..], sep)
  {
    var one := Join(parts[1..], sep);
    var two := Join(parts[2..], sep);
    assert parts[1..][1..] == parts[2..] && parts[2..][1..] == parts[3..];
    assert two == parts[2] + [sep] + Join(parts[3..], sep);
    assert one == parts[1] + [sep] + two;
  }

  /** Conversely, every such link gives a team, with the part after
      "schools" as its slug. */
  lemma SchoolLinkGivesTeam(link: Link, a: string, slug: string, rest: string)
    requires '/' !in a && '/' !in slug
    requires StripChar(link.href, '/') == a + "/schools/" + slug + "/" + rest
    ensures TeamFromLink(link) == Some(Team(link.name, slug, BaseUrl + link.href))
  {
    var parts := SplitSchoolPath(a, slug, rest);
    assert parts[1] == "schools" && parts[2] == slug;
  }

  /** The parts of `{a}/schools/{slug}/{rest}`: `a`, "schools", `slug`, then
      the parts of `rest`. */
  lemma SplitSchoolPath(a: string, slug: string, rest: string) returns (parts: seq<string>)
    requires '/' !in a && '/' !in slug
    ensures parts == Split(a + "/schools/" + slug + "/" + rest, '/')
    ensures |parts| >= 4 && parts[1] == "schools" && parts[2] == slug
  {
    var schools := "schools";
    assert '/' !in schools by {
      assert forall k :: 0 <= k < |schools| ==> schools[k] != '/';
    }
    SchoolPath(a, slug, rest);
    var tail := slug + ['/'] + rest;
    var middle := schools + ['/'] + tail;
    assert a + "/schools/" + slug + "/" + rest == a + ['/'] + middle;
    SplitFirst(a, '/', middle);
    SplitFirst(schools, '/', tail);
    SplitFirst(slug, '/', rest);
    parts := [a] + ([schools] + ([slug] + Split(rest, '/')));
  }

  /** The values `f` gives for the elements of `xs`, in order; the elements
      it gives nothing for are skipped. */
  function FilterMap<A, B>(f: A -> Option<B>, xs: seq<A>): (ys: seq<B>)
    ensures |ys| <= |xs|
    decreases |xs|
  {
    if xs == [] then []
    else
      var n := |xs| - 1;
      match f(xs[n])
      case None => FilterMap(f, xs[..n])
      case Some(y) => FilterMap(f, xs[..n]) + [y]
  }

  /** A value is kept exactly when `f` gives it for some element. */
  lemma {:induction false} FilterMapMembers<A, B>(f: A -> Option<B>, xs: seq<A>, y: B)
    ensures y in FilterMap(f, xs) <==> exists i :: 0 <= i < |xs| && f(xs[i]) == Some(y)
    decreases |xs|
  {
    if xs != [] {
      var n := |xs| - 1;
      var prefix := xs[..n];
      FilterMapMembers(f, prefix, y);
      assert forall i :: 0 <= i < n ==> prefix[i] == xs[i];
      if y in FilterMap(f, xs) && f(xs[n]) != Some(y) {
        assert y in FilterMap(f, prefix);
      }
    }
  }

  /** The teams of the links, in link order. */
  function TeamsOf(links: seq<Link>): seq<Team> {
    FilterMap(TeamFromLink, links)
  }

  /** A team is collected exactly when some link gives it. */
  lemma TeamsOfMembers(links: seq<Link>, t: Team)
    ensures t in TeamsOf(links) <==> exists i :: 0 <= i < |links| && TeamFromLink(links[i]) == Some(t)
  {
    FilterMapMembers(TeamFromLink, links, t);
  }

  /** The first loop of `get_sunbelt_teams`. */
  method CollectTeams(links: seq<Link>) returns (teams: seq<Team>)
    ensures teams == TeamsOf(links)
  {
    teams := [];
    for i := 0 to |links|
      invariant teams == TeamsOf(links[..i])
    {
      assert links[..i + 1][..i] == links[..i];
      var parts := Split(StripChar(links[i].href, '/'), '/');
      if |parts| >= 4 && parts[1] == "schools" {
        teams := teams + [Team(links[i].name, parts[2], BaseUrl + links[i].href)];
      }
    }
    assert links[..|links|] == links;
  }

  // ----- De-duplication -----

  function SlugSet(teams: seq<Team>): set<string> {
    set t | t in teams :: t.slug
  }

  lemma SlugSetAppend(teams: seq<Team>, t: Team)
    ensures SlugSet(teams + [t]) == SlugSet(teams) + {t.slug}
  {
    assert forall u :: u in teams + [t] <==> u in teams || u == t;
  }

  /** The first team of every slug, in the original order. */
  function KeepFirst(teams: seq<Team>): (r: seq<Team>)
    ensures SlugSet(r) == SlugSet(teams)
    ensures forall a, b :: 0 <= a < b < |r| ==> r[a].slug != r[b].slug
    ensures IsSubsequence(r, teams)
    decreases |teams|
  {
    if teams == [] then []
    else
      var n := |teams| - 1;
      var prefix := teams[..n];
      var kept := KeepFirst(prefix);
      assert teams == prefix + [teams[n]];
      assert teams[..n] == prefix;
      if teams[n].slug in SlugSet(prefix) then
        SubsequenceExtend(kept, prefix, teams[n]);
        kept
      else
        var r := kept + [teams[n]];
        assert r[..|r| - 1] == kept;
        SlugSetAppend(kept, teams[n]);
        SlugSetAppend(prefix, teams[n]);
        r
  }

  /** The first team of a slug is among the kept ones. */
  lemma {:induction false} FirstOccurrenceKept(teams: seq<Team>, i: nat)
    requires i < |teams|
    requires forall k :: 0 <= k < i ==> teams[k].slug != teams[i].slug
    ensures teams[i] in KeepFirst(teams)
    decreases |teams|
  {
    var n := |teams| - 1;
    var prefix := teams[..n];
    if i == n {
      assert teams[n].slug !in SlugSet(prefix);
    } else {
      FirstOccurrenceKept(prefix, i);
    }
  }

  /** No team before index `i` has the slug of team `i`. */
  predicate FirstOfSlug(teams: seq<Team>, i: nat)
    requires i < |teams|
  {
    forall k :: 0 <= k < i ==> teams[k].slug != teams[i].slug
  }

  /** Every kept team is the first team of its slug: an index for it with
      no earlier team of the same slug. */
  lemma {:induction false} KeptFirstIndex(teams: seq<Team>, a: nat) returns (i: nat)
    requires a < |KeepFirst(teams)|
    ensures i < |teams| && teams[i] == KeepFirst(teams)[a] && FirstOfSlug(teams, i)
    decreases |teams|
  {
    var n := |teams| - 1;
    var prefix := teams[..n];
    var kept := KeepFirst(prefix);
    if a < |kept| {
      i := KeptFirstIndex(prefix, a);
      forall k | 0 <= k < i
        ensures teams[k].slug != teams[i].slug
      {
        assert teams[k] == prefix[k] && teams[i] == prefix[i];
      }
    } else {
      i := n;
      forall k | 0 <= k < n
        ensures teams[k].slug != teams[n].slug
      {
        assert prefix[k] in prefix;
      }
    }
  }

  /** Kept teams `a` before `b` have first occurrences `i` before `j`. */
  lemma {:induction false} KeptOrderAt(teams: seq<Team>, a: nat, b: nat) returns (i: nat, j: nat)
    requires a < b < |KeepFirst(teams)|
    ensures i < j < |teams| && teams[i] == KeepFirst(teams)[a] && teams[j] == KeepFirst(teams)[b]
    ensures FirstOfSlug(teams, i) && FirstOfSlug(teams, j)
    decreases |teams|
  {
    var n := |teams| - 1;
    var prefix := teams[..n];
    var kept := KeepFirst(prefix);
    if b < |kept| {
      i, j := KeptOrderAt(prefix, a, b);
    } else {
      i := KeptFirstIndex(prefix, a);
      j := n;
      forall k | 0 <= k < n
        ensures teams[k].slug != teams[n].slug
      {
        assert prefix[k] in prefix;
      }
    }
    assert teams[i] == prefix[i];
    forall k | 0 <= k < i
      ensures teams[k].slug != teams[i].slug
    {
      assert teams[k] == prefix[k];
    }
    forall k | 0 <= k < j && j < n
      ensures teams[k].slug != teams[j].slug
    {
      assert teams[k] == prefix[k] && teams[j] == prefix[j];
    }
  }

  /** The kept teams come in the order of their slugs' first occurrences. */
  lemma KeepFirstInFirstOccurrenceOrder(teams: seq<Team>, a: nat, b: nat)
    requires a < b < |KeepFirst(teams)|
    ensures exists i, j :: (0 <= i < j < |teams| && teams[i] == KeepFirst(teams)[a]
      && teams[j] == KeepFirst(teams)[b] && FirstOfSlug(teams, i) && FirstOfSlug(teams, j))
  {
    var i, j := KeptOrderAt(teams, a, b);
  }

  /** The team kept for a slug is the first team with that slug. */
  lemma KeptIsFirst(teams: seq<Team>, k: nat, i: nat)
    requires k < |KeepFirst(teams)| && i < |teams|
    requires teams[i].slug == KeepFirst(teams)[k].slug
    requires forall j :: 0 <= j < i ==> teams[j].slug != teams[i].slug
    ensures KeepFirst(teams)[k] == teams[i]
  {
    var r := KeepFirst(teams);
    FirstOccurrenceKept(teams, i);
    var m :| 0 <= m < |r| && r[m] == teams[i];
    assert r[m].slug == r[k].slug;
  }

  /** One more team: it is kept exactly when its slug is new. */
  lemma KeepFirstStep(teams: seq<Team>, i: nat)
    requires i < |teams|
    ensures SlugSet(teams[..i + 1]) == SlugSet(teams[..i]) + {teams[i].slug}
    ensures KeepFirst(teams[..i + 1])
      == if teams[i].slug in SlugSet(teams[..i]) then KeepFirst(teams[..i]) else KeepFirst(teams[..i]) + [teams[i]]
  {
    var prefix := teams[..i + 1];
    assert prefix[..i] == teams[..i] && prefix == teams[..i] + [teams[i]];
    SlugSetAppend(teams[..i], teams[i]);
  }

  /** The second loop of `get_sunbelt_teams`, with its `seen` set. */
  method DedupBySlug(teams: seq<Team>) returns (unique: seq<Team>)
    ensures unique == KeepFirst(teams)
  {
    var seen: set<string> := {};
    unique := [];
    for i := 0 to |teams|
      invariant seen == SlugSet(teams[..i])
      invariant unique == KeepFirst(teams[..i])
    {
      KeepFirstStep(teams, i);
      if teams[i].slug !in seen {
        seen := seen + {teams[i].slug};
        unique := unique + [teams[i]];
      }
    }
    assert teams[..|teams|] == teams;
  }

  /** `get_sunbelt_teams` after the page is fetched and its links selected. */
  method SunBeltTeams(links: seq<Link>) returns (unique: seq<Team>)
    ensures unique == KeepFirst(TeamsOf(links))
  {
    var teams := CollectTeams(links);
    unique := DedupBySlug(teams);
  }

  // ----- Saved pages -----

  /** The name `save_team_page` writes a team page to. */
  function SavedFileName(slug: string, year: int): string {
    slug + "_" + ShowInt(year) + ".html"
  }

  /** The roster parser reads back exactly the slug and the year from the
      name of a saved page, underscores in the slug included. */
  lemma SavedFileRoundTrip(slug: string, year: int)
    ensures RosterParse.SplitStem(RosterParse.FileStem(SavedFileName(slug, year))) == Ok((slug, year))
  {
    var stem := slug + "_" + ShowInt(year);
    assert SavedFileName(slug, year) == stem + ".html";
    RosterParse.StemOfHtml(stem);
    RosterParse.SplitStemRoundTrip(slug, year);
  }

  /** A team taken from a school link is saved under a plain file name in
      the output directory (no '/' in it), which the roster parser reads
      back as that team's slug and the season year. */
  lemma SavedTeamFileRoundTrip(link: Link, t: Team)
    requires TeamFromLink(link) == Some(t)
    ensures '/' !in SavedFileName(t.slug, SportsRefYear)
    ensures RosterParse.SplitStem(RosterParse.FileStem(SavedFileName(t.slug, SportsRefYear)))
              == Ok((t.slug, SportsRefYear))
  {
    var year := ShowNat(SportsRefYear);
    DigitsFree(year, '/');
    assert SavedFileName(t.slug, SportsRefYear) == t.slug + "_" + year + ".html";
    SavedFileRoundTrip(t.slug, SportsRefYear);
  }
}
