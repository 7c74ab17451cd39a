/** Merging the combined 2024-25 roster into the `players` table: each roster
    row is matched on (season, team slug, name); a matched player takes the
    row's height, weight and class year where the row has them (SQL
    `COALESCE`), and an unmatched row is reported as missing. */
module PlayerUpdate {
  import opened Wrappers
  import opened Text

  /** One row of the `players` table, with the `teams` join key `teamId`. */
  datatype Player = Player(
    playerId: int, fullName: string, teamId: int, season: int,
    heightCm: Option<int>, weightKg: Option<int>, classYear: Option<string>)

  /** One row of the combined roster file; a missing value is `None`. */
  datatype RosterEntry = RosterEntry(
    player: string, teamSlug: string, season: int,
    heightCm: Option<int>, weightKg: Option<int>, classYear: Option<string>)

  /** What a roster row is looked up by. */
  datatype Key = Key(season: int, slug: string, name: string)

  /** A roster row that matched no player: its name and team slug. */
  datatype Unmatched = Unmatched(name: string, slug: string)

  /** The summary printed at the end: the number of updated rows, the number
      of unmatched rows, the unmatched rows listed, and whether "..." follows. */
  datatype Report = Report(updated: nat, missingCount: nat, shown: seq<Unmatched>, more: bool)

  const ClassYearColumn := "class_year"

  /** How many unmatched rows the report lists. */
  const ShownLimit := 10

  // ----- The class_year column -----

  /** The column list after `ensure_class_year_column`. */
  function WithClassYear(columns: seq<string>): seq<string> {
    if ClassYearColumn in columns then columns else columns + [ClassYearColumn]
  }

  /** The column is there afterwards, every existing column keeps its place,
      and at most the one column is added. */
  lemma WithClassYearAddsOnlyIt(columns: seq<string>)
    ensures var r := WithClassYear(columns);
      && ClassYearColumn in r && columns <= r
      && (ClassYearColumn in columns <==> r == columns)
      && forall c :: c in r && c !in columns ==> c == ClassYearColumn
  {
  }

  /** A second call changes nothing. */
  lemma WithClassYearIdempotent(columns: seq<string>)
    ensures WithClassYear(WithClassYear(columns)) == WithClassYear(columns)
  {
  }

  // ----- Matching -----

  /** The season, the stripped slug and the stripped name of a roster row. */
  function KeyOf(e: RosterEntry): Key {
    Key(e.season, Strip(e.teamSlug), Strip(e.player))
  }

  /** The lookup query: same season, a team whose slug is the key's, and
      exactly the key's name. */
  predicate Matches(p: Player, teams: map<int, string>, k: Key) {
    p.season == k.season && p.teamId in teams && teams[p.teamId] == k.slug && p.fullName == k.name
  }

  /** The first player the lookup returns, as an index into the table. */
  function FindPlayer(rows: seq<Player>, teams: map<int, string>, k: Key): (r: Option<nat>)
    ensures r.None? <==> forall j :: 0 <= j < |rows| ==> !Matches(rows[j], teams, k)
    ensures r.Some? ==> r.value < |rows| && Matches(rows[r.value], teams, k)
    ensures r.Some? ==> forall j :: 0 <= j < r.value ==> !Matches(rows[j], teams, k)
  {
    if rows == [] then None
    else if Matches(rows[0], teams, k) then Some(0)
    else match FindPlayer(rows[1..], teams, k)
      case None => None
      case Some(j) => Some(j + 1)
  }

  /** The columns a lookup reads, which the merge never writes. */
  function Identity(p: Player): (int, string, int, int) {
    (p.playerId, p.fullName, p.teamId, p.season)
  }

  predicate SameIdentities(a: seq<Player>, b: seq<Player>) {
    |a| == |b| && forall j :: 0 <= j < |a| ==> Identity(a[j]) == Identity(b[j])
  }

  /** Tables that agree on the looked-up columns give the same lookup result. */
  lemma FindPlayerSameIdentities(a: seq<Player>, b: seq<Player>, teams: map<int, string>, k: Key)
    requires SameIdentities(a, b)
    ensures FindPlayer(a, teams, k) == FindPlayer(b, teams, k)
  {
    assert forall j :: 0 <= j < |a| ==> (Matches(a[j], teams, k) <==> Matches(b[j], teams, k));
  }

  /** The schema's keys: `player_id` is the primary key of `players`,
      `(full_name, team_id, season)` is unique there, and `team_slug` is
      unique among `teams`. */
  predicate Keyed(rows: seq<Player>, teams: map<int, string>) {
    && (forall a, b :: 0 <= a < b < |rows| ==> rows[a].playerId != rows[b].playerId)
    && (forall a, b :: 0 <= a < b < |rows| ==>
          (rows[a].fullName, rows[a].teamId, rows[a].season) != (rows[b].fullName, rows[b].teamId, rows[b].season))
    && (forall t, u :: t in teams && u in teams && t != u ==> teams[t] != teams[u])
  }

  /** Under the schema's keys at most one player matches a lookup key. */
  lemma AtMostOneMatch(rows: seq<Player>, teams: map<int, string>, k: Key, a: nat, b: nat)
    requires Keyed(rows, teams) && a < |rows| && b < |rows|
    requires Matches(rows[a], teams, k) && Matches(rows[b], teams, k)
    ensures a == b
  {
    assert rows[a].teamId == rows[b].teamId;
  }

  /** So the first match the lookup returns is the only one: the order the
      query returns rows in does not matter. */
  lemma FindPlayerIsOnlyMatch(rows: seq<Player>, teams: map<int, string>, k: Key, j: nat)
    requires Keyed(rows, teams)
    ensures FindPlayer(rows, teams, k) == Some(j) <==> j < |rows| && Matches(rows[j], teams, k)
  {
    if j < |rows| && Matches(rows[j], teams, k) {
      var r := FindPlayer(rows, teams, k);
      AtMostOneMatch(rows, teams, k, r.value, j);
    }
  }

  /** The keys depend only on the columns an update never writes. */
  lemma KeyedSameIdentities(a: seq<Player>, b: seq<Player>, teams: map<int, string>)
    requires SameIdentities(a, b) && Keyed(a, teams)
    ensures Keyed(b, teams)
  {
    forall x, y | 0 <= x < y < |b|
      ensures b[x].playerId != b[y].playerId
      ensures (b[x].fullName, b[x].teamId, b[x].season) != (b[y].fullName, b[y].teamId, b[y].season)
    {
      assert Identity(a[x]) == Identity(b[x]) && Identity(a[y]) == Identity(b[y]);
    }
  }

  // ----- COALESCE -----

  /** `COALESCE(incoming, current)` */
  function Coalesce<T>(incoming: Option<T>, current: Option<T>): Option<T> {
    if incoming.Some? then incoming else current
  }

  /** The class year as read from the roster: stripped when present. */
  function CleanClassYear(c: Option<string>): Option<string> {
    match c
    case None => None
    case Some(s) => Some(Strip(s))
  }

  /** The update of one matched player by one roster row. */
  function Merge(p: Player, e: RosterEntry): (q: Player)
    ensures Identity(q) == Identity(p)
  {
    p.(heightCm := Coalesce(e.heightCm, p.heightCm),
       weightKg := Coalesce(e.weightKg, p.weightKg),
       classYear := Coalesce(CleanClassYear(e.classYear), p.classYear))
  }

  /** One roster row applied to the table: the first matching player is
      merged, and nothing changes when none matches. */
  function Apply(rows: seq<Player>, teams: map<int, string>, e: RosterEntry): (r: seq<Player>)
    ensures |r| == |rows|
  {
    match FindPlayer(rows, teams, KeyOf(e))
    case None => rows
    case Some(j) => rows[j := Merge(rows[j], e)]
  }

  /** The roster rows applied one after another, in roster order. */
  function ApplyAll(rows: seq<Player>, teams: map<int, string>, roster: seq<RosterEntry>): (r: seq<Player>)
    ensures |r| == |rows|
    decreases |roster|
  {
    if roster == [] then rows
    else Apply(ApplyAll(rows, teams, roster[..|roster| - 1]), teams, roster[|roster| - 1])
  }

  /** The unmatched roster rows, in roster order. */
  function MissingRows(rows: seq<Player>, teams: map<int, string>, roster: seq<RosterEntry>): (r: seq<Unmatched>)
    ensures |r| <= |roster|
    decreases |roster|
  {
    if roster == [] then []
    else
      var e := roster[|roster| - 1];
      MissingRows(rows, teams, roster[..|roster| - 1])
        + (if FindPlayer(rows, teams, KeyOf(e)).None? then [Unmatched(Strip(e.player), Strip(e.teamSlug))] else [])
  }

  /** The merge never changes who a player is, so every lookup during the
      loop gives what it would give on the table before the loop. */
  lemma {:induction false} ApplyAllKeepsIdentities(rows: seq<Player>, teams: map<int, string>, roster: seq<RosterEntry>)
    ensures SameIdentities(rows, ApplyAll(rows, teams, roster))
    decreases |roster|
  {
    if roster != [] {
      var before := ApplyAll(rows, teams, roster[..|roster| - 1]);
      ApplyAllKeepsIdentities(rows, teams, roster[..|roster| - 1]);
    }
  }

  // ----- What each player ends up with -----

  /** The roster rows whose lookup returns player `j`, in roster order. */
  function MatchedEntries(rows: seq<Player>, teams: map<int, string>, roster: seq<RosterEntry>, j: nat): seq<RosterEntry>
    decreases |roster|
  {
    if roster == [] then []
    else
      var e := roster[|roster| - 1];
      MatchedEntries(rows, teams, roster[..|roster| - 1], j)
        + (if FindPlayer(rows, teams, KeyOf(e)) == Some(j) then [e] else [])
  }

  /** A player merged with several roster rows, in order. */
  function MergeAll(p: Player, es: seq<RosterEntry>): Player
    decreases |es|
  {
    if es == [] then p else Merge(MergeAll(p, es[..|es| - 1]), es[|es| - 1])
  }

  /** One roster row changes player `j` exactly when its lookup, which the
      earlier rows cannot have changed, returns `j`. */
  lemma ApplyAt(rows: seq<Player>, before: seq<Player>, teams: map<int, string>, e: RosterEntry, j: nat)
    requires SameIdentities(rows, before) && j < |rows|
    ensures Apply(before, teams, e)[j]
      == if FindPlayer(rows, teams, KeyOf(e)) == Some(j) then Merge(before[j], e) else before[j]
  {
    FindPlayerSameIdentities(rows, before, teams, KeyOf(e));
  }

  /** After the loop every player is its old row merged, in roster order,
      with exactly the roster rows that matched it. */
  lemma {:induction false} ApplyAllPerPlayer(rows: seq<Player>, teams: map<int, string>, roster: seq<RosterEntry>, j: nat)
    requires j < |rows|
    ensures ApplyAll(rows, teams, roster)[j] == MergeAll(rows[j], MatchedEntries(rows, teams, roster, j))
    decreases |roster|
  {
    if roster != [] {
      var n := |roster| - 1;
      var e := roster[n];
      var prefix := roster[..n];
      var before := ApplyAll(rows, teams, prefix);
      var es := MatchedEntries(rows, teams, prefix, j);
      var hit := FindPlayer(rows, teams, KeyOf(e)) == Some(j);
      ApplyAllPerPlayer(rows, teams, prefix, j);
      ApplyAllKeepsIdentities(rows, teams, prefix);
      ApplyAt(rows, before, teams, e, j);
      assert ApplyAll(rows, teams, roster) == Apply(before, teams, e);
      assert MatchedEntries(rows, teams, roster, j) == es + (if hit then [e] else []);
      if hit {
        assert ApplyAll(rows, teams, roster)[j] == Merge(before[j], e);
        MergeAllSnoc(rows[j], es, e);
      } else {
        assert ApplyAll(rows, teams, roster)[j] == before[j];
        assert MatchedEntries(rows, teams, roster, j) == es;
      }
    }
  }

  lemma MergeAllSnoc(p: Player, es: seq<RosterEntry>, e: RosterEntry)
    ensures MergeAll(p, es + [e]) == Merge(MergeAll(p, es), e)
  {
    assert (es + [e])[..|es|] == es;
  }

  /** A player no roster row matches is left exactly as it was. */
  lemma {:induction false} UnmatchedPlayerUnchanged(rows: seq<Player>, teams: map<int, string>, roster: seq<RosterEntry>, j: nat)
    requires j < |rows|
    requires forall i :: 0 <= i < |roster| ==> FindPlayer(rows, teams, KeyOf(roster[i])) != Some(j)
    ensures ApplyAll(rows, teams, roster)[j] == rows[j]
  {
    ApplyAllPerPlayer(rows, teams, roster, j);
    NoMatchedEntries(rows, teams, roster, j);
  }

  lemma {:induction false} NoMatchedEntries(rows: seq<Player>, teams: map<int, string>, roster: seq<RosterEntry>, j: nat)
    requires forall i :: 0 <= i < |roster| ==> FindPlayer(rows, teams, KeyOf(roster[i])) != Some(j)
    ensures MatchedEntries(rows, teams, roster, j) == []
    decreases |roster|
  {
    if roster != [] {
      NoMatchedEntries(rows, teams, roster[..|roster| - 1], j);
    }
  }

  /** Successive `COALESCE`s: the last present value, or `current` if none is. */
  function CoalesceAll<T>(current: Option<T>, incoming: seq<Option<T>>): Option<T>
    decreases |incoming|
  {
    if incoming == [] then current else Coalesce(incoming[|incoming| - 1], CoalesceAll(current, incoming[..|incoming| - 1]))
  }

  /** The last present value wins. */
  lemma {:induction false} CoalesceAllLastPresent<T>(current: Option<T>, incoming: seq<Option<T>>, i: nat)
    requires i < |incoming| && incoming[i].Some?
    requires forall k :: i < k < |incoming| ==> incoming[k].None?
    ensures CoalesceAll(current, incoming) == incoming[i]
    decreases |incoming|
  {
    if i < |incoming| - 1 {
      CoalesceAllLastPresent(current, incoming[..|incoming| - 1], i);
    }
  }

  /** With no value present, the stored value stays. */
  lemma {:induction false} CoalesceAllAbsent<T>(current: Option<T>, incoming: seq<Option<T>>)
    requires forall k :: 0 <= k < |incoming| ==> incoming[k].None?
    ensures CoalesceAll(current, incoming) == current
    decreases |incoming|
  {
    if incoming != [] {
      CoalesceAllAbsent(current, incoming[..|incoming| - 1]);
    }
  }

  function Heights(es: seq<RosterEntry>): (r: seq<Option<int>>)
    ensures |r| == |es| && forall i :: 0 <= i < |es| ==> r[i] == es[i].heightCm
  {
    seq(|es|, i requires 0 <= i < |es| => es[i].heightCm)
  }

  function Weights(es: seq<RosterEntry>): (r: seq<Option<int>>)
    ensures |r| == |es| && forall i :: 0 <= i < |es| ==> r[i] == es[i].weightKg
  {
    seq(|es|, i requires 0 <= i < |es| => es[i].weightKg)
  }

  function ClassYears(es: seq<RosterEntry>): (r: seq<Option<string>>)
    ensures |r| == |es| && forall i :: 0 <= i < |es| ==> r[i] == CleanClassYear(es[i].classYear)
  {
    seq(|es|, i requires 0 <= i < |es| => CleanClassYear(es[i].classYear))
  }

  /** Field by field, merging with several rows keeps the player's identity
      and takes, for each of height, weight and class year, the last value
      the rows supply, or the stored one when none does. */
  lemma {:induction false} MergeAllFields(p: Player, es: seq<RosterEntry>)
    ensures var q := MergeAll(p, es);
      && Identity(q) == Identity(p)
      && q.heightCm == CoalesceAll(p.heightCm, Heights(es))
      && q.weightKg == CoalesceAll(p.weightKg, Weights(es))
      && q.classYear == CoalesceAll(p.classYear, ClassYears(es))
    decreases |es|
  {
    if es != [] {
      var prefix := es[..|es| - 1];
      MergeAllFields(p, prefix);
      assert Heights(es)[..|es| - 1] == Heights(prefix);
      assert Weights(es)[..|es| - 1] == Weights(prefix);
      assert ClassYears(es)[..|es| - 1] == ClassYears(prefix);
    }
  }

  // ----- The report -----

  /** The end-of-run summary: at most the first ten unmatched rows, and "..."
      exactly when some are not listed. */
  function MissingReport(updated: nat, missing: seq<Unmatched>): (r: Report)
    ensures r.updated == updated && r.missingCount == |missing|
    ensures |r.shown| <= ShownLimit && r.shown <= missing
    ensures |missing| <= ShownLimit ==> r.shown == missing
    ensures |missing| > ShownLimit ==> r.shown == missing[..ShownLimit]
    ensures r.more <==> |missing| > ShownLimit
    ensures r.more <==> |r.shown| < |missing|
  {
    var shown := if |missing| <= ShownLimit then missing else missing[..ShownLimit];
    Report(updated, |missing|, shown, |missing| > ShownLimit)
  }

  /** The `players` table with its column list and the `teams` slugs it
      joins to (team id to slug). */
  class PlayersTable {
    var columns: seq<string>
    var rows: seq<Player>
    var teams: map<int, string>

    /** The schema's keys hold, and before the class_year column exists no
        player has a class year. */
    predicate Valid()
      reads this
    {
      && Keyed(rows, teams)
      && (ClassYearColumn !in columns ==> forall j :: 0 <= j < |rows| ==> rows[j].classYear.None?)
    }

    constructor (columns: seq<string>, rows: seq<Player>, teams: map<int, string>)
      requires Keyed(rows, teams)
      requires ClassYearColumn !in columns ==> forall j :: 0 <= j < |rows| ==> rows[j].classYear.None?
      ensures this.columns == columns && this.rows == rows && this.teams == teams
      ensures Valid()
    {
      this.columns := columns;
      this.rows := rows;
      this.teams := teams;
    }

    /** `ensure_class_year_column`: adds the column when it is absent; the
        new column is empty in every row. */
    method EnsureClassYearColumn()
      requires Valid()
      modifies this
      ensures columns == WithClassYear(old(columns))
      ensures rows == old(rows) && teams == old(teams)
      ensures Valid() && ClassYearColumn in columns
    {
      if ClassYearColumn !in columns {
        columns := columns + [ClassYearColumn];
      }
    }

    /** The loop over the roster rows: each row either updates the first
        matching player or is appended to `missing`. */
    method ApplyRoster(roster: seq<RosterEntry>) returns (updated: nat, missing: seq<Unmatched>)
      requires Valid() && ClassYearColumn in columns
      modifies this
      ensures rows == ApplyAll(old(rows), teams, roster)
      ensures missing == MissingRows(old(rows), teams, roster)
      ensures updated + |missing| == |roster|
      ensures columns == old(columns) && teams == old(teams)
      ensures Valid()
    {
      updated, missing := 0, [];
      ghost var rows0 := rows;
      for i := 0 to |roster|
        invariant rows == ApplyAll(rows0, teams, roster[..i])
        invariant missing == MissingRows(rows0, teams, roster[..i])
        invariant updated + |missing| == i
        invariant columns == old(columns) && teams == old(teams)
      {
        var e := roster[i];
        var key := Key(e.season, Strip(e.teamSlug), Strip(e.player));
        ApplyAllKeepsIdentities(rows0, teams, roster[..i]);
        FindPlayerSameIdentities(rows0, rows, teams, key);
        assert roster[..i + 1][..i] == roster[..i];
        match FindPlayer(rows, teams, key)
        case None =>
          missing := missing + [Unmatched(key.name, key.slug)];
        case Some(j) =>
          rows := rows[j := Merge(rows[j], e)];
          updated := updated + 1;
      }
      assert roster[..|roster|] == roster;
      ApplyAllKeepsIdentities(rows0, teams, roster);
      KeyedSameIdentities(rows0, rows, teams);
    }

    /** The script's run: the column check, the loop, and the summary. */
    method UpdateFromRoster(roster: seq<RosterEntry>) returns (report: Report)
      requires Valid()
      modifies this
      ensures columns == WithClassYear(old(columns)) && teams == old(teams)
      ensures rows == ApplyAll(old(rows), teams, roster)
      ensures Valid()
      ensures var missing := MissingRows(old(rows), teams, roster);
        report == MissingReport(|roster| - |missing|, missing)
    {
      EnsureClassYearColumn();
      var updated, missing := ApplyRoster(roster);
      report := MissingReport(updated, missing);
    }
  }
}
