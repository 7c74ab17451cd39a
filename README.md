# Sun Belt 2024-25 player data: a verified model

This project models the data-handling core of a small collegiate-basketball
analytics pipeline for the Sun Belt conference, 2024-25 season. It is written
in Dafny and has four parts, one module each:

- **Scrape** (`scrape.dfy`). The conference page's school links become
  `(name, slug, url)` teams. Teams are cut to the first one per slug, and
  each team page is saved as `{slug}_2025.html`.
- **RosterParse** (`roster_parse.dfy`). Each saved page's roster table is
  found by its headers, and its headers are renamed to canonical names. The
  player column and the optional columns present are kept. Heights
  (`F-I`) and weights (pounds) become rounded centimetres and kilograms.
  Names are trimmed and blank rows dropped, and the team slug and season are
  read back from the file name.
- **PlayerUpdate** (`player_update.dfy`). The combined roster is merged
  into the `players` table. A row matches a player on (season, team slug,
  name). A matched player takes each of height, weight and class year the
  row supplies (SQL `COALESCE`). Unmatched rows are collected and
  summarised.
- **Similarity** (`similarity.dfy`). Every player-season's box-score
  features are filled (missing values become 0) and z-scored column by
  column, with a zero standard deviation replaced by 1. Each player-season
  gets its five nearest other player-seasons by Euclidean distance, as
  ranked records.

Three modules support them:

- `text.dfy` holds the Python string behaviour the scripts rely on: `strip`,
  `lower`, `isdigit`, `int`, `split` and `str` of an integer.
- `wrappers.dfy` holds `Option` and `Result`.
- `seqs.dfy` holds the order-keeping subsequence relation, used by the
  column selection and by the de-duplication of teams.

The code that changes things step by step is kept imperative:

- the loops that build the team list, the `seen` set, the rename map, the
  optional-column list, the frame list and the similarity records;
- the in-place zero-std guard on an array;
- the `players` table, a class whose methods update its rows and columns.

Each such method is proved equal to a function. The properties are proved
about that function.

## Model

| member | source | states |
|---|---|---|
| Text.StripIdempotent | scripts/parse_sportsref_sunbelt_2024_25_rosters.py:107 | stripping a stripped name changes nothing, so the second strip of a name in the update script has no effect |
| Text.ParseIntRoundTrip | scripts/parse_sportsref_sunbelt_2024_25_rosters.py:53 | `int(str(n)) == n` for every integer, the step that reads a season back |
| Text.Split | scripts/scrape_sunbelt_2024_25.py:71 | `split` on one character: at least one part, no part holds the separator, and joining the parts with it gives the text back |
| RosterParse.RoundHalfEvenNearest | scripts/parse_sportsref_sunbelt_2024_25_rosters.py:24 | Python's `round` of a rational lands within one half of it, and on the even neighbour at an exact half |
| RosterParse.ParseHeightCm | scripts/parse_sportsref_sunbelt_2024_25_rosters.py:14-24 | a height exists exactly when the cell is a string whose stripped text is digits, a dash, digits |
| RosterParse.HeightNeedsText | scripts/parse_sportsref_sunbelt_2024_25_rosters.py:15-16 | a cell that is not a string gives no height |
| RosterParse.HeightTextFirstDash | scripts/parse_sportsref_sunbelt_2024_25_rosters.py:18-22 | splitting at the first dash decides it: the text is a height exactly when both sides of that dash are digits |
| RosterParse.HeightOfParts | scripts/parse_sportsref_sunbelt_2024_25_rosters.py:21-24 | the two sides give a value exactly when both are digit runs |
| RosterParse.HeightOfText | scripts/parse_sportsref_sunbelt_2024_25_rosters.py:20-24 | `F-I` with digit runs gives the rounded centimetres of `12 * F + I` inches at exactly 2.54 cm per inch |
| RosterParse.HeightWithTwoDashes | scripts/parse_sportsref_sunbelt_2024_25_rosters.py:20-22 | a stripped text with two dashes, such as "6-3-1", gives no height |
| RosterParse.ParseWeightKg | scripts/parse_sportsref_sunbelt_2024_25_rosters.py:27-32 | a weight exists exactly when the stripped `str` of the cell is an integer literal |
| RosterParse.WeightOfIntCell | scripts/parse_sportsref_sunbelt_2024_25_rosters.py:27-32 | an integer cell of `n` pounds gives the rounded kilograms of `n` at exactly 0.45359237 kg per pound |
| RosterParse.WeightOfFloatCell | scripts/parse_sportsref_sunbelt_2024_25_rosters.py:28-31 | a float cell (`"185.0"`) and a missing cell (`"nan"`) give no weight, because `int` rejects their text |
| RosterParse.FirstRosterTable | scripts/parse_sportsref_sunbelt_2024_25_rosters.py:41-44 | the chosen table has a "player" header and a "class" or "pos" header, and no earlier table does; none is chosen when no table qualifies |
| RosterParse.FindRosterTable | scripts/parse_sportsref_sunbelt_2024_25_rosters.py:40-46 | the loop over the tables returns the first roster-like table, or none when no table qualifies (the error) |
| RosterParse.FirstRosterTableIsFirst | scripts/parse_sportsref_sunbelt_2024_25_rosters.py:41-46 | a qualifying table with none before it is the one chosen, and past the end none is chosen |
| RosterParse.RenameMap | scripts/parse_sportsref_sunbelt_2024_25_rosters.py:58-70 | a header is a key exactly when its stripped lower-cased text is one of the aliases, and it maps to that alias's canonical name |
| RosterParse.BuildRenameMap | scripts/parse_sportsref_sunbelt_2024_25_rosters.py:58-70 | the loop over the columns builds exactly that map |
| RosterParse.Rename | scripts/parse_sportsref_sunbelt_2024_25_rosters.py:72 | mapped headers are replaced and the others kept, position by position |
| RosterParse.RenamedIsCanonical | scripts/parse_sportsref_sunbelt_2024_25_rosters.py:59-72 | every recognised header is renamed to its canonical name, whatever its case and surrounding whitespace |
| RosterParse.Present | scripts/parse_sportsref_sunbelt_2024_25_rosters.py:83-86 | the names kept are exactly those of the fixed order present among the columns, in that order |
| RosterParse.KeepColumns | scripts/parse_sportsref_sunbelt_2024_25_rosters.py:82-88 | "player" comes first, then exactly the optional columns present, in the order class_year, pos, height_raw, weight_lbs |
| RosterParse.SelectColumns | scripts/parse_sportsref_sunbelt_2024_25_rosters.py:82-88 | the loop over the optional names builds exactly that column list |
| RosterParse.FileStem | scripts/parse_sportsref_sunbelt_2024_25_rosters.py:51 | the stem is the whole name, or the part before a last dot that is followed by no other dot |
| RosterParse.StemOfHtml | scripts/parse_sportsref_sunbelt_2024_25_rosters.py:51 | the stem of `stem + ".html"` is `stem` |
| RosterParse.SplitStem | scripts/parse_sportsref_sunbelt_2024_25_rosters.py:52-53 | a successful split is at the last underscore, with the slug before it and an integer season after it; any other stem is a file-name error |
| RosterParse.SplitStemRoundTrip | scripts/parse_sportsref_sunbelt_2024_25_rosters.py:51-53 | `slug + "_" + str(season)` splits back into exactly `(slug, season)`, underscores in the slug included |
| RosterParse.ColumnIndex | scripts/parse_sportsref_sunbelt_2024_25_rosters.py:89 | a column is found exactly when its label is present, at a position carrying that label |
| RosterParse.Column | scripts/parse_sportsref_sunbelt_2024_25_rosters.py:84-89 | an output column has a value exactly when it is kept and present in the table, and the value is the row's cell under the first header with that name |
| RosterParse.ConvertRow | scripts/parse_sportsref_sunbelt_2024_25_rosters.py:91-107 | each row carries the file's slug and season and its trimmed name, and its height and weight are the conversions of its raw height and weight cells |
| RosterParse.ConvertRows | scripts/parse_sportsref_sunbelt_2024_25_rosters.py:92-110 | every kept row has a non-blank name and the file's slug and season, and is the conversion of some table row |
| RosterParse.ConvertRowsInOrder | scripts/parse_sportsref_sunbelt_2024_25_rosters.py:92-110 | the kept rows are, in table order, the conversions of all rows with the blank-named ones left out: they are a subsequence of all conversions and as many as the named rows, so repeated rows are all kept |
| RosterParse.NamedRowKept | scripts/parse_sportsref_sunbelt_2024_25_rosters.py:107-110 | every table row whose trimmed name is not blank is kept |
| RosterParse.NamesAreTrimmed | scripts/parse_sportsref_sunbelt_2024_25_rosters.py:107 | no output name starts or ends with whitespace |
| RosterParse.ParseRosterFile | scripts/parse_sportsref_sunbelt_2024_25_rosters.py:49-112 | the method returns the file-name error, the no-table error, the missing-player error or the converted rows, in the order the code meets them |
| RosterParse.PlayerColumnAlwaysPresent | scripts/parse_sportsref_sunbelt_2024_25_rosters.py:75-79 | the table the header test picks always has a column renamed to "player", so the missing-column error never fires |
| RosterParse.ParsedRowsCarryFileContext | scripts/parse_sportsref_sunbelt_2024_25_rosters.py:51-110 | every row of a successful parse carries the slug and season read from the file name, and a non-blank trimmed name |
| RosterParse.OkValues | scripts/parse_sportsref_sunbelt_2024_25_rosters.py:125-130 | no more frames are collected than there are files |
| RosterParse.OkValuesEmptyIff | scripts/parse_sportsref_sunbelt_2024_25_rosters.py:132-134 | nothing is collected exactly when every result is an error |
| RosterParse.FileResults | scripts/parse_sportsref_sunbelt_2024_25_rosters.py:123-126 | there is one parse result per file, in file order |
| RosterParse.NothingCollectedIff | scripts/parse_sportsref_sunbelt_2024_25_rosters.py:132-134 | no frame is collected exactly when no file parses |
| RosterParse.CollectFrames | scripts/parse_sportsref_sunbelt_2024_25_rosters.py:123-130 | the loop keeps the frame of each file that parses, in file order, and skips each failing file |
| RosterParse.ParseAllFiles | scripts/parse_sportsref_sunbelt_2024_25_rosters.py:115-138 | nothing is written exactly when no file parses (no files at all included); otherwise the output is the concatenation of the parsed frames |
| RosterParse.ConcatAppend | scripts/parse_sportsref_sunbelt_2024_25_rosters.py:136 | a frame added to the collected ones lands after their rows |
| Scrape.TeamFromLink | scripts/scrape_sunbelt_2024_25.py:71-76 | a team keeps the link's name, its URL is the base URL followed by the unmodified href, and its slug holds no '/' |
| Scrape.TeamFromLinkIsSchoolLink | scripts/scrape_sunbelt_2024_25.py:71-76 | a link gives a team only when its '/'-stripped href reads `{a}/schools/{slug}/{rest}` with no '/' in `a` and a non-empty rest, and the team's slug is that `slug`; an absolute URL gives none |
| Scrape.SchoolLinkGivesTeam | scripts/scrape_sunbelt_2024_25.py:71-76 | conversely every link of that shape gives the team with that slug, the link's name and the base URL followed by the href |
| Scrape.SchoolLinkGivesSlug | scripts/scrape_sunbelt_2024_25.py:71-75 | every school-season link gives the team with its own slug and the base URL followed by the href |
| Scrape.FilterMap | scripts/scrape_sunbelt_2024_25.py:67-76 | no more teams are collected than there are links |
| Scrape.FilterMapMembers | scripts/scrape_sunbelt_2024_25.py:67-76 | a value is collected exactly when some element gives it |
| Scrape.TeamsOfMembers | scripts/scrape_sunbelt_2024_25.py:67-76 | a team is collected exactly when some link yields it |
| Scrape.CollectTeams | scripts/scrape_sunbelt_2024_25.py:64-76 | the first loop collects the teams of the links, in link order |
| Scrape.SlugSetAppend | scripts/scrape_sunbelt_2024_25.py:82-83 | adding a team adds exactly its slug to the seen slugs |
| Scrape.KeepFirst | scripts/scrape_sunbelt_2024_25.py:78-84 | the kept slugs are pairwise distinct, they form the same set as the input slugs, and the kept teams are the input in its original order with some teams dropped |
| Scrape.KeepFirstInFirstOccurrenceOrder | scripts/scrape_sunbelt_2024_25.py:79-84 | of two kept teams, the earlier one is the first team of its slug at an earlier position than the later one, the first team of its own slug |
| Scrape.FirstOccurrenceKept | scripts/scrape_sunbelt_2024_25.py:79-84 | the first team of every slug is kept |
| Scrape.KeptIsFirst | scripts/scrape_sunbelt_2024_25.py:79-84 | the team kept for a slug is the first team with that slug |
| Scrape.KeepFirstStep | scripts/scrape_sunbelt_2024_25.py:81-84 | one more team adds its slug to the seen set, and it is kept exactly when its slug is new |
| Scrape.DedupBySlug | scripts/scrape_sunbelt_2024_25.py:78-84 | the second loop, with its `seen` set, keeps exactly the first team of each slug |
| Scrape.SunBeltTeams | scripts/scrape_sunbelt_2024_25.py:64-88 | the team list is the first team per slug of the teams the links yield |
| Scrape.SavedFileRoundTrip | scripts/scrape_sunbelt_2024_25.py:95 | the roster parser's stem split reads exactly `(slug, year)` back from the name `{slug}_{year}.html`, underscores in the slug included |
| Scrape.SavedTeamFileRoundTrip | scripts/scrape_sunbelt_2024_25.py:95 | for a team taken from a school link, the saved name holds no '/', so it is a plain file in the output directory, and the parser reads back that team's slug and the season year |
| PlayerUpdate.WithClassYearAddsOnlyIt | scripts/update_players_from_sunbelt_rosters_2024_25.py:11-18 | afterwards the column is there, every old column keeps its place, the list is unchanged exactly when the column was already there, and nothing else is added |
| PlayerUpdate.WithClassYearIdempotent | scripts/update_players_from_sunbelt_rosters_2024_25.py:11-18 | a second call changes nothing |
| PlayerUpdate.PlayersTable.EnsureClassYearColumn | scripts/update_players_from_sunbelt_rosters_2024_25.py:11-18 | the column list becomes the list with class_year ensured; rows and teams are unchanged, and the new column is empty |
| PlayerUpdate.FindPlayer | scripts/update_players_from_sunbelt_rosters_2024_25.py:49-60 | no player is found exactly when none has the row's season, a team with the row's slug and exactly the row's name; otherwise the first such player is found |
| PlayerUpdate.AtMostOneMatch | scripts/init_sun_belt_v0_schema.py:22-43 | under the schema's keys (distinct player ids, unique team slugs, unique name, team and season) no two players match the same roster row |
| PlayerUpdate.FindPlayerIsOnlyMatch | scripts/update_players_from_sunbelt_rosters_2024_25.py:49-60 | under the schema's keys the lookup returns a player exactly when that player matches the row, so the search order does not matter |
| PlayerUpdate.KeyedSameIdentities | scripts/init_sun_belt_v0_schema.py:22-43 | a table with the same ids, names, teams and seasons as a keyed table is keyed too |
| PlayerUpdate.FindPlayerSameIdentities | scripts/update_players_from_sunbelt_rosters_2024_25.py:49-60 | tables that agree on id, name, team and season give the same lookup result |
| PlayerUpdate.Merge | scripts/update_players_from_sunbelt_rosters_2024_25.py:67-77 | an update never changes a player's id, name, team or season |
| PlayerUpdate.Apply | scripts/update_players_from_sunbelt_rosters_2024_25.py:60-77 | applying one row keeps the number of players |
| PlayerUpdate.ApplyAll | scripts/update_players_from_sunbelt_rosters_2024_25.py:38-78 | applying all rows keeps the number of players |
| PlayerUpdate.MissingRows | scripts/update_players_from_sunbelt_rosters_2024_25.py:61-63 | there are no more unmatched rows than roster rows |
| PlayerUpdate.ApplyAllKeepsIdentities | scripts/update_players_from_sunbelt_rosters_2024_25.py:67-76 | the loop never changes who a player is, so every lookup during it gives what it gives on the table before it |
| PlayerUpdate.ApplyAt | scripts/update_players_from_sunbelt_rosters_2024_25.py:60-77 | one row changes player `j` exactly when its lookup returns `j`, and then by merging that row |
| PlayerUpdate.ApplyAllPerPlayer | scripts/update_players_from_sunbelt_rosters_2024_25.py:38-78 | after the loop each player is its old row merged, in roster order, with exactly the rows that matched it |
| PlayerUpdate.MergeAllSnoc | scripts/update_players_from_sunbelt_rosters_2024_25.py:67-77 | merging one more row merges it last |
| PlayerUpdate.UnmatchedPlayerUnchanged | scripts/update_players_from_sunbelt_rosters_2024_25.py:67-76 | a player that no roster row matches is left exactly as it was |
| PlayerUpdate.NoMatchedEntries | scripts/update_players_from_sunbelt_rosters_2024_25.py:60-65 | a player no lookup returns is matched by no row |
| PlayerUpdate.CoalesceAllLastPresent | scripts/update_players_from_sunbelt_rosters_2024_25.py:71-73 | over successive updates the last value present wins |
| PlayerUpdate.CoalesceAllAbsent | scripts/update_players_from_sunbelt_rosters_2024_25.py:71-73 | when no update supplies a value, the stored value stays |
| PlayerUpdate.MergeAllFields | scripts/update_players_from_sunbelt_rosters_2024_25.py:43-76 | field by field, a player ends with the last height, weight and stripped class year its matching rows supply, or its stored value when none does |
| PlayerUpdate.MissingReport | scripts/update_players_from_sunbelt_rosters_2024_25.py:83-90 | the summary gives the counts, lists all unmatched rows when there are at most ten and exactly the first ten otherwise, and adds "..." exactly when some are not listed |
| PlayerUpdate.PlayersTable.ApplyRoster | scripts/update_players_from_sunbelt_rosters_2024_25.py:38-78 | the loop leaves the rows as all roster rows applied in order, and the unmatched rows in roster order; updated + unmatched = roster rows; the schema's keys still hold afterwards |
| PlayerUpdate.PlayersTable.UpdateFromRoster | scripts/update_players_from_sunbelt_rosters_2024_25.py:32-90 | the whole run: the column ensured, all rows applied, and the summary of the unmatched rows; the schema's keys still hold afterwards |
| Similarity.FeatureMatrix | scripts/compute_sunbelt_2024_25_similarity.py:39-40 | present feature values are kept and every missing one becomes 0.0, shape unchanged |
| Similarity.StdUsed | scripts/compute_sunbelt_2024_25_similarity.py:45 | the guarded standard deviation is never zero, and positive for any standard deviation |
| Similarity.ReplaceZeroStds | scripts/compute_sunbelt_2024_25_similarity.py:45 | in place, every zero entry becomes 1.0 and every other entry is kept |
| Similarity.Standardize | scripts/compute_sunbelt_2024_25_similarity.py:43-47 | each value is (raw - column mean) / guarded column std, one mean and one std per column for the whole cohort |
| Similarity.ZeroVarianceIffConstant | scripts/compute_sunbelt_2024_25_similarity.py:44 | a column has zero variance exactly when it is constant |
| Similarity.ConstantFeatureStandardizesToZero | scripts/compute_sunbelt_2024_25_similarity.py:44-47 | a constant feature is divided by 1.0 and standardizes to 0 in every row |
| Similarity.StandardizedColumnMeanIsZero | scripts/compute_sunbelt_2024_25_similarity.py:43-47 | every standardized column has mean 0 |
| Similarity.StandardizedVarianceIsOne | scripts/compute_sunbelt_2024_25_similarity.py:43-47 | every non-constant column standardizes to population variance 1 |
| Similarity.SquaredDistance | scripts/compute_sunbelt_2024_25_similarity.py:55-56 | the distance is never negative |
| Similarity.SquaredDistanceSymmetric | scripts/compute_sunbelt_2024_25_similarity.py:55-56 | the distance from a to b equals the distance from b to a |
| Similarity.SquaredDistanceZeroIff | scripts/compute_sunbelt_2024_25_similarity.py:55-56 | the distance is zero exactly between equal vectors |
| Similarity.RowDistances | scripts/compute_sunbelt_2024_25_similarity.py:55-57 | the row holds the distance to every other row, and infinity at the subject itself |
| Similarity.RowDistancesSymmetric | scripts/compute_sunbelt_2024_25_similarity.py:55-57 | between different rows the recorded distance is symmetric, and zero exactly when the standardized vectors coincide |
| Similarity.Insert | scripts/compute_sunbelt_2024_25_similarity.py:59 | inserting a candidate into a sorted list keeps it sorted and adds exactly that candidate |
| Similarity.ArgSort | scripts/compute_sunbelt_2024_25_similarity.py:59 | the argsort is an arrangement of exactly the indices, sorted by distance, ties by lower load index |
| Similarity.SortedDistinct | scripts/compute_sunbelt_2024_25_similarity.py:59 | a sorted arrangement never repeats an index |
| Similarity.Nearest | scripts/compute_sunbelt_2024_25_similarity.py:59 | the first `k` of the argsort: exactly min(k, n) valid row indices |
| Similarity.SelfSortsLast | scripts/compute_sunbelt_2024_25_similarity.py:57-59 | the subject itself, the only infinite distance, sorts last |
| Similarity.NearestExcludesSelf | scripts/compute_sunbelt_2024_25_similarity.py:57-59 | with more rows than k, a subject is never its own comparable and every comparable is at a finite distance |
| Similarity.NearestIncludesSelfLastWhenSmall | scripts/compute_sunbelt_2024_25_similarity.py:57-59 | with at most k rows, every row is listed and the subject comes last, at infinite distance |
| Similarity.NearestDistinct | scripts/compute_sunbelt_2024_25_similarity.py:59 | the comparables of a subject are distinct rows |
| Similarity.NearestOrdered | scripts/compute_sunbelt_2024_25_similarity.py:59-68 | distances never decrease with rank, and equal distances list the earlier loaded row first |
| Similarity.NearestAreClosest | scripts/compute_sunbelt_2024_25_similarity.py:59 | every row not chosen is at least as far as every chosen row |
| Similarity.SubjectRecords | scripts/compute_sunbelt_2024_25_similarity.py:61-71 | a subject has min(k, n) records, the record of rank `r + 1` naming the subject and its `r`-th nearest row with their distance |
| Similarity.FlattenLength | scripts/compute_sunbelt_2024_25_similarity.py:54-71 | equal-width blocks concatenate to `m * w` records |
| Similarity.FlattenIndex | scripts/compute_sunbelt_2024_25_similarity.py:54-71 | offset `r` of block `i` sits at `i * w + r` |
| Similarity.SubjectBlocks | scripts/compute_sunbelt_2024_25_similarity.py:54-71 | one block of records per subject, in load order |
| Similarity.RecordsUpToStep | scripts/compute_sunbelt_2024_25_similarity.py:54-71 | one more subject appends exactly that subject's records |
| Similarity.RecordsLength | scripts/compute_sunbelt_2024_25_similarity.py:54-71 | `m` subjects give `m * min(k, n)` records |
| Similarity.RecordsBlock | scripts/compute_sunbelt_2024_25_similarity.py:54-71 | subject `i`'s records form the block starting at `i * min(k, n)` |
| Similarity.RecordsGroupedBySubject | scripts/compute_sunbelt_2024_25_similarity.py:54-71 | records are grouped by subject in load order, ranks are 1, 2, ... within each group, and each names the subject, its comparable and their distance |
| Similarity.NeighbourRow | scripts/compute_sunbelt_2024_25_similarity.py:55-59 | the distance array with the subject's own entry overwritten by infinity, and the first `k` indices of its argsort |
| Similarity.AppendSubject | scripts/compute_sunbelt_2024_25_similarity.py:61-71 | the inner loop appends exactly the subject's records, in rank order |
| Similarity.RankNeighbours | scripts/compute_sunbelt_2024_25_similarity.py:50-71 | the subject loop produces every subject's records in load order, `n * min(k, n)` in all |
| Similarity.ComputeSimilarity | scripts/compute_sunbelt_2024_25_similarity.py:38-71 | fill, standardize with the guarded standard deviations and rank with k = 5: the records of the standardized cohort, `n * min(5, n)` in all |

## Left out

- Network and files are left out: the HTTP fetches, the politeness sleep,
  directory creation, the page writes and the CSV read and write. So are
  the `glob` of saved pages and every `print`. The team list, the saved
  names and the combined rows are the model's outputs. The warning printed
  when no team is found is not modelled.
- HTML handling is left out. The library that selects the conference page's
  school links and the one that extracts tables from a roster page are not
  part of this model. The links (href and stripped text) and the tables
  (headers already passed through `str`, rectangular rows of cells) are
  inputs.
- SQLite is left out. The lookup query is modelled as a search of an
  in-memory `players` table joined to a team-id-to-slug map. The search
  takes the first match in table order. The schema (scripts/init_sun_belt_v0_schema.py)
  makes `player_id` the key, `team_slug` unique and `(full_name, team_id,
  season)` unique. The table's invariant states these keys, and under them
  at most one player matches, so the order does not matter. The database's
  enforcement of the keys is not modelled; the keys are assumed of the
  initial table and kept by every update. The `UPDATE ...
  WHERE player_id = ?` is modelled as an update of the found row, since
  `player_id` is the primary key.
- Similarity.ComputeSimilarity: the population standard deviations are an
  input related to the variance by `s >= 0 && s * s == variance`. The
  model works over exact reals, not IEEE doubles.
- Similarity.SquaredDistance: `sqrt` is left out. Distances are compared
  and recorded squared. `sqrt` is monotone, so every ranking is the
  same, but the recorded `distance` column holds the square of the
  script's value.
- Similarity.ArgSort: `np.argsort` uses an unstable quicksort by default,
  so the script does not fix the order of rows at equal distance. The model
  breaks ties by the lower load index. This is a modelling choice.
- Similarity.NearestIncludesSelfLastWhenSmall: a cohort of at most k rows
  is modelled as the script behaves. No error is raised, and the subject
  is listed last at infinite distance. Raising an error when n <= k, which
  the script does not do, would be the safer behaviour.
- Similarity.Mean: an empty cohort has mean 0 in the model where numpy gives
  NaN. No record is produced in that case either way.
- Text.Lower: `str.lower` is modelled on ASCII letters only. Every header
  alias is ASCII. The only non-ASCII character that Python lowers to an
  ASCII letter is the Kelvin sign, which gives `k`, and no alias contains `k`.
- Text.IsDigits: `str.isdigit` is restricted to ASCII digits, which has
  two consequences for heights. First, a height written with other Unicode
  decimal digits (for example full-width `６-３`) passes `isdigit` and
  `int` in the script and gets a height in centimetres. The model gives
  no height for it. Second, a character that is a digit for `isdigit` but
  not a decimal digit (for example a superscript `²`) passes the check at
  scripts/parse_sportsref_sunbelt_2024_25_rosters.py:21. Then `int` raises
  at line 23, and the whole file is dropped by the handler at line 129.
  The model gives no height for that one cell and keeps the file.
- Text.ParseInt: `int` of a string is restricted to an optional sign and
  ASCII digits between whitespace. Underscore separators are rejected.
  A weight written with other Unicode decimal digits gets a weight in
  the script and none in the model.
- RosterParse.InchesToCm and RosterParse.PoundsToKg: conversions use the
  exact factors 254/100 and 45359237/10^8 with round-half-even. The
  script's float products can differ at an exact .5 boundary. They can
  also differ for enormous values, where the float product loses
  precision (scripts/parse_sportsref_sunbelt_2024_25_rosters.py:24 and
  :32). Past the double range the product raises `OverflowError`, and the
  handler at line 129 drops the whole file. The model converts any
  integer exactly.
- RosterParse.ColumnIndex: a table with two headers renamed to the same
  name is modelled with the first of them. pandas would return both columns.
- Cells are modelled as a string, an integer or a float given by its
  `str`. A weight column that pandas reads as floats (for example because
  of a blank cell) therefore gives no weights, as the script does. Other
  cell types are left out.
- RosterParse.ParseRosterFile: the file's tables are given directly. So
  "no tables at all" and "no roster-like table" are both the no-table
  error. The exception message, which names the tables' columns, is
  not modelled.
- The roster rows of the update are taken after their CSV
  conversions. `int(row.season)` and `int(row.height_cm)` of a float,
  `pd.isna`, and `str(...)` of a class year are already applied. Only the
  final strip of the class year is modelled.
- PlayerUpdate.RosterEntry always has a class year. When no parsed file had
  a class column, the combined roster has no `class_year` column. The
  script then raises `AttributeError` when it reads `row.class_year`
  (scripts/update_players_from_sunbelt_rosters_2024_25.py:45-46), after
  lines 15-17 have already added the column to `players`. The model
  reads such a row as having no class year and goes on.
- PlayerUpdate.PlayersTable: the `PRAGMA foreign_keys` setting, the
  commits and closing the connection are left out.
