/** The roster parser: unit conversions, the roster-table header test, the
    header renaming and column selection, the file-stem split and the
    per-file and all-files row assembly of
    `scripts/parse_sportsref_sunbelt_2024_25_rosters.py`.

    An HTML table arrives already extracted: a list of header labels (each
    already passed through `str`) and rectangular rows of cells. */
module RosterParse {
  import opened Wrappers
  import opened Text
  import opened Seqs

  // ---------------------------------------------------------------------
  // Cells and tables
  // ---------------------------------------------------------------------

  /** A table cell as pandas hands it over: a string, an integer, or a float
      given by its Python `str` (a missing cell is the float `nan`). */
  datatype Cell = TextCell(s: string) | IntCell(n: int) | FloatCell(repr: string)

  const MissingCell: Cell := FloatCell("nan")

  datatype Table = Table(headers: seq<string>, rows: seq<seq<Cell>>)

  predicate WellFormed(t: Table) {
    forall i :: 0 <= i < |t.rows| ==> |t.rows[i]| == |t.headers|
  }

  predicate TablesWellFormed(tables: seq<Table>) {
    forall p :: 0 <= p < |tables| ==> WellFormed(tables[p])
  }

  /** `str(cell)` */
  function CellText(c: Cell): string {
    match c
    case TextCell(s) => s
    case IntCell(n) => ShowInt(n)
    case FloatCell(repr) => repr
  }

  // ---------------------------------------------------------------------
  // Unit conversions
  // ---------------------------------------------------------------------

  function Abs(x: int): nat {
    if x < 0 then -x else x
  }

  /** Python's `round` of the rational `num / den`: halves go to the even
      neighbour. */
  function RoundHalfEven(num: int, den: int): int
    requires den > 0
  {
    var q := num / den;
    var rem := num % den;
    if 2 * rem < den then q
    else if 2 * rem > den then q + 1
    else if q % 2 == 0 then q
    else q + 1
  }

  /** The rounded value is a nearest integer to `num / den`, and the even
      one of the two when `num / den` lies halfway between them. */
  lemma RoundHalfEvenNearest(num: int, den: int)
    requires den > 0
    ensures var r := RoundHalfEven(num, den);
      && 2 * Abs(num - r * den) <= den
      && (2 * Abs(num - r * den) == den ==> r % 2 == 0)
  {
    DivModSplit(num, den);
  }

  lemma DivModSplit(num: int, den: int)
    requires den > 0
    ensures num - (num / den) * den == num % den
    ensures num - (num / den + 1) * den == num % den - den
  {
  }

  /** A whole number of inches in centimetres, rounded: one inch is exactly
      2.54 cm. */
  function InchesToCm(inches: int): int {
    RoundHalfEven(inches * 254, 100)
  }

  /** A whole number of pounds in kilograms, rounded: one pound is exactly
      0.45359237 kg. */
  function PoundsToKg(lbs: int): int {
    RoundHalfEven(lbs * 45359237, 100000000)
  }

  /** A feet-inches height text: digits, a dash, digits. */
  predicate IsHeightText(t: string) {
    exists i :: 0 <= i < |t| && t[i] == '-' && IsDigits(t[..i]) && IsDigits(t[i + 1..])
  }

  /** `parse_height_to_cm`: only a string cell is read; the stripped text is
      split at its first dash, both sides must be digits, and the height in
      whole inches is converted to centimetres and rounded. */
  function ParseHeightCm(ht: Cell): (r: Option<int>)
    ensures r.Some? <==> ht.TextCell? && IsHeightText(Strip(ht.s))
  {
    if !ht.TextCell? then None
    else
      var t := Strip(ht.s);
      match IndexOf(t, '-')
      case None => None
      case Some(p) =>
        HeightTextFirstDash(t, p);
        HeightOfParts(t[..p], t[p + 1..])
  }

  /** The feet and inches texts on either side of the dash. */
  function HeightOfParts(feet: string, inches: string): (r: Option<int>)
    ensures r.Some? <==> IsDigits(feet) && IsDigits(inches)
  {
    if IsDigits(feet) && IsDigits(inches) then
      Some(InchesToCm(DigitsValue(feet) * 12 + DigitsValue(inches)))
    else None
  }

  /** In a height text the dash that separates the digits is the first one. */
  lemma HeightTextFirstDash(t: string, p: nat)
    requires p < |t| && t[p] == '-' && '-' !in t[..p]
    ensures IsHeightText(t) <==> IsDigits(t[..p]) && IsDigits(t[p + 1..])
  {
    if IsHeightText(t) {
      var i :| 0 <= i < |t| && t[i] == '-' && IsDigits(t[..i]) && IsDigits(t[i + 1..]);
      assert i == p;
    }
  }

  /** Between two runs of digits the single dash is the first one, so the
      text splits back into the two runs. */
  lemma HeightTextSplits(f: string, g: string)
    requires IsDigits(f) && IsDigits(g)
    ensures ParseHeightCm(TextCell(f + "-" + g)) == HeightOfParts(f, g)
  {
    var s := f + "-" + g;
    DigitsFree(f, '-');
    DigitsFree(g, '-');
    assert s[0] == f[0] && s[|s| - 1] == g[|g| - 1];
    StripUnchanged(s);
    assert s[|f|] == '-' && s[..|f|] == f && s[|f| + 1..] == g;
    IndexOfAt(s, '-', |f|);
  }

  /** The value of two runs of digits. */
  lemma HeightOfDigitParts(f: string, g: string)
    requires IsDigits(f) && IsDigits(g)
    ensures HeightOfParts(f, g) == Some(InchesToCm(DigitsValue(f) * 12 + DigitsValue(g)))
  {
  }

  /** "F-I" with runs of ASCII digits on both sides of a single dash parses
      to the rounded centimetres of `12 * F + I` inches. */
  lemma HeightOfText(f: string, g: string)
    requires IsDigits(f) && IsDigits(g)
    ensures ParseHeightCm(TextCell(f + "-" + g)) == Some(InchesToCm(DigitsValue(f) * 12 + DigitsValue(g)))
  {
    HeightTextSplits(f, g);
    HeightOfDigitParts(f, g);
  }

  /** Only the first dash splits: a text with two dashes is not a height. */
  lemma HeightWithTwoDashes(s: string, p: nat, q: nat)
    requires p < q < |Strip(s)| && Strip(s)[p] == '-' && Strip(s)[q] == '-'
    ensures ParseHeightCm(TextCell(s)) == None
  {
    var t := Strip(s);
    if IsHeightText(t) {
      var i :| 0 <= i < |t| && t[i] == '-' && IsDigits(t[..i]) && IsDigits(t[i + 1..]);
    }
  }

  /** A number cell is never a height. */
  lemma HeightNeedsText(ht: Cell)
    requires !ht.TextCell?
    ensures ParseHeightCm(ht) == None
  {
  }

  /** `parse_weight_to_kg`: `int(str(wt).strip())` in pounds, converted to
      kilograms and rounded; `None` when the text is not an integer. */
  function ParseWeightKg(wt: Cell): (r: Option<int>)
    ensures r.Some? <==> IsIntLiteral(Strip(CellText(wt)))
  {
    match ParseInt(CellText(wt))
    case None => None
    case Some(lbs) => Some(PoundsToKg(lbs))
  }

  /** An integer cell always converts. */
  lemma WeightOfIntCell(n: int)
    ensures ParseWeightKg(IntCell(n)) == Some(PoundsToKg(n))
  {
    ParseIntRoundTrip(n);
  }

  /** A float cell does not: `int("185.0")` fails, and so does `int("nan")`. */
  lemma WeightOfFloatCell(whole: nat)
    ensures ParseWeightKg(FloatCell(ShowNat(whole) + ".0")) == None
    ensures ParseWeightKg(MissingCell) == None
  {
    var f := ShowNat(whole);
    var s := f + ".0";
    DigitsFree(f, '.');
    assert s[0] == f[0] && s[|s| - 1] == '0';
    StripUnchanged(s);
    assert s[|s| - 2] == '.' && !IsDigit(s[|s| - 2]);
    assert !IsDigits(s) && !IsDigits(s[1..]);
    var nan := "nan";
    assert !IsSpace(nan[0]) && !IsSpace(nan[2]);
    StripUnchanged(nan);
    assert !IsDigit(nan[0]) && !IsDigit(nan[1]);
    assert !IsDigits(nan) && !IsDigits(nan[1..]);
  }

  // ---------------------------------------------------------------------
  // Finding the roster table
  // ---------------------------------------------------------------------

  /** `str(c).strip().lower()` */
  function Normalize(h: string): (t: string)
    ensures |t| == |Strip(h)|
  {
    Lower(Strip(h))
  }

  predicate HasLabel(headers: seq<string>, name: string) {
    exists i :: 0 <= i < |headers| && Normalize(headers[i]) == name
  }

  /** A roster-like table has a "player" header and a "class" or "pos" one. */
  predicate IsRosterHeader(headers: seq<string>) {
    HasLabel(headers, "player") && (HasLabel(headers, "class") || HasLabel(headers, "pos"))
  }

  /** The index of the first roster-like table. */
  function FirstRosterTable(tables: seq<Table>): (r: Option<nat>)
    ensures r.Some? ==> r.value < |tables| && IsRosterHeader(tables[r.value].headers)
    ensures forall p :: 0 <= p < |tables| && (r.None? || p < r.value) ==> !IsRosterHeader(tables[p].headers)
  {
    if tables == [] then None
    else if IsRosterHeader(tables[0].headers) then Some(0)
    else match FirstRosterTable(tables[1..])
      case None => None
      case Some(p) => Some(p + 1)
  }

  /** `find_roster_table`: the tables are tried in page order. */
  method FindRosterTable(tables: seq<Table>) returns (r: Option<nat>)
    ensures r == FirstRosterTable(tables)
    ensures r.Some? ==> r.value < |tables| && IsRosterHeader(tables[r.value].headers)
    ensures forall p :: 0 <= p < |tables| && (r.None? || p < r.value) ==> !IsRosterHeader(tables[p].headers)
  {
    for p := 0 to |tables|
      invariant forall q :: 0 <= q < p ==> !IsRosterHeader(tables[q].headers)
    {
      if IsRosterHeader(tables[p].headers) {
        FirstRosterTableIsFirst(tables, p);
        return Some(p);
      }
    }
    FirstRosterTableIsFirst(tables, |tables|);
    return None;
  }

  /** When no table before `p` qualifies, the first roster table is `p` if
      that one qualifies, and none at all when `p` is past the end. */
  lemma {:induction false} FirstRosterTableIsFirst(tables: seq<Table>, p: nat)
    requires p <= |tables|
    requires forall q :: 0 <= q < p ==> !IsRosterHeader(tables[q].headers)
    requires p < |tables| ==> IsRosterHeader(tables[p].headers)
    ensures FirstRosterTable(tables) == if p < |tables| then Some(p) else None
  {
    if p > 0 {
      FirstRosterTableIsFirst(tables[1..], p - 1);
    }
  }

  // ---------------------------------------------------------------------
  // Header renaming
  // ---------------------------------------------------------------------

  /** The canonical name of a normalized header, if it is one of the aliases. */
  function Canonical(low: string): Option<string> {
    if low == "player" then Some("player")
    else if low in {"class", "cl", "yr", "year"} then Some("class_year")
    else if low in {"pos", "position"} then Some("pos")
    else if low in {"ht", "height", "hgt"} then Some("height_raw")
    else if low in {"wt", "weight"} then Some("weight_lbs")
    else None
  }

  /** The rename map the loop builds: each recognised header, keyed by its
      original name, maps to its canonical name. */
  function RenameMap(headers: seq<string>): (m: map<string, string>)
    ensures forall h :: h in m <==> h in headers && Canonical(Normalize(h)).Some?
    ensures forall h :: h in m ==> m[h] == Canonical(Normalize(h)).value
  {
    if headers == [] then map[]
    else
      var h := headers[|headers| - 1];
      var m := RenameMap(headers[..|headers| - 1]);
      assert forall g :: g in headers <==> g in headers[..|headers| - 1] || g == h;
      match Canonical(Normalize(h))
      case None => m
      case Some(c) => m[h := c]
  }

  /** Lines 58-70: the loop over the table's columns. */
  method BuildRenameMap(headers: seq<string>) returns (renameMap: map<string, string>)
    ensures renameMap == RenameMap(headers)
  {
    renameMap := map[];
    for idx := 0 to |headers|
      invariant renameMap == RenameMap(headers[..idx])
    {
      var col := headers[idx];
      assert headers[..idx + 1][..idx] == headers[..idx];
      match Canonical(Normalize(col)) {
        case Some(canonical) => renameMap := renameMap[col := canonical];
        case None =>
      }
    }
    assert headers[..|headers|] == headers;
  }

  /** `df.rename(columns=rename_map)`: mapped labels are replaced, the rest kept. */
  function Rename(headers: seq<string>, m: map<string, string>): (renamed: seq<string>)
    ensures |renamed| == |headers|
    ensures forall i :: 0 <= i < |headers| ==>
      renamed[i] == if headers[i] in m then m[headers[i]] else headers[i]
  {
    seq(|headers|, i requires 0 <= i < |headers| =>
      if headers[i] in m then m[headers[i]] else headers[i])
  }

  /** The renamed header at a recognised column is its canonical name. */
  lemma RenamedIsCanonical(headers: seq<string>, i: nat)
    requires i < |headers| && Canonical(Normalize(headers[i])).Some?
    ensures Rename(headers, RenameMap(headers))[i] == Canonical(Normalize(headers[i])).value
  {
  }

  // ---------------------------------------------------------------------
  // Column selection
  // ---------------------------------------------------------------------

  const OptionalOrder: seq<string> := ["class_year", "pos", "height_raw", "weight_lbs"]

  /** The names of `order` that occur among `columns`, in the order of `order`. */
  function Present(order: seq<string>, columns: seq<string>): (r: seq<string>)
    ensures forall c :: c in r <==> c in order && c in columns
    ensures IsSubsequence(r, order)
  {
    if order == [] then []
    else
      var prefix := Present(order[..|order| - 1], columns);
      var last := order[|order| - 1];
      assert forall c :: c in order <==> c in order[..|order| - 1] || c == last;
      if last in columns then
        var r := prefix + [last];
        assert r[..|r| - 1] == prefix;
        r
      else prefix
  }

  /** `base_cols + optional_cols`: "player" first, then exactly the optional
      columns present, in the fixed order. */
  function KeepColumns(columns: seq<string>): (keep: seq<string>)
    ensures |keep| >= 1 && keep[0] == "player"
    ensures forall c :: c in keep[1..] <==> c in OptionalOrder && c in columns
    ensures IsSubsequence(keep[1..], OptionalOrder)
  {
    var keep := ["player"] + Present(OptionalOrder, columns);
    assert keep[1..] == Present(OptionalOrder, columns);
    keep
  }

  /** Lines 82-88: the loop over the optional names. */
  method SelectColumns(columns: seq<string>) returns (keep: seq<string>)
    ensures keep == KeepColumns(columns)
  {
    var optionalCols: seq<string> := [];
    for m := 0 to |OptionalOrder|
      invariant optionalCols == Present(OptionalOrder[..m], columns)
    {
      assert OptionalOrder[..m + 1][..m] == OptionalOrder[..m];
      if OptionalOrder[m] in columns {
        optionalCols := optionalCols + [OptionalOrder[m]];
      }
    }
    assert OptionalOrder[..|OptionalOrder|] == OptionalOrder;
    keep := ["player"] + optionalCols;
  }

  // ---------------------------------------------------------------------
  // File stem
  // ---------------------------------------------------------------------

  /** `Path(name).stem`: the name without its last suffix, where a suffix
      needs a dot that is neither the first nor the last character. */
  function FileStem(name: string): (stem: string)
    ensures stem == name || (|stem| < |name| && name[..|stem|] == stem && name[|stem|] == '.' && '.' !in name[|stem| + 1..])
  {
    match LastIndexOf(name, '.')
    case None => name
    case Some(i) => if 0 < i < |name| - 1 then name[..i] else name
  }

  /** `stem.rsplit("_", 1)` followed by `int(season_str)`. */
  function SplitStem(stem: string): (r: Result<(string, int), ParseError>)
    ensures r.Ok? ==> exists p :: (0 <= p < |stem| && stem[p] == '_' && '_' !in stem[p + 1..]
      && r.value.0 == stem[..p] && ParseInt(stem[p + 1..]) == Some(r.value.1))
    ensures r.Err? ==> r.error == BadFileName
  {
    match LastIndexOf(stem, '_')
    case None => Err(BadFileName)
    case Some(p) =>
      match ParseInt(stem[p + 1..])
      case None => Err(BadFileName)
      case Some(season) => Ok((stem[..p], season))
  }

  /** The split undoes `slug + "_" + str(season)`, even when the slug itself
      contains underscores. */
  lemma SplitStemRoundTrip(slug: string, season: int)
    ensures SplitStem(slug + "_" + ShowInt(season)) == Ok((slug, season))
  {
    var stem := slug + "_" + ShowInt(season);
    var shown := ShowInt(season);
    assert '_' !in shown by {
      if season < 0 {
        assert forall i :: 1 <= i < |shown| ==> shown[i] == ShowNat(-season)[i - 1];
      }
    }
    assert stem[|slug|] == '_' && stem[|slug| + 1..] == shown && stem[..|slug|] == slug;
    LastIndexOfAt(stem, '_', |slug|);
    ParseIntRoundTrip(season);
  }

  /** `Path(stem + ".html").stem == stem` */
  lemma StemOfHtml(stem: string)
    requires stem != []
    ensures FileStem(stem + ".html") == stem
  {
    var name := stem + ".html";
    assert name[|stem|] == '.';
    assert name[|stem| + 1..] == "html";
    LastIndexOfAt(name, '.', |stem|);
  }

  // ---------------------------------------------------------------------
  // Rows
  // ---------------------------------------------------------------------

  datatype ParseError = BadFileName | NoRosterTable | MissingPlayerColumn

  /** One output row. An optional column absent from the table is `None`;
      the unit columns are `None` when their source column is absent or
      does not parse. */
  datatype RosterRow = RosterRow(
    player: string,
    classYear: Option<Cell>,
    pos: Option<Cell>,
    heightRaw: Option<Cell>,
    weightLbs: Option<Cell>,
    teamSlug: string,
    season: int,
    heightCm: Option<int>,
    weightKg: Option<int>)

  /** The first column carrying `name`. */
  function ColumnIndex(columns: seq<string>, name: string): (r: Option<nat>)
    ensures r.None? <==> name !in columns
    ensures r.Some? ==> r.value < |columns| && columns[r.value] == name
  {
    if columns == [] then None
    else if columns[0] == name then Some(0)
    else match ColumnIndex(columns[1..], name)
      case None => None
      case Some(i) => Some(i + 1)
  }

  /** The cell of a kept column, `None` when the column is not kept. */
  function Column(row: seq<Cell>, columns: seq<string>, keep: seq<string>, name: string): (r: Option<Cell>)
    requires |row| == |columns|
    ensures r.Some? <==> name in keep && name in columns
    ensures r.Some? ==> r.value == row[ColumnIndex(columns, name).value]
  {
    if name !in keep then None
    else match ColumnIndex(columns, name)
      case None => None
      case Some(i) => Some(row[i])
  }

  /** The trimmed text of the player cell. */
  function PlayerName(row: seq<Cell>, columns: seq<string>): string
    requires |row| == |columns| && "player" in columns
  {
    Strip(CellText(row[ColumnIndex(columns, "player").value]))
  }

  /** One table row with its context attached and its units converted. */
  function ConvertRow(row: seq<Cell>, columns: seq<string>, keep: seq<string>, slug: string, season: int): (o: RosterRow)
    requires |row| == |columns| && "player" in columns
    ensures o.player == PlayerName(row, columns) && o.teamSlug == slug && o.season == season
    ensures o.classYear == Column(row, columns, keep, "class_year")
    ensures o.pos == Column(row, columns, keep, "pos")
    ensures o.heightRaw == Column(row, columns, keep, "height_raw")
    ensures o.weightLbs == Column(row, columns, keep, "weight_lbs")
    ensures o.heightCm == if o.heightRaw.Some? then ParseHeightCm(o.heightRaw.value) else None
    ensures o.weightKg == if o.weightLbs.Some? then ParseWeightKg(o.weightLbs.value) else None
  {
    var heightRaw := Column(row, columns, keep, "height_raw");
    var weightLbs := Column(row, columns, keep, "weight_lbs");
    RosterRow(
      PlayerName(row, columns),
      Column(row, columns, keep, "class_year"),
      Column(row, columns, keep, "pos"),
      heightRaw,
      weightLbs,
      slug,
      season,
      if heightRaw.Some? then ParseHeightCm(heightRaw.value) else None,
      if weightLbs.Some? then ParseWeightKg(weightLbs.value) else None)
  }

  predicate RowsFit(rows: seq<seq<Cell>>, columns: seq<string>) {
    forall i :: 0 <= i < |rows| ==> |rows[i]| == |columns|
  }

  /** Every row converted, blank names included, in table order. */
  function Conversions(rows: seq<seq<Cell>>, columns: seq<string>, keep: seq<string>, slug: string, season: int): (out: seq<RosterRow>)
    requires RowsFit(rows, columns) && "player" in columns
    ensures |out| == |rows|
    ensures forall i :: 0 <= i < |rows| ==> out[i] == ConvertRow(rows[i], columns, keep, slug, season)
  {
    seq(|rows|, i requires 0 <= i < |rows| => ConvertRow(rows[i], columns, keep, slug, season))
  }

  /** The number of rows whose trimmed player name is not empty. */
  function NamedCount(rows: seq<seq<Cell>>, columns: seq<string>): nat
    requires RowsFit(rows, columns) && "player" in columns
  {
    if rows == [] then 0
    else NamedCount(rows[..|rows| - 1], columns) + if PlayerName(rows[|rows| - 1], columns) == "" then 0 else 1
  }

  /** Lines 92-110: convert every row, keeping those whose trimmed player
      name is not empty, in table order. */
  function ConvertRows(rows: seq<seq<Cell>>, columns: seq<string>, keep: seq<string>, slug: string, season: int): (out: seq<RosterRow>)
    requires RowsFit(rows, columns) && "player" in columns
    ensures |out| <= |rows|
    ensures forall o :: o in out ==> o.player != "" && o.teamSlug == slug && o.season == season
    ensures forall o :: o in out ==> exists i :: 0 <= i < |rows| && o == ConvertRow(rows[i], columns, keep, slug, season)
  {
    if rows == [] then []
    else
      var prefix := ConvertRows(rows[..|rows| - 1], columns, keep, slug, season);
      var last := rows[|rows| - 1];
      if PlayerName(last, columns) == "" then prefix
      else prefix + [ConvertRow(last, columns, keep, slug, season)]
  }

  /** The kept rows are the conversions of all rows with the blank-named
      ones left out: order is kept, and every named row is kept, so a
      repeated row is kept as often as it occurs. */
  lemma ConvertRowsInOrder(rows: seq<seq<Cell>>, columns: seq<string>, keep: seq<string>, slug: string, season: int)
    requires RowsFit(rows, columns) && "player" in columns
    ensures IsSubsequence(ConvertRows(rows, columns, keep, slug, season), Conversions(rows, columns, keep, slug, season))
    ensures |ConvertRows(rows, columns, keep, slug, season)| == NamedCount(rows, columns)
  {
    ConvertRowsIsSubsequence(rows, columns, keep, slug, season);
    ConvertRowsCount(rows, columns, keep, slug, season);
  }

  lemma {:induction false} ConvertRowsIsSubsequence(rows: seq<seq<Cell>>, columns: seq<string>, keep: seq<string>, slug: string, season: int)
    requires RowsFit(rows, columns) && "player" in columns
    ensures IsSubsequence(ConvertRows(rows, columns, keep, slug, season), Conversions(rows, columns, keep, slug, season))
  {
    if rows != [] {
      var n := |rows| - 1;
      ConvertRowsIsSubsequence(rows[..n], columns, keep, slug, season);
      var prefix := ConvertRows(rows[..n], columns, keep, slug, season);
      var before := Conversions(rows[..n], columns, keep, slug, season);
      var last := ConvertRow(rows[n], columns, keep, slug, season);
      ConversionsSnoc(rows, columns, keep, slug, season);
      if PlayerName(rows[n], columns) == "" {
        SubsequenceExtend(prefix, before, last);
      } else {
        var out := prefix + [last];
        assert out[..|out| - 1] == prefix;
        assert (before + [last])[..n] == before;
      }
    }
  }

  lemma {:induction false} ConvertRowsCount(rows: seq<seq<Cell>>, columns: seq<string>, keep: seq<string>, slug: string, season: int)
    requires RowsFit(rows, columns) && "player" in columns
    ensures |ConvertRows(rows, columns, keep, slug, season)| == NamedCount(rows, columns)
  {
    if rows != [] {
      ConvertRowsCount(rows[..|rows| - 1], columns, keep, slug, season);
    }
  }

  /** One more row adds its conversion at the end. */
  lemma ConversionsSnoc(rows: seq<seq<Cell>>, columns: seq<string>, keep: seq<string>, slug: string, season: int)
    requires RowsFit(rows, columns) && "player" in columns && rows != []
    ensures Conversions(rows, columns, keep, slug, season)
      == Conversions(rows[..|rows| - 1], columns, keep, slug, season) + [ConvertRow(rows[|rows| - 1], columns, keep, slug, season)]
  {
  }

  /** A row with a non-blank name is kept. */
  lemma {:induction false} NamedRowKept(rows: seq<seq<Cell>>, columns: seq<string>, keep: seq<string>, slug: string, season: int, i: nat)
    requires RowsFit(rows, columns) && "player" in columns
    requires i < |rows| && PlayerName(rows[i], columns) != ""
    ensures ConvertRow(rows[i], columns, keep, slug, season) in ConvertRows(rows, columns, keep, slug, season)
  {
    if i < |rows| - 1 {
      NamedRowKept(rows[..|rows| - 1], columns, keep, slug, season, i);
    }
  }

  /** The stripped names are already stripped: no output name has leading
      or trailing whitespace. */
  lemma NamesAreTrimmed(rows: seq<seq<Cell>>, columns: seq<string>, keep: seq<string>, slug: string, season: int, o: RosterRow)
    requires RowsFit(rows, columns) && "player" in columns
    requires o in ConvertRows(rows, columns, keep, slug, season)
    ensures !IsSpace(o.player[0]) && !IsSpace(o.player[|o.player| - 1])
    ensures Strip(o.player) == o.player
  {
    var i :| 0 <= i < |rows| && o == ConvertRow(rows[i], columns, keep, slug, season);
    StripEnds(CellText(rows[i][ColumnIndex(columns, "player").value]));
    StripUnchanged(o.player);
  }

  // ---------------------------------------------------------------------
  // One file
  // ---------------------------------------------------------------------

  /** What `parse_roster_file` returns for a file name and the tables on its
      page; the errors come in the order the code meets them. */
  function ParseRosterFileSpec(fileName: string, tables: seq<Table>): Result<seq<RosterRow>, ParseError>
    requires TablesWellFormed(tables)
  {
    match SplitStem(FileStem(fileName))
    case Err(e) => Err(e)
    case Ok((slug, season)) =>
      match FirstRosterTable(tables)
      case None => Err(NoRosterTable)
      case Some(p) =>
        var columns := Rename(tables[p].headers, RenameMap(tables[p].headers));
        if "player" !in columns then Err(MissingPlayerColumn)
        else Ok(ConvertRows(tables[p].rows, columns, KeepColumns(columns), slug, season))
  }

  /** `parse_roster_file` */
  method ParseRosterFile(fileName: string, tables: seq<Table>) returns (r: Result<seq<RosterRow>, ParseError>)
    requires TablesWellFormed(tables)
    ensures r == ParseRosterFileSpec(fileName, tables)
  {
    var stem := FileStem(fileName);
    var split := SplitStem(stem);
    if split.Err? {
      return Err(split.error);
    }
    var (slug, season) := split.value;
    var found := FindRosterTable(tables);
    if found.None? {
      return Err(NoRosterTable);
    }
    var df := tables[found.value];
    var renameMap := BuildRenameMap(df.headers);
    var columns := Rename(df.headers, renameMap);
    if "player" !in columns {
      return Err(MissingPlayerColumn);
    }
    var keep := SelectColumns(columns);
    assert WellFormed(df);
    r := Ok(ConvertRows(df.rows, columns, keep, slug, season));
  }

  /** The table the header test picks always has a column that renames to
      "player", so the missing-column error of lines 75-79 never fires. */
  lemma PlayerColumnAlwaysPresent(tables: seq<Table>)
    requires FirstRosterTable(tables).Some?
    ensures var headers := tables[FirstRosterTable(tables).value].headers;
      "player" in Rename(headers, RenameMap(headers))
  {
    var headers := tables[FirstRosterTable(tables).value].headers;
    var i :| 0 <= i < |headers| && Normalize(headers[i]) == "player";
    RenamedIsCanonical(headers, i);
    assert Rename(headers, RenameMap(headers))[i] == "player";
  }

  /** Every row a successful parse returns carries the slug and season of
      the file name, and a non-blank trimmed name. */
  lemma ParsedRowsCarryFileContext(fileName: string, tables: seq<Table>, o: RosterRow)
    requires TablesWellFormed(tables)
    requires ParseRosterFileSpec(fileName, tables).Ok? && o in ParseRosterFileSpec(fileName, tables).value
    ensures SplitStem(FileStem(fileName)) == Ok((o.teamSlug, o.season))
    ensures o.player != "" && Strip(o.player) == o.player
  {
    var (slug, season) := SplitStem(FileStem(fileName)).value;
    var p := FirstRosterTable(tables).value;
    var columns := Rename(tables[p].headers, RenameMap(tables[p].headers));
    var keep := KeepColumns(columns);
    assert WellFormed(tables[p]) && "player" in columns;
    assert ParseRosterFileSpec(fileName, tables).value == ConvertRows(tables[p].rows, columns, keep, slug, season);
    NamesAreTrimmed(tables[p].rows, columns, keep, slug, season, o);
  }

  // ---------------------------------------------------------------------
  // All files
  // ---------------------------------------------------------------------

  datatype HtmlFile = HtmlFile(name: string, tables: seq<Table>)

  predicate FilesWellFormed(files: seq<HtmlFile>) {
    forall k :: 0 <= k < |files| ==> TablesWellFormed(files[k].tables)
  }

  /** The values of the successful results among the first `m`, in order. */
  function OkValues<T, E>(results: seq<Result<T, E>>, m: nat): (values: seq<T>)
    requires m <= |results|
    ensures |values| <= m
  {
    if m == 0 then []
    else match results[m - 1]
      case Err(_) => OkValues(results, m - 1)
      case Ok(v) => OkValues(results, m - 1) + [v]
  }

  /** No value is collected exactly when every result is an error. */
  lemma {:induction false} OkValuesEmptyIff<T, E>(results: seq<Result<T, E>>, m: nat)
    requires m <= |results|
    ensures |OkValues(results, m)| == 0 <==> forall k :: 0 <= k < m ==> results[k].Err?
  {
    if m > 0 {
      OkValuesEmptyIff(results, m - 1);
    }
  }

  /** The result of parsing each file, in file order. */
  function FileResults(files: seq<HtmlFile>): (results: seq<Result<seq<RosterRow>, ParseError>>)
    requires FilesWellFormed(files)
    ensures |results| == |files|
    ensures forall k :: 0 <= k < |files| ==> results[k] == ParseRosterFileSpec(files[k].name, files[k].tables)
  {
    seq(|files|, k requires 0 <= k < |files| => ParseRosterFileSpec(files[k].name, files[k].tables))
  }

  function Concat(frames: seq<seq<RosterRow>>): seq<RosterRow> {
    if frames == [] then [] else Concat(frames[..|frames| - 1]) + frames[|frames| - 1]
  }

  predicate NoFileParses(files: seq<HtmlFile>)
    requires FilesWellFormed(files)
  {
    forall k :: 0 <= k < |files| ==> ParseRosterFileSpec(files[k].name, files[k].tables).Err?
  }

  /** No frame is collected exactly when every file fails to parse. */
  lemma NothingCollectedIff(files: seq<HtmlFile>)
    requires FilesWellFormed(files)
    ensures |OkValues(FileResults(files), |files|)| == 0 <==> NoFileParses(files)
  {
    OkValuesEmptyIff(FileResults(files), |files|);
  }

  /** Lines 123-130 of `main`: parse every file in turn and keep the frame
      of each one that parses. */
  method CollectFrames(files: seq<HtmlFile>) returns (allRows: seq<seq<RosterRow>>)
    requires FilesWellFormed(files)
    ensures allRows == OkValues(FileResults(files), |files|)
  {
    allRows := [];
    ghost var expected := FileResults(files);
    for idx := 0 to |files|
      invariant allRows == OkValues(expected, idx)
    {
      var r := ParseRosterFile(files[idx].name, files[idx].tables);
      assert r == expected[idx];
      if r.Ok? {
        allRows := allRows + [r.value];
      }
    }
  }

  /** `main`: concatenate the collected frames; `None` when no file parsed,
      so nothing is written. */
  method ParseAllFiles(files: seq<HtmlFile>) returns (combined: Option<seq<RosterRow>>)
    requires FilesWellFormed(files)
    ensures combined.None? <==> NoFileParses(files)
    ensures combined.Some? ==> combined.value == Concat(OkValues(FileResults(files), |files|))
  {
    var allRows := CollectFrames(files);
    NothingCollectedIff(files);
    if |allRows| == 0 {
      return None;
    }
    return Some(Concat(allRows));
  }

  /** A frame appended to the collected ones lands after their rows. */
  lemma ConcatAppend(frames: seq<seq<RosterRow>>, rows: seq<RosterRow>)
    ensures Concat(frames + [rows]) == Concat(frames) + rows
  {
    assert (frames + [rows])[..|frames|] == frames;
  }
}
