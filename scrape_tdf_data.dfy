/** The row extraction of `scrape_tdf_data.py`: once a results page has been
  * fetched and parsed, each scraper turns the texts of the page's table rows
  * (for rankings, the texts of each row's cells) into the rows of a table.
  * Fetching, parsing and writing files are outside the model; what remains
  * is the text processing, the pandas steps and the loops around them. */
module ScrapeTdfData {
  import opened Text
  import opened Frames

  // =====================================================================
  // starters and nationalities

  /** A `tr` of the starters page: its text and, when it holds `span`
    * elements, the last class name of the first of them (the rider's
    * nationality code). */
  datatype StarterTr = StarterTr(text: string, spanClass: Option<string>)

  /** The texts one row contributes: its stripped text, then its span class. */
  function RowTexts(r: StarterTr): seq<string> {
    [Strip(r.text)] + (if r.spanClass.Some? then [r.spanClass.value] else [])
  }

  /** The list built by the first loop over the rows, in row order. */
  function StarterTexts(rows: seq<StarterTr>): seq<string> {
    if rows == [] then []
    else StarterTexts(rows[..|rows| - 1]) + RowTexts(rows[|rows| - 1])
  }

  /** One more row appends that row's texts. */
  lemma StarterTextsStep(rows: seq<StarterTr>, n: nat)
    requires n < |rows|
    ensures StarterTexts(rows[..n + 1]) == StarterTexts(rows[..n]) + RowTexts(rows[n])
  {
    assert rows[..n + 1][..n] == rows[..n];
  }

  /** The texts of the first `n` rows begin the texts of all rows. */
  lemma {:induction false} StarterTextsPrefix(rows: seq<StarterTr>, n: nat)
    requires n <= |rows|
    ensures StarterTexts(rows[..n]) <= StarterTexts(rows)
    decreases |rows| - n
  {
    if n < |rows| {
      StarterTextsPrefix(rows, n + 1);
      StarterTextsStep(rows, n);
    } else {
      assert rows[..n] == rows;
    }
  }

  /** Where a row's texts land in the list: row `k`'s stripped text sits right
    * after the texts of the rows before it, and its nationality code, when
    * it has one, right after that. */
  lemma StarterTextsLayout(rows: seq<StarterTr>, k: nat)
    requires k < |rows|
    ensures var p := |StarterTexts(rows[..k])|;
      && p < |StarterTexts(rows)|
      && StarterTexts(rows)[p] == Strip(rows[k].text)
      && (rows[k].spanClass.Some? ==>
            p + 1 < |StarterTexts(rows)| && StarterTexts(rows)[p + 1] == rows[k].spanClass.value)
  {
    StarterTextsPrefix(rows, k + 1);
    StarterTextsStep(rows, k);
  }

  /** The first loop over the rows. */
  method CollectStarterTexts(rows: seq<StarterTr>) returns (rowsList: seq<string>)
    ensures rowsList == StarterTexts(rows)
  {
    rowsList := [];
    for i := 0 to |rows|
      invariant rowsList == StarterTexts(rows[..i])
    {
      StarterTextsStep(rows, i);
      rowsList := rowsList + [Strip(rows[i].text)];
      if rows[i].spanClass.Some? {
        rowsList := rowsList + [rows[i].spanClass.value];
      }
    }
    assert rows[..|rows|] == rows;
  }

  datatype StarterKind = TeamRow | NationalityRow | RiderRow

  /** A text that begins with an upper-case letter names a team; otherwise
    * one that begins with three lower-case letters is a nationality code;
    * anything else is a rider. */
  function KindOf(t: string): StarterKind {
    if |t| >= 1 && IsUpper(t[0]) then TeamRow
    else if |t| >= 3 && IsLower(t[0]) && IsLower(t[1]) && IsLower(t[2]) then NationalityRow
    else RiderRow
  }

  /** The rider branch reads the second piece of the text split at
    * `"\n "`; a rider text with fewer than two pieces raises `IndexError`. */
  predicate Classifiable(t: string) {
    KindOf(t) == RiderRow ==> |Split(t, "\n ")| >= 2
  }

  predicate AllClassifiable(ts: seq<string>) {
    forall i :: 0 <= i < |ts| ==> Classifiable(ts[i])
  }

  /** Columns of the starters table. */
  const TeamCol: nat := 0
  const RiderNumCol: nat := 1
  const RiderNameCol: nat := 2
  const NationalityCol: nat := 3

  /** The kind of text that fills column `c` of a record. */
  function ColumnKind(c: nat): StarterKind {
    if c == TeamCol then TeamRow
    else if c == NationalityCol then NationalityRow
    else RiderRow
  }

  /** The record built for one text: four cells, and a cell is present
    * exactly when the text is of the kind its column holds. A team or a
    * nationality is kept as is; a rider gives its first two pieces,
    * stripped. */
  function StarterRecord(t: string): (r: Row)
    requires Classifiable(t)
    ensures |r| == 4
    ensures forall c :: 0 <= c < 4 ==> (r[c].Some? <==> KindOf(t) == ColumnKind(c))
    ensures KindOf(t) == TeamRow ==> r[TeamCol] == Some(t)
    ensures KindOf(t) == NationalityRow ==> r[NationalityCol] == Some(t)
  {
    match KindOf(t)
    case TeamRow => [Some(t), None, None, None]
    case NationalityRow => [None, None, None, Some(t)]
    case RiderRow =>
      var pieces := Split(t, "\n ");
      [None, Some(Strip(pieces[0])), Some(Strip(pieces[1])), None]
  }

  function StarterRecords(ts: seq<string>): (recs: seq<Row>)
    requires AllClassifiable(ts)
    ensures |recs| == |ts| && HasColumn(recs, NationalityCol)
    ensures forall i :: 0 <= i < |ts| ==> recs[i] == StarterRecord(ts[i])
  {
    seq(|ts|, i requires 0 <= i < |ts| => StarterRecord(ts[i]))
  }

  /** The second loop, over the collected texts. */
  method ClassifyStarterTexts(ts: seq<string>) returns (startersList: seq<Row>)
    requires AllClassifiable(ts)
    ensures startersList == StarterRecords(ts)
  {
    startersList := [];
    for i := 0 to |ts|
      invariant |startersList| == i
      invariant forall k :: 0 <= k < i ==> startersList[k] == StarterRecord(ts[k])
    {
      var row := ts[i];
      var newRow: Row;
      if |row| >= 1 && IsUpper(row[0]) {
        newRow := [Some(row), None, None, None];
      } else if |row| >= 3 && IsLower(row[0]) && IsLower(row[1]) && IsLower(row[2]) {
        newRow := [None, None, None, Some(row)];
      } else {
        var pieces := Split(row, "\n ");
        newRow := [None, Some(Strip(pieces[0])), Some(Strip(pieces[1])), None];
      }
      assert newRow == StarterRecord(row);
      startersList := startersList + [newRow];
    }
  }

  /** The records once the team, rider number and rider name columns are
    * filled forward. */
  function FilledStarters(ts: seq<string>): (t: seq<Row>)
    requires AllClassifiable(ts)
    ensures |t| == |ts| && HasColumn(t, NationalityCol)
  {
    FillForward(FillForward(FillForward(StarterRecords(ts), TeamCol), RiderNumCol), RiderNameCol)
  }

  /** The filled records, keeping only the rows with a nationality. */
  function Starters(ts: seq<string>): seq<Row>
    requires AllClassifiable(ts)
  {
    KeepPresent(FilledStarters(ts), NationalityCol)
  }

  /** The whole scraper for one page's rows. */
  method ScrapeStartersAndNationality(rows: seq<StarterTr>) returns (starters: seq<Row>)
    requires AllClassifiable(StarterTexts(rows))
    ensures starters == Starters(StarterTexts(rows))
  {
    var rowsList := CollectStarterTexts(rows);
    var startersList := ClassifyStarterTexts(rowsList);
    startersList := FillForward(startersList, TeamCol);
    startersList := FillForward(startersList, RiderNumCol);
    startersList := FillForward(startersList, RiderNameCol);
    starters := KeepPresent(startersList, NationalityCol);
  }

  function KindFlags(ts: seq<string>, kind: StarterKind): (flags: seq<bool>)
    ensures |flags| == |ts| && forall i :: 0 <= i < |ts| ==> flags[i] == (KindOf(ts[i]) == kind)
  {
    seq(|ts|, i requires 0 <= i < |ts| => KindOf(ts[i]) == kind)
  }

  /** The position of the last text of `kind`, if there is one. */
  function LastOfKind(ts: seq<string>, kind: StarterKind): Option<nat> {
    LastWhere(KindFlags(ts, kind))
  }

  /** The positions of the nationality texts, in order. */
  function NationalityPositions(ts: seq<string>): seq<nat> {
    Where(KindFlags(ts, NationalityRow))
  }

  /** The record the table should hold for the nationality text at position
    * `i`: the last team named before it, the number and name of the last
    * rider listed before it (each missing if there is none), and the
    * nationality itself. */
  function ExpectedStarter(ts: seq<string>, i: nat): (r: Row)
    requires AllClassifiable(ts) && i < |ts|
    ensures |r| == 4
  {
    var team := LastOfKind(ts[..i], TeamRow);
    var rider := LastOfKind(ts[..i], RiderRow);
    [ if team.Some? then Some(ts[team.value]) else None,
      if rider.Some? then Some(Strip(Split(ts[rider.value], "\n ")[0])) else None,
      if rider.Some? then Some(Strip(Split(ts[rider.value], "\n ")[1])) else None,
      Some(ts[i]) ]
  }

  /** Before position `i`, the most recent present cell of column `c` is the
    * cell of the last text of that column's kind. */
  lemma LatestOfColumn(ts: seq<string>, c: nat, i: nat)
    requires AllClassifiable(ts) && c < 4 && i <= |ts|
    ensures var k := LastOfKind(ts[..i], ColumnKind(c));
      Latest(Column(StarterRecords(ts), c)[..i]) ==
        if k.Some? then StarterRecord(ts[k.value])[c] else None
  {
    var recs := StarterRecords(ts);
    var col := Column(recs, c)[..i];
    LatestIsLastPresent(col);
    assert PresentFlags(col) == KindFlags(ts[..i], ColumnKind(c));
  }

  /** At a nationality text, the filled record is the expected one. */
  lemma FilledAtNationality(ts: seq<string>, i: nat)
    requires AllClassifiable(ts) && i < |ts| && KindOf(ts[i]) == NationalityRow
    ensures FilledStarters(ts)[i] == ExpectedStarter(ts, i)
  {
    FilledTeamAt(ts, i);
    FilledRiderNumAt(ts, i);
    FilledRiderNameAt(ts, i);
    FilledNationalityAt(ts, i);
    SameRecord(FilledStarters(ts)[i], ExpectedStarter(ts, i));
  }

  /** Two four-cell records agreeing on every column are the same record. */
  lemma SameRecord(r: Row, e: Row)
    requires |r| == 4 && |e| == 4
    requires r[TeamCol] == e[TeamCol] && r[RiderNumCol] == e[RiderNumCol]
    requires r[RiderNameCol] == e[RiderNameCol] && r[NationalityCol] == e[NationalityCol]
    ensures r == e
  {
    assert forall c :: 0 <= c < 4 ==> r[c] == e[c];
  }

  /** Filling forward keeps every record four cells wide and leaves the
    * nationality where it was. */
  lemma FilledNationalityAt(ts: seq<string>, i: nat)
    requires AllClassifiable(ts) && i < |ts| && KindOf(ts[i]) == NationalityRow
    ensures |FilledStarters(ts)[i]| == 4
    ensures FilledStarters(ts)[i][NationalityCol] == ExpectedStarter(ts, i)[NationalityCol]
  {
    var recs := StarterRecords(ts);
    var f0 := FillForward(recs, TeamCol);
    var f1 := FillForward(f0, RiderNumCol);
    assert recs[i] == StarterRecord(ts[i]);
    assert f0[i][NationalityCol] == recs[i][NationalityCol];
    assert f1[i][NationalityCol] == f0[i][NationalityCol];
  }

  /** At any text, the filled team is the team of the last team text before
    * it. */
  lemma FilledTeamAt(ts: seq<string>, i: nat)
    requires AllClassifiable(ts) && i < |ts| && KindOf(ts[i]) == NationalityRow
    ensures FilledStarters(ts)[i][TeamCol] == ExpectedStarter(ts, i)[TeamCol]
  {
    var recs := StarterRecords(ts);
    FillForwardAt(recs, TeamCol, i);
    LatestSkipsMissing(Column(recs, TeamCol), i);
    LatestOfColumn(ts, TeamCol, i);
  }

  /** At a nationality text, the filled rider number is the number of the
    * last rider text before it. */
  lemma FilledRiderNumAt(ts: seq<string>, i: nat)
    requires AllClassifiable(ts) && i < |ts| && KindOf(ts[i]) == NationalityRow
    ensures FilledStarters(ts)[i][RiderNumCol] == ExpectedStarter(ts, i)[RiderNumCol]
  {
    var recs := StarterRecords(ts);
    var f0 := FillForward(recs, TeamCol);
    FillForwardAt(f0, RiderNumCol, i);
    assert Column(f0, RiderNumCol) == Column(recs, RiderNumCol);
    LatestSkipsMissing(Column(recs, RiderNumCol), i);
    LatestOfColumn(ts, RiderNumCol, i);
  }

  /** At a nationality text, the filled rider name is the name of the last
    * rider text before it. */
  lemma FilledRiderNameAt(ts: seq<string>, i: nat)
    requires AllClassifiable(ts) && i < |ts| && KindOf(ts[i]) == NationalityRow
    ensures FilledStarters(ts)[i][RiderNameCol] == ExpectedStarter(ts, i)[RiderNameCol]
  {
    var recs := StarterRecords(ts);
    var f1 := FillForward(FillForward(recs, TeamCol), RiderNumCol);
    FillForwardAt(f1, RiderNameCol, i);
    assert Column(f1, RiderNameCol) == Column(recs, RiderNameCol);
    LatestSkipsMissing(Column(recs, RiderNameCol), i);
    LatestOfColumn(ts, RiderNameCol, i);
  }

  /** The starters table has one record per nationality text, in order, and
    * that record names the last team and the last rider listed before the
    * nationality. */
  lemma StartersFollowNationalities(ts: seq<string>)
    requires AllClassifiable(ts)
    ensures |Starters(ts)| == |NationalityPositions(ts)|
    ensures forall j :: 0 <= j < |Starters(ts)| ==>
              Starters(ts)[j] == ExpectedStarter(ts, NationalityPositions(ts)[j])
  {
    var f := FilledStarters(ts);
    assert PresentFlags(Column(f, NationalityCol)) == KindFlags(ts, NationalityRow);
    forall j | 0 <= j < |Starters(ts)|
      ensures Starters(ts)[j] == ExpectedStarter(ts, NationalityPositions(ts)[j])
    {
      var i := NationalityPositions(ts)[j];
      FilledAtNationality(ts, i);
    }
  }

  // =====================================================================
  // stages

  const StageHeader: seq<string> := ["stage_num", "date_start", "start_city", "finish_city"]

  /** The cells of one stage row: its stripped text cut at the newlines.
    * Joining them back with newlines gives the stripped text, and no cell
    * holds a newline. */
  function StageCells(text: string): (cells: seq<string>)
    ensures |cells| >= 1
    ensures Join(cells, "\n") == Strip(text)
    ensures forall k :: 0 <= k < |cells| ==> '\n' !in cells[k]
  {
    JoinSplit(Strip(text), "\n");
    SplitRemovesChar(Strip(text), '\n');
    Split(Strip(text), "\n")
  }

  /** The rows of the stages table: every row but the first (the page's
    * header row), each cut into its cells. */
  function StageRows(texts: seq<string>): (rows: seq<seq<string>>)
    requires |texts| >= 1
    ensures |rows| == |texts| - 1
    ensures forall i :: 0 <= i < |rows| ==> rows[i] == StageCells(texts[1..][i])
  {
    var body := texts[1..];
    seq(|body|, i requires 0 <= i < |body| => StageCells(body[i]))
  }

  /** The stages scraper for one page's row texts. */
  method ScrapeStages(texts: seq<string>) returns (header: seq<string>, rows: seq<seq<string>>)
    requires |texts| >= 1
    ensures header == StageHeader
    ensures rows == StageRows(texts)
  {
    var stagesList: seq<string> := [];
    for i := 0 to |texts|
      invariant |stagesList| == i
      invariant forall k :: 0 <= k < i ==> stagesList[k] == Strip(texts[k])
    {
      stagesList := stagesList + [Strip(texts[i])];
    }
    var split := seq(|stagesList|, i requires 0 <= i < |stagesList| => Split(stagesList[i], "\n"));
    rows := split[1..];
    forall i | 0 <= i < |rows| ensures rows[i] == StageRows(texts)[i] {
      assert rows[i] == Split(stagesList[i + 1], "\n");
      assert texts[1..][i] == texts[i + 1];
    }
    header := StageHeader;
  }

  // =====================================================================
  // jersey wearers

  /** A jersey row after the two rewrites: newlines stripped from both ends,
    * then every run of two or more whitespace characters turned into a
    * comma. */
  function JerseyText(text: string): string {
    CollapseSpaceRuns(StripChars(text, {'\n'}), 2)
  }

  /** No run of two whitespace characters is left in a jersey row, and
    * rewriting it again changes nothing. */
  lemma JerseyTextRunFree(text: string)
    ensures NoSpaceRun(JerseyText(text), 2)
    ensures CollapseSpaceRuns(JerseyText(text), 2) == JerseyText(text)
  {
    CollapseSpaceRunsSpec(StripChars(text, {'\n'}), 2);
    CollapseIdempotent(StripChars(text, {'\n'}), 2);
  }

  /** The fields of a jersey row: its rewritten text cut at the commas. */
  function JerseyCells(text: string): (cells: seq<string>)
    ensures |cells| >= 1
    ensures Join(cells, ",") == JerseyText(text)
    ensures forall k :: 0 <= k < |cells| ==> ',' !in cells[k]
  {
    JoinSplit(JerseyText(text), ",");
    SplitRemovesChar(JerseyText(text), ',');
    Split(JerseyText(text), ",")
  }

  /** A jersey row whose text, once its outer newlines are stripped, is a
    * list of fields separated by runs of two or more whitespace characters
    * is cut into exactly those fields, provided no field holds a comma. */
  lemma JerseyCellsOfFields(text: string, fields: seq<string>, runs: seq<string>)
    requires |fields| == |runs| + 1
    requires StripChars(text, {'\n'}) == Interleave(fields, runs)
    requires forall i :: 0 <= i < |fields| ==> IsField(fields[i], 2) && ',' !in fields[i]
    requires forall i :: 0 <= i < |runs| ==> IsRun(runs[i], 2)
    ensures JerseyCells(text) == fields
  {
    CollapseInterleave(fields, runs, 2);
    SplitJoin(fields, ',');
  }

  function JerseyLists(texts: seq<string>): (ls: seq<seq<string>>)
    ensures |ls| == |texts| && forall i :: 0 <= i < |texts| ==> ls[i] == JerseyCells(texts[i])
  {
    seq(|texts|, i requires 0 <= i < |texts| => JerseyCells(texts[i]))
  }

  /** The column names read off the first row: its first field cut at the
    * newlines, each name lower-cased with spaces turned into underscores,
    * and the first name replaced by `stage_num`. */
  function DerivedHeader(first: seq<string>): seq<string>
    requires |first| >= 1
  {
    var names := Split(first[0], "\n");
    ["stage_num"] + seq(|names| - 1, k requires 0 <= k < |names| - 1 => SnakeCase(names[k + 1]))
  }

  /** One name per piece of the first field, `stage_num` first; every other
    * name is its piece normalised, as long as the piece and with no space. */
  lemma DerivedHeaderSpec(first: seq<string>)
    requires |first| >= 1
    ensures var names := Split(first[0], "\n");
            var h := DerivedHeader(first);
            && |h| == |names| && h[0] == "stage_num"
            && forall k :: 1 <= k < |h| ==>
                 h[k] == SnakeCase(names[k]) && ' ' !in h[k] && |h[k]| == |names[k]|
  {
    var names := Split(first[0], "\n");
    var h := DerivedHeader(first);
    forall k | 1 <= k < |h| ensures h[k] == SnakeCase(names[k]) && ' ' !in h[k] && |h[k]| == |names[k]| {
      SnakeCaseSpec(names[k]);
    }
  }

  /** The first loop that shortens the header: names are dropped from its
    * end until it is no longer than the number of columns. */
  method TrimHeader(header: seq<string>, width: nat) returns (h: seq<string>)
    ensures h == header[..Min(|header|, width)]
  {
    h := header;
    while |h| > width
      invariant |h| <= |header| && h == header[..|h|]
      invariant |h| >= Min(|header|, width)
      decreases |h|
    {
      h := h[..|h| - 1];
    }
  }

  /** The second loop: the last column is dropped until at most `limit`
    * columns remain; the kept columns are the first ones. */
  method CapColumns(f: Frame, limit: nat) returns (g: Frame)
    requires Rectangular(f)
    ensures g == TakeColumns(f, Min(f.width, limit))
  {
    g := f;
    assert g == TakeColumns(f, f.width) by {
      forall i | 0 <= i < |f.rows| ensures f.rows[i][..f.width] == f.rows[i] { }
    }
    while g.width > limit
      invariant g.width >= Min(f.width, limit) && g.width <= f.width
      invariant g == TakeColumns(f, g.width)
      decreases g.width
    {
      ghost var w := g.width;
      g := DropLastColumn(g);
      assert g == TakeColumns(f, w - 1) by {
        forall i | 0 <= i < |f.rows| ensures f.rows[i][..w][..w - 1] == f.rows[i][..w - 1] { }
      }
    }
  }

  /** The largest number of columns a jersey table keeps. */
  const JerseyColumns: nat := 5

  datatype Table = Table(header: seq<string>, frame: Frame)

  /** The jersey wearers table for one page's row texts: the header derived
    * from the first row, cut to the number of columns of the other rows;
    * those rows padded into a frame, cut to its first five columns, empty
    * fields made missing, and the columns with no field at all dropped. */
  function JerseyWearers(texts: seq<string>): Table
    requires |texts| >= 1
  {
    var lists := JerseyLists(texts);
    var full := DerivedHeader(lists[0]);
    Table(full[..Min(|full|, FromLists(lists[1..]).width)], JerseyFrame(lists[1..]))
  }

  function JerseyFrame(lists: seq<seq<string>>): (g: Frame)
    ensures Rectangular(g) && |g.rows| == |lists|
    ensures g.width <= Min(FromLists(lists).width, JerseyColumns)
  {
    var f := FromLists(lists);
    DropMissingColumns(BlankToMissing(TakeColumns(f, Min(f.width, JerseyColumns))))
  }

  /** An empty field reads as missing. */
  function NonBlank(cell: Option<string>): Option<string> {
    if cell == Some("") then None else cell
  }

  /** The jersey frame has at most five columns, no empty field and no
    * column without a field; its columns are exactly those among the first
    * five that hold a non-empty field, in their order, each cell the field of
    * the same row (missing if that field is empty). */
  lemma JerseyFrameShape(lists: seq<seq<string>>)
    ensures var g := JerseyFrame(lists);
      && g.width <= JerseyColumns
      && (forall i, k :: 0 <= i < |g.rows| && 0 <= k < g.width ==> g.rows[i][k] != Some(""))
      && (forall k :: 0 <= k < g.width ==> ColumnHasValue(g, k))
    ensures var f := FromLists(lists);
      var g := JerseyFrame(lists);
      exists cols: seq<nat> ::
        && |cols| == g.width
        && (forall k :: 0 <= k < |cols| ==> cols[k] < Min(f.width, JerseyColumns))
        && (forall k, k' :: 0 <= k < k' < |cols| ==> cols[k] < cols[k'])
        && (forall i, k :: 0 <= i < |g.rows| && 0 <= k < |cols| ==>
              g.rows[i][k] == NonBlank(f.rows[i][cols[k]]))
        && (forall c ::
              (0 <= c < Min(f.width, JerseyColumns) &&
               exists i :: 0 <= i < |f.rows| && NonBlank(f.rows[i][c]).Some?)
              ==> c in cols)
  {
    var f := FromLists(lists);
    var m := Min(f.width, JerseyColumns);
    var blanked := BlankToMissing(TakeColumns(f, m));
    var g := DropMissingColumns(blanked);
    forall k | 0 <= k < g.width ensures ColumnHasValue(g, k) {
      NoMissingColumnLeft(blanked, k);
    }
    var cols := ValuedColumns(blanked);
    KeptColumns(f, m);
    assert |cols| == g.width;
  }

  /** Keeping the first `m` columns, reading empty fields as missing and
    * dropping the columns left without a value keeps exactly the columns
    * among the first `m` that hold a non-empty field, each cell the field it
    * came from (or missing). */
  lemma KeptColumns(f: Frame, m: nat)
    requires Rectangular(f) && m <= f.width
    ensures var b := BlankToMissing(TakeColumns(f, m));
      var g := DropMissingColumns(b);
      var cols := ValuedColumns(b);
      && (forall i, k :: 0 <= i < |g.rows| && 0 <= k < |cols| ==>
            g.rows[i][k] == NonBlank(f.rows[i][cols[k]]))
      && (forall c ::
            (0 <= c < m && exists i :: 0 <= i < |f.rows| && NonBlank(f.rows[i][c]).Some?)
            ==> c in cols)
  {
    var capped := TakeColumns(f, m);
    var b := BlankToMissing(capped);
    var g := DropMissingColumns(b);
    var cols := ValuedColumns(b);
    forall i, c | 0 <= i < |f.rows| && 0 <= c < m ensures b.rows[i][c] == NonBlank(f.rows[i][c]) {
      assert capped.rows[i][c] == f.rows[i][c];
    }
    forall i, k | 0 <= i < |g.rows| && 0 <= k < |cols|
      ensures g.rows[i][k] == NonBlank(f.rows[i][cols[k]])
    {
      assert g.rows[i][k] == b.rows[i][cols[k]];
    }
    forall c | 0 <= c < m && exists i :: 0 <= i < |f.rows| && NonBlank(f.rows[i][c]).Some?
      ensures c in cols
    {
      var i :| 0 <= i < |f.rows| && NonBlank(f.rows[i][c]).Some?;
      assert b.rows[i][c].Some?;
    }
  }

  /** The jersey wearers scraper for one page's row texts. */
  method ScrapeJerseyWearers(texts: seq<string>) returns (header: seq<string>, frame: Frame)
    requires |texts| >= 1
    ensures Table(header, frame) == JerseyWearers(texts)
  {
    var jerseyList: seq<string> := [];
    for i := 0 to |texts|
      invariant |jerseyList| == i
      invariant forall k :: 0 <= k < i ==> jerseyList[k] == JerseyText(texts[k])
    {
      var newRow := StripChars(texts[i], {'\n'});
      newRow := CollapseSpaceRuns(newRow, 2);
      jerseyList := jerseyList + [newRow];
    }
    var lists := seq(|jerseyList|, i requires 0 <= i < |jerseyList| => Split(jerseyList[i], ","));
    assert lists == JerseyLists(texts);
    var first := lists[0];
    lists := lists[1..];
    header := DerivedHeader(first);
    var jerseyDf := FromLists(lists);
    header := TrimHeader(header, jerseyDf.width);
    jerseyDf := CapColumns(jerseyDf, JerseyColumns);
    jerseyDf := BlankToMissing(jerseyDf);
    jerseyDf := DropMissingColumns(jerseyDf);
    frame := jerseyDf;
  }

  // =====================================================================
  // stage winners

  /** A stage winner row after the four rewrites: newlines stripped from both
    * ends, every run of three or more whitespace characters turned into a
    * comma, one trailing comma dropped, and the remaining newlines turned
    * into commas. The result holds no newline. */
  function StageWinnerText(text: string): string {
    ReplaceChar(DropTrailingComma(CollapseSpaceRuns(StripChars(text, {'\n'}), 3)), '\n', ',')
  }

  /** A stage winner row holds no newline and no run of three whitespace
    * characters: dropping the comma and replacing the newlines by commas
    * creates no such run. */
  lemma StageWinnerTextSpec(text: string)
    ensures '\n' !in StageWinnerText(text)
    ensures NoSpaceRun(StageWinnerText(text), 3)
  {
    var collapsed := CollapseSpaceRuns(StripChars(text, {'\n'}), 3);
    CollapseSpaceRunsSpec(StripChars(text, {'\n'}), 3);
    var trimmed := DropTrailingComma(collapsed);
    ReplaceCharRemoves(trimmed, '\n', ',');
    assert trimmed == collapsed[..|trimmed|];
    NoSpaceRunPrefix(collapsed, |trimmed|, 3);
    NoSpaceRunReplace(trimmed, '\n', ',', 3);
  }

  /** The fields of a stage winner row: the rewritten text cut at the commas. */
  function StageWinnerCells(text: string): seq<string> {
    Split(StageWinnerText(text), ",")
  }

  /** Joining the fields of a stage winner row with commas gives its
    * rewritten text back, and no field holds a comma or a newline. */
  lemma StageWinnerCellsSpec(text: string)
    ensures |StageWinnerCells(text)| >= 1
    ensures Join(StageWinnerCells(text), ",") == StageWinnerText(text)
    ensures forall k :: 0 <= k < |StageWinnerCells(text)| ==>
              ',' !in StageWinnerCells(text)[k] && '\n' !in StageWinnerCells(text)[k]
  {
    var s := StageWinnerText(text);
    ReplaceCharRemoves(DropTrailingComma(CollapseSpaceRuns(StripChars(text, {'\n'}), 3)), '\n', ',');
    JoinSplit(s, ",");
    SplitRemovesChar(s, ',');
    SplitSpec(s, ",");
  }

  /** A stage winner row whose text, once its outer newlines are stripped,
    * is a list of fields separated by runs of three or more whitespace
    * characters is cut into exactly those fields, provided no field holds a
    * comma or a newline. Shorter runs stay inside a field. */
  lemma StageWinnerCellsOfFields(text: string, fields: seq<string>, runs: seq<string>)
    requires |fields| == |runs| + 1
    requires StripChars(text, {'\n'}) == Interleave(fields, runs)
    requires forall i :: 0 <= i < |fields| ==>
               IsField(fields[i], 3) && ',' !in fields[i] && '\n' !in fields[i]
    requires forall i :: 0 <= i < |runs| ==> IsRun(runs[i], 3)
    ensures StageWinnerCells(text) == fields
  {
    var joined := Join(fields, ",");
    CollapseInterleave(fields, runs, 3);
    assert CollapseSpaceRuns(StripChars(text, {'\n'}), 3) == joined;
    JoinEndsWith(fields, ",");
    var last := fields[|fields| - 1];
    assert IsField(last, 3) && ',' !in last;
    assert joined[|joined| - 1] == last[|last| - 1] != ',';
    assert DropTrailingComma(joined) == joined;
    JoinAvoids(fields, ',', '\n');
    assert ReplaceChar(joined, '\n', ',') == joined;
    assert StageWinnerText(text) == joined;
    SplitJoin(fields, ',');
  }

  const StageWinnerHeader: seq<string> := ["stage_num", "parcours", "winner", "team"]

  /** The rows of the stage winners table: every row but the first, each cut
    * into its fields. */
  function StageWinnerRows(texts: seq<string>): (rows: seq<seq<string>>)
    requires |texts| >= 1
    ensures |rows| == |texts| - 1
    ensures forall i :: 0 <= i < |rows| ==> rows[i] == StageWinnerCells(texts[1..][i])
  {
    var body := texts[1..];
    seq(|body|, i requires 0 <= i < |body| => StageWinnerCells(body[i]))
  }

  /** The stage winners scraper for one page's row texts. */
  method ScrapeStageWinners(texts: seq<string>) returns (header: seq<string>, rows: seq<seq<string>>)
    requires |texts| >= 1
    ensures header == StageWinnerHeader
    ensures rows == StageWinnerRows(texts)
  {
    var stageWinnersList: seq<string> := [];
    for i := 0 to |texts|
      invariant |stageWinnersList| == i
      invariant forall k :: 0 <= k < i ==> stageWinnersList[k] == StageWinnerText(texts[k])
    {
      var newRow := StripChars(texts[i], {'\n'});
      newRow := CollapseSpaceRuns(newRow, 3);
      newRow := DropTrailingComma(newRow);
      newRow := ReplaceChar(newRow, '\n', ',');
      assert newRow == StageWinnerText(texts[i]);
      stageWinnersList := stageWinnersList + [newRow];
    }
    var split := seq(|stageWinnersList|, i requires 0 <= i < |stageWinnersList| =>
                       Split(stageWinnersList[i], ","));
    rows := split[1..];
    StageWinnerSplitRows(texts, stageWinnersList, split);
    header := StageWinnerHeader;
  }

  /** Cutting every rewritten row text at its commas and dropping the first
    * gives the rows of the table. */
  lemma StageWinnerSplitRows(texts: seq<string>, list: seq<string>, split: seq<seq<string>>)
    requires |texts| >= 1 && |list| == |texts| && |split| == |list|
    requires forall k :: 0 <= k < |list| ==> list[k] == StageWinnerText(texts[k])
    requires forall k :: 0 <= k < |split| ==> split[k] == Split(list[k], ",")
    ensures split[1..] == StageWinnerRows(texts)
  {
    var rows := split[1..];
    forall i | 0 <= i < |rows| ensures rows[i] == StageWinnerRows(texts)[i] {
      assert rows[i] == Split(list[i + 1], ",");
      assert texts[1..][i] == texts[i + 1];
    }
  }

  // =====================================================================
  // rankings

  /** The ranking categories scraped, in the order the loop visits them: a
    * label and the site's code for it. */
  const RankingCategories: seq<(string, string)> := [
    ("indiv_general", "itg"), ("indiv_stage", "ite"), ("points_general", "ipg"),
    ("climber_general", "img"), ("youth_general", "ijg"),
    ("team_stage", "ete"), ("team_general", "etg")]

  /** The number of cells a ranking row must have for a code; `-1` for a
    * code the scraper has no header for, which no row can match. */
  function NumColumns(code: string): (n: int)
    ensures n == -1 || 4 <= n <= 8
  {
    if code == "itg" || code == "ite" then 8
    else if code == "ipg" then 7
    else if code == "img" then 5
    else if code == "ijg" then 6
    else if code == "ete" || code == "etg" then 4
    else -1
  }

  predicate IsRankingCode(code: string) {
    NumColumns(code) != -1
  }

  /** The column names for a code: one name per cell a kept row has, the
    * rank first. For any other code the scraper assigns no header. */
  function RankingHeader(code: string): (h: seq<string>)
    requires IsRankingCode(code)
    ensures |h| == NumColumns(code) && h[0] == "rank"
  {
    if code == "itg" || code == "ite" then ["rank", "rider", "rider_no", "team", "times", "gap", "b", "p"]
    else if code == "ipg" then ["rank", "rider", "rider_no", "team", "points", "b", "p"]
    else if code == "img" then ["rank", "rider", "rider_no", "team", "points"]
    else if code == "ijg" then ["rank", "rider", "rider_no", "team", "times", "gap"]
    else ["rank", "team", "times", "gap"]
  }

  /** Every category the scraper visits has a header. */
  lemma CategoriesHaveHeaders()
    ensures forall i :: 0 <= i < |RankingCategories| ==> IsRankingCode(RankingCategories[i].1)
  {
  }

  /** Every cell of a row, stripped. */
  function StripAll(cells: seq<string>): (r: seq<string>)
    ensures |r| == |cells|
    ensures forall k :: 0 <= k < |r| ==> Stripped(r[k], Whitespace)
  {
    var r := seq(|cells|, k requires 0 <= k < |cells| => Strip(cells[k]));
    assert forall k :: 0 <= k < |r| ==> Stripped(r[k], Whitespace) by {
      forall k | 0 <= k < |r| ensures Stripped(r[k], Whitespace) {
        StripCharsSpec(cells[k], Whitespace);
      }
    }
    r
  }

  /** The rows of one stage's ranking that have exactly `n` cells, in page
    * order, each cell stripped. */
  function StageRankingRows(rows: seq<seq<string>>, n: int): (kept: seq<seq<string>>)
    ensures forall j :: 0 <= j < |kept| ==> |kept[j]| == n
    ensures forall j, k :: 0 <= j < |kept| && 0 <= k < |kept[j]| ==> Stripped(kept[j][k], Whitespace)
  {
    if rows == [] then []
    else
      var last := rows[|rows| - 1];
      StageRankingRows(rows[..|rows| - 1], n) + (if |last| == n then [StripAll(last)] else [])
  }

  lemma StageRankingRowsStep(rows: seq<seq<string>>, n: int, i: nat)
    requires i < |rows|
    ensures StageRankingRows(rows[..i + 1], n) ==
              StageRankingRows(rows[..i], n) + (if |rows[i]| == n then [StripAll(rows[i])] else [])
  {
    assert rows[..i + 1][..i] == rows[..i];
  }

  function WidthFlags(rows: seq<seq<string>>, n: int): (flags: seq<bool>)
    ensures |flags| == |rows| && forall i :: 0 <= i < |rows| ==> flags[i] == (|rows[i]| == n)
  {
    seq(|rows|, i requires 0 <= i < |rows| => |rows[i]| == n)
  }

  /** The kept rows are the stripped rows at the positions whose width is
    * `n`: as many as there are such positions, in their order. */
  lemma {:induction false} StageRankingRowsAreMatches(rows: seq<seq<string>>, n: int)
    ensures var idx := Where(WidthFlags(rows, n));
      && |StageRankingRows(rows, n)| == |idx|
      && forall j :: 0 <= j < |idx| ==> StageRankingRows(rows, n)[j] == StripAll(rows[idx[j]])
  {
    if rows != [] {
      var init := rows[..|rows| - 1];
      StageRankingRowsAreMatches(init, n);
      var flags := WidthFlags(rows, n);
      assert flags[..|rows| - 1] == WidthFlags(init, n);
      var idx0 := Where(WidthFlags(init, n));
      forall j | 0 <= j < |idx0| ensures rows[idx0[j]] == init[idx0[j]] { }
    }
  }

  /** The loop over one stage's table rows: a row with `num_columns` cells is
    * stored, cell by cell, under the next row number; the stored rows are
    * then read back in row-number order. */
  method ScrapeStageRankings(rows: seq<seq<string>>, code: string) returns (kept: seq<seq<string>>)
    ensures kept == StageRankingRows(rows, NumColumns(code))
  {
    var numColumns := NumColumns(code);
    var rowsForDf: map<int, seq<string>> := map[];
    var rowNum := 0;
    ghost var acc: seq<seq<string>> := [];
    for i := 0 to |rows|
      invariant acc == StageRankingRows(rows[..i], numColumns)
      invariant rowNum == |acc|
      invariant forall j :: j in rowsForDf <==> 0 <= j < rowNum
      invariant forall j :: 0 <= j < rowNum ==> rowsForDf[j] == acc[j]
    {
      var row := rows[i];
      StageRankingRowsStep(rows, numColumns, i);
      if |row| == numColumns {
        rowsForDf := StoreStrippedRow(rowsForDf, rowNum, row);
        acc := acc + [StripAll(row)];
        rowNum := rowNum + 1;
      }
    }
    // the frame built from the dictionary lists its rows in key order
    kept := [];
    for j := 0 to rowNum
      invariant kept == acc[..j]
    {
      kept := kept + [rowsForDf[j]];
    }
    assert rows[..|rows|] == rows;
  }

  /** The inner loop over the cells of a kept row: each stripped cell is
    * appended to the new row, and the new row is stored under `rowNum`
    * after every cell. For a row with cells, the dictionary ends up with the
    * whole stripped row under `rowNum`. */
  method StoreStrippedRow(rowsForDf: map<int, seq<string>>, rowNum: int, row: seq<string>)
      returns (updated: map<int, seq<string>>)
    requires |row| > 0
    ensures updated == rowsForDf[rowNum := StripAll(row)]
  {
    updated := rowsForDf;
    var newRow: seq<string> := [];
    for c := 0 to |row|
      invariant |newRow| == c && forall k :: 0 <= k < c ==> newRow[k] == Strip(row[k])
      invariant updated == if c == 0 then rowsForDf else rowsForDf[rowNum := newRow]
    {
      newRow := newRow + [Strip(row[c])];
      updated := updated[rowNum := newRow];
    }
    assert newRow == StripAll(row);
  }

  /** A ranking row of the table of one code. */
  datatype RankingRow = RankingRow(stageNum: nat, cells: seq<string>)

  /** One stage's kept rows with the stage number set on each. */
  function StageBlock(stageNum: nat, kept: seq<seq<string>>): (block: seq<RankingRow>)
    ensures |block| == |kept|
    ensures forall j :: 0 <= j < |kept| ==> block[j] == RankingRow(stageNum, kept[j])
  {
    seq(|kept|, j requires 0 <= j < |kept| => RankingRow(stageNum, kept[j]))
  }

  /** The table of one code over the stages whose pages are given, stage 1
    * first: the stages' kept rows one after the other. */
  function Rankings(pages: seq<seq<seq<string>>>, n: int): seq<RankingRow> {
    if pages == [] then []
    else Rankings(pages[..|pages| - 1], n) + StageBlock(|pages|, StageRankingRows(pages[|pages| - 1], n))
  }

  /** The cells of the rows of stage `s`, in table order. */
  function CellsOfStage(table: seq<RankingRow>, s: nat): seq<seq<string>> {
    if table == [] then []
    else
      var last := table[|table| - 1];
      CellsOfStage(table[..|table| - 1], s) + (if last.stageNum == s then [last.cells] else [])
  }

  lemma {:induction false} CellsOfStageAppend(a: seq<RankingRow>, b: seq<RankingRow>, s: nat)
    ensures CellsOfStage(a + b, s) == CellsOfStage(a, s) + CellsOfStage(b, s)
    decreases |b|
  {
    if b == [] {
      assert a + b == a;
    } else {
      assert (a + b)[..|a + b| - 1] == a + b[..|b| - 1];
      CellsOfStageAppend(a, b[..|b| - 1], s);
    }
  }

  lemma {:induction false} CellsOfBlock(stageNum: nat, kept: seq<seq<string>>, s: nat)
    ensures CellsOfStage(StageBlock(stageNum, kept), s) == if s == stageNum then kept else []
  {
    if kept != [] {
      var init := kept[..|kept| - 1];
      CellsOfBlock(stageNum, init, s);
      assert StageBlock(stageNum, kept)[..|kept| - 1] == StageBlock(stageNum, init);
    }
  }

  lemma {:induction false} CellsOfAbsentStage(table: seq<RankingRow>, s: nat)
    requires forall r :: 0 <= r < |table| ==> table[r].stageNum != s
    ensures CellsOfStage(table, s) == []
  {
    if table != [] {
      CellsOfAbsentStage(table[..|table| - 1], s);
    }
  }

  /** A row of the last stage's block, or an earlier row. */
  lemma RankingsRowAt(pages: seq<seq<seq<string>>>, n: int, r: nat)
    requires pages != [] && r < |Rankings(pages, n)|
    ensures var prev := Rankings(pages[..|pages| - 1], n);
      && (r < |prev| ==> Rankings(pages, n)[r] == prev[r])
      && (r >= |prev| ==>
            Rankings(pages, n)[r] == RankingRow(|pages|, StageRankingRows(pages[|pages| - 1], n)[r - |prev|]))
  {
  }

  /** Every row of the table of one code carries a stage number from 1 to
    * the number of stages, as many cells as the code's header names, and
    * stripped cells. */
  lemma {:induction false} RankingsRowShape(pages: seq<seq<seq<string>>>, n: int, r: nat)
    requires r < |Rankings(pages, n)|
    ensures 1 <= Rankings(pages, n)[r].stageNum <= |pages|
    ensures |Rankings(pages, n)[r].cells| == n
    ensures forall k :: 0 <= k < |Rankings(pages, n)[r].cells| ==>
              Stripped(Rankings(pages, n)[r].cells[k], Whitespace)
  {
    var prev := Rankings(pages[..|pages| - 1], n);
    RankingsRowAt(pages, n, r);
    if r < |prev| {
      RankingsRowShape(pages[..|pages| - 1], n, r);
    }
  }

  /** The table of one code lists the stages in order. */
  lemma RankingsOrdered(pages: seq<seq<seq<string>>>, n: int, a: nat, b: nat)
    requires a < b < |Rankings(pages, n)|
    ensures Rankings(pages, n)[a].stageNum <= Rankings(pages, n)[b].stageNum
    decreases |pages|
  {
    var prev := Rankings(pages[..|pages| - 1], n);
    RankingsRowAt(pages, n, a);
    RankingsRowAt(pages, n, b);
    if b < |prev| {
      RankingsOrdered(pages[..|pages| - 1], n, a, b);
    } else if a < |prev| {
      RankingsRowShape(pages[..|pages| - 1], n, a);
    }
  }

  /** The rows of stage `s` in the table of one code are exactly the kept
    * rows of that stage's page, in page order. */
  lemma {:induction false} RankingsPerStage(pages: seq<seq<seq<string>>>, n: int, s: nat)
    requires 1 <= s <= |pages|
    ensures CellsOfStage(Rankings(pages, n), s) == StageRankingRows(pages[s - 1], n)
  {
    var init := pages[..|pages| - 1];
    var prev := Rankings(init, n);
    var kept := StageRankingRows(pages[|pages| - 1], n);
    CellsOfStageAppend(prev, StageBlock(|pages|, kept), s);
    CellsOfBlock(|pages|, kept, s);
    if s == |pages| {
      forall r | 0 <= r < |prev| ensures prev[r].stageNum != s {
        RankingsRowShape(init, n, r);
      }
      CellsOfAbsentStage(prev, s);
    } else {
      RankingsPerStage(init, n, s);
      assert init[s - 1] == pages[s - 1];
    }
  }

  /** The columns of the rankings table of a code after `stages` stages:
    * none before the first stage, then the stage number followed by the
    * code's header. */
  function RankingColumns(code: string, stages: nat): seq<string>
    requires IsRankingCode(code)
  {
    if stages == 0 then [] else ["stage_num"] + RankingHeader(code)
  }

  /** The loop over the stages of one code: each stage's page is reduced to
    * its kept rows, the stage number is added as a column and moved to the
    * front, and the stage's rows are appended to the table. The table starts
    * without columns and takes them from the first stage's rows. */
  method ScrapeRankings(code: string, pages: seq<seq<seq<string>>>)
      returns (header: seq<string>, table: seq<RankingRow>)
    requires IsRankingCode(code)
    ensures header == RankingColumns(code, |pages|)
    ensures table == Rankings(pages, NumColumns(code))
  {
    header := [];
    table := [];
    for stage := 0 to |pages|
      invariant header == RankingColumns(code, stage)
      invariant table == Rankings(pages[..stage], NumColumns(code))
    {
      var stageNum := stage + 1;
      var kept := ScrapeStageRankings(pages[stage], code);
      var df := seq(|kept|, j requires 0 <= j < |kept| => RankingRow(stageNum, kept[j]));
      var cols := RankingHeader(code) + ["stage_num"];
      header := [cols[|cols| - 1]] + cols[..|cols| - 1];
      assert pages[..stage + 1][..stage] == pages[..stage];
      table := table + df;
    }
    assert pages[..|pages|] == pages;
  }

  /** The loop over the ranking categories: one table per category, in
    * category order, each over the same number of stages. */
  method ScrapeAllRankings(pages: seq<seq<seq<seq<string>>>>, numOfStages: nat)
      returns (headers: seq<seq<string>>, tables: seq<seq<RankingRow>>)
    requires |pages| == |RankingCategories|
    requires forall c :: 0 <= c < |pages| ==> |pages[c]| == numOfStages
    ensures |headers| == |tables| == |RankingCategories|
    ensures forall c :: 0 <= c < |tables| ==>
              var code := RankingCategories[c].1;
              IsRankingCode(code) &&
              headers[c] == RankingColumns(code, numOfStages) &&
              tables[c] == Rankings(pages[c], NumColumns(code))
  {
    CategoriesHaveHeaders();
    headers := [];
    tables := [];
    for c := 0 to |RankingCategories|
      invariant |headers| == |tables| == c
      invariant forall d :: 0 <= d < c ==>
                  var code := RankingCategories[d].1;
                  IsRankingCode(code) &&
                  headers[d] == RankingColumns(code, numOfStages) &&
                  tables[d] == Rankings(pages[d], NumColumns(code))
    {
      var code := RankingCategories[c].1;
      var header, table := ScrapeRankings(code, pages[c]);
      headers := headers + [header];
      tables := tables + [table];
    }
  }

  // =====================================================================
  // the combined jersey wearers table

  /** The columns of the jersey wearers tables of all years, concatenated:
    * the polka-dot jersey appears under two spellings. */
  const CombinedJerseyColumns: seq<string> :=
    ["year", "stage_num", "yellow_jersey", "green_jersey", "polka_dot_jersey", "polka-dot_jersey", "white_jersey"]

  /** The columns once the two polka-dot columns are merged. */
  const MergedJerseyColumns: seq<string> :=
    ["year", "stage_num", "yellow_jersey", "green_jersey", "polka_dot_jersey", "white_jersey"]

  /** The merged columns are the combined ones without `polka-dot_jersey`. */
  lemma MergedColumnsDropSecondSpelling()
    ensures MergedJerseyColumns == CombinedJerseyColumns[..5] + CombinedJerseyColumns[6..]
    ensures "polka-dot_jersey" !in MergedJerseyColumns
  {
  }

  /** One row of the combined table after `polka_dot_jersey` is filled from
    * `polka-dot_jersey` and the latter is dropped: the polka-dot cell is
    * present exactly when either spelling was, and a value under the first
    * spelling wins; the other cells keep their place. */
  function MergePolkaDot(row: Row): (r: Row)
    requires |row| == 7
    ensures |r| == 6 && r[..4] == row[..4] && r[5] == row[6]
    ensures r[4].Some? <==> (row[4].Some? || row[5].Some?)
    ensures row[4].Some? ==> r[4] == row[4]
    ensures row[4].None? ==> r[4] == row[5]
  {
    row[..4] + [if row[4].Some? then row[4] else row[5]] + [row[6]]
  }

  /** The merge over the whole combined table. */
  function MergePolkaDotColumns(f: Frame): (g: Frame)
    requires Rectangular(f) && f.width == |CombinedJerseyColumns|
    ensures Rectangular(g) && g.width == |MergedJerseyColumns| && |g.rows| == |f.rows|
    ensures forall i :: 0 <= i < |f.rows| ==> g.rows[i] == MergePolkaDot(f.rows[i])
  {
    Frame(6, seq(|f.rows|, i requires 0 <= i < |f.rows| => MergePolkaDot(f.rows[i])))
  }
}
