/** The row extraction of `tdf_scraper.py`, the earlier version of the same
  * scraper. Its stages, stage winners and rankings code is the code of
  * `scrape_tdf_data.py` and is modelled there; this module holds what
  * differs: the starters heuristic, which knows no nationality rows, the
  * jersey rows, which lose their trailing comma and get a fixed header, and
  * its own copy of the ranking table. */
module TdfScraper {
  import opened Text
  import opened Frames
  import S = ScrapeTdfData

  // =====================================================================
  // starters

  /** A text that begins with an ASCII letter of either case names a team;
    * anything else is a rider. */
  predicate IsTeamText(t: string) {
    |t| >= 1 && (IsUpper(t[0]) || IsLower(t[0]))
  }

  /** The rider branch reads the second piece of the text split at
    * `"\n "`; a rider text with fewer than two pieces raises `IndexError`. */
  predicate Classifiable(t: string) {
    !IsTeamText(t) ==> |Split(t, "\n ")| >= 2
  }

  predicate AllClassifiable(ts: seq<string>) {
    forall i :: 0 <= i < |ts| ==> Classifiable(ts[i])
  }

  /** Columns of the starters table of this version. */
  const TeamCol: nat := 0
  const RiderNumCol: nat := 1
  const RiderNameCol: nat := 2

  /** The record built for one text: three cells; the team cell is present
    * exactly for a team text, the rider cells exactly for a rider text. */
  function StarterRecord(t: string): (r: Row)
    requires Classifiable(t)
    ensures |r| == 3
    ensures r[TeamCol].Some? <==> IsTeamText(t)
    ensures r[RiderNumCol].Some? <==> !IsTeamText(t)
    ensures r[RiderNameCol].Some? <==> !IsTeamText(t)
    ensures IsTeamText(t) ==> r[TeamCol] == Some(t)
  {
    if IsTeamText(t) then [Some(t), None, None]
    else
      var pieces := Split(t, "\n ");
      [None, Some(Strip(pieces[0])), Some(Strip(pieces[1]))]
  }

  function StarterRecords(ts: seq<string>): (recs: seq<Row>)
    requires AllClassifiable(ts)
    ensures |recs| == |ts| && HasColumn(recs, RiderNameCol)
    ensures forall i :: 0 <= i < |ts| ==> recs[i] == StarterRecord(ts[i])
  {
    seq(|ts|, i requires 0 <= i < |ts| => StarterRecord(ts[i]))
  }

  /** The first loop: every row's text, stripped. */
  method CollectStarterTexts(trTexts: seq<string>) returns (rowsList: seq<string>)
    ensures rowsList == S.StripAll(trTexts)
  {
    rowsList := [];
    for i := 0 to |trTexts|
      invariant |rowsList| == i
      invariant forall k :: 0 <= k < i ==> rowsList[k] == Strip(trTexts[k])
    {
      rowsList := rowsList + [Strip(trTexts[i])];
    }
  }

  /** The second loop, over the collected texts. */
  method ClassifyStarterTexts(ts: seq<string>) returns (startersList: seq<Row>)
    requires AllClassifiable(ts)
    ensures startersList == StarterRecords(ts)
  {
    startersList := [];
    for i := 0 to |ts|
      invariant |startersList| == i
      invariant forall k :: 0 <= k < i ==> startersList[k] == StarterRecord(ts[k])
    {
      var row := ts[i];
      var newRow: Row;
      if |row| >= 1 && (IsUpper(row[0]) || IsLower(row[0])) {
        newRow := [Some(row), None, None];
      } else {
        var pieces := Split(row, "\n ");
        newRow := [None, Some(Strip(pieces[0])), Some(Strip(pieces[1]))];
      }
      assert newRow == StarterRecord(row);
      startersList := startersList + [newRow];
    }
  }

  /** The records with the team filled forward, keeping only the rows that
    * have a rider number. */
  function Starters(ts: seq<string>): seq<Row>
    requires AllClassifiable(ts)
  {
    KeepPresent(FillForward(StarterRecords(ts), TeamCol), RiderNumCol)
  }

  /** The whole scraper for one page's row texts. */
  method ScrapeStarters(trTexts: seq<string>) returns (starters: seq<Row>)
    requires AllClassifiable(S.StripAll(trTexts))
    ensures starters == Starters(S.StripAll(trTexts))
  {
    var rowsList := CollectStarterTexts(trTexts);
    var startersList := ClassifyStarterTexts(rowsList);
    startersList := FillForward(startersList, TeamCol);
    starters := KeepPresent(startersList, RiderNumCol);
  }

  function TeamFlags(ts: seq<string>): (flags: seq<bool>)
    ensures |flags| == |ts| && forall i :: 0 <= i < |ts| ==> flags[i] == IsTeamText(ts[i])
  {
    seq(|ts|, i requires 0 <= i < |ts| => IsTeamText(ts[i]))
  }

  function RiderFlags(ts: seq<string>): (flags: seq<bool>)
    ensures |flags| == |ts| && forall i :: 0 <= i < |ts| ==> flags[i] == !IsTeamText(ts[i])
  {
    seq(|ts|, i requires 0 <= i < |ts| => !IsTeamText(ts[i]))
  }

  /** The positions of the rider texts, in order. */
  function RiderPositions(ts: seq<string>): seq<nat> {
    Where(RiderFlags(ts))
  }

  /** The record the table should hold for the rider text at position `i`:
    * the last team named before it (missing if there is none) and the
    * rider's own number and name. */
  function ExpectedStarter(ts: seq<string>, i: nat): (r: Row)
    requires AllClassifiable(ts) && i < |ts| && !IsTeamText(ts[i])
    ensures |r| == 3
  {
    var team := LastWhere(TeamFlags(ts[..i]));
    var pieces := Split(ts[i], "\n ");
    [ if team.Some? then Some(ts[team.value]) else None,
      Some(Strip(pieces[0])),
      Some(Strip(pieces[1])) ]
  }

  /** Before position `i`, the most recent team cell is the last team text. */
  lemma LatestTeam(ts: seq<string>, i: nat)
    requires AllClassifiable(ts) && i <= |ts|
    ensures var k := LastWhere(TeamFlags(ts[..i]));
      Latest(Column(StarterRecords(ts), TeamCol)[..i]) == if k.Some? then Some(ts[k.value]) else None
  {
    var col := Column(StarterRecords(ts), TeamCol)[..i];
    LatestIsLastPresent(col);
    assert PresentFlags(col) == TeamFlags(ts[..i]);
  }

  /** At a rider text, the filled record is the expected one. */
  lemma FilledAtRider(ts: seq<string>, i: nat)
    requires AllClassifiable(ts) && i < |ts| && !IsTeamText(ts[i])
    ensures FillForward(StarterRecords(ts), TeamCol)[i] == ExpectedStarter(ts, i)
  {
    var recs := StarterRecords(ts);
    var f := FillForward(recs, TeamCol);
    assert f[i][TeamCol] == ExpectedStarter(ts, i)[TeamCol] by {
      FillForwardAt(recs, TeamCol, i);
      LatestSkipsMissing(Column(recs, TeamCol), i);
      LatestTeam(ts, i);
    }
  }

  /** The starters table of this version has one record per rider text, in
    * order, carrying the last team named before it; team texts give no
    * record of their own. */
  lemma StartersFollowRiders(ts: seq<string>)
    requires AllClassifiable(ts)
    ensures |Starters(ts)| == |RiderPositions(ts)|
    ensures forall j :: 0 <= j < |Starters(ts)| ==>
              Starters(ts)[j] == ExpectedStarter(ts, RiderPositions(ts)[j])
  {
    var f := FillForward(StarterRecords(ts), TeamCol);
    assert PresentFlags(Column(f, RiderNumCol)) == RiderFlags(ts);
    forall j | 0 <= j < |Starters(ts)|
      ensures Starters(ts)[j] == ExpectedStarter(ts, RiderPositions(ts)[j])
    {
      FilledAtRider(ts, RiderPositions(ts)[j]);
    }
  }

  /** How the two heuristics compare on one text: a team of the other
    * version is a team here and a rider here is a rider there, with the same
    * number and name; the texts they disagree on begin with a lower-case
    * letter, which this version takes for a team. */
  lemma ClassificationsCompared(t: string)
    ensures S.KindOf(t) == S.TeamRow ==> IsTeamText(t)
    ensures !IsTeamText(t) ==> S.KindOf(t) == S.RiderRow
    ensures IsTeamText(t) && S.KindOf(t) != S.TeamRow ==> IsLower(t[0])
    ensures Classifiable(t) && !IsTeamText(t) ==>
              && S.Classifiable(t)
              && S.StarterRecord(t)[S.RiderNumCol] == StarterRecord(t)[RiderNumCol]
              && S.StarterRecord(t)[S.RiderNameCol] == StarterRecord(t)[RiderNameCol]
  {
    if !IsTeamText(t) {
      assert S.KindOf(t) == S.RiderRow;
      if Classifiable(t) {
        var pieces := Split(t, "\n ");
        assert S.StarterRecord(t) == [None, Some(Strip(pieces[0])), Some(Strip(pieces[1])), None];
        assert StarterRecord(t) == [None, Some(Strip(pieces[0])), Some(Strip(pieces[1]))];
      }
    }
  }

  // =====================================================================
  // jersey wearers

  /** The fixed header of this version. */
  const JerseyHeader: seq<string> :=
    ["stage_num", "yellow_jersey", "green_jersey", "polka_dot_jersey", "white_jersey"]

  /** A jersey row after the three rewrites: newlines stripped from both
    * ends, every run of two or more whitespace characters turned into a
    * comma, and one trailing comma dropped. */
  function JerseyText(text: string): (s: string)
    ensures s == S.JerseyText(text) || s + "," == S.JerseyText(text)
  {
    DropTrailingComma(S.JerseyText(text))
  }

  /** No run of two whitespace characters is left in a jersey row. */
  lemma JerseyTextRunFree(text: string)
    ensures NoSpaceRun(JerseyText(text), 2)
  {
    S.JerseyTextRunFree(text);
    assert JerseyText(text) == S.JerseyText(text)[..|JerseyText(text)|];
    NoSpaceRunPrefix(S.JerseyText(text), |JerseyText(text)|, 2);
  }

  /** The fields of a jersey row: the rewritten text cut at the commas. */
  function JerseyCells(text: string): seq<string> {
    Split(JerseyText(text), ",")
  }

  /** A jersey row of this version whose text, once its outer newlines are
    * stripped, is a list of fields separated by runs of two or more
    * whitespace characters is cut into exactly those fields, provided no
    * field holds a comma. */
  lemma JerseyCellsOfFields(text: string, fields: seq<string>, runs: seq<string>)
    requires |fields| == |runs| + 1
    requires StripChars(text, {'\n'}) == Interleave(fields, runs)
    requires forall i :: 0 <= i < |fields| ==> IsField(fields[i], 2) && ',' !in fields[i]
    requires forall i :: 0 <= i < |runs| ==> IsRun(runs[i], 2)
    ensures JerseyCells(text) == fields
  {
    var joined := Join(fields, ",");
    CollapseInterleave(fields, runs, 2);
    assert S.JerseyText(text) == joined;
    JoinEndsWith(fields, ",");
    var last := fields[|fields| - 1];
    assert IsField(last, 2) && ',' !in last;
    assert joined[|joined| - 1] == last[|last| - 1] != ',';
    assert JerseyText(text) == joined;
    SplitJoin(fields, ',');
  }

  /** The rows of the jersey table: every row but the first, each cut into
    * its fields. */
  function JerseyRows(texts: seq<string>): (rows: seq<seq<string>>)
    requires |texts| >= 1
    ensures |rows| == |texts| - 1
    ensures forall i :: 0 <= i < |rows| ==> rows[i] == JerseyCells(texts[1..][i])
  {
    var body := texts[1..];
    seq(|body|, i requires 0 <= i < |body| => JerseyCells(body[i]))
  }

  /** The jersey wearers scraper of this version for one page's row texts. */
  method ScrapeJerseyWearers(texts: seq<string>) returns (header: seq<string>, rows: seq<seq<string>>)
    requires |texts| >= 1
    ensures header == JerseyHeader
    ensures rows == JerseyRows(texts)
  {
    var jerseyList: seq<string> := [];
    for i := 0 to |texts|
      invariant |jerseyList| == i
      invariant forall k :: 0 <= k < i ==> jerseyList[k] == JerseyText(texts[k])
    {
      var newRow := StripChars(texts[i], {'\n'});
      newRow := CollapseSpaceRuns(newRow, 2);
      newRow := DropTrailingComma(newRow);
      jerseyList := jerseyList + [newRow];
    }
    var split := seq(|jerseyList|, i requires 0 <= i < |jerseyList| => Split(jerseyList[i], ","));
    rows := split[1..];
    forall i | 0 <= i < |rows| ensures rows[i] == JerseyRows(texts)[i] {
      assert rows[i] == Split(jerseyList[i + 1], ",");
      assert texts[1..][i] == texts[i + 1];
    }
    header := JerseyHeader;
  }

  /** The two versions cut a jersey row into the same fields, except that
    * the other version keeps an empty last field where the rewritten text
    * ends in a comma. */
  lemma JerseyVersionsCompared(text: string)
    ensures var t := S.JerseyText(text);
      S.JerseyCells(text) ==
        JerseyCells(text) + (if t != [] && t[|t| - 1] == ',' then [""] else [])
  {
    var t := S.JerseyText(text);
    if t != [] && t[|t| - 1] == ',' {
      assert t == JerseyText(text) + [','];
      SplitAppendSeparator(JerseyText(text), ',');
    }
  }

  // =====================================================================
  // rankings

  /** This version's copy of the ranking table: the number of cells a row
    * must have for a code, `-1` for a code it has no header for. */
  function NumColumns(code: string): (n: int)
    ensures n == -1 || 4 <= n <= 8
  {
    if code == "itg" || code == "ite" then 8
    else if code == "ipg" then 7
    else if code == "img" then 5
    else if code == "ijg" then 6
    else if code == "ete" || code == "etg" then 4
    else -1
  }

  /** This version's column names for a code, one per cell of a kept row. */
  function RankingHeader(code: string): (h: seq<string>)
    requires NumColumns(code) != -1
    ensures |h| == NumColumns(code)
  {
    if code == "itg" || code == "ite" then ["rank", "rider", "rider_no", "team", "times", "gap", "b", "p"]
    else if code == "ipg" then ["rank", "rider", "rider_no", "team", "points", "b", "p"]
    else if code == "img" then ["rank", "rider", "rider_no", "team", "points"]
    else if code == "ijg" then ["rank", "rider", "rider_no", "team", "times", "gap"]
    else ["rank", "team", "times", "gap"]
  }

  /** The two versions' ranking tables agree on every code, so the ranking
    * loops of both files keep the same rows under the same header. */
  lemma RankingTablesAgree(code: string)
    ensures NumColumns(code) == S.NumColumns(code)
    ensures NumColumns(code) != -1 ==> RankingHeader(code) == S.RankingHeader(code)
  {
  }

  /** The loop over the ranking categories of this version, which are the
    * same seven: each category's table is built by the stage loop of the
    * other version under this version's header, which is the same. */
  method ScrapeAllRankings(pages: seq<seq<seq<seq<string>>>>, numOfStages: nat)
      returns (headers: seq<seq<string>>, tables: seq<seq<S.RankingRow>>)
    requires |pages| == |S.RankingCategories|
    requires forall c :: 0 <= c < |pages| ==> |pages[c]| == numOfStages
    ensures |headers| == |tables| == |S.RankingCategories|
    ensures forall c :: 0 <= c < |tables| ==>
              var code := S.RankingCategories[c].1;
              NumColumns(code) != -1 &&
              headers[c] == (if numOfStages == 0 then [] else ["stage_num"] + RankingHeader(code)) &&
              tables[c] == S.Rankings(pages[c], NumColumns(code))
  {
    S.CategoriesHaveHeaders();
    headers := [];
    tables := [];
    for c := 0 to |S.RankingCategories|
      invariant |headers| == |tables| == c
      invariant forall d :: 0 <= d < c ==>
                  var code := S.RankingCategories[d].1;
                  NumColumns(code) != -1 &&
                  headers[d] == (if numOfStages == 0 then [] else ["stage_num"] + RankingHeader(code)) &&
                  tables[d] == S.Rankings(pages[d], NumColumns(code))
    {
      var code := S.RankingCategories[c].1;
      RankingTablesAgree(code);
      var header, table := S.ScrapeRankings(code, pages[c]);
      headers := headers + [header];
      tables := tables + [table];
    }
  }
}
