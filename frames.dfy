/** A pandas DataFrame reduced to what the scraper relies on: rows of cells
  * addressed by column position, each cell a string or missing (pandas'
  * `None`/`NaN`). Only the order of rows and columns and the fill and filter
  * rules are modelled; dtypes and index labels are not. */
module Frames {

  datatype Option<T> = None | Some(value: T)

  type Row = seq<Option<string>>

  /** Every row has a cell in column `c`. */
  predicate HasColumn(t: seq<Row>, c: nat) {
    forall i :: 0 <= i < |t| ==> c < |t[i]|
  }

  /** Column `c` of the rows, top to bottom. */
  function Column(t: seq<Row>, c: nat): (col: seq<Option<string>>)
    requires HasColumn(t, c)
    ensures |col| == |t| && forall i :: 0 <= i < |t| ==> col[i] == t[i][c]
  {
    seq(|t|, i requires 0 <= i < |t| && c < |t[i]| => t[i][c])
  }

  function PresentFlags(col: seq<Option<string>>): (flags: seq<bool>)
    ensures |flags| == |col| && forall i :: 0 <= i < |col| ==> flags[i] == col[i].Some?
  {
    seq(|col|, i requires 0 <= i < |col| => col[i].Some?)
  }

  // ---------------------------------------------------------------------
  // boolean indexing

  /** The positions where `flags` holds, in increasing order: the row labels
    * that survive `df[mask]`. */
  function Where(flags: seq<bool>): (idx: seq<nat>)
    ensures forall j :: 0 <= j < |idx| ==> idx[j] < |flags| && flags[idx[j]]
    ensures forall j, j' :: 0 <= j < j' < |idx| ==> idx[j] < idx[j']
    ensures forall i :: 0 <= i < |flags| && flags[i] ==> i in idx
  {
    if flags == [] then []
    else Where(flags[..|flags| - 1]) + (if flags[|flags| - 1] then [|flags| - 1] else [])
  }

  /** `df[df[c].isnull() == False]`: the rows whose cell in column `c` is
    * present, in their original order. */
  function KeepPresent(t: seq<Row>, c: nat): (r: seq<Row>)
    requires HasColumn(t, c)
    ensures HasColumn(r, c)
    ensures forall j :: 0 <= j < |r| ==> r[j][c].Some?
    ensures var idx := Where(PresentFlags(Column(t, c)));
      |r| == |idx| && forall j :: 0 <= j < |r| ==> r[j] == t[idx[j]]
  {
    var idx := Where(PresentFlags(Column(t, c)));
    seq(|idx|, j requires 0 <= j < |idx| => t[idx[j]])
  }

  // ---------------------------------------------------------------------
  // forward fill

  /** The most recent present value of a column, or missing if there is none. */
  function Latest(col: seq<Option<string>>): Option<string> {
    if col == [] then None
    else if col[|col| - 1].Some? then col[|col| - 1]
    else Latest(col[..|col| - 1])
  }

  /** The last position where `flags` holds, if any. */
  function LastWhere(flags: seq<bool>): (k: Option<nat>)
    ensures k.None? <==> forall i :: 0 <= i < |flags| ==> !flags[i]
    ensures k.Some? ==> k.value < |flags| && flags[k.value]
    ensures k.Some? ==> forall i :: k.value < i < |flags| ==> !flags[i]
  {
    if flags == [] then None
    else if flags[|flags| - 1] then Some(|flags| - 1)
    else LastWhere(flags[..|flags| - 1])
  }

  /** The most recent present value is the value at the last present position. */
  lemma {:induction false} LatestIsLastPresent(col: seq<Option<string>>)
    ensures LastWhere(PresentFlags(col)).None? ==> Latest(col).None?
    ensures LastWhere(PresentFlags(col)).Some? ==>
              Latest(col) == col[LastWhere(PresentFlags(col)).value]
  {
    if col != [] {
      var init := col[..|col| - 1];
      assert PresentFlags(col)[..|col| - 1] == PresentFlags(init);
      LatestIsLastPresent(init);
    }
  }

  /** A cell that is missing in row `i` takes the most recent present value
    * above it. */
  lemma LatestSkipsMissing(col: seq<Option<string>>, i: nat)
    requires i < |col| && col[i].None?
    ensures Latest(col[..i + 1]) == Latest(col[..i])
  {
    assert col[..i + 1][..i] == col[..i];
  }

  lemma {:induction false} LatestAppend(a: seq<Option<string>>, b: seq<Option<string>>)
    ensures Latest(a + b) == if Latest(b).Some? then Latest(b) else Latest(a)
    decreases |b|
  {
    if b != [] {
      assert (a + b)[..|a + b| - 1] == a + b[..|b| - 1];
      LatestAppend(a, b[..|b| - 1]);
    } else {
      assert a + b == a;
    }
  }

  /** The most recent value of a column that starts with `c0`. */
  lemma LatestCons(c0: Option<string>, x: seq<Option<string>>)
    ensures Latest([c0]) == c0
    ensures Latest([c0] + x) == if Latest(x).Some? then Latest(x) else c0
  {
    assert [c0][..0] == [];
    LatestAppend([c0], x);
  }

  /** The scan behind `FillForward`, with the value carried from the rows
    * above. */
  function FillForwardFrom(t: seq<Row>, c: nat, carry: Option<string>): (r: seq<Row>)
    requires HasColumn(t, c)
    ensures |r| == |t| && HasColumn(r, c)
    decreases |t|
  {
    if t == [] then []
    else
      var v := if t[0][c].Some? then t[0][c] else carry;
      [t[0][c := v]] + FillForwardFrom(t[1..], c, v)
  }

  /** `df[c].fillna(method='ffill')`: a scan from the top that carries the last
    * present value of column `c` down into missing cells. The other columns
    * are untouched. */
  function FillForward(t: seq<Row>, c: nat): (r: seq<Row>)
    requires HasColumn(t, c)
    ensures |r| == |t| && HasColumn(r, c)
    ensures forall i :: 0 <= i < |t| ==> |r[i]| == |t[i]|
    ensures forall i, d :: 0 <= i < |t| && 0 <= d < |t[i]| && d != c ==> r[i][d] == t[i][d]
  {
    FillForwardFromShape(t, c, None);
    FillForwardFrom(t, c, None)
  }

  /** The scan keeps every row's length and every cell outside column `c`. */
  lemma {:induction false} FillForwardFromShape(t: seq<Row>, c: nat, carry: Option<string>)
    requires HasColumn(t, c)
    ensures forall i :: 0 <= i < |t| ==> |FillForwardFrom(t, c, carry)[i]| == |t[i]|
    ensures forall i, d :: 0 <= i < |t| && 0 <= d < |t[i]| && d != c ==>
              FillForwardFrom(t, c, carry)[i][d] == t[i][d]
    decreases |t|
  {
    if t != [] {
      var v := if t[0][c].Some? then t[0][c] else carry;
      FillForwardFromShape(t[1..], c, v);
      var r := FillForwardFrom(t, c, carry);
      assert r == [t[0][c := v]] + FillForwardFrom(t[1..], c, v);
      forall i | 1 <= i < |t| ensures |r[i]| == |t[i]| && forall d :: 0 <= d < |t[i]| && d != c ==> r[i][d] == t[i][d] {
        assert r[i] == FillForwardFrom(t[1..], c, v)[i - 1];
        assert t[1..][i - 1] == t[i];
      }
    }
  }

  /** One step of the scan: the first row takes the carried value when its
    * cell is missing, and the rest is scanned with the new carry. */
  lemma FillForwardFromStep(t: seq<Row>, c: nat, carry: Option<string>, i: nat)
    requires HasColumn(t, c) && i < |t|
    ensures var v := if t[0][c].Some? then t[0][c] else carry;
            if i == 0 then FillForwardFrom(t, c, carry)[i][c] == v
            else FillForwardFrom(t, c, carry)[i][c] == FillForwardFrom(t[1..], c, v)[i - 1][c]
  {
  }

  lemma ColumnTail(t: seq<Row>, c: nat, i: nat)
    requires HasColumn(t, c) && i < |t|
    ensures HasColumn(t[1..], c)
    ensures Column(t[1..], c)[..i] == Column(t, c)[1..i + 1]
  {
    var tail := t[1..];
    forall m | 0 <= m < i ensures Column(tail, c)[m] == Column(t, c)[m + 1] {
      assert tail[m] == t[m + 1];
    }
  }

  /** Row `i` of the scan holds the most recent present value of rows
    * `0..i`, or the carried value when there is none. */
  lemma {:induction false} FillForwardFromAt(t: seq<Row>, c: nat, carry: Option<string>, i: nat)
    requires HasColumn(t, c) && i < |t|
    ensures FillForwardFrom(t, c, carry)[i][c] ==
              if Latest(Column(t, c)[..i + 1]).Some? then Latest(Column(t, c)[..i + 1]) else carry
    decreases i
  {
    var col := Column(t, c);
    FillForwardFromStep(t, c, carry, i);
    if i == 0 {
      assert col[..1] == [col[0]];
      LatestCons(col[0], []);
    } else {
      var x := col[1..i + 1];
      FillForwardFromAt(t[1..], c, if col[0].Some? then col[0] else carry, i - 1);
      ColumnTail(t, c, i);
      assert col[..i + 1] == [col[0]] + x;
      LatestCons(col[0], x);
    }
  }

  /** After a forward fill, the cell of column `c` in row `i` is the most
    * recent present value among rows `0..i` (missing if there is none), and
    * every other column is unchanged. */
  lemma FillForwardAt(t: seq<Row>, c: nat, i: nat)
    requires HasColumn(t, c) && i < |t|
    ensures FillForward(t, c)[i][c] == Latest(Column(t, c)[..i + 1])
  {
    FillForwardFromAt(t, c, None, i);
  }

  // ---------------------------------------------------------------------
  // frames with a column count

  function Min(a: int, b: int): int {
    if a <= b then a else b
  }

  /** A DataFrame with `width` positional columns. */
  datatype Frame = Frame(width: nat, rows: seq<Row>)

  predicate Rectangular(f: Frame) {
    forall i :: 0 <= i < |f.rows| ==> |f.rows[i]| == f.width
  }

  function MaxLength(ls: seq<seq<string>>): (m: nat)
    ensures forall i :: 0 <= i < |ls| ==> |ls[i]| <= m
    ensures ls == [] ==> m == 0
    ensures ls != [] ==> exists i :: 0 <= i < |ls| && |ls[i]| == m
  {
    if ls == [] then 0
    else
      var m := MaxLength(ls[..|ls| - 1]);
      if |ls[|ls| - 1]| > m then |ls[|ls| - 1]| else m
  }

  function Padded(l: seq<string>, width: nat): (r: Row)
    requires |l| <= width
  {
    seq(width, c requires 0 <= c < width => if c < |l| then Some(l[c]) else None)
  }

  /** `pd.DataFrame(lists)`: one row per list and as many columns as the
    * longest list; shorter lists are padded with missing cells. */
  function FromLists(ls: seq<seq<string>>): (f: Frame)
    ensures Rectangular(f) && |f.rows| == |ls| && f.width == MaxLength(ls)
    ensures forall i, c :: 0 <= i < |ls| && 0 <= c < f.width ==>
              f.rows[i][c] == if c < |ls[i]| then Some(ls[i][c]) else None
  {
    var w := MaxLength(ls);
    Frame(w, seq(|ls|, i requires 0 <= i < |ls| => Padded(ls[i], w)))
  }

  /** The first `w` columns of `f`. */
  function TakeColumns(f: Frame, w: nat): (g: Frame)
    requires Rectangular(f) && w <= f.width
    ensures Rectangular(g) && g.width == w && |g.rows| == |f.rows|
  {
    Frame(w, seq(|f.rows|, i requires 0 <= i < |f.rows| => f.rows[i][..w]))
  }

  /** `df.drop(df.columns[len(df.columns) - 1], axis=1)`. */
  function DropLastColumn(f: Frame): (g: Frame)
    requires Rectangular(f) && f.width > 0
    ensures Rectangular(g) && g.width == f.width - 1 && |g.rows| == |f.rows|
    ensures forall i :: 0 <= i < |f.rows| ==> g.rows[i] == f.rows[i][..g.width]
  {
    Frame(f.width - 1, seq(|f.rows|, i requires 0 <= i < |f.rows| => f.rows[i][..f.width - 1]))
  }

  /** `df.replace('', np.nan)`: empty strings become missing. */
  function BlankToMissing(f: Frame): (g: Frame)
    requires Rectangular(f)
    ensures Rectangular(g) && g.width == f.width && |g.rows| == |f.rows|
    ensures forall i, c :: 0 <= i < |g.rows| && 0 <= c < g.width ==> g.rows[i][c] != Some("")
    ensures forall i, c :: 0 <= i < |g.rows| && 0 <= c < g.width && f.rows[i][c] != Some("") ==>
              g.rows[i][c] == f.rows[i][c]
  {
    Frame(f.width, seq(|f.rows|, i requires 0 <= i < |f.rows| =>
      seq(f.width, c requires 0 <= c < f.width =>
        if f.rows[i][c] == Some("") then None else f.rows[i][c])))
  }

  predicate ColumnHasValue(f: Frame, c: nat)
    requires Rectangular(f) && c < f.width
  {
    exists i :: 0 <= i < |f.rows| && f.rows[i][c].Some?
  }

  /** The columns of `f` that hold at least one present cell, in order. */
  function ValuedColumns(f: Frame): (kept: seq<nat>)
    requires Rectangular(f)
    ensures forall k :: 0 <= k < |kept| ==> kept[k] < f.width && ColumnHasValue(f, kept[k])
    ensures forall k, k' :: 0 <= k < k' < |kept| ==> kept[k] < kept[k']
    ensures forall c :: 0 <= c < f.width && ColumnHasValue(f, c) ==> c in kept
  {
    var flags := seq(f.width, c requires 0 <= c < f.width => ColumnHasValue(f, c));
    Where(flags)
  }

  /** `df.dropna(axis=1, how='all')`: the columns whose cells are all missing
    * are removed; the other columns keep their order. */
  function DropMissingColumns(f: Frame): (g: Frame)
    requires Rectangular(f)
    ensures Rectangular(g) && g.width <= f.width && |g.rows| == |f.rows|
    ensures g.width == |ValuedColumns(f)|
    ensures forall i, k :: 0 <= i < |g.rows| && 0 <= k < g.width ==>
              g.rows[i][k] == f.rows[i][ValuedColumns(f)[k]]
  {
    var kept := ValuedColumns(f);
    WhereWithin(seq(f.width, c requires 0 <= c < f.width => ColumnHasValue(f, c)));
    Frame(|kept|, seq(|f.rows|, i requires 0 <= i < |f.rows| =>
      seq(|kept|, k requires 0 <= k < |kept| => f.rows[i][kept[k]])))
  }

  /** There are no more positions than flags. */
  lemma {:induction false} WhereWithin(flags: seq<bool>)
    ensures |Where(flags)| <= |flags|
  {
    if flags != [] {
      WhereWithin(flags[..|flags| - 1]);
    }
  }

  /** Every column left by `DropMissingColumns` holds a present cell. */
  lemma NoMissingColumnLeft(f: Frame, k: nat)
    requires Rectangular(f)
    requires k < DropMissingColumns(f).width
    ensures ColumnHasValue(DropMissingColumns(f), k)
  {
    var g := DropMissingColumns(f);
    var c := ValuedColumns(f)[k];
    var i :| 0 <= i < |f.rows| && f.rows[i][c].Some?;
    assert g.rows[i][k] == f.rows[i][c];
  }
}
