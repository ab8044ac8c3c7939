/**
 The data-shaping half of the `update_map` callback: from the loaded rows, the
 slider window, the selected dimension, the selected category and the
 cardinal/ratio switch, it computes the table the map is drawn from, the
 options of the category dropdown, the metric column the map is coloured by
 and the hover columns.
 */
module MapUpdate {
  import opened Wrappers
  import opened Ordering
  import opened Sequences
  import opened Events
  import opened TimeFrame
  import opened Pivot

  /** The radio switch: raw counts or percentages of the state's total. */
  datatype Mode = Cardinal | Ratio

  /** The age dimension shows the rows themselves; every other one the per-state pivot. */
  datatype Table = Rows(events: seq<Event>) | PerState(rows: seq<StateRow>)

  datatype MapData = MapData(table: Table, options: seq<string>, metric: string, hover: seq<string>)

  const TotalColumn: string := "Total"

  /** `fillna(0)` on a row: a missing age becomes 0, everything else is kept. */
  function FillAge(e: Event): (r: Event)
    ensures r.key == e.key
    ensures r.age.Some?
    ensures e.age.Some? ==> r.age == e.age
    ensures e.age.None? ==> r.age == Some(0.0)
  {
    e.(age := Some(e.age.GetOr(0.0)))
  }

  /** The options of the category dropdown: the categories, then `Total`. */
  function SubOptions(w: seq<Event>, c: Column): (options: seq<string>)
    requires c != Age
    ensures |options| >= 1 && options[|options| - 1] == TotalColumn
    ensures options[..|options| - 1] == Categories(w, c)
  {
    Categories(w, c) + [TotalColumn]
  }

  /**
   The metric column before the ratio switch: the selected category when it is
   not `Total` and is one of the options, `Total` otherwise.
   */
  function SelectMetric(options: seq<string>, sub: string): (m: string)
    ensures m == sub || m == TotalColumn
    ensures m != TotalColumn <==> sub != TotalColumn && sub in options
  {
    if sub != TotalColumn && sub in options then sub else TotalColumn
  }

  /** The hover columns of the ratio table: `<category>%` for each category. */
  function PercentNames(cats: seq<string>): (names: seq<string>)
    ensures |names| == |cats|
    ensures forall i :: 0 <= i < |cats| ==> names[i] == cats[i] + "%"
  {
    seq(|cats|, i requires 0 <= i < |cats| => cats[i] + "%")
  }

  /** The age dimension: the windowed rows themselves, ages filled in with 0, coloured by `age`, with no options. */
  function AgeView(w: seq<Event>): (r: MapData)
    ensures r.table.Rows? && r.options == [] && r.metric == "age" && r.hover == ["age"]
    ensures |r.table.events| == |w|
    ensures forall i :: 0 <= i < |w| ==> r.table.events[i] == FillAge(w[i])
  {
    MapData(Rows(seq(|w|, i requires 0 <= i < |w| => FillAge(w[i]))), [], "age", ["age"])
  }

  /**
   A row of the per-state table of `w` in dimension `c`: the counts of its
   state and their `Total`, at least 1, and, when `ratio` holds, the
   percentage of each category in its `Total`; with no percentages otherwise.
   */
  ghost predicate IsMapRow(row: StateRow, w: seq<Event>, c: Column, ratio: bool)
    requires c != Age
  {
    && IsCountRow(row.(percents := map[]), w, c, Categories(w, c))
    && row.total >= 1
    && (forall v :: v in row.percents <==> ratio && v in Categories(w, c))
    && (forall v :: v in row.percents && v in row.counts ==> row.percents[v] == Percent(row.counts[v], row.total))
  }

  lemma CountRowsAreMapRows(w: seq<Event>, c: Column, rows: seq<StateRow>)
    requires c != Age
    requires forall i :: 0 <= i < |rows| ==> IsCountRow(rows[i], w, c, Categories(w, c)) && rows[i].total >= 1
    ensures forall i :: 0 <= i < |rows| ==> IsMapRow(rows[i], w, c, false)
  {
  }

  /** The ratio row of a count row: its counts and total, and the percentage of every category. */
  function RatioRow(w: seq<Event>, c: Column, row: StateRow): (out: StateRow)
    requires c != Age
    requires IsCountRow(row, w, c, Categories(w, c)) && row.total >= 1
    ensures out.state == row.state
    ensures IsMapRow(out, w, c, true)
  {
    var cats := Categories(w, c);
    var out := WithRatios(row, cats);
    assert out.(percents := map[]) == row;
    out
  }

  /** The ratio columns added to every row of a count table. */
  function RatioTable(w: seq<Event>, c: Column, counts: seq<StateRow>): (rows: seq<StateRow>)
    requires c != Age
    requires forall i :: 0 <= i < |counts| ==> IsCountRow(counts[i], w, c, Categories(w, c)) && counts[i].total >= 1
    ensures TableStates(rows) == TableStates(counts)
    ensures forall i :: 0 <= i < |rows| ==> IsMapRow(rows[i], w, c, true)
  {
    seq(|counts|, i requires 0 <= i < |counts| => RatioRow(w, c, counts[i]))
  }

  /**
   Any other dimension: the per-state counts of the window, one row per
   state in sorted order, with ratio columns in ratio mode when a category
   is selected.
   */
  function CategoryView(w: seq<Event>, c: Column, sub: string, mode: Mode): (r: MapData)
    requires c != Age
    ensures r.table.PerState? && r.options == SubOptions(w, c)
    ensures StrictlySorted(TableStates(r.table.rows), StrLess)
    ensures forall st :: st in TableStates(r.table.rows) <==> st in States(w)
    ensures sub != TotalColumn && sub in r.options ==> r.metric == if mode == Ratio then sub + "%" else sub
    ensures !(sub != TotalColumn && sub in r.options) ==> r.metric == TotalColumn
    // every row: its counts and total, and percentages only in ratio mode with a category selected
    ensures forall i :: 0 <= i < |r.table.rows| ==>
      IsMapRow(r.table.rows[i], w, c, mode == Ratio && sub != TotalColumn && sub in r.options)
  {
    var cats := Categories(w, c);
    var options := SubOptions(w, c);
    var metric := SelectMetric(options, sub);
    var counts := CountTable(w, c);
    if mode == Ratio && metric != TotalColumn then
      var rows := RatioTable(w, c, counts);
      MapData(PerState(rows), options, sub + "%", PercentNames(cats))
    else
      CountRowsAreMapRows(w, c, counts);
      MapData(PerState(counts), options, metric, options)
  }

  /** `update_map` up to the figure: window the rows, then show them by age or per state. */
  function UpdateMap(data: seq<Event>, startMs: int, endMs: int, selector: Column, sub: string, mode: Mode): (r: MapData)
    ensures r.table.Rows? <==> selector == Age
    ensures r.options == [] <==> selector == Age
    // the age dimension: the rows of the window, unaggregated, with missing ages filled in with 0
    ensures selector == Age ==>
      var w := GetTimeFrame(data, startMs, endMs);
      && r.metric == "age"
      && |r.table.events| == |w|
      && (forall i :: 0 <= i < |w| ==> r.table.events[i].key == w[i].key && r.table.events[i].age == Some(w[i].age.GetOr(0.0)))
  {
    var w := GetTimeFrame(data, startMs, endMs);
    if selector == Age then AgeView(w) else CategoryView(w, selector, sub, mode)
  }

  // ---------------------------------------------------------------------------
  // Properties of the whole callback

  /**
   The category dropdown offers each value of the window once, in order of
   first appearance, then `Total`; the age dimension offers nothing.
   */
  lemma OptionsAreWindowValues(data: seq<Event>, startMs: int, endMs: int, selector: Column, sub: string, mode: Mode)
    ensures var r := UpdateMap(data, startMs, endMs, selector, sub, mode);
      selector == Age ==> r.options == []
    ensures selector != Age ==>
      var w := GetTimeFrame(data, startMs, endMs);
      var o := UpdateMap(data, startMs, endMs, selector, sub, mode).options;
      var vals := Values(w, selector);
      && |o| >= 1 && o[|o| - 1] == TotalColumn
      && (forall x :: x in o[..|o| - 1] <==> x in vals)
      && NoDuplicates(o[..|o| - 1])
      && (forall i, j :: 0 <= i < j < |o| - 1 ==> FirstIndex(vals, o[i]) < FirstIndex(vals, o[j]))
  {
  }

  /**
   In the age view no age is missing any more: every known age of the window
   is kept, every missing one is 0, and filling again changes nothing.
   */
  lemma AgesFilled(data: seq<Event>, startMs: int, endMs: int, sub: string, mode: Mode)
    ensures var r := UpdateMap(data, startMs, endMs, Age, sub, mode);
      var w := GetTimeFrame(data, startMs, endMs);
      && |r.table.events| == |w|
      && (forall i :: 0 <= i < |w| ==> r.table.events[i].age.Some?)
      && (forall i :: 0 <= i < |w| && w[i].age.Some? ==> r.table.events[i].age == w[i].age)
      && (forall i :: 0 <= i < |w| && w[i].age.None? ==> r.table.events[i].age == Some(0.0))
      && (forall i :: 0 <= i < |w| ==> FillAge(r.table.events[i]) == r.table.events[i])
  {
  }

  /**
   The map is coloured by the selected category exactly when it is not
   `Total` and occurs in the window (as a percentage in ratio mode), by
   `Total` otherwise, and by `age` for the age dimension.
   */
  lemma MetricFallsBack(data: seq<Event>, startMs: int, endMs: int, selector: Column, sub: string, mode: Mode)
    ensures var r := UpdateMap(data, startMs, endMs, selector, sub, mode);
      var w := GetTimeFrame(data, startMs, endMs);
      && (selector == Age ==> r.metric == "age")
      && (selector != Age && sub != TotalColumn && sub in Values(w, selector) ==>
            r.metric == if mode == Ratio then sub + "%" else sub)
      && (selector != Age && !(sub != TotalColumn && sub in Values(w, selector)) ==> r.metric == TotalColumn)
  {
  }

  /** The pivoted table has exactly one row per state of the window, in sorted order. */
  lemma PivotRowPerState(data: seq<Event>, startMs: int, endMs: int, selector: Column, sub: string, mode: Mode)
    requires selector != Age
    ensures var w := GetTimeFrame(data, startMs, endMs);
      var rows := UpdateMap(data, startMs, endMs, selector, sub, mode).table.rows;
      && (forall st :: st in TableStates(rows) <==> st in States(w))
      && (forall i, j :: 0 <= i < j < |rows| ==> StrLess(rows[i].state, rows[j].state))
      && (forall i, j :: 0 <= i < j < |rows| ==> rows[i].state != rows[j].state)
  {
    var rows := UpdateMap(data, startMs, endMs, selector, sub, mode).table.rows;
    StrLessIsStrictTotalOrder();
    SortedDistinct(TableStates(rows), StrLess);
  }

  /**
   The cell of a category in a state's row is the number of the state's rows
   in that category (0 when there are none), and the `Total` adds the cells
   up to the state's row count, so it is at least 1.
   */
  lemma PivotCellsAreCounts(data: seq<Event>, startMs: int, endMs: int, selector: Column, sub: string, mode: Mode)
    requires selector != Age
    ensures var w := GetTimeFrame(data, startMs, endMs);
      var rows := UpdateMap(data, startMs, endMs, selector, sub, mode).table.rows;
      var cats := Categories(w, selector);
      forall i :: 0 <= i < |rows| ==>
        && (forall v :: v in rows[i].counts <==> v in cats)
        && (forall v :: v in cats ==> rows[i].counts[v] == CellCount(w, rows[i].state, selector, v))
        && rows[i].total == RowSum(rows[i].counts, cats)
        && rows[i].total == StateCount(w, rows[i].state) >= 1
  {
  }

  /**
   Percentages appear only in ratio mode with a category of the window
   selected; then every state gets one per category, each `count / Total *
   100`, between 0 and 100, and together 100.
   */
  lemma RatiosArePercentages(data: seq<Event>, startMs: int, endMs: int, selector: Column, sub: string, mode: Mode)
    requires selector != Age
    ensures var w := GetTimeFrame(data, startMs, endMs);
      var rows := UpdateMap(data, startMs, endMs, selector, sub, mode).table.rows;
      var cats := Categories(w, selector);
      var ratio := mode == Ratio && sub != TotalColumn && sub in cats;
      forall i :: 0 <= i < |rows| ==>
        && (!ratio ==> rows[i].percents == map[])
        && (ratio ==> forall v :: v in rows[i].percents <==> v in cats)
        && (forall v :: v in rows[i].percents ==>
              && rows[i].percents[v] == Percent(rows[i].counts[v], rows[i].total)
              && 0.0 <= rows[i].percents[v] <= 100.0)
        && (ratio ==> PercentSum(rows[i].percents, cats) == 100.0)
  {
    var w := GetTimeFrame(data, startMs, endMs);
    var r := UpdateMap(data, startMs, endMs, selector, sub, mode);
    var cats := Categories(w, selector);
    assert sub in r.options <==> sub in cats || sub == TotalColumn;
    forall i | 0 <= i < |r.table.rows|
      ensures var row := r.table.rows[i];
        && (forall v :: v in row.percents ==> 0.0 <= row.percents[v] <= 100.0)
        && (mode == Ratio && sub != TotalColumn && sub in cats ==> PercentSum(row.percents, cats) == 100.0)
    {
      var row := r.table.rows[i];
      assert IsMapRow(row, w, selector, mode == Ratio && sub != TotalColumn && sub in cats);
      PercentagesOfCountRow(w, selector, row);
    }
  }

  lemma PercentagesOfCountRow(w: seq<Event>, c: Column, row: StateRow)
    requires c != Age
    requires IsCountRow(row.(percents := map[]), w, c, Categories(w, c)) && row.total >= 1
    requires forall v :: v in row.percents ==> v in Categories(w, c) && row.percents[v] == Percent(row.counts[v], row.total)
    ensures forall v :: v in row.percents ==> 0.0 <= row.percents[v] <= 100.0
    ensures (forall v :: v in Categories(w, c) ==> v in row.percents) ==> PercentSum(row.percents, Categories(w, c)) == 100.0
  {
    var cats := Categories(w, c);
    forall v | v in row.percents
      ensures 0.0 <= row.percents[v] <= 100.0
    {
      CellAtMostState(w, row.state, c, v);
      PercentBounds(row.counts[v], row.total);
    }
    if forall v :: v in cats ==> v in row.percents {
      PercentSumScales(row.counts, row.percents, row.total, cats);
      TotalIsStateCount(w, row.state, c, row.counts, cats);
      PercentOfWhole(row.total);
    }
  }
}
