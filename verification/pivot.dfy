/**
 The per-state table of `update_map`: rows counted per (state, value), pivoted
 into one row per state with a count per category (0 where a state has no row
 of that category), a `Total`, and in ratio mode a percentage per category.
 */
module Pivot {
  import opened Ordering
  import opened Sequences
  import opened Events

  /**
   One row of the pivoted table: the state, the count of each category, the
   `Total` column and the percentage columns (`<category>%`, empty unless added).
   */
  datatype StateRow = StateRow(state: string, counts: map<string, int>, total: int, percents: map<string, real>)

  function States(w: seq<Event>): (s: seq<string>)
    ensures |s| == |w|
    ensures forall i :: 0 <= i < |w| ==> s[i] == w[i].key.state
  {
    seq(|w|, i requires 0 <= i < |w| => w[i].key.state)
  }

  /** The column of dimension `c`. */
  function Values(w: seq<Event>, c: Column): (s: seq<string>)
    requires c != Age
    ensures |s| == |w|
    ensures forall i :: 0 <= i < |w| ==> s[i] == Value(w[i], c)
  {
    seq(|w|, i requires 0 <= i < |w| => Value(w[i], c))
  }

  /** The categories of dimension `c`: `unique()` of its column. */
  function Categories(w: seq<Event>, c: Column): (cats: seq<string>)
    requires c != Age
    ensures forall v :: v in cats <==> v in Values(w, c)
    ensures NoDuplicates(cats)
    ensures forall i, j :: 0 <= i < j < |cats| ==> FirstIndex(Values(w, c), cats[i]) < FirstIndex(Values(w, c), cats[j])
  {
    Unique(Values(w, c))
  }

  /** Number of rows of state `st`. */
  function StateCount(w: seq<Event>, st: string): nat {
    if |w| == 0 then 0
    else (if w[0].key.state == st then 1 else 0) + StateCount(w[1..], st)
  }

  /** Number of rows of state `st` whose value in dimension `c` is `v`. */
  function CellCount(w: seq<Event>, st: string, c: Column, v: string): nat
    requires c != Age
  {
    if |w| == 0 then 0
    else (if w[0].key.state == st && Value(w[0], c) == v then 1 else 0) + CellCount(w[1..], st, c, v)
  }

  /** Number of rows of state `st` whose value in dimension `c` is one of `vs`. */
  function CountIn(w: seq<Event>, st: string, c: Column, vs: set<string>): nat
    requires c != Age
  {
    if |w| == 0 then 0
    else (if w[0].key.state == st && Value(w[0], c) in vs then 1 else 0) + CountIn(w[1..], st, c, vs)
  }

  /** `sum(axis=1)` of a row: the counts of the categories `vs` added up. */
  function RowSum(counts: map<string, int>, vs: seq<string>): int
    requires forall v :: v in vs ==> v in counts
  {
    if |vs| == 0 then 0 else counts[vs[0]] + RowSum(counts, vs[1..])
  }

  /** The counts of state `st` over the categories `vs`, each present, 0 when the state has none of it. */
  function CountsOf(w: seq<Event>, st: string, c: Column, vs: seq<string>): (counts: map<string, int>)
    requires c != Age
    ensures forall v :: v in counts <==> v in vs
    ensures forall v :: v in counts ==> counts[v] == CellCount(w, st, c, v)
  {
    map v | v in vs :: CellCount(w, st, c, v)
  }

  /** The state column of a table. */
  function TableStates(rows: seq<StateRow>): (s: seq<string>)
    ensures |s| == |rows|
    ensures forall i :: 0 <= i < |rows| ==> s[i] == rows[i].state
  {
    seq(|rows|, i requires 0 <= i < |rows| => rows[i].state)
  }

  /** `row` holds the counts of its state in `w` over the categories `vs`, and their sum. */
  ghost predicate IsCountRow(row: StateRow, w: seq<Event>, c: Column, vs: seq<string>)
    requires c != Age
  {
    && (forall v :: v in row.counts <==> v in vs)
    && (forall v :: v in row.counts ==> row.counts[v] == CellCount(w, row.state, c, v))
    && row.total == StateCount(w, row.state)
    && row.percents == map[]
  }

  /**
   The pivoted table of `w` in dimension `c`: one row per state of `w`, in
   sorted order, each with its counts and its `Total`, which is the number of
   rows of the state.
   */
  function CountTable(w: seq<Event>, c: Column): (rows: seq<StateRow>)
    requires c != Age
    ensures StrictlySorted(TableStates(rows), StrLess)
    ensures forall st :: st in TableStates(rows) <==> st in States(w)
    ensures forall i :: 0 <= i < |rows| ==> IsCountRow(rows[i], w, c, Categories(w, c))
    ensures forall i :: 0 <= i < |rows| ==> rows[i].total >= 1
  {
    StrLessIsStrictTotalOrder();
    var states := SortedSet(States(w), StrLess);
    var vs := Categories(w, c);
    var rows := seq(|states|, i requires 0 <= i < |states| => CountRow(w, states[i], c, vs));
    assert TableStates(rows) == states;
    rows
  }

  /** The row of state `st`, which occurs in `w`. */
  function CountRow(w: seq<Event>, st: string, c: Column, vs: seq<string>): (row: StateRow)
    requires c != Age && st in States(w)
    requires forall v :: v in vs <==> v in Values(w, c)
    requires NoDuplicates(vs)
    ensures row.state == st
    ensures IsCountRow(row, w, c, vs)
    ensures row.total >= 1
  {
    var counts := CountsOf(w, st, c, vs);
    var total := RowSum(counts, vs);
    TotalIsStateCount(w, st, c, counts, vs);
    StateCountPositive(w, st);
    StateRow(st, counts, total, map[])
  }

  // ---------------------------------------------------------------------------
  // Totals

  /** The `Total` of a state's row is the number of its rows. */
  lemma TotalIsStateCount(w: seq<Event>, st: string, c: Column, counts: map<string, int>, vs: seq<string>)
    requires c != Age
    requires forall v :: v in vs <==> v in Values(w, c)
    requires NoDuplicates(vs)
    requires forall v :: v in vs ==> v in counts && counts[v] == CellCount(w, st, c, v)
    ensures RowSum(counts, vs) == StateCount(w, st)
  {
    RowSumCountsIn(w, st, c, counts, vs);
    forall i | 0 <= i < |w|
      ensures Value(w[i], c) in (set v | v in vs)
    {
      assert Values(w, c)[i] == Value(w[i], c);
    }
    CountInAll(w, st, c, set v | v in vs);
  }

  lemma {:induction false} RowSumCountsIn(w: seq<Event>, st: string, c: Column, counts: map<string, int>, vs: seq<string>)
    requires c != Age
    requires NoDuplicates(vs)
    requires forall v :: v in vs ==> v in counts && counts[v] == CellCount(w, st, c, v)
    ensures RowSum(counts, vs) == CountIn(w, st, c, set v | v in vs)
    decreases |vs|
  {
    if |vs| == 0 {
      assert (set v | v in vs) == {};
      CountInNone(w, st, c);
    } else {
      var rest := vs[1..];
      RowSumCountsIn(w, st, c, counts, rest);
      assert (set v | v in vs) == (set v | v in rest) + {vs[0]};
      assert vs[0] !in rest;
      CountInSplit(w, st, c, vs[0], set v | v in rest);
    }
  }

  lemma {:induction false} CountInNone(w: seq<Event>, st: string, c: Column)
    requires c != Age
    ensures CountIn(w, st, c, {}) == 0
    decreases |w|
  {
    if |w| > 0 {
      CountInNone(w[1..], st, c);
    }
  }

  lemma {:induction false} CountInSplit(w: seq<Event>, st: string, c: Column, v: string, vs: set<string>)
    requires c != Age && v !in vs
    ensures CountIn(w, st, c, vs + {v}) == CellCount(w, st, c, v) + CountIn(w, st, c, vs)
    decreases |w|
  {
    if |w| > 0 {
      CountInSplit(w[1..], st, c, v, vs);
    }
  }

  lemma {:induction false} CountInAll(w: seq<Event>, st: string, c: Column, vs: set<string>)
    requires c != Age
    requires forall i :: 0 <= i < |w| ==> Value(w[i], c) in vs
    ensures CountIn(w, st, c, vs) == StateCount(w, st)
    decreases |w|
  {
    if |w| > 0 {
      CountInAll(w[1..], st, c, vs);
    }
  }

  /** A state that occurs has at least one row. */
  lemma {:induction false} StateCountPositive(w: seq<Event>, st: string)
    requires st in States(w)
    ensures StateCount(w, st) >= 1
    decreases |w|
  {
    if w[0].key.state != st {
      assert States(w)[1..] == States(w[1..]);
      StateCountPositive(w[1..], st);
    }
  }

  /** A cell never exceeds its state's row count. */
  lemma {:induction false} CellAtMostState(w: seq<Event>, st: string, c: Column, v: string)
    requires c != Age
    ensures CellCount(w, st, c, v) <= StateCount(w, st)
    decreases |w|
  {
    if |w| > 0 {
      CellAtMostState(w[1..], st, c, v);
    }
  }

  // ---------------------------------------------------------------------------
  // Ratio columns

  /** `count / Total * 100`. */
  function Percent(count: int, total: int): real
    requires total != 0
  {
    count as real / total as real * 100.0
  }

  /**
   The ratio columns of one row: for every category of `cats`, its count as a
   percentage of the row's `Total`; nothing else in the row changes.
   */
  function WithRatios(row: StateRow, cats: seq<string>): (out: StateRow)
    requires row.total != 0
    requires forall v :: v in cats ==> v in row.counts
    ensures out == row.(percents := out.percents)
    ensures forall v :: v in out.percents <==> v in cats
    ensures forall v :: v in cats ==> out.percents[v] == Percent(row.counts[v], row.total)
  {
    row.(percents := map v | v in cats :: Percent(row.counts[v], row.total))
  }

  /** A count between 0 and the row's `Total` is a percentage between 0 and 100. */
  lemma PercentBounds(count: int, total: int)
    requires 0 <= count <= total && total > 0
    ensures 0.0 <= Percent(count, total) <= 100.0
  {
  }

  lemma PercentOfWhole(total: int)
    requires total > 0
    ensures Percent(total, total) == 100.0
  {
    var t := total as real;
    assert t / t == 1.0;
  }

  lemma PercentAdd(a: int, b: int, total: int)
    requires total > 0
    ensures Percent(a, total) + Percent(b, total) == Percent(a + b, total)
  {
  }

  /** The percentages of the categories `vs` added up. */
  function PercentSum(percents: map<string, real>, vs: seq<string>): real
    requires forall v :: v in vs ==> v in percents
  {
    if |vs| == 0 then 0.0 else percents[vs[0]] + PercentSum(percents, vs[1..])
  }

  lemma {:induction false} PercentSumScales(counts: map<string, int>, percents: map<string, real>, total: int, vs: seq<string>)
    requires total > 0
    requires forall v :: v in vs ==> v in counts && v in percents && percents[v] == Percent(counts[v], total)
    ensures PercentSum(percents, vs) == Percent(RowSum(counts, vs), total)
    decreases |vs|
  {
    if |vs| > 0 {
      PercentSumScales(counts, percents, total, vs[1..]);
      PercentAdd(counts[vs[0]], RowSum(counts, vs[1..]), total);
    }
  }

  /**
   In a row of the ratio table every percentage lies between 0 and 100 and
   together they make 100.
   */
  lemma RatiosOfCountRow(w: seq<Event>, c: Column, row: StateRow)
    requires c != Age
    requires IsCountRow(row, w, c, Categories(w, c)) && row.total >= 1
    ensures var out := WithRatios(row, Categories(w, c));
      && (forall v :: v in out.percents ==> 0.0 <= out.percents[v] <= 100.0)
      && PercentSum(out.percents, Categories(w, c)) == 100.0
  {
    var vs := Categories(w, c);
    var out := WithRatios(row, vs);
    forall v | v in out.percents
      ensures 0.0 <= out.percents[v] <= 100.0
    {
      CellAtMostState(w, row.state, c, v);
      PercentBounds(row.counts[v], row.total);
    }
    PercentSumScales(row.counts, out.percents, row.total, vs);
    TotalIsStateCount(w, row.state, c, row.counts, vs);
    assert RowSum(row.counts, vs) == row.total;
    PercentOfWhole(row.total);
  }
}
