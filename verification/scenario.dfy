/**
 A worked example of `update_map`: three shootings, two in California (one
 Black and one White victim) and one in Texas (a White victim), shown by race.
 The rows are listed in key order, so they are a table the load-time grouping
 produces (`ShootingsAreGrouped`).
 */
module Scenario {
  import opened Wrappers
  import opened Sequences
  import opened Calendar
  import opened Ordering
  import opened Events
  import opened TimeFrame
  import opened Pivot
  import opened MapUpdate
  import Dedup

  function Incident(state: string, date: ValidDate, race: string): Event {
    Event(EventKey(state, date, "shot", "gun", "M", race, "Springfield", false, "attack", "Not fleeing", false, "Guns"), Some(30.0))
  }

  function Shootings(): seq<Event> {
    [Incident("CA", Date(2020, 1, 5), "Black"), Incident("CA", Date(2020, 1, 5), "White"), Incident("TX", Date(2020, 2, 1), "White")]
  }

  /** On the same day in the same state, the Black victim's key sorts before the White victim's. */
  lemma BlackBeforeWhite()
    ensures KeyLess(Shootings()[0].key, Shootings()[1].key)
  {
    var a, b := Atoms(Shootings()[0].key), Atoms(Shootings()[1].key);
    assert StrLess("Black", "White");
    assert a[..5] == b[..5] && AtomLess(a[5], b[5]);
    assert a[1..][1..][1..][1..][1..] == a[5..] && b[1..][1..][1..][1..][1..] == b[5..];
  }

  /** California sorts before Texas, whatever the other columns hold. */
  lemma CaliforniaBeforeTexas()
    ensures KeyLess(Shootings()[1].key, Shootings()[2].key)
  {
    assert StrLess("CA", "TX");
  }

  /** The incidents are in key order with distinct keys, so grouping them at load time gives them back unchanged. */
  lemma ShootingsAreGrouped()
    ensures Dedup.Dedup(Shootings()) == Shootings()
  {
    var rows := Shootings();
    var ks := Dedup.Keys(rows);
    BlackBeforeWhite();
    CaliforniaBeforeTexas();
    KeyLessIsStrictTotalOrder();
    assert KeyLess(ks[0], ks[1]) && KeyLess(ks[1], ks[2]) && KeyLess(ks[0], ks[2]);
    Dedup.DedupOfSorted(rows);
  }

  /** Outside the age dimension, `update_map` shows the per-state view of the window. */
  lemma CategoryOfWindow(data: seq<Event>, startMs: int, endMs: int, c: Column, sub: string, mode: Mode)
    requires c != Age && GetTimeFrame(data, startMs, endMs) == data
    ensures UpdateMap(data, startMs, endMs, c, sub, mode) == CategoryView(data, c, sub, mode)
  {
  }

  /** The slider at its initial range, from the first date to the last, keeps every row. */
  lemma WindowKeepsAll()
    ensures GetTimeFrame(Shootings(), 1_578_182_400_000, 1_580_515_200_000) == Shootings()
  {
    var rows := Shootings();
    assert DaysBeforeYear(2020) == 737424 && Ordinal(Epoch) == 719163;
    assert EpochMillis(Date(2020, 1, 5)) == 1_578_182_400_000;
    assert EpochMillis(Date(2020, 2, 1)) == 1_580_515_200_000;
    InFrameBounds(Date(2020, 1, 5), 1_578_182_400_000, 1_580_515_200_000);
    InFrameBounds(Date(2020, 2, 1), 1_578_182_400_000, 1_580_515_200_000);
    TimeFrameExtremes(rows, 1_578_182_400_000, 1_580_515_200_000);
  }

  /** The race categories in order of first appearance: `unique()` drops the second "White". */
  lemma RaceCategories()
    ensures Categories(Shootings(), Race) == ["Black", "White"]
  {
    var s := Values(Shootings(), Race);
    assert s == ["Black", "White", "White"];
    assert s[..2] == ["Black", "White"] && s[..2][..1] == ["Black"] && s[..2][..1][..0] == [];
    assert Unique(s[..2][..1]) == ["Black"];
    // the first "White" is new, the second is already in the prefix
    assert "White" !in s[..2][..1];
    assert Unique(s[..2]) == ["Black", "White"];
    assert s[2] in s[..2];
    assert Unique(s) == ["Black", "White"];
  }

  /** The cells of the pivot: per state, the number of victims of each race, and in all. */
  lemma ShootingCounts()
    ensures CellCount(Shootings(), "CA", Race, "White") == 1 && CellCount(Shootings(), "CA", Race, "Black") == 1
    ensures CellCount(Shootings(), "TX", Race, "White") == 1 && CellCount(Shootings(), "TX", Race, "Black") == 0
    ensures StateCount(Shootings(), "CA") == 2 && StateCount(Shootings(), "TX") == 1
    ensures States(Shootings()) == ["CA", "CA", "TX"]
  {
    var w := Shootings();
    assert w[1..] == [w[1], w[2]] && w[1..][1..] == [w[2]] && w[1..][1..][1..] == [];
  }

  /** A window with California and Texas rows gets a row for California and then one for Texas. */
  lemma TwoStates(w: seq<Event>, mode: Mode)
    requires States(w) == ["CA", "CA", "TX"]
    ensures TableStates(CategoryView(w, Race, "Black", mode).table.rows) == ["CA", "TX"]
  {
    var rows := CategoryView(w, Race, "Black", mode).table.rows;
    assert StrLess("CA", "TX");
    StrLessIsStrictTotalOrder();
    SortedUnique(TableStates(rows), ["CA", "TX"], StrLess);
  }

  /** A map whose keys are exactly the two races is given by its two entries. */
  lemma TwoRaces<V>(m: map<string, V>, cats: seq<string>)
    requires cats == ["Black", "White"]
    requires forall v :: v in m <==> v in cats
    ensures "White" in m && "Black" in m
    ensures m == map["White" := m["White"], "Black" := m["Black"]]
  {
    assert "White" in cats && "Black" in cats;
    forall v | v in m
      ensures v == "White" || v == "Black"
    {
      var k :| 0 <= k < |cats| && cats[k] == v;
    }
  }

  /** A count-mode row of a window whose races are White and Black holds the two counts and their total. */
  lemma RaceRow(row: StateRow, w: seq<Event>, st: string, white: int, black: int, total: int)
    requires Categories(w, Race) == ["Black", "White"]
    requires IsMapRow(row, w, Race, false) && row.state == st
    requires CellCount(w, st, Race, "White") == white && CellCount(w, st, Race, "Black") == black
    requires StateCount(w, st) == total
    ensures row == StateRow(st, map["White" := white, "Black" := black], total, map[])
  {
    TwoRaces(row.counts, Categories(w, Race));
  }

  /** The options of the race view are the races and `Total`; "Black" is one of them, so it is shown, as a share in ratio mode. */
  lemma RaceOptions(w: seq<Event>, mode: Mode)
    requires Categories(w, Race) == ["Black", "White"]
    ensures var r := CategoryView(w, Race, "Black", mode);
      r.options == ["Black", "White", "Total"] && r.metric == if mode == Ratio then "Black%" else "Black"
  {
    var r := CategoryView(w, Race, "Black", mode);
    var options := SubOptions(w, Race);
    assert r.options == options;
    assert options == ["Black", "White"] + [TotalColumn];
    assert options[0] == "Black";
  }

  /** A count table over the rows and counts of the example holds one row for California and one for Texas. */
  lemma RaceTable(w: seq<Event>, rows: seq<StateRow>)
    requires Categories(w, Race) == ["Black", "White"]
    requires CellCount(w, "CA", Race, "White") == 1 && CellCount(w, "CA", Race, "Black") == 1
    requires CellCount(w, "TX", Race, "White") == 1 && CellCount(w, "TX", Race, "Black") == 0
    requires StateCount(w, "CA") == 2 && StateCount(w, "TX") == 1
    requires TableStates(rows) == ["CA", "TX"]
    requires forall i :: 0 <= i < |rows| ==> IsMapRow(rows[i], w, Race, false)
    ensures rows == [StateRow("CA", map["White" := 1, "Black" := 1], 2, map[]),
                     StateRow("TX", map["White" := 1, "Black" := 0], 1, map[])]
  {
    assert TableStates(rows)[0] == "CA" && TableStates(rows)[1] == "TX";
    RaceRow(rows[0], w, "CA", 1, 1, 2);
    RaceRow(rows[1], w, "TX", 1, 0, 1);
  }

  /** The race view, in count mode with "Black" selected, of any window with the rows and counts of the example. */
  lemma RaceViewOf(w: seq<Event>)
    requires States(w) == ["CA", "CA", "TX"]
    requires Categories(w, Race) == ["Black", "White"]
    requires CellCount(w, "CA", Race, "White") == 1 && CellCount(w, "CA", Race, "Black") == 1
    requires CellCount(w, "TX", Race, "White") == 1 && CellCount(w, "TX", Race, "Black") == 0
    requires StateCount(w, "CA") == 2 && StateCount(w, "TX") == 1
    ensures var r := CategoryView(w, Race, "Black", Cardinal);
      && r.options == ["Black", "White", "Total"]
      && r.metric == "Black"
      && r.table == PerState([StateRow("CA", map["White" := 1, "Black" := 1], 2, map[]),
                              StateRow("TX", map["White" := 1, "Black" := 0], 1, map[])])
  {
    var r := CategoryView(w, Race, "Black", Cardinal);
    TwoStates(w, Cardinal);
    RaceOptions(w, Cardinal);
    RaceTable(w, r.table.rows);
  }

  /**
   The race view with "Black" selected, in count mode: the options are the two
   races and `Total`, the map colours by the "Black" column, and each state has
   its row, California first, with a zero where Texas has no Black victim.
   */
  lemma RaceView()
    ensures var r := UpdateMap(Shootings(), 1_578_182_400_000, 1_580_515_200_000, Race, "Black", Cardinal);
      && r.options == ["Black", "White", "Total"]
      && r.metric == "Black"
      && r.table == PerState([StateRow("CA", map["White" := 1, "Black" := 1], 2, map[]),
                              StateRow("TX", map["White" := 1, "Black" := 0], 1, map[])])
  {
    WindowKeepsAll();
    RaceCategories();
    ShootingCounts();
    RaceViewOf(Shootings());
    CategoryOfWindow(Shootings(), 1_578_182_400_000, 1_580_515_200_000, Race, "Black", Cardinal);
  }

  /** A ratio-mode row of a window whose races are White and Black holds each race's percentage of the state's rows. */
  lemma RaceRatioRow(row: StateRow, w: seq<Event>, st: string, white: int, black: int, total: int)
    requires Categories(w, Race) == ["Black", "White"]
    requires IsMapRow(row, w, Race, true) && row.state == st
    requires CellCount(w, st, Race, "White") == white && CellCount(w, st, Race, "Black") == black
    requires StateCount(w, st) == total
    ensures row.percents == map["White" := Percent(white, total), "Black" := Percent(black, total)]
  {
    var cats := Categories(w, Race);
    TwoRaces(row.counts, cats);
    TwoRaces(row.percents, cats);
  }

  /** In ratio mode the rows of a table over the rows and counts of the example hold each race's share of its state. */
  lemma RaceShares(w: seq<Event>, rows: seq<StateRow>)
    requires Categories(w, Race) == ["Black", "White"]
    requires CellCount(w, "CA", Race, "White") == 1 && CellCount(w, "CA", Race, "Black") == 1
    requires CellCount(w, "TX", Race, "White") == 1 && CellCount(w, "TX", Race, "Black") == 0
    requires StateCount(w, "CA") == 2 && StateCount(w, "TX") == 1
    requires TableStates(rows) == ["CA", "TX"]
    requires forall i :: 0 <= i < |rows| ==> IsMapRow(rows[i], w, Race, true)
    ensures rows[0].percents == map["White" := 50.0, "Black" := 50.0]
    ensures rows[1].percents == map["White" := 100.0, "Black" := 0.0]
  {
    assert TableStates(rows)[0] == "CA" && TableStates(rows)[1] == "TX";
    RaceRatioRow(rows[0], w, "CA", 1, 1, 2);
    RaceRatioRow(rows[1], w, "TX", 1, 0, 1);
    assert Percent(1, 2) == 50.0 && Percent(1, 1) == 100.0 && Percent(0, 1) == 0.0;
  }

  /** The race view, in ratio mode with "Black" selected, of any window with the rows and counts of the example. */
  lemma RaceRatioViewOf(w: seq<Event>)
    requires States(w) == ["CA", "CA", "TX"]
    requires Categories(w, Race) == ["Black", "White"]
    requires CellCount(w, "CA", Race, "White") == 1 && CellCount(w, "CA", Race, "Black") == 1
    requires CellCount(w, "TX", Race, "White") == 1 && CellCount(w, "TX", Race, "Black") == 0
    requires StateCount(w, "CA") == 2 && StateCount(w, "TX") == 1
    ensures var r := CategoryView(w, Race, "Black", Ratio);
      && r.metric == "Black%"
      && |r.table.rows| == 2
      && r.table.rows[0].state == "CA" && r.table.rows[0].percents == map["White" := 50.0, "Black" := 50.0]
      && r.table.rows[1].state == "TX" && r.table.rows[1].percents == map["White" := 100.0, "Black" := 0.0]
  {
    var r := CategoryView(w, Race, "Black", Ratio);
    RaceOptions(w, Ratio);
    TwoStates(w, Ratio);
    RaceShares(w, r.table.rows);
    assert TableStates(r.table.rows)[0] == "CA" && TableStates(r.table.rows)[1] == "TX";
  }

  /**
   The same selection in ratio mode: the map colours by "Black%", which is
   half of California's victims and none of Texas's.
   */
  lemma RaceRatioView()
    ensures var r := UpdateMap(Shootings(), 1_578_182_400_000, 1_580_515_200_000, Race, "Black", Ratio);
      && r.metric == "Black%"
      && |r.table.rows| == 2
      && r.table.rows[0].state == "CA" && r.table.rows[0].percents == map["White" := 50.0, "Black" := 50.0]
      && r.table.rows[1].state == "TX" && r.table.rows[1].percents == map["White" := 100.0, "Black" := 0.0]
  {
    WindowKeepsAll();
    RaceCategories();
    ShootingCounts();
    RaceRatioViewOf(Shootings());
    CategoryOfWindow(Shootings(), 1_578_182_400_000, 1_580_515_200_000, Race, "Black", Ratio);
  }
}
