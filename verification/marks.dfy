/**
 The month marks of the time slider (`get_marks`): starting at the first date,
 one mark per step of one calendar month, keyed by the mark's epoch
 milliseconds and labelled with its `YYYY-MM`.
 */
module Marks {
  import opened Calendar
  import opened Labels

  /** One entry of the marks dictionary: epoch-millisecond key and label text. */
  datatype Mark = Mark(key: int, text: string)

  /** Months from the month of `start` to the month of `end`. */
  function MonthSpan(start: Date, end: Date): int {
    MonthIndex(end) - MonthIndex(start)
  }

  /**
   `get_marks`: the visited dates (see `Walk`) and the marks dictionary built
   from them, in insertion order.
   */
  method GetMarks(start: Date, end: Date) returns (dates: seq<Date>, marks: seq<Mark>)
    requires InTimestampRange(start) && InTimestampRange(end)
    // the visited dates are those of the loop (see `Walk` and `WalkShape`)
    ensures dates == Walk(start, end)
    ensures dates == [] <==> Before(end, start)
    ensures dates != [] ==> dates[0] == start
    // one mark per visited date: its key is the date's instant and its label the date's month
    ensures |marks| == |dates|
    ensures forall i :: 0 <= i < |dates| ==>
      Valid(dates[i]) && dates[i].year < 10000 && marks[i] == Mark(EpochMillis(dates[i]), Label(dates[i]))
    ensures forall i, j :: 0 <= i < j < |marks| ==> marks[i].key < marks[j].key
  {
    dates := WalkMonths(start, end);
    WalkShape(start, end);
    WalkInYears(start, end);
    marks := MarksOf(dates);
    KeysIncrease(dates, marks, MonthIndex(start));
  }

  /**
   The loop of `get_marks`: from `start`, while the date is not after `end`,
   keep it and add one month to it. It visits exactly the dates of `Walk`.
   */
  method WalkMonths(start: Date, end: Date) returns (dates: seq<Date>)
    requires Valid(start) && Valid(end)
    ensures dates == Walk(start, end)
  {
    dates := [];
    var current := start;
    while AtOrBefore(current, end)
      invariant Valid(current)
      invariant dates + Walk(current, end) == Walk(start, end)
      decreases MonthIndex(end) - MonthIndex(current)
    {
      MonthIndexMonotone(current, end);
      dates := dates + [current];
      current := AddMonth(current);
    }
  }

  /**
   The dates the loop of `GetMarks` visits from `current` on: `current` itself
   if it is not after `end`, then the walk from one month later.
   */
  function Walk(current: Date, end: Date): (w: seq<Date>)
    requires Valid(current) && Valid(end)
    ensures forall i :: 0 <= i < |w| ==> Valid(w[i])
    decreases MonthIndex(end) - MonthIndex(current) + 1
  {
    if AtOrBefore(current, end) then
      MonthIndexMonotone(current, end);
      [current] + Walk(AddMonth(current), end)
    else []
  }

  /** The walk visits valid dates not after `end`, one month apart, and stops at the first date after `end`. */
  lemma {:induction false} WalkShape(current: Date, end: Date)
    requires Valid(current) && Valid(end)
    ensures var w := Walk(current, end);
      && (w == [] <==> Before(end, current))
      && (forall i :: 0 <= i < |w| ==>
            && Valid(w[i]) && AtOrBefore(w[i], end)
            && MonthIndex(w[i]) == MonthIndex(current) + i
            && w[i].day <= current.day)
      && (w != [] ==> w[0] == current && Before(end, AddMonth(w[|w| - 1])))
    decreases MonthIndex(end) - MonthIndex(current) + 1
  {
    BeforeIsStrictTotal(current, end, current);
    if AtOrBefore(current, end) {
      MonthIndexMonotone(current, end);
      var next := AddMonth(current);
      WalkShape(next, end);
      var rest := Walk(next, end);
      var w := Walk(current, end);
      assert w == [current] + rest;
      forall i | 0 < i < |w|
        ensures Valid(w[i]) && AtOrBefore(w[i], end)
        ensures MonthIndex(w[i]) == MonthIndex(current) + i && w[i].day <= current.day
      {
        assert w[i] == rest[i - 1];
      }
      if rest == [] {
        assert Before(end, AddMonth(w[|w| - 1]));
      }
    }
  }

  /** Each date of the walk is one month after the one before it. */
  lemma {:induction false} WalkSteps(current: Date, end: Date)
    requires Valid(current) && Valid(end)
    ensures var w := Walk(current, end);
      forall i {:trigger AddMonth(w[i])} :: 0 <= i < |w| - 1 ==> w[i + 1] == AddMonth(w[i])
    decreases MonthIndex(end) - MonthIndex(current) + 1
  {
    if AtOrBefore(current, end) {
      MonthIndexMonotone(current, end);
      var next := AddMonth(current);
      WalkSteps(next, end);
      WalkShape(next, end);
      var rest := Walk(next, end);
      var w := Walk(current, end);
      assert w == [current] + rest;
      forall i | 0 <= i < |w| - 1
        ensures w[i + 1] == AddMonth(w[i])
      {
        if i > 0 {
          assert w[i] == rest[i - 1] && w[i + 1] == rest[i];
          assert AddMonth(rest[i - 1]) == rest[i];
        }
      }
    }
  }

  /** Every date of the walk lies between its start and its end, so in their years. */
  lemma WalkInYears(start: Date, end: Date)
    requires Valid(start) && Valid(end)
    ensures var w := Walk(start, end);
      forall i :: 0 <= i < |w| ==> AtOrBefore(start, w[i]) && AtOrBefore(w[i], end) && start.year <= w[i].year <= end.year
  {
    var w := Walk(start, end);
    WalkShape(start, end);
    forall i | 0 <= i < |w|
      ensures AtOrBefore(start, w[i]) && AtOrBefore(w[i], end) && start.year <= w[i].year <= end.year
    {
      MonthIndexMonotone(start, w[i]);
    }
  }

  /** The marks dictionary of a list of dates, one entry per date, in list order. */
  function MarksOf(dates: seq<Date>): (marks: seq<Mark>)
    requires forall i :: 0 <= i < |dates| ==> Valid(dates[i]) && dates[i].year < 10000
    ensures |marks| == |dates|
    ensures forall i :: 0 <= i < |dates| ==> marks[i] == Mark(EpochMillis(dates[i]), Label(dates[i]))
  {
    seq(|dates|, i requires 0 <= i < |dates| => Mark(EpochMillis(dates[i]), Label(dates[i])))
  }

  /** Dates in strictly later months get strictly larger keys. */
  lemma KeysIncrease(dates: seq<Date>, marks: seq<Mark>, first: int)
    requires |marks| == |dates|
    requires forall i :: 0 <= i < |dates| ==> Valid(dates[i]) && MonthIndex(dates[i]) == first + i
    requires forall i :: 0 <= i < |dates| ==> marks[i].key == EpochMillis(dates[i])
    ensures forall i, j :: 0 <= i < j < |marks| ==> marks[i].key < marks[j].key
  {
    forall i, j | 0 <= i < j < |marks|
      ensures marks[i].key < marks[j].key
    {
      MonthIndexMonotone(dates[i], dates[j]);
      BeforeIsEpochOrder(dates[i], dates[j]);
    }
  }

  /** Marks of dates in distinct months have distinct labels: no two marks read the same. */
  lemma LabelsDistinct(dates: seq<Date>)
    requires forall i :: 0 <= i < |dates| ==> Valid(dates[i]) && dates[i].year < 10000
    requires forall i, j :: 0 <= i < j < |dates| ==> MonthIndex(dates[i]) < MonthIndex(dates[j])
    ensures var marks := MarksOf(dates);
      forall i, j :: 0 <= i < j < |marks| ==> marks[i].text != marks[j].text
  {
    var marks := MarksOf(dates);
    forall i, j | 0 <= i < j < |marks|
      ensures marks[i].text != marks[j].text
    {
      LabelIdentifiesMonth(dates[i], dates[j]);
    }
  }

  /**
   The walk has one date per month of the span, except that the month of `end`
   is missed when the step into it lands after `end`'s day; it never is when
   the day of `start` is at most the day of `end`.
   */
  lemma WalkCount(start: Date, end: Date)
    requires Valid(start) && Valid(end)
    ensures var w := Walk(start, end);
      AtOrBefore(start, end) ==>
        || |w| == MonthSpan(start, end) + 1
        || (&& |w| == MonthSpan(start, end)
            && MonthIndex(AddMonth(w[|w| - 1])) == MonthIndex(end)
            && end.day < AddMonth(w[|w| - 1]).day)
    ensures AtOrBefore(start, end) && start.day <= end.day ==> |Walk(start, end)| == MonthSpan(start, end) + 1
  {
    var w := Walk(start, end);
    WalkShape(start, end);
    if AtOrBefore(start, end) {
      var n := |w|;
      var last := w[n - 1];
      var next := AddMonth(last);
      MonthIndexMonotone(last, end);
      MonthIndexMonotone(end, next);
      assert n - 1 <= MonthSpan(start, end) <= n;
    }
  }

  /**
   A start late in the month drifts: from 2020-01-31 to 2020-03-15 the walk
   visits January 31 and February 29, and March gets no mark.
   */
  lemma DriftMissesLastMonth()
    ensures Walk(Date(2020, 1, 31), Date(2020, 3, 15)) == [Date(2020, 1, 31), Date(2020, 2, 29)]
  {
  }
}
