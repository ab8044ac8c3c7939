/**
 The time window of the range slider (`get_time_frame`): the rows whose date
 lies between the two slider positions, both ends included.
 */
module TimeFrame {
  import opened Calendar
  import opened Events

  /**
   The instant, in epoch milliseconds, a slider position stands for once it is
   turned into a `gmtime` timestamp: the fraction of a second is dropped,
   rounding down.
   */
  function WholeSecond(ms: int): (t: int)
    ensures t <= ms < t + 1000
    ensures t % 1000 == 0
  {
    ms / 1000 * 1000
  }

  /** A row's date (at midnight) lies in the window of the slider positions `startMs` and `endMs`. */
  predicate InFrame(d: ValidDate, startMs: int, endMs: int) {
    WholeSecond(startMs) <= EpochMillis(d) <= WholeSecond(endMs)
  }

  /** The rows of `rows` whose date lies in the window, in their original order and unchanged. */
  function GetTimeFrame(rows: seq<Event>, startMs: int, endMs: int): (w: seq<Event>)
    ensures forall e :: e in w <==> e in rows && InFrame(e.key.date, startMs, endMs)
    ensures forall e :: multiset(w)[e] == if InFrame(e.key.date, startMs, endMs) then multiset(rows)[e] else 0
    ensures |w| <= |rows|
  {
    if |rows| == 0 then []
    else
      var rest := GetTimeFrame(rows[1..], startMs, endMs);
      assert rows == [rows[0]] + rows[1..];
      if InFrame(rows[0].key.date, startMs, endMs) then [rows[0]] + rest else rest
  }

  /**
   The window in milliseconds: a date is kept exactly when its instant is at
   most `endMs` and within the second that starts at or before `startMs`.
   */
  lemma InFrameBounds(d: ValidDate, startMs: int, endMs: int)
    ensures InFrame(d, startMs, endMs) <==> startMs < EpochMillis(d) + 1000 && EpochMillis(d) <= endMs
  {
    // the instant of a midnight is a whole number `k` of seconds
    var k := (Ordinal(d) - Ordinal(Epoch)) * 86_400;
    assert EpochMillis(d) == k * 1000;
    var s, e := startMs / 1000, endMs / 1000;
    assert WholeSecond(startMs) <= k * 1000 <==> s <= k;
    assert k * 1000 <= WholeSecond(endMs) <==> k <= e;
  }

  /** Filtering a concatenation filters each part in place: the rows keep their order. */
  lemma {:induction false} TimeFrameDistributes(a: seq<Event>, b: seq<Event>, startMs: int, endMs: int)
    ensures GetTimeFrame(a + b, startMs, endMs) == GetTimeFrame(a, startMs, endMs) + GetTimeFrame(b, startMs, endMs)
  {
    if |a| > 0 {
      assert (a + b)[1..] == a[1..] + b;
      TimeFrameDistributes(a[1..], b, startMs, endMs);
    } else {
      assert a + b == b;
    }
  }

  /** The window of a window is the window itself. */
  lemma {:induction false} TimeFrameIdempotent(rows: seq<Event>, startMs: int, endMs: int)
    ensures var w := GetTimeFrame(rows, startMs, endMs);
      GetTimeFrame(w, startMs, endMs) == w
  {
    if |rows| > 0 {
      TimeFrameIdempotent(rows[1..], startMs, endMs);
      var rest := GetTimeFrame(rows[1..], startMs, endMs);
      if InFrame(rows[0].key.date, startMs, endMs) {
        assert ([rows[0]] + rest)[1..] == rest;
      }
    }
  }

  /** Every row is kept when the window covers all the rows' dates, and none when it is empty. */
  lemma TimeFrameExtremes(rows: seq<Event>, startMs: int, endMs: int)
    ensures (forall i :: 0 <= i < |rows| ==> InFrame(rows[i].key.date, startMs, endMs)) ==>
      GetTimeFrame(rows, startMs, endMs) == rows
    ensures endMs < startMs - 999 ==> GetTimeFrame(rows, startMs, endMs) == []
  {
    if forall i :: 0 <= i < |rows| ==> InFrame(rows[i].key.date, startMs, endMs) {
      KeepsAll(rows, startMs, endMs);
    }
    if endMs < startMs - 999 {
      forall e | e in rows
        ensures !InFrame(e.key.date, startMs, endMs)
      {
        InFrameBounds(e.key.date, startMs, endMs);
      }
    }
  }

  lemma {:induction false} KeepsAll(rows: seq<Event>, startMs: int, endMs: int)
    requires forall i :: 0 <= i < |rows| ==> InFrame(rows[i].key.date, startMs, endMs)
    ensures GetTimeFrame(rows, startMs, endMs) == rows
  {
    if |rows| > 0 {
      KeepsAll(rows[1..], startMs, endMs);
      assert rows == [rows[0]] + rows[1..];
    }
  }
}
