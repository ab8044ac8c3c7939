/**
 The load-time de-duplication: grouping the loaded rows by the twelve key
 columns leaves one row per distinct key, in sorted key order, whose `age` is
 the mean of the known ages of the rows sharing that key.
 */
module Dedup {
  import opened Wrappers
  import opened Ordering
  import opened Events

  function Keys(rows: seq<Event>): (ks: seq<EventKey>)
    ensures |ks| == |rows|
    ensures forall i :: 0 <= i < |rows| ==> ks[i] == rows[i].key
  {
    seq(|rows|, i requires 0 <= i < |rows| => rows[i].key)
  }

  /** Number of rows with key `k` and a known age. */
  function AgeCount(rows: seq<Event>, k: EventKey): nat {
    if |rows| == 0 then 0
    else (if rows[0].key == k && rows[0].age.Some? then 1 else 0) + AgeCount(rows[1..], k)
  }

  /** Sum of the known ages of the rows with key `k`. */
  function AgeSum(rows: seq<Event>, k: EventKey): real {
    if |rows| == 0 then 0.0
    else (if rows[0].key == k then rows[0].age.GetOr(0.0) else 0.0) + AgeSum(rows[1..], k)
  }

  /** `mean()` of the ages of key `k`: missing ages are skipped, and no known age gives a missing mean. */
  function MeanAge(rows: seq<Event>, k: EventKey): (m: Option<real>)
    ensures m.None? <==> AgeCount(rows, k) == 0
    ensures m.Some? ==> m.value * AgeCount(rows, k) as real == AgeSum(rows, k)
  {
    var n := AgeCount(rows, k);
    if n == 0 then None
    else
      var m := AgeSum(rows, k) / n as real;
      assert m * n as real == AgeSum(rows, k);
      Some(m)
  }

  /**
   `groupby(keys)[['age']].mean()` followed by `reset_index()`: one row per
   distinct key, keys in increasing order, each with the mean age of its group.
   */
  function Dedup(rows: seq<Event>): (out: seq<Event>)
    ensures StrictlySorted(Keys(out), KeyLess)
    ensures forall k :: k in Keys(out) <==> k in Keys(rows)
    ensures forall i :: 0 <= i < |out| ==> out[i].age == MeanAge(rows, out[i].key)
    ensures |out| <= |rows|
  {
    KeyLessIsStrictTotalOrder();
    var keys := SortedSet(Keys(rows), KeyLess);
    var out := seq(|keys|, i requires 0 <= i < |keys| => Event(keys[i], MeanAge(rows, keys[i])));
    assert Keys(out) == keys;
    out
  }

  /** No two rows of the result share a key. */
  lemma DedupKeysDistinct(rows: seq<Event>)
    ensures var out := Dedup(rows);
      forall i, j :: 0 <= i < j < |out| ==> out[i].key != out[j].key
  {
    var out := Dedup(rows);
    KeyLessIsStrictTotalOrder();
    SortedDistinct(Keys(out), KeyLess);
  }

  lemma {:induction false} AgesSplit(a: seq<Event>, b: seq<Event>, k: EventKey)
    ensures AgeCount(a + b, k) == AgeCount(a, k) + AgeCount(b, k)
    ensures AgeSum(a + b, k) == AgeSum(a, k) + AgeSum(b, k)
    decreases |a|
  {
    if |a| == 0 {
      assert a + b == b;
    } else {
      assert (a + b)[1..] == a[1..] + b;
      AgesSplit(a[1..], b, k);
    }
  }

  lemma {:induction false} AgesOfOtherKeys(rows: seq<Event>, k: EventKey)
    requires forall i :: 0 <= i < |rows| ==> rows[i].key != k
    ensures AgeCount(rows, k) == 0 && AgeSum(rows, k) == 0.0
    decreases |rows|
  {
    if |rows| > 0 {
      AgesOfOtherKeys(rows[1..], k);
    }
  }

  /** The mean of a group of one row is that row's age. */
  lemma MeanOfSingleRow(rows: seq<Event>, i: int)
    requires 0 <= i < |rows|
    requires forall j :: 0 <= j < |rows| && j != i ==> rows[j].key != rows[i].key
    ensures MeanAge(rows, rows[i].key) == rows[i].age
  {
    var k := rows[i].key;
    var before, after := rows[..i], rows[i + 1..];
    assert rows == before + [rows[i]] + after;
    AgesSplit(before + [rows[i]], after, k);
    AgesSplit(before, [rows[i]], k);
    AgesOfOtherKeys(before, k);
    forall j | 0 <= j < |after|
      ensures after[j].key != k
    {
      assert after[j] == rows[i + 1 + j];
    }
    AgesOfOtherKeys(after, k);
    assert AgeCount([rows[i]], k) == (if rows[i].age.Some? then 1 else 0);
    assert AgeSum([rows[i]], k) == rows[i].age.GetOr(0.0);
  }

  /**
   A table whose keys are already strictly sorted is what the grouping gives
   back: one row per key, in order, with its own age.
   */
  lemma DedupOfSorted(rows: seq<Event>)
    requires StrictlySorted(Keys(rows), KeyLess)
    ensures Dedup(rows) == rows
  {
    var out := Dedup(rows);
    KeyLessIsStrictTotalOrder();
    SortedDistinct(Keys(rows), KeyLess);
    assert Keys(out) == Keys(rows) by {
      SortedUnique(Keys(out), Keys(rows), KeyLess);
    }
    forall i | 0 <= i < |rows|
      ensures out[i] == rows[i]
    {
      assert out[i].key == Keys(out)[i] == Keys(rows)[i] == rows[i].key;
      MeanOfSingleRow(rows, i);
    }
  }

  /** De-duplicating an already de-duplicated table changes nothing. */
  lemma DedupIdempotent(rows: seq<Event>)
    ensures Dedup(Dedup(rows)) == Dedup(rows)
  {
    DedupOfSorted(Dedup(rows));
  }
}
