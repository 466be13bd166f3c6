/**
 Time-of-day bucketing of crash records (`group_by_time` in analysis.py).

 A table is an array of rows; each row carries its `HOUR` value and its entry in the
 `category` column, which is missing (`None`) until a slot label is written into it.
 Grouping writes, in place, the label of the three-hour slot containing the row's hour,
 one slot after the other, and then counts the rows per label, as pandas'
 `value_counts` does: missing entries are skipped and only labels that occur are reported.
 */
module TimeBuckets {
  import opened Wrappers

  /** The eight slot labels; slot `k` holds the hours [3k, 3k + 3). */
  const TimeSlots: seq<string> :=
    ["12am - 2:59am", "3am - 5:59am", "6am - 8:59am", "9am - 11:59am",
     "12pm - 2:59pm", "3pm - 5:59pm", "6pm - 8:59pm", "9pm - 11:59pm"]

  /** One record of the table: its `HOUR` and its `category` entry. */
  datatype Row = Row(hour: int, category: Option<string>)

  /** Slot `k` is one of the eight, and `hour` lies in its half-open interval [3k, 3k + 3). */
  predicate InSlot(hour: int, k: int)
  {
    0 <= k < |TimeSlots| && 3 * k <= hour < 3 * k + 3
  }

  /** No label occurs twice in `ls`. */
  predicate DistinctLabels(ls: seq<string>)
  {
    forall i, j :: 0 <= i < j < |ls| ==> ls[i] != ls[j]
  }

  /**
   The slot an hour falls into. The eight intervals cover exactly [0, 24) and are
   pairwise disjoint: an hour in range is in one slot and only that one, any other
   hour (the unknown-hour code 99, a negative value) is in none.
   */
  function SlotIndex(hour: int): (k: Option<nat>)
    ensures k.Some? <==> 0 <= hour < 24
    ensures k.Some? ==> InSlot(hour, k.value)
    ensures forall j :: InSlot(hour, j) ==> k == Some(j)
  {
    if 0 <= hour < 24 then Some(hour / 3) else None
  }

  /** A row once its slot label has been written; rows outside [0, 24) are not touched. */
  function LabelRow(r: Row): (r': Row)
  {
    match SlotIndex(r.hour)
    case Some(k) => r.(category := Some(TimeSlots[k]))
    case None => r
  }

  /** The whole table after labelling, row by row. */
  function LabelTable(rows: seq<Row>): (labelled: seq<Row>)
    ensures |labelled| == |rows|
  {
    if rows == [] then []
    else LabelTable(rows[..|rows| - 1]) + [LabelRow(rows[|rows| - 1])]
  }

  /**
   What labelling does to each row: every hour is kept, a row whose hour lies in
   [0, 24) gets the label of slot `hour / 3`, and every other row is left as it was.
   */
  lemma {:induction false} LabelTableRows(rows: seq<Row>)
    ensures forall i :: 0 <= i < |rows| ==> LabelTable(rows)[i].hour == rows[i].hour
    ensures forall i :: 0 <= i < |rows| && 0 <= rows[i].hour < 24 ==>
              LabelTable(rows)[i].category == Some(TimeSlots[rows[i].hour / 3])
    ensures forall i :: 0 <= i < |rows| && !(0 <= rows[i].hour < 24) ==> LabelTable(rows)[i] == rows[i]
  {
    if rows != [] {
      var prefix := rows[..|rows| - 1];
      LabelTableRows(prefix);
      var r := rows[|rows| - 1];
      if 0 <= r.hour < 24 {
        assert InSlot(r.hour, r.hour / 3);
      }
    }
  }

  /**
   Labelling a table that is already labelled changes nothing: a second call on the
   same table sees the labels the first call wrote and writes the same ones again.
   */
  lemma LabelTableIdempotent(rows: seq<Row>)
    ensures LabelTable(LabelTable(rows)) == LabelTable(rows)
  {
    LabelTableRows(rows);
    LabelTableRows(LabelTable(rows));
  }

  /** The `category` column as a sequence. */
  function Categories(rows: seq<Row>): (cs: seq<Option<string>>)
  {
    seq(|rows|, i requires 0 <= i < |rows| => rows[i].category)
  }

  /** One row's contribution to the counts: a present label adds one to its count. */
  function CountOne(counts: map<string, nat>, c: Option<string>): (counts': map<string, nat>)
  {
    match c
    case None => counts
    case Some(l) => counts[l := if l in counts then counts[l] + 1 else 1]
  }

  /**
   `value_counts` of the `category` column, row by row: each present label adds one
   to its count, missing entries add nothing. Every reported count is at least one.
   */
  function Tally(rows: seq<Row>): (counts: map<string, nat>)
    ensures forall l :: l in counts ==> counts[l] >= 1
  {
    if rows == [] then map[]
    else CountOne(Tally(rows[..|rows| - 1]), rows[|rows| - 1].category)
  }

  /** Number of rows whose hour lies in [0, 24). */
  function InRangeCount(rows: seq<Row>): (n: nat)
    ensures n <= |rows|
  {
    if rows == [] then 0
    else InRangeCount(rows[..|rows| - 1]) + (if 0 <= rows[|rows| - 1].hour < 24 then 1 else 0)
  }

  /** Number of rows whose hour lies in slot `k`. */
  function SlotCount(rows: seq<Row>, k: int): (n: nat)
    ensures n <= InRangeCount(rows)
  {
    if rows == [] then 0
    else SlotCount(rows[..|rows| - 1], k) + (if InSlot(rows[|rows| - 1].hour, k) then 1 else 0)
  }

  /** Sum of the counts reported for the labels `ls` (a label absent from `counts` adds zero). */
  function SumOver(ls: seq<string>, counts: map<string, nat>): nat
  {
    if ls == [] then 0
    else (if ls[0] in counts then counts[ls[0]] else 0) + SumOver(ls[1..], counts)
  }

  /** Some row's hour lies in slot `k`. */
  predicate Occupied(rows: seq<Row>, k: int)
  {
    exists i :: 0 <= i < |rows| && InSlot(rows[i].hour, k)
  }

  /** No row has a `category` entry yet: the column is created by the labelling. */
  predicate Unlabelled(rows: seq<Row>)
  {
    forall i :: 0 <= i < |rows| ==> rows[i].category == None
  }

  /** An hour on a slot edge (3, 6, ..., 21) goes to the later slot, never the earlier one. */
  lemma BoundaryHourGoesToLaterSlot(k: int, c: Option<string>)
    requires 1 <= k < |TimeSlots|
    ensures LabelRow(Row(3 * k, c)).category == Some(TimeSlots[k])
    ensures LabelRow(Row(3 * k - 1, c)).category == Some(TimeSlots[k - 1])
  {
    assert InSlot(3 * k, k) && InSlot(3 * k - 1, k - 1);
  }

  /**
   Splitting off the last row of a table: the counts of the labelled table are those
   of the labelled prefix plus the last row's label, if it gets one.
   */
  lemma TallyLastRow(rows: seq<Row>)
    requires rows != []
    ensures Tally(LabelTable(rows))
            == CountOne(Tally(LabelTable(rows[..|rows| - 1])), LabelRow(rows[|rows| - 1]).category)
  {
    var labelled := LabelTable(rows);
    assert labelled == LabelTable(rows[..|rows| - 1]) + [LabelRow(rows[|rows| - 1])];
    assert labelled[..|rows| - 1] == LabelTable(rows[..|rows| - 1]);
  }

  /** Splitting off the last entry of the `category` column. */
  lemma CategoriesLastRow(rows: seq<Row>)
    requires rows != []
    ensures Categories(rows) == Categories(rows[..|rows| - 1]) + [rows[|rows| - 1].category]
  {
  }

  /**
   `Tally` agrees with counting occurrences in the `category` column: a label is
   reported exactly when it occurs, and its count is its number of occurrences.
   */
  lemma {:induction false} TallyCountsOccurrences(rows: seq<Row>)
    ensures forall l :: l in Tally(rows) <==> Some(l) in multiset(Categories(rows))
    ensures forall l :: l in Tally(rows) ==> Tally(rows)[l] == multiset(Categories(rows))[Some(l)]
  {
    if rows != [] {
      var prefix := rows[..|rows| - 1];
      TallyCountsOccurrences(prefix);
      CategoriesLastRow(rows);
    }
  }

  /** The label a row of a new `category` column receives: its slot's, or none outside [0, 24). */
  lemma LabelOfUnlabelledRow(r: Row)
    requires r.category == None
    ensures 0 <= r.hour < 24 ==> LabelRow(r).category == Some(TimeSlots[r.hour / 3])
    ensures !(0 <= r.hour < 24) ==> LabelRow(r).category == None
  {
  }

  /** Labelling a table whose `category` column is new reports none but the eight slot labels. */
  lemma {:induction false} TallyKeysAreSlotLabels(rows: seq<Row>)
    requires Unlabelled(rows)
    ensures forall l :: l in Tally(LabelTable(rows)) ==> l in TimeSlots
  {
    if rows != [] {
      var prefix, r := rows[..|rows| - 1], rows[|rows| - 1];
      assert Unlabelled(prefix);
      TallyKeysAreSlotLabels(prefix);
      TallyLastRow(rows);
      LabelOfUnlabelledRow(r);
    }
  }

  /**
   With a new `category` column, the label of slot `k` is reported exactly when some
   row's hour lies in slot `k`: empty slots are absent rather than reported as zero.
   */
  lemma {:induction false} TallyReportsOccupiedSlots(rows: seq<Row>, k: int)
    requires Unlabelled(rows)
    requires 0 <= k < |TimeSlots|
    ensures TimeSlots[k] in Tally(LabelTable(rows)) <==> Occupied(rows, k)
  {
    if rows != [] {
      var prefix, r := rows[..|rows| - 1], rows[|rows| - 1];
      assert Unlabelled(prefix);
      TallyReportsOccupiedSlots(prefix, k);
      TallyLastRow(rows);
      LabelOfUnlabelledRow(r);
      var before := Tally(LabelTable(prefix));
      // The last row adds slot k's label exactly when its hour lies in slot k.
      if 0 <= r.hour < 24 {
        assert DistinctLabels(TimeSlots);
        assert TimeSlots[k] == TimeSlots[r.hour / 3] <==> InSlot(r.hour, k);
        assert TimeSlots[k] in Tally(LabelTable(rows)) <==> TimeSlots[k] in before || InSlot(r.hour, k);
      } else {
        assert !InSlot(r.hour, k);
      }
      if exists i :: 0 <= i < |rows| && InSlot(rows[i].hour, k) {
        var i :| 0 <= i < |rows| && InSlot(rows[i].hour, k);
        if i < |rows| - 1 {
          assert InSlot(prefix[i].hour, k);
        }
      }
      if exists i :: 0 <= i < |prefix| && InSlot(prefix[i].hour, k) {
        var i :| 0 <= i < |prefix| && InSlot(prefix[i].hour, k);
        assert InSlot(rows[i].hour, k);
      }
    }
  }

  /** Distinct labels make a set of the same size. */
  lemma {:induction false} DistinctLabelsCount(ls: seq<string>)
    requires DistinctLabels(ls)
    ensures |set l | l in ls| == |ls|
  {
    if ls != [] {
      assert DistinctLabels(ls[1..]);
      DistinctLabelsCount(ls[1..]);
      assert (set l | l in ls) == {ls[0]} + (set l | l in ls[1..]);
    }
  }

  /** The eight slot labels are pairwise different. */
  lemma EightDistinctLabels()
    ensures DistinctLabels(TimeSlots)
    ensures |set l | l in TimeSlots| == 8
  {
    assert DistinctLabels(TimeSlots);
    DistinctLabelsCount(TimeSlots);
  }

  /**
   With a new `category` column at most eight labels are reported, and exactly eight
   if and only if every slot holds at least one row.
   */
  lemma EightLabelsAtMost(rows: seq<Row>)
    requires Unlabelled(rows)
    ensures |Tally(LabelTable(rows))| <= |TimeSlots|
    ensures |Tally(LabelTable(rows))| == |TimeSlots| <==> forall k :: 0 <= k < |TimeSlots| ==> Occupied(rows, k)
  {
    var counts := Tally(LabelTable(rows));
    var all := set l | l in TimeSlots;
    EightDistinctLabels();
    TallyKeysAreSlotLabels(rows);
    assert all == counts.Keys + (all - counts.Keys);
    assert |counts| == |counts.Keys| <= |all|;
    if forall k :: 0 <= k < |TimeSlots| ==> Occupied(rows, k) {
      forall l | l in all ensures l in counts {
        var k :| 0 <= k < |TimeSlots| && TimeSlots[k] == l;
        TallyReportsOccupiedSlots(rows, k);
      }
      assert counts.Keys == all;
    }
    if |counts| == |TimeSlots| {
      forall k | 0 <= k < |TimeSlots| ensures Occupied(rows, k) {
        if TimeSlots[k] !in counts {
          assert false;
        }
        TallyReportsOccupiedSlots(rows, k);
      }
    }
  }

  /**
   With a new `category` column, the count reported for slot `k`'s label (zero when
   it is absent) is the number of rows whose hour lies in [3k, 3k + 3).
   */
  lemma {:induction false} SlotCountIsReported(rows: seq<Row>, k: int)
    requires Unlabelled(rows)
    requires 0 <= k < |TimeSlots|
    ensures (if TimeSlots[k] in Tally(LabelTable(rows)) then Tally(LabelTable(rows))[TimeSlots[k]] else 0)
            == SlotCount(rows, k)
  {
    if rows != [] {
      var prefix, r := rows[..|rows| - 1], rows[|rows| - 1];
      assert Unlabelled(prefix);
      SlotCountIsReported(prefix, k);
      assert prefix + [r] == rows;
      AppendedRowCounts(prefix, r);
      if 0 <= r.hour < 24 {
        EightDistinctLabels();
        assert TimeSlots[k] == TimeSlots[r.hour / 3] <==> InSlot(r.hour, k);
      } else {
        assert !InSlot(r.hour, k);
      }
    }
  }

  /** Adding one to the count of `l` adds one to a sum over distinct labels exactly when `l` is among them. */
  lemma {:induction false} SumOverCountOne(ls: seq<string>, counts: map<string, nat>, l: string)
    requires DistinctLabels(ls)
    ensures SumOver(ls, CountOne(counts, Some(l))) == SumOver(ls, counts) + (if l in ls then 1 else 0)
  {
    if ls != [] {
      assert DistinctLabels(ls[1..]);
      SumOverCountOne(ls[1..], counts, l);
      assert l in ls <==> l == ls[0] || l in ls[1..];
      assert l == ls[0] ==> l !in ls[1..];
    }
  }

  /** Labels that were never counted add nothing. */
  lemma {:induction false} SumOverNoCounts(ls: seq<string>)
    ensures SumOver(ls, map[]) == 0
  {
    if ls != [] {
      SumOverNoCounts(ls[1..]);
    }
  }

  /**
   With a new `category` column, the counts over the eight slot labels add up to the
   number of rows whose hour lies in [0, 24): every such row is counted once, and no
   other row is counted.
   */
  lemma {:induction false} CountsSumToInRangeRows(rows: seq<Row>)
    requires Unlabelled(rows)
    ensures SumOver(TimeSlots, Tally(LabelTable(rows))) == InRangeCount(rows)
  {
    if rows != [] {
      var prefix, r := rows[..|rows| - 1], rows[|rows| - 1];
      assert Unlabelled(prefix);
      CountsSumToInRangeRows(prefix);
      TallyLastRow(rows);
      LabelOfUnlabelledRow(r);
      if 0 <= r.hour < 24 {
        assert DistinctLabels(TimeSlots);
        SumOverCountOne(TimeSlots, Tally(LabelTable(prefix)), TimeSlots[r.hour / 3]);
      }
    } else {
      SumOverNoCounts(TimeSlots);
    }
  }

  /**
   Appending a row to a table whose `category` column is new: a row with an hour in
   [0, 24) adds one to the count of its slot's label, any other row changes no count.
   */
  lemma AppendedRowCounts(rows: seq<Row>, r: Row)
    requires r.category == None
    ensures 0 <= r.hour < 24 ==>
              Tally(LabelTable(rows + [r])) == CountOne(Tally(LabelTable(rows)), Some(TimeSlots[r.hour / 3]))
    ensures !(0 <= r.hour < 24) ==> Tally(LabelTable(rows + [r])) == Tally(LabelTable(rows))
  {
    TallyLastRow(rows + [r]);
    assert (rows + [r])[..|rows|] == rows;
    LabelOfUnlabelledRow(r);
  }

  /**
   `group_by_time`: write the slot label of every row with an hour in [0, 24) into its
   `category` entry, slot by slot, then report the count per label.
   */
  method GroupByTime(df: array<Row>) returns (counts: map<string, nat>)
    modifies df
    ensures df[..] == LabelTable(old(df[..]))
    ensures forall i :: 0 <= i < df.Length && 0 <= old(df[i].hour) < 24 ==>
              df[i] == old(df[i]).(category := Some(TimeSlots[old(df[i].hour) / 3]))
    ensures forall i :: 0 <= i < df.Length && !(0 <= old(df[i].hour) < 24) ==> df[i] == old(df[i])
    ensures counts == Tally(df[..])
  {
    ghost var orig := df[..];
    var hour := 0;
    while hour < 24
      invariant 0 <= hour <= 24 && hour % 3 == 0
      invariant forall j :: 0 <= j < df.Length ==>
                  df[j] == if 0 <= orig[j].hour < hour then LabelRow(orig[j]) else orig[j]
    {
      // The vectorised write of one slot's label to every row whose hour is in [hour, hour + 3).
      var i := 0;
      while i < df.Length
        invariant 0 <= i <= df.Length
        invariant forall j :: 0 <= j < i ==>
                    df[j] == if 0 <= orig[j].hour < hour + 3 then LabelRow(orig[j]) else orig[j]
        invariant forall j :: i <= j < df.Length ==>
                    df[j] == if 0 <= orig[j].hour < hour then LabelRow(orig[j]) else orig[j]
      {
        if df[i].hour >= hour && df[i].hour < hour + 3 {
          assert InSlot(orig[i].hour, hour / 3);
          df[i] := df[i].(category := Some(TimeSlots[hour / 3]));
        }
        i := i + 1;
      }
      hour := hour + 3;
    }
    LabelTableRows(orig);
    assert df[..] == LabelTable(orig);
    counts := Tally(df[..]);
  }
}
