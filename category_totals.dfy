/**
 Category-total extraction (`values` in analysis.py).

 Each row gives a vehicle type, a person type and the number of occupants killed.
 Walking the rows in order, a row is recorded under its vehicle type when it is a
 subtotal row of any vehicle type but the grand total, or when it is the total row
 of motorcyclists or non-occupants.
 Recording assigns a dictionary key, so a vehicle type recorded twice keeps the value
 of its last recorded row. The number killed is only copied, so its type `V` is opaque.
 */
module CategoryTotals {

  /** One row of the table: `Vehicle Type`, `Person Type`, `Occupants Killed`. */
  datatype Row<V> = Row(vehicleType: string, personType: string, occupantsKilled: V)

  /** The two conditions under which a row is recorded. */
  predicate Recorded<V>(r: Row<V>)
  {
    || (r.vehicleType != "Total" && r.personType == "Subtotal")
    || ((r.vehicleType == "Motorcyclists" || r.vehicleType == "Nonoccupants") && r.personType == "Total")
  }

  /** The vehicle types of the recorded rows. */
  ghost function RecordedTypes<V>(rows: seq<Row<V>>): set<string>
  {
    set i | 0 <= i < |rows| && Recorded(rows[i]) :: rows[i].vehicleType
  }

  /** Row `i` is recorded under vehicle type `k`, and no later row is. */
  ghost predicate LastRecorded<V>(rows: seq<Row<V>>, k: string, i: int)
  {
    && 0 <= i < |rows| && Recorded(rows[i]) && rows[i].vehicleType == k
    && forall j :: i < j < |rows| && Recorded(rows[j]) ==> rows[j].vehicleType != k
  }

  /**
   The dictionary after the rows have been walked in order: a recorded row assigns
   its number killed to its vehicle type, any other row is skipped. The grand-total
   row is never recorded, so `"Total"` is never a key.
   */
  function TotalsOf<V>(rows: seq<Row<V>>): (totals: map<string, V>)
    ensures "Total" !in totals
  {
    if rows == [] then map[]
    else
      var r := rows[|rows| - 1];
      var totals := TotalsOf(rows[..|rows| - 1]);
      if Recorded(r) then totals[r.vehicleType := r.occupantsKilled] else totals
  }

  /**
   What the dictionary holds: exactly the vehicle types of recorded rows, each with
   the number killed of the last recorded row of that type (last write wins).
   */
  lemma {:induction false} TotalsOfLastWriteWins<V>(rows: seq<Row<V>>)
    ensures TotalsOf(rows).Keys == RecordedTypes(rows)
    ensures forall k, i :: LastRecorded(rows, k, i) ==>
              k in TotalsOf(rows) && TotalsOf(rows)[k] == rows[i].occupantsKilled
  {
    if rows != [] {
      var prefix, r := rows[..|rows| - 1], rows[|rows| - 1];
      TotalsOfLastWriteWins(prefix);
      if Recorded(r) {
        assert RecordedTypes(rows) == RecordedTypes(prefix) + {r.vehicleType};
      } else {
        assert RecordedTypes(rows) == RecordedTypes(prefix);
      }
      forall k, i | LastRecorded(rows, k, i)
        ensures k in TotalsOf(rows) && TotalsOf(rows)[k] == rows[i].occupantsKilled
      {
        if i < |rows| - 1 {
          assert LastRecorded(prefix, k, i);
        }
      }
    }
  }

  /** Each recorded vehicle type has a last recorded row, so the value of every key is determined. */
  lemma {:induction false} EveryKeyHasALastRow<V>(rows: seq<Row<V>>, k: string)
    requires k in TotalsOf(rows)
    ensures exists i :: LastRecorded(rows, k, i) && TotalsOf(rows)[k] == rows[i].occupantsKilled
  {
    var prefix, r := rows[..|rows| - 1], rows[|rows| - 1];
    if Recorded(r) && r.vehicleType == k {
      assert LastRecorded(rows, k, |rows| - 1);
    } else {
      EveryKeyHasALastRow(prefix, k);
      var i :| LastRecorded(prefix, k, i) && TotalsOf(prefix)[k] == prefix[i].occupantsKilled;
      assert LastRecorded(rows, k, i);
    }
  }

  /** A row that meets neither condition, anywhere in the table, leaves the dictionary unchanged. */
  lemma {:induction false} SkippedRowChangesNothing<V>(before: seq<Row<V>>, r: Row<V>, after: seq<Row<V>>)
    requires !Recorded(r)
    ensures TotalsOf(before + [r] + after) == TotalsOf(before + after)
  {
    if after == [] {
      assert before + [r] + after == before + [r];
      assert (before + [r])[..|before|] == before;
      assert before + after == before;
    } else {
      var last := after[|after| - 1];
      var rest := after[..|after| - 1];
      SkippedRowChangesNothing(before, r, rest);
      assert (before + [r] + after)[..|before| + 1 + |rest|] == before + [r] + rest;
      assert (before + after)[..|before| + |rest|] == before + rest;
    }
  }

  /**
   `values`: walk the rows in order and record the number killed of every row that
   meets one of the two conditions under its vehicle type.
   */
  method Values<V>(df: seq<Row<V>>) returns (totalKilled: map<string, V>)
    ensures totalKilled == TotalsOf(df)
    ensures totalKilled.Keys == RecordedTypes(df)
    ensures forall k, i :: LastRecorded(df, k, i) ==> k in totalKilled && totalKilled[k] == df[i].occupantsKilled
  {
    totalKilled := map[];
    for n := 0 to |df|
      invariant totalKilled == TotalsOf(df[..n])
    {
      var row := df[n];
      assert df[..n + 1][..n] == df[..n];
      if row.vehicleType != "Total" && row.personType == "Subtotal" {
        totalKilled := totalKilled[row.vehicleType := row.occupantsKilled];
      } else if (row.vehicleType == "Motorcyclists" || row.vehicleType == "Nonoccupants") && row.personType == "Total" {
        totalKilled := totalKilled[row.vehicleType := row.occupantsKilled];
      } else {
        continue;
      }
    }
    assert df[..|df|] == df;
    TotalsOfLastWriteWins(df);
  }
}
