/**
 * The two pieces of the dashboard that compute rather than draw: the list
 * of senders offered in the picker, and the heatmap with its columns put in
 * the order of the hours of the day.
 */
module App {
  import opened Common
  import opened Text
  import opened Counting
  import opened Preprocessor
  import opened Helper

  // ---------------------------------------------------------------------
  // The sender picker.

  /**
   * The picker list: `df['user'].unique()`, the group-notification entry
   * removed, sorted, and "Overall" put in front. After "Overall" come the
   * senders other than the group notifications, each once, ascending.
   */
  method UserPicker(users: seq<string>) returns (list: seq<string>)
    ensures |list| >= 1 && list[0] == Overall
    ensures GroupNotification !in list[1..]
    ensures forall i, j :: 1 <= i < j < |list| ==> Less(list[i], list[j])
    ensures forall u :: u in list[1..] <==> u in users && u != GroupNotification
  {
    var userList := Keys(Count(users));
    UniqueKeys(users);
    if GroupNotification in userList {
      var i := First(userList, GroupNotification);
      RemoveOnce(userList, i);
      userList := userList[..i] + userList[i + 1..];
    }
    assert forall u :: u in userList <==> u in users && u != GroupNotification;
    var sorted := Sort(userList);
    SortedPicker(userList);
    list := [Overall] + sorted;
    assert list[1..] == sorted;
  }

  /** `unique()`: every value once, and nothing else. */
  lemma UniqueKeys(users: seq<string>)
    ensures Distinct(Keys(Count(users)))
    ensures forall u :: u in Keys(Count(users)) <==> u in users
  {
    var t := Count(users);
    forall u | u in Keys(t) ensures u in users {
      var i :| 0 <= i < |t| && Keys(t)[i] == u;
    }
  }

  /** Sorting names that occur once each gives a strictly ascending list of the same names. */
  lemma SortedPicker(names: seq<string>)
    requires Distinct(names)
    ensures forall i, j :: 0 <= i < j < |Sort(names)| ==> Less(Sort(names)[i], Sort(names)[j])
    ensures forall u :: u in Sort(names) <==> u in names
  {
    SortStrict(names);
    assert forall u :: u in Sort(names) <==> u in multiset(names);
  }

  /** Taking out one element of a sequence without repetitions leaves the others, still without repetitions. */
  lemma RemoveOnce<T>(xs: seq<T>, i: nat)
    requires Distinct(xs) && i < |xs|
    ensures Distinct(xs[..i] + xs[i + 1..])
    ensures forall x :: x in xs[..i] + xs[i + 1..] <==> x in xs && x != xs[i]
  {
    var r := xs[..i] + xs[i + 1..];
    forall a, b | 0 <= a < b < |r| ensures r[a] != r[b] {
      var a' := if a < i then a else a + 1;
      var b' := if b < i then b else b + 1;
      assert r[a] == xs[a'] && r[b] == xs[b'];
    }
    forall x ensures x in r <==> x in xs && x != xs[i] {
      if x in xs && x != xs[i] {
        var k :| 0 <= k < |xs| && xs[k] == x;
        if k < i {
          assert r[k] == x;
        } else {
          assert r[k - 1] == x;
        }
      }
      if x in r {
        var k :| 0 <= k < |r| && r[k] == x;
        if k < i {
          assert xs[k] == x;
        } else {
          assert xs[k + 1] == x;
        }
      }
    }
  }

  // ---------------------------------------------------------------------
  // The heatmap's columns.

  /** The dashboard's column order: one label per hour of the day, midnight first. */
  const PeriodOrder: seq<string> := [
    "12 AM - 1 AM", "1 AM - 2 AM", "2 AM - 3 AM", "3 AM - 4 AM", "4 AM - 5 AM", "5 AM - 6 AM",
    "6 AM - 7 AM", "7 AM - 8 AM", "8 AM - 9 AM", "9 AM - 10 AM", "10 AM - 11 AM", "11 AM - 12 PM",
    "12 PM - 1 PM", "1 PM - 2 PM", "2 PM - 3 PM", "3 PM - 4 PM", "4 PM - 5 PM", "5 PM - 6 PM",
    "6 PM - 7 PM", "7 PM - 8 PM", "8 PM - 9 PM", "9 PM - 10 PM", "10 PM - 11 PM", "11 PM - 12 AM"
  ]

  /** A table: column labels without repeats, one row of cells per row label, one cell per column. */
  predicate Shaped(h: Heatmap) {
    && Distinct(h.columns)
    && |h.cells| == |h.rows|
    && forall d :: 0 <= d < |h.cells| ==> |h.cells[d]| == |h.columns|
  }

  /** The cell of row `d` under `column` after `reindex(columns=..., fill_value=0)`. */
  function Pick(h: Heatmap, d: nat, column: string): Cell
    requires Shaped(h) && d < |h.rows|
  {
    if column in h.columns then h.cells[d][First(h.columns, column)] else Number(0)
  }

  /**
   * `h.reindex(columns=order, fill_value=0)`: the columns become `order`; a
   * label `h` has keeps its cells, a label it lacks becomes a column of
   * zeros, and a column whose label is not in `order` is dropped.
   */
  function Reindex(h: Heatmap, order: seq<string>): (r: Heatmap)
    requires Shaped(h)
    ensures r.rows == h.rows && r.columns == order && |r.cells| == |h.rows|
    ensures forall d :: 0 <= d < |r.cells| ==> |r.cells[d]| == |order|
    ensures Distinct(order) ==> Shaped(r)
    ensures forall d, c :: 0 <= d < |h.rows| && 0 <= c < |order| && order[c] !in h.columns ==>
      r.cells[d][c] == Number(0)
    ensures forall d, c, k :: 0 <= d < |h.rows| && 0 <= c < |order| && 0 <= k < |h.columns| && order[c] == h.columns[k] ==>
      r.cells[d][c] == h.cells[d][k]
  {
    var cells := seq(|h.rows|, d requires 0 <= d < |h.rows| =>
      seq(|order|, c requires 0 <= c < |order| => Pick(h, d, order[c])));
    forall k | 0 <= k < |h.columns| ensures First(h.columns, h.columns[k]) == k {
      DistinctColumnAt(h.columns, k);
    }
    Heatmap(h.rows, order, cells)
  }

  lemma DistinctColumnAt(columns: seq<string>, k: nat)
    requires Distinct(columns) && k < |columns|
    ensures First(columns, columns[k]) == k
  {
  }

  /**
   * The dashboard's use of the heatmap: nothing to show when the table is
   * empty (no row or no column), otherwise the table reindexed to the 24
   * labels of `PeriodOrder`.
   */
  function AlignHeatmap(h: Heatmap): (r: Option<Heatmap>)
    requires Shaped(h)
    ensures r.None? <==> h.rows == [] || h.columns == []
    ensures r.Some? ==> r.value.rows == h.rows && r.value.columns == PeriodOrder && Shaped(r.value)
    ensures r.Some? ==> r.value == Reindex(h, PeriodOrder)
    ensures r.Some? ==> forall d, c, k ::
      0 <= d < |h.rows| && 0 <= c < |PeriodOrder| && 0 <= k < |h.columns| && PeriodOrder[c] == h.columns[k] ==>
        r.value.cells[d][c] == h.cells[d][k]
  {
    if h.rows == [] || h.columns == [] then None
    else
      PeriodOrderDistinct();
      Some(Reindex(h, PeriodOrder))
  }

  // ---------------------------------------------------------------------
  // The labeller against the dashboard's column order.

  /** Outside hours 11 and 23, the label of an hour is the dashboard's label at that hour's place. */
  lemma PeriodOrderMatches(h: Hour)
    requires h != 11 && h != 23
    ensures PeriodOrder[h] == PeriodLabel(h)
  {
    if h <= 2 {
      MatchesNight(h);
    } else if h <= 5 {
      MatchesSmallHours(h);
    } else if h <= 8 {
      MatchesMorning(h);
    } else if h <= 10 {
      MatchesLateMorning(h);
    } else if h <= 14 {
      MatchesAfternoon(h);
    } else if h <= 17 {
      MatchesLateAfternoon(h);
    } else if h <= 20 {
      MatchesEvening(h);
    } else {
      MatchesLateEvening(h);
    }
  }

  lemma MatchesNight(h: Hour)
    requires 0 <= h <= 2
    ensures PeriodOrder[h] == PeriodLabel(h)
  {
    if h == 0 {
      assert PeriodOrder[0] == PeriodLabel(0);
    } else if h == 1 {
      assert PeriodOrder[1] == PeriodLabel(1);
    } else if h == 2 {
      assert PeriodOrder[2] == PeriodLabel(2);
    }
  }

  lemma MatchesSmallHours(h: Hour)
    requires 3 <= h <= 5
    ensures PeriodOrder[h] == PeriodLabel(h)
  {
    if h == 3 {
      assert PeriodOrder[3] == PeriodLabel(3);
    } else if h == 4 {
      assert PeriodOrder[4] == PeriodLabel(4);
    } else if h == 5 {
      assert PeriodOrder[5] == PeriodLabel(5);
    }
  }

  lemma MatchesMorning(h: Hour)
    requires 6 <= h <= 8
    ensures PeriodOrder[h] == PeriodLabel(h)
  {
    if h == 6 {
      assert PeriodOrder[6] == PeriodLabel(6);
    } else if h == 7 {
      assert PeriodOrder[7] == PeriodLabel(7);
    } else if h == 8 {
      assert PeriodOrder[8] == PeriodLabel(8);
    }
  }

  lemma MatchesLateMorning(h: Hour)
    requires 9 <= h <= 10
    ensures PeriodOrder[h] == PeriodLabel(h)
  {
    if h == 9 {
      assert PeriodOrder[9] == PeriodLabel(9);
    } else if h == 10 {
      assert PeriodOrder[10] == PeriodLabel(10);
    }
  }

  lemma MatchesAfternoon(h: Hour)
    requires 12 <= h <= 14
    ensures PeriodOrder[h] == PeriodLabel(h)
  {
    if h == 12 {
      assert PeriodOrder[12] == PeriodLabel(12);
    } else if h == 13 {
      assert PeriodOrder[13] == PeriodLabel(13);
    } else if h == 14 {
      assert PeriodOrder[14] == PeriodLabel(14);
    }
  }

  lemma MatchesLateAfternoon(h: Hour)
    requires 15 <= h <= 17
    ensures PeriodOrder[h] == PeriodLabel(h)
  {
    if h == 15 {
      assert PeriodOrder[15] == PeriodLabel(15);
    } else if h == 16 {
      assert PeriodOrder[16] == PeriodLabel(16);
    } else if h == 17 {
      assert PeriodOrder[17] == PeriodLabel(17);
    }
  }

  lemma MatchesEvening(h: Hour)
    requires 18 <= h <= 20
    ensures PeriodOrder[h] == PeriodLabel(h)
  {
    if h == 18 {
      assert PeriodOrder[18] == PeriodLabel(18);
    } else if h == 19 {
      assert PeriodOrder[19] == PeriodLabel(19);
    } else if h == 20 {
      assert PeriodOrder[20] == PeriodLabel(20);
    }
  }

  lemma MatchesLateEvening(h: Hour)
    requires 21 <= h <= 22
    ensures PeriodOrder[h] == PeriodLabel(h)
  {
    if h == 21 {
      assert PeriodOrder[21] == PeriodLabel(21);
    } else if h == 22 {
      assert PeriodOrder[22] == PeriodLabel(22);
    }
  }

  /** Each of the dashboard's labels is the one-hour period starting at its place. */
  lemma PeriodOrderReads(c: Hour)
    ensures ReadPeriod(PeriodOrder[c]) == Some((c, (c + 1) % 24))
  {
    if c == 11 {
      ReadsElevenAM(PeriodOrder[c]);
    } else if c == 23 {
      ReadsElevenPM(PeriodOrder[c]);
    } else {
      PeriodOrderMatches(c);
      PeriodLabelReadsBack(c);
    }
  }

  lemma ReadsElevenAM(text: string)
    requires text == PeriodOrder[11]
    ensures ReadPeriod(text) == Some((11, 12))
  {
    assert text == Numeral(11) + " AM" + " - " + Numeral(12) + " PM";
    ReadPeriodOfClocks(11, " AM", 12, " PM");
  }

  lemma ReadsElevenPM(text: string)
    requires text == PeriodOrder[23]
    ensures ReadPeriod(text) == Some((23, 0))
  {
    assert text == Numeral(11) + " PM" + " - " + Numeral(12) + " AM";
    ReadPeriodOfClocks(11, " PM", 12, " AM");
  }

  /** The dashboard's 24 labels are pairwise distinct. */
  lemma PeriodOrderDistinct()
    ensures Distinct(PeriodOrder)
  {
    forall i, j | 0 <= i < j < 24 ensures PeriodOrder[i] != PeriodOrder[j] {
      PeriodOrderReads(i);
      PeriodOrderReads(j);
    }
  }

  /**
   * An hour's label is one of the dashboard's columns exactly when the hour
   * is neither 11 nor 23: the labels `11 AM - 12 AM` and `11 PM - 12 PM`
   * match no column.
   */
  lemma PeriodLabelInOrder(h: Hour)
    ensures PeriodLabel(h) in PeriodOrder <==> h != 11 && h != 23
  {
    if h != 11 && h != 23 {
      PeriodOrderMatches(h);
    } else if PeriodLabel(h) in PeriodOrder {
      var c :| 0 <= c < 24 && PeriodOrder[c] == PeriodLabel(h);
      PeriodOrderReads(c);
      PeriodLabelReadsBack(h);
      assert false;
    }
  }

  /** No hour's label is `11 AM - 12 PM` or `11 PM - 12 AM`. */
  lemma UnusedColumns(h: Hour, c: Hour)
    requires c == 11 || c == 23
    ensures PeriodLabel(h) != PeriodOrder[c]
  {
    PeriodOrderReads(c);
    PeriodLabelReadsBack(h);
  }

  /** The sender's heatmap has one row per day name and as many cells per row as columns. */
  lemma ActivityHeatmapShaped(user: string, rs: seq<Record>)
    ensures Shaped(ActivityHeatmap(user, rs)) && |ActivityHeatmap(user, rs).rows| == 7
  {
    var h := ActivityHeatmap(user, rs);
    ActivityHeatmapCells(user, rs, 0, 0);
    forall d | 0 <= d < 7 ensures |h.cells[d]| == |h.columns| {
      ActivityHeatmapCells(user, rs, d, 0);
    }
    forall i, j | 0 <= i < j < |h.columns| ensures h.columns[i] != h.columns[j] {
      LessIrreflexive(h.columns[i]);
    }
  }

  /** On the rows `preprocess` builds, the label of column `c` (11 or 23) never occurs in the heatmap. */
  lemma ElevenAbsent(user: string, rs: seq<Record>, c: Hour)
    requires forall k :: 0 <= k < |rs| ==> WellFormed(rs[k])
    requires c == 11 || c == 23
    ensures PeriodOrder[c] !in ActivityHeatmap(user, rs).columns
  {
    var sel := Select(user, rs);
    ActivityHeatmapCells(user, rs, 0, 0);
    SelectWellFormed(user, rs);
    forall k | 0 <= k < |sel| ensures Map(sel, PeriodOf)[k] != PeriodOrder[c] {
      UnusedColumns(sel[k].hour, c);
    }
  }

  /**
   * On the rows `preprocess` builds, the dashboard's `11 AM - 12 PM` and
   * `11 PM - 12 AM` columns are zero in every row of the aligned heatmap.
   */
  lemma ElevenColumnsZero(user: string, rs: seq<Record>, c: Hour)
    requires forall k :: 0 <= k < |rs| ==> WellFormed(rs[k])
    requires c == 11 || c == 23
    ensures Shaped(ActivityHeatmap(user, rs))
    ensures var a := AlignHeatmap(ActivityHeatmap(user, rs));
      a.Some? ==> a.value.rows == DayNames && forall d :: 0 <= d < |a.value.rows| ==> a.value.cells[d][c] == Number(0)
  {
    ActivityHeatmapShaped(user, rs);
    ElevenAbsent(user, rs, c);
    AlignedAbsent(ActivityHeatmap(user, rs), c);
  }

  /** A label of `PeriodOrder` that the table lacks is a column of zeros once aligned. */
  lemma AlignedAbsent(h: Heatmap, c: Hour)
    requires Shaped(h) && PeriodOrder[c] !in h.columns
    ensures AlignHeatmap(h).Some? ==> forall d :: 0 <= d < |h.rows| ==> AlignHeatmap(h).value.cells[d][c] == Number(0)
  {
    if h.rows != [] && h.columns != [] {
      PeriodOrderDistinct();
      assert AlignHeatmap(h) == Some(Reindex(h, PeriodOrder));
    }
  }
}
