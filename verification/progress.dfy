/** What `process_file` reports to its progress bar and status line, recorded as a sequence of events. */
module Progress {

  /** The status lines, without the elapsed time shown in the last one. */
  datatype Status =
    | Sorted                                   // "Sorting file..."
    | Concatenated                             // "Creating concatenated column..."
    | TranslationStarted                       // "Translating descriptions..."
    | RowsProcessed(row: nat, total: nat)      // "Translating... {i}/{total_rows} rows processed"
    | TranslationCompleted                     // "Translation completed!"
    | ProcessingComplete                       // "Processing complete in ... seconds!"

  datatype Event =
    | Bar(percent: int)                        // progress_bar.progress(percent)
    | Text(status: Status)                     // status_placeholder.text(...)
    | MissingColumnsError(columns: seq<string>) // st.error("Missing columns: ...")

  /** Rows between two progress reports of the translation scan. */
  const ReportEvery: nat := 100

  /** The progress bar during translation: the scan's position mapped into the band [30, 80). */
  function Percent(row: nat, total: nat): (p: int)
    requires row < total
    ensures 30 <= p < 80
  {
    assert 50 * row < 50 * total;
    30 + (50 * row) / total
  }

  /** Rows further on never show a smaller percentage. */
  lemma PercentMonotone(i: nat, j: nat, total: nat)
    requires i <= j < total
    ensures Percent(i, total) <= Percent(j, total)
  {
    DivMonotone(50 * i, 50 * j, total);
  }

  lemma {:induction false} MulMonotone(d: nat, x: int, y: int)
    requires x <= y
    ensures d * x <= d * y
  {
    if d > 0 {
      MulMonotone(d - 1, x, y);
      assert d * x == (d - 1) * x + x;
      assert d * y == (d - 1) * y + y;
    }
  }

  lemma DivMonotone(a: nat, b: nat, d: nat)
    requires a <= b && d > 0
    ensures a / d <= b / d
  {
    if a / d > b / d {
      MulMonotone(d, b / d + 1, a / d);
      assert false;
    }
  }

  /** The events the translation loop emits while it handles its first `n` rows out of `total`. */
  function ScanEvents(total: nat, n: nat): (es: seq<Event>)
    requires n <= total
    ensures |es| == 2 * Reports(n)
  {
    if n == 0 then []
    else
      assert Reports(n) == Reports(n - 1) + (if (n - 1) % ReportEvery == 0 then 1 else 0);
      ScanEvents(total, n - 1)
      + (if (n - 1) % ReportEvery == 0
         then [Bar(Percent(n - 1, total)), Text(RowsProcessed(n - 1, total))]
         else [])
  }

  /** Number of rows among the first `n` whose index is a multiple of 100. */
  function Reports(n: nat): nat
  {
    (n + ReportEvery - 1) / ReportEvery
  }

  /** The loop's events, exactly: for the m-th multiple of 100 below `n`, the bar moves to that
      row's percentage and then the status reports that row. Nothing is emitted for an empty table. */
  lemma {:induction false} ScanEventsShape(total: nat, n: nat)
    requires n <= total
    ensures |ScanEvents(total, n)| == 2 * Reports(n)
    ensures forall m :: 0 <= m < Reports(n) ==>
              && ScanEvents(total, n)[2 * m] == Bar(Percent(ReportEvery * m, total))
              && ScanEvents(total, n)[2 * m + 1] == Text(RowsProcessed(ReportEvery * m, total))
  {
    if n > 0 {
      ScanEventsShape(total, n - 1);
      if (n - 1) % ReportEvery == 0 {
        assert Reports(n) == Reports(n - 1) + 1;
        assert ReportEvery * Reports(n - 1) == n - 1;
      } else {
        assert Reports(n) == Reports(n - 1);
      }
    }
  }

  /** A row is reported while the loop runs exactly when its index is a multiple of 100. */
  lemma RowReported(total: nat, row: nat, t: nat)
    ensures Text(RowsProcessed(row, t)) in ScanEvents(total, total)
        <==> row < total && row % ReportEvery == 0 && t == total
  {
    if Text(RowsProcessed(row, t)) in ScanEvents(total, total) {
      ReportedRowIsMultiple(total, total, row, t);
    }
    if row < total && row % ReportEvery == 0 && t == total {
      MultipleRowIsReported(total, row);
    }
  }

  /** Only multiples of 100 below the rows handled so far are reported, each with the row count. */
  lemma {:induction false} ReportedRowIsMultiple(total: nat, n: nat, row: nat, t: nat)
    requires n <= total
    requires Text(RowsProcessed(row, t)) in ScanEvents(total, n)
    ensures row < n && row % ReportEvery == 0 && t == total
  {
    var prev := ScanEvents(total, n - 1);
    var last := if (n - 1) % ReportEvery == 0
                then [Bar(Percent(n - 1, total)), Text(RowsProcessed(n - 1, total))]
                else [];
    assert ScanEvents(total, n) == prev + last;
    if Text(RowsProcessed(row, t)) in prev {
      ReportedRowIsMultiple(total, n - 1, row, t);
    }
  }

  /** Every multiple of 100 below the row count is reported. */
  lemma MultipleRowIsReported(total: nat, row: nat)
    requires row < total && row % ReportEvery == 0
    ensures Text(RowsProcessed(row, total)) in ScanEvents(total, total)
  {
    var es := ScanEvents(total, total);
    ScanEventsShape(total, total);
    var m := row / ReportEvery;
    assert row == ReportEvery * m;
    assert m < Reports(total);
    assert es[2 * m + 1] == Text(RowsProcessed(row, total));
  }

  /** The progress bar never moves backwards. */
  ghost predicate BarNonDecreasing(es: seq<Event>)
  {
    forall i, j :: 0 <= i < j < |es| && es[i].Bar? && es[j].Bar? ==> es[i].percent <= es[j].percent
  }

  /** During translation the bar stays in [30, 80) and never moves backwards. */
  lemma {:induction false} ScanEventsBar(total: nat, n: nat)
    requires n <= total
    ensures forall k :: 0 <= k < |ScanEvents(total, n)| && ScanEvents(total, n)[k].Bar? ==>
              30 <= ScanEvents(total, n)[k].percent < 80 && ScanEvents(total, n)[k].percent <= Percent(n - 1, total)
    ensures BarNonDecreasing(ScanEvents(total, n))
  {
    if n > 0 {
      ScanEventsBar(total, n - 1);
      var prev := ScanEvents(total, n - 1);
      forall k | 0 <= k < |prev| && prev[k].Bar?
        ensures prev[k].percent <= Percent(n - 1, total)
      {
        PercentMonotone(n - 2, n - 1, total);
      }
    }
  }

  /** Everything a successful run shows, in order: sorting, concatenation, the translation loop over
      `total` rows, completion. */
  function RunEvents(total: nat): (es: seq<Event>)
    ensures |es| == 9 + 2 * Reports(total)
    ensures es[0] == Bar(10) && es[|es| - 1] == Text(ProcessingComplete)
  {
    [Bar(10), Text(Sorted), Bar(30), Text(Concatenated), Text(TranslationStarted)]
    + ScanEvents(total, total)
    + [Bar(80), Text(TranslationCompleted), Bar(100), Text(ProcessingComplete)]
  }

  /** Over a whole run the bar goes from 10 to 100 and never moves backwards. */
  lemma RunBarMonotone(total: nat)
    ensures BarNonDecreasing(RunEvents(total))
    ensures forall k :: 0 <= k < |RunEvents(total)| && RunEvents(total)[k].Bar? ==>
              10 <= RunEvents(total)[k].percent <= 100
  {
    ScanEventsBar(total, total);
    var head := [Bar(10), Text(Sorted), Bar(30), Text(Concatenated), Text(TranslationStarted)];
    var scan := ScanEvents(total, total);
    var es := RunEvents(total);
    forall k | 0 <= k < |es| && es[k].Bar?
      ensures (k < 2 ==> es[k].percent == 10)
      ensures (2 <= k < |head| + |scan| ==> 30 <= es[k].percent < 80)
      ensures (|head| + |scan| <= k ==> 80 <= es[k].percent <= 100)
    {
      if |head| <= k < |head| + |scan| {
        assert es[k] == scan[k - |head|];
      }
    }
  }
}
