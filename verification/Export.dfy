/** Trimming an export to what one response can carry. */
module Export {
  import opened Text
  import Csv

  const MAX_EXPORT_ROWS: nat := 10000
  const MAX_EXPORT_BYTES: nat := 4500000

  datatype ExportBody<T> = ExportBody(rows: seq<T>, complete: bool)

  /** The columns every download has. */
  const EXPORT_COLUMNS := [
    "repoId", "repoFullName", "runId", "jobId", "status", "flavor", "workflowName", "jobName", "createdAt",
    "runningAt", "updatedAt", "wallClockSeconds", "billableSeconds", "costBasis", "estimatedCostUsd"]

  /** The body of `k` rows is allowed, and fits. */
  ghost predicate Fits<T>(rows: seq<T>, measure: seq<T> -> nat, k: nat) {
    k <= |rows| && k <= MAX_EXPORT_ROWS && measure(rows[..k]) <= MAX_EXPORT_BYTES
  }

  ghost predicate Monotone<T>(rows: seq<T>, measure: seq<T> -> nat) {
    forall a: nat, b: nat :: a <= b <= |rows| ==> measure(rows[..a]) <= measure(rows[..b])
  }

  /**
   * The longest prefix within both caps, or no rows when not even the empty body fits; `complete`
   * exactly when nothing was dropped from a body that fits.
   */
  method BoundExportRows<T>(rows: seq<T>, measure: seq<T> -> nat) returns (body: ExportBody<T>)
    requires Monotone(rows, measure)
    ensures body.rows <= rows
    ensures Fits(rows, measure, |body.rows|) || (body.rows == [] && forall k: nat :: !Fits(rows, measure, k))
    ensures forall k: nat :: Fits(rows, measure, k) ==> k <= |body.rows|
    ensures body.complete <==> Fits(rows, measure, |rows|)
    ensures (body.complete <==> body.rows == rows) <==> rows != [] || measure([]) <= MAX_EXPORT_BYTES
  {
    var capped := if |rows| > MAX_EXPORT_ROWS then rows[..MAX_EXPORT_ROWS] else rows;
    var n := |capped|;
    assert capped == rows[..n];
    if measure(capped) <= MAX_EXPORT_BYTES {
      assert rows[..|rows|] == rows;
      return ExportBody(capped, n == |rows|);
    }
    forall k: nat | k >= n ensures !Fits(rows, measure, k) {
      if n <= k <= |rows| {
        assert measure(rows[..n]) <= measure(rows[..k]);
      }
    }
    var lo, hi := 0, n - 1;
    while lo < hi
      invariant 0 <= lo <= n && hi < n && (lo <= hi || (lo == 0 && hi == -1))
      invariant lo == 0 || measure(rows[..lo]) <= MAX_EXPORT_BYTES
      invariant forall k: nat :: k > hi ==> !Fits(rows, measure, k)
    {
      var mid := (lo + hi + 1) / 2;
      assert capped[..mid] == rows[..mid];
      if measure(capped[..mid]) <= MAX_EXPORT_BYTES {
        lo := mid;
      } else {
        forall k: nat | k >= mid ensures !Fits(rows, measure, k) {
          if mid <= k <= |rows| {
            assert measure(rows[..mid]) <= measure(rows[..k]);
          }
        }
        hi := mid - 1;
      }
    }
    assert capped[..lo] == rows[..lo];
    assert forall k: nat :: k <= |rows| ==> measure(rows[..0]) <= measure(rows[..k]);
    body := ExportBody(capped[..lo], false);
  }

  lemma ColumnsAreShort(columns: seq<string>)
    requires columns == EXPORT_COLUMNS
    ensures |columns| == 15 && forall i :: 0 <= i < |columns| ==> |Csv.Escape(columns[i])| < 37
  {
    forall i | 0 <= i < |columns| ensures |Csv.Escape(columns[i])| < 37 {
      Csv.EscapeAtMost(columns[i], 16);
    }
  }

  /** The header alone always fits. */
  lemma HeaderFits(width: char -> nat)
    requires forall c :: width(c) <= 4
    ensures Csv.Bytes(width, Csv.ToCsv(EXPORT_COLUMNS, [])) <= MAX_EXPORT_BYTES
  {
    var text := Csv.ToCsv(EXPORT_COLUMNS, []);
    assert [EXPORT_COLUMNS] + [] == [EXPORT_COLUMNS];
    assert text == Csv.RowText(EXPORT_COLUMNS);
    ColumnsAreShort(EXPORT_COLUMNS);
    Csv.RowAtMost(EXPORT_COLUMNS, 37);
    Csv.BytesAtMost(width, text, 4);
  }

  /**
   * The CSV download: at most the byte cap, `complete` exactly when the read was complete and no row
   * was dropped, and a reader gives back the header and every kept row, guarded.
   */
  method ExportCsv(rows: seq<seq<string>>, width: char -> nat, fetchedAll: bool)
    returns (text: string, complete: bool, ghost kept: seq<seq<string>>)
    requires (forall i :: 0 <= i < |rows| ==> |rows[i]| == |EXPORT_COLUMNS|) && forall c :: width(c) <= 4
    ensures kept <= rows && text == Csv.ToCsv(EXPORT_COLUMNS, kept) && Csv.Bytes(width, text) <= MAX_EXPORT_BYTES
    ensures complete <==> fetchedAll && kept == rows
    ensures Csv.Parse(text) == Some([Csv.GuardedRow(EXPORT_COLUMNS)] + Csv.GuardedTable(kept))
  {
    var columns := EXPORT_COLUMNS;
    HeaderFits(width);
    var measure: seq<seq<string>> -> nat := r => Csv.Bytes(width, Csv.ToCsv(columns, r));
    forall a: nat, b: nat | a <= b <= |rows| ensures measure(rows[..a]) <= measure(rows[..b]) {
      Csv.CsvSizeMonotone(width, columns, rows, a, b);
    }
    var body := BoundExportRows(rows, measure);
    assert rows[..0] == [] && Fits(rows, measure, 0);
    assert rows[..|rows|] == rows && rows[..|body.rows|] == body.rows;
    Csv.CsvReadsBack(columns, body.rows);
    text, complete, kept := Csv.ToCsv(columns, body.rows), fetchedAll && body.complete, body.rows;
  }
}
