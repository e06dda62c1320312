/**
 * The cleaning pass over the analysis table: keeps the rows whose fetch succeeded and encodes
 * each factor F01..F15 as 1 or 0, clearing the factors whose score is below an optional threshold.
 */
module CleanAnalysis {
  import opened Wrappers
  import opened AnalysisCsv

  /** A row of `csv.DictReader`: its cells by column name. */
  type CsvRow = map<string, string>

  /** `float(...)` on a cell, None when it raises ValueError; the parser itself is not part of this model. */
  type ParseFloat = string -> Option<real>

  /** The score of a factor: 0.0 when the column is missing or its cell does not parse. */
  function ScoreOf(row: CsvRow, key: string, parse: ParseFloat): real
  {
    if key in row then parse(row[key]).GetOr(0.0) else 0.0
  }

  /** The raw cell of a factor, `'False'` when the column is missing. */
  function RawOf(row: CsvRow, fid: string): string
  {
    if fid in row then row[fid] else "False"
  }

  /** The encoded cell of factor `i`: `"1"` when present (and not below the threshold), else `"0"`. */
  function Encode(row: CsvRow, i: nat, threshold: Option<real>, parse: ParseFloat): (cell: string)
    requires 1 <= i <= 15
    ensures cell == "1" || cell == "0"
    ensures threshold.None? ==> (cell == "1" <==> RawOf(row, FactorId(i)) == "True")
    ensures threshold.Some? ==>
      (cell == "1" <==> RawOf(row, FactorId(i)) == "True" && ScoreOf(row, ScoreKey(FactorId(i)), parse) >= threshold.value)
  {
    var fid := FactorId(i);
    var present := RawOf(row, fid) == "True";
    var score := ScoreOf(row, ScoreKey(fid), parse);
    var present' := if present && threshold.Some? && score < threshold.value then false else present;
    if present' then "1" else "0"
  }

  /** The threshold only clears factors, it never sets one. */
  lemma ThresholdOnlyClears(row: CsvRow, i: nat, t: real, parse: ParseFloat)
    requires 1 <= i <= 15
    ensures Encode(row, i, Some(t), parse) == "1" ==> Encode(row, i, None, parse) == "1"
  {
  }

  /** The factor loop: factors `F01..Fn` replaced by their encoding. */
  function Encoded(row: CsvRow, n: nat, threshold: Option<real>, parse: ParseFloat): CsvRow
    requires n <= 15
  {
    if n == 0 then row else Encoded(row, n - 1, threshold, parse)[FactorId(n) := Encode(row, n, threshold, parse)]
  }

  /** A cleaned row has the columns of the input row and the factors, and no other column. */
  lemma {:induction false} EncodedKeys(row: CsvRow, n: nat, threshold: Option<real>, parse: ParseFloat)
    requires n <= 15
    ensures Encoded(row, n, threshold, parse).Keys == row.Keys + set i | 1 <= i <= n :: FactorId(i)
  {
    if n > 0 {
      EncodedKeys(row, n - 1, threshold, parse);
      FactorIdsSnoc(n);
    }
  }

  lemma FactorIdsSnoc(n: nat)
    requires 1 <= n <= 15
    ensures (set i | 1 <= i <= n :: FactorId(i)) == (set i | 1 <= i <= n - 1 :: FactorId(i)) + {FactorId(n)}
  {
    var ids := set i | 1 <= i <= n :: FactorId(i);
    var ids' := set i | 1 <= i <= n - 1 :: FactorId(i);
    forall x | x in ids ensures x in ids' + {FactorId(n)} {
      var i :| 1 <= i <= n && x == FactorId(i);
      if i < n {
        assert x in ids';
      }
    }
  }

  /** Each factor cell of a cleaned row holds that factor's encoding. */
  lemma {:induction false} EncodedFactor(row: CsvRow, n: nat, threshold: Option<real>, parse: ParseFloat, i: nat)
    requires 1 <= i <= n <= 15
    ensures var r := Encoded(row, n, threshold, parse);
      FactorId(i) in r && r[FactorId(i)] == Encode(row, i, threshold, parse)
  {
    if i < n {
      EncodedFactor(row, n - 1, threshold, parse, i);
      FactorIdDistinct(i, n);
    }
  }

  /** Every column that is not a factor keeps its value, the score columns included. */
  lemma {:induction false} EncodedOther(row: CsvRow, n: nat, threshold: Option<real>, parse: ParseFloat, c: string)
    requires n <= 15 && c in row
    requires forall i :: 1 <= i <= n ==> c != FactorId(i)
    ensures var r := Encoded(row, n, threshold, parse); c in r && r[c] == row[c]
  {
    if n > 0 {
      EncodedOther(row, n - 1, threshold, parse, c);
    }
  }

  /** Every factor cell of a cleaned row is 1 or 0. */
  lemma EncodedBinary(row: CsvRow, threshold: Option<real>, parse: ParseFloat, i: nat)
    requires 1 <= i <= 15
    ensures var r := Encoded(row, 15, threshold, parse);
      FactorId(i) in r && (r[FactorId(i)] == "1" || r[FactorId(i)] == "0")
  {
    EncodedFactor(row, 15, threshold, parse, i);
  }

  /** `row.get('fetch_status') == 'success'`. */
  predicate Succeeded(row: CsvRow)
  {
    "fetch_status" in row && row["fetch_status"] == "success"
  }

  /** The reference: the successful rows, in input order. */
  function SuccessRows(rows: seq<CsvRow>): (r: seq<CsvRow>)
    ensures |r| <= |rows|
  {
    if rows == [] then []
    else SuccessRows(rows[..|rows| - 1]) + (if Succeeded(rows[|rows| - 1]) then [rows[|rows| - 1]] else [])
  }

  /** The loop's result: `processed_rows`, `total_count` and `success_count`. */
  datatype Counts = Counts(processed: seq<CsvRow>, total: nat, success: nat)

  function CleanRows(rows: seq<CsvRow>, threshold: Option<real>, parse: ParseFloat): Counts
  {
    if rows == [] then Counts([], 0, 0)
    else
      var c := CleanRows(rows[..|rows| - 1], threshold, parse);
      var row := rows[|rows| - 1];
      if !Succeeded(row) then c.(total := c.total + 1)
      else Counts(c.processed + [Encoded(row, 15, threshold, parse)], c.total + 1, c.success + 1)
  }

  /**
   * The output rows are the successful input rows, in order, each cleaned; `success_count` is
   * their number and `total_count` the number of input rows.
   */
  lemma {:induction false} CleanRowsReference(rows: seq<CsvRow>, threshold: Option<real>, parse: ParseFloat)
    ensures var c := CleanRows(rows, threshold, parse);
      var ok := SuccessRows(rows);
      c.total == |rows| && c.success == |c.processed| == |ok| <= c.total
      && forall k :: 0 <= k < |ok| ==> c.processed[k] == Encoded(ok[k], 15, threshold, parse)
  {
    if rows != [] {
      CleanRowsReference(rows[..|rows| - 1], threshold, parse);
    }
  }

  /** Each kept row is a successful input row: cleaning keeps `fetch_status`. */
  lemma KeptSucceeded(row: CsvRow, threshold: Option<real>, parse: ParseFloat)
    requires Succeeded(row)
    ensures Succeeded(Encoded(row, 15, threshold, parse))
  {
    forall i | 1 <= i <= 15 ensures "fetch_status" != FactorId(i) {
      assert FactorId(i)[0] == 'F';
    }
    EncodedOther(row, 15, threshold, parse, "fetch_status");
  }

  // ---------------------------------------------------------------------------
  // The output: `csv.DictWriter(f, fieldnames=headers)` with its default `extrasaction='raise'`

  /** `writerow` accepts a row only when every one of its columns is in the header. */
  predicate FitsHeader(row: CsvRow, header: seq<string>)
  {
    forall c :: c in row ==> c in header
  }

  /** What `writerows` gets out before it raises ValueError: the rows up to the first that does not fit. */
  function DictWriterRows(rows: seq<CsvRow>, header: seq<string>): (w: seq<CsvRow>)
    ensures |w| <= |rows| && w == rows[..|w|]
  {
    if rows == [] || !FitsHeader(rows[0], header) then []
    else [rows[0]] + DictWriterRows(rows[1..], header)
  }

  /** Every row written fits the header, and the row after them, if any, does not. */
  lemma {:induction false} DictWriterStops(rows: seq<CsvRow>, header: seq<string>)
    ensures var w := DictWriterRows(rows, header);
      (forall k :: 0 <= k < |w| ==> FitsHeader(w[k], header)) && (|w| < |rows| ==> !FitsHeader(rows[|w|], header))
  {
    if rows != [] && FitsHeader(rows[0], header) {
      DictWriterStops(rows[1..], header);
      var w := DictWriterRows(rows, header);
      assert w == [rows[0]] + DictWriterRows(rows[1..], header);
    }
  }

  /** When every row fits, all are written. */
  lemma {:induction false} DictWriterAll(rows: seq<CsvRow>, header: seq<string>)
    requires forall k :: 0 <= k < |rows| ==> FitsHeader(rows[k], header)
    ensures DictWriterRows(rows, header) == rows
  {
    if rows != [] {
      DictWriterAll(rows[1..], header);
    }
  }

  /** What `clean_data` ends with: no input file, or the header line (None when `writeheader` raises), the rows written, whether the write completed, and the two counts. */
  datatype CleanOutcome =
    | MissingInput
    | Cleaned(header: Option<seq<string>>, rows: seq<CsvRow>, saved: bool, total: nat, success: nat)

  /**
   * `clean_data` on the input file's `fieldnames` (None for an empty file) and rows. With
   * `fieldnames=None` `writeheader` raises TypeError and nothing is written.
   */
  function CleanData(input: Option<(Option<seq<string>>, seq<CsvRow>)>, threshold: Option<real>, parse: ParseFloat): CleanOutcome
  {
    match input
    case None => MissingInput
    case Some((header, rows)) =>
      var c := CleanRows(rows, threshold, parse);
      match header
      case None => Cleaned(None, [], false, c.total, c.success)
      case Some(h) =>
        var w := DictWriterRows(c.processed, h);
        Cleaned(Some(h), w, |w| == |c.processed|, c.total, c.success)
  }

  /** Every cleaned row has the columns `F01`..`F15`. */
  lemma CleanedHasFactors(row: CsvRow, threshold: Option<real>, parse: ParseFloat, i: nat)
    requires 1 <= i <= 15
    ensures FactorId(i) in Encoded(row, 15, threshold, parse)
  {
    EncodedFactor(row, 15, threshold, parse, i);
  }

  /**
   * A header without one of the factor columns: the first cleaned row already makes `writerows`
   * raise, so only the header line is written, and the write completes only when no row was kept.
   */
  lemma HeaderWithoutFactor(header: seq<string>, rows: seq<CsvRow>, threshold: Option<real>, parse: ParseFloat, i: nat)
    requires 1 <= i <= 15 && FactorId(i) !in header
    ensures var out := CleanData(Some((Some(header), rows)), threshold, parse);
      out.rows == [] && (out.saved <==> SuccessRows(rows) == [])
  {
    var c := CleanRows(rows, threshold, parse);
    CleanRowsReference(rows, threshold, parse);
    if c.processed != [] {
      CleanedHasFactors(SuccessRows(rows)[0], threshold, parse, i);
      assert !FitsHeader(c.processed[0], header);
    }
  }

  /**
   * A header holding the factor columns and every column of the successful rows: all of those
   * rows are written, cleaned and in order, and the write completes.
   */
  lemma HeaderWithFactors(header: seq<string>, rows: seq<CsvRow>, threshold: Option<real>, parse: ParseFloat)
    requires forall i :: 1 <= i <= 15 ==> FactorId(i) in header
    requires forall k :: 0 <= k < |rows| && Succeeded(rows[k]) ==> FitsHeader(rows[k], header)
    ensures var out := CleanData(Some((Some(header), rows)), threshold, parse);
      var ok := SuccessRows(rows);
      out.saved && |out.rows| == |ok| && forall k :: 0 <= k < |ok| ==> out.rows[k] == Encoded(ok[k], 15, threshold, parse)
  {
    var c := CleanRows(rows, threshold, parse);
    var ok := SuccessRows(rows);
    CleanRowsReference(rows, threshold, parse);
    forall k | 0 <= k < |ok| ensures FitsHeader(c.processed[k], header) {
      SuccessRowsFrom(rows, k);
      EncodedKeys(ok[k], 15, threshold, parse);
    }
    DictWriterAll(c.processed, header);
  }

  /** Every successful row is an input row that succeeded. */
  lemma {:induction false} SuccessRowsFrom(rows: seq<CsvRow>, k: nat)
    requires k < |SuccessRows(rows)|
    ensures Succeeded(SuccessRows(rows)[k]) && exists m :: 0 <= m < |rows| && rows[m] == SuccessRows(rows)[k]
  {
    var init := rows[..|rows| - 1];
    if k < |SuccessRows(init)| {
      SuccessRowsFrom(init, k);
      var m :| 0 <= m < |init| && init[m] == SuccessRows(init)[k];
      assert rows[m] == init[m];
    } else {
      assert rows[|rows| - 1] == SuccessRows(rows)[k];
    }
  }

  /** The factor loop over one row, assigning `cleaned_row[fid]`. */
  method CleanRow(row: CsvRow, threshold: Option<real>, parse: ParseFloat) returns (cleaned: CsvRow)
    ensures cleaned == Encoded(row, 15, threshold, parse)
  {
    cleaned := row;
    for i := 1 to 16
      invariant cleaned == Encoded(row, i - 1, threshold, parse)
    {
      var fid := FactorId(i);
      var scoreKey := ScoreKey(fid);
      var raw := if fid in row then row[fid] else "False";
      var isPresent := raw == "True";
      var score := if scoreKey in row then parse(row[scoreKey]).GetOr(0.0) else 0.0;
      if isPresent && threshold.Some? {
        if score < threshold.value {
          isPresent := false;
        }
      }
      cleaned := cleaned[fid := if isPresent then "1" else "0"];
    }
  }

  /** `writerows`: writes the rows in order and stops at the first that does not fit the header. */
  method WriteDictRows(rows: seq<CsvRow>, header: seq<string>) returns (written: seq<CsvRow>)
    ensures written == DictWriterRows(rows, header)
  {
    written := [];
    var k := 0;
    while k < |rows| && FitsHeader(rows[k], header)
      invariant k <= |rows| && DictWriterRows(rows, header) == written + DictWriterRows(rows[k..], header)
    {
      assert rows[k..][1..] == rows[k + 1..];
      written := written + [rows[k]];
      k := k + 1;
    }
  }

  /** `clean_data`: the row loop with its two counters, then the header and the rows written. */
  method CleanDataMain(input: Option<(Option<seq<string>>, seq<CsvRow>)>, threshold: Option<real>, parse: ParseFloat)
    returns (outcome: CleanOutcome)
    ensures outcome == CleanData(input, threshold, parse)
  {
    if input.None? {
      return MissingInput;
    }
    var (header, rows) := input.value;
    var processed: seq<CsvRow> := [];
    var total: nat := 0;
    var success: nat := 0;
    for k := 0 to |rows|
      invariant CleanRows(rows[..k], threshold, parse) == Counts(processed, total, success)
    {
      assert rows[..k + 1][..k] == rows[..k];
      var row := rows[k];
      total := total + 1;
      if !("fetch_status" in row && row["fetch_status"] == "success") {
        continue;
      }
      success := success + 1;
      var cleaned := CleanRow(row, threshold, parse);
      processed := processed + [cleaned];
    }
    assert rows[..|rows|] == rows;
    if header.None? {
      return Cleaned(None, [], false, total, success);
    }
    var written := WriteDictRows(processed, header.value);
    return Cleaned(header, written, |written| == |processed|, total, success);
  }
}
