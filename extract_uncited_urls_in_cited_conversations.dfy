/**
 * The join of the uncited URLs with the cited conversations: keeps the uncited rows whose
 * `conversation_id` has a cited row, in their original order.
 */
module UncitedInCited {
  import opened Wrappers
  import CleanAnalysis

  /** A row of `csv.DictReader`. */
  type CsvRow = map<string, string>

  const IdColumn := "conversation_id"

  /** `'conversation_id' in row and row['conversation_id']`. */
  predicate HasId(row: CsvRow)
  {
    IdColumn in row && row[IdColumn] != ""
  }

  /** The cited-id set: the non-empty ids of the cited rows. */
  function CitedIds(rows: seq<CsvRow>): set<string>
  {
    set k | 0 <= k < |rows| && HasId(rows[k]) :: rows[k][IdColumn]
  }

  /** The set holds exactly the ids of the cited rows that have one, and never the empty id. */
  lemma CitedIdsMembers(rows: seq<CsvRow>, id: string)
    ensures id in CitedIds(rows) <==> exists k :: 0 <= k < |rows| && HasId(rows[k]) && rows[k][IdColumn] == id
    ensures "" !in CitedIds(rows)
  {
  }

  /** The first loop of `main`, adding one id at a time. */
  method CollectIds(rows: seq<CsvRow>) returns (ids: set<string>)
    ensures ids == CitedIds(rows)
  {
    ids := {};
    for k := 0 to |rows|
      invariant ids == CitedIds(rows[..k])
    {
      assert rows[..k + 1][..k] == rows[..k];
      var row := rows[k];
      if IdColumn in row && row[IdColumn] != "" {
        ids := ids + {row[IdColumn]};
      }
      assert CitedIds(rows[..k + 1]) == CitedIds(rows[..k]) + (if HasId(row) then {row[IdColumn]} else {}) by {
        var pre := rows[..k];
        var all := rows[..k + 1];
        assert forall m :: 0 <= m < k ==> all[m] == pre[m];
      }
    }
    assert rows[..|rows|] == rows;
  }

  /** The second loop: the rows whose id is in `ids`, in order; None when a row has no `conversation_id` (KeyError). */
  function Filtered(rows: seq<CsvRow>, ids: set<string>): Option<seq<CsvRow>>
  {
    if rows == [] then Some([])
    else
      var row := rows[|rows| - 1];
      match Filtered(rows[..|rows| - 1], ids)
      case None => None
      case Some(out) =>
        if IdColumn !in row then None
        else if row[IdColumn] in ids then Some(out + [row])
        else Some(out)
  }

  /** The filter keeps order: the rows of a concatenation are those of its parts, one after the other. */
  lemma {:induction false} FilteredConcat(a: seq<CsvRow>, b: seq<CsvRow>, ids: set<string>)
    requires Filtered(a, ids).Some? && Filtered(b, ids).Some?
    ensures Filtered(a + b, ids) == Some(Filtered(a, ids).value + Filtered(b, ids).value)
  {
    if b == [] {
      assert a + b == a;
      assert Filtered(b, ids).value == [];
      assert Filtered(a, ids).value + [] == Filtered(a, ids).value;
    } else {
      var init := b[..|b| - 1];
      assert (a + b)[..|a + b| - 1] == a + init;
      assert (a + b)[|a + b| - 1] == b[|b| - 1];
      assert Filtered(init, ids).Some?;
      FilteredConcat(a, init, ids);
      var row := b[|b| - 1];
      var fa, fi := Filtered(a, ids).value, Filtered(init, ids).value;
      assert Filtered(a + init, ids) == Some(fa + fi);
      assert IdColumn in row;
      if row[IdColumn] in ids {
        assert Filtered(b, ids).value == fi + [row];
        assert Filtered(a + b, ids) == Some(fa + fi + [row]);
        assert fa + fi + [row] == fa + (fi + [row]);
      } else {
        assert Filtered(b, ids).value == fi;
      }
    }
  }

  /** The filter succeeds exactly when every row has a `conversation_id` column. */
  lemma {:induction false} FilteredDefined(rows: seq<CsvRow>, ids: set<string>)
    ensures Filtered(rows, ids).Some? <==> forall k :: 0 <= k < |rows| ==> IdColumn in rows[k]
  {
    if rows != [] {
      var init := rows[..|rows| - 1];
      FilteredDefined(init, ids);
      assert forall k :: 0 <= k < |init| ==> init[k] == rows[k];
    }
  }

  /** A row is output exactly when it is an input row whose id is in the set. */
  lemma {:induction false} FilteredMembers(rows: seq<CsvRow>, ids: set<string>, r: CsvRow)
    requires Filtered(rows, ids).Some?
    ensures r in Filtered(rows, ids).value <==> r in rows && IdColumn in r && r[IdColumn] in ids
  {
    if rows != [] {
      var init := rows[..|rows| - 1];
      FilteredMembers(init, ids, r);
      FilteredDefined(rows, ids);
      if r in rows && r != rows[|rows| - 1] {
        var k :| 0 <= k < |rows| && rows[k] == r;
        assert init[k] == r;
      }
    }
  }

  /** Hence a row with an empty id is never output, whatever the cited file holds. */
  lemma EmptyIdNeverOutput(cited: seq<CsvRow>, uncited: seq<CsvRow>, r: CsvRow)
    requires Filtered(uncited, CitedIds(cited)).Some? && IdColumn in r && r[IdColumn] == ""
    ensures r !in Filtered(uncited, CitedIds(cited)).value
  {
    FilteredMembers(uncited, CitedIds(cited), r);
    CitedIdsMembers(cited, "");
  }

  method FilterRows(rows: seq<CsvRow>, ids: set<string>) returns (out: Option<seq<CsvRow>>)
    ensures out == Filtered(rows, ids)
  {
    var filtered: seq<CsvRow> := [];
    for k := 0 to |rows|
      invariant Filtered(rows[..k], ids) == Some(filtered)
    {
      assert rows[..k + 1][..k] == rows[..k];
      var row := rows[k];
      if IdColumn !in row {
        FilteredDefined(rows[..k + 1], ids);
        FilteredDefined(rows, ids);
        assert rows[..k + 1][k] == row;
        return None;
      }
      if row[IdColumn] in ids {
        filtered := filtered + [row];
      }
    }
    assert rows[..|rows|] == rows;
    return Some(filtered);
  }

  /**
   * A CSV file as `DictReader` sees it: its field names (None for an empty file) and its rows.
   * A long row's extra cells, which `DictReader` files under the key None, stand here as a column
   * outside the field names.
   */
  datatype Table = Table(fieldnames: Option<seq<string>>, rows: seq<CsvRow>)

  /**
   * What `main` ends with: a missing file, the KeyError of the filter loop, or the output file:
   * its header line (None when `writeheader` raises TypeError on `fieldnames=None`), the rows
   * `writerows` wrote, and whether the write completed (false when it raised).
   */
  datatype JoinOutcome =
    | MissingCited
    | MissingUncited
    | Raised
    | Written(header: Option<seq<string>>, rows: seq<CsvRow>, complete: bool)

  /** `main`; a file is None when it does not exist. */
  function Join(cited: Option<Table>, uncited: Option<Table>): JoinOutcome
  {
    match cited
    case None => MissingCited
    case Some(c) =>
      match uncited
      case None => MissingUncited
      case Some(u) =>
        match Filtered(u.rows, CitedIds(c.rows))
        case None => Raised
        case Some(rows) =>
          match u.fieldnames
          case None => Written(None, [], false)
          case Some(h) =>
            var w := CleanAnalysis.DictWriterRows(rows, h);
            Written(Some(h), w, |w| == |rows|)
  }

  /** A missing cited file ends the run before the uncited file is read. */
  lemma MissingCitedIgnoresUncited(u1: Option<Table>, u2: Option<Table>)
    ensures Join(None, u1) == Join(None, u2) == MissingCited
  {
  }

  /**
   * The output has the uncited file's field names, and every row written is an uncited row whose
   * id is cited; when the write completes, those are all of them.
   */
  lemma JoinOutput(c: Table, u: Table)
    requires Join(Some(c), Some(u)).Written?
    ensures var out := Join(Some(c), Some(u));
      out.header == u.fieldnames
      && (forall r :: r in out.rows ==> r in u.rows && HasId(r) && r[IdColumn] in CitedIds(c.rows))
      && (out.complete ==> forall r :: r in out.rows <==> r in u.rows && HasId(r) && r[IdColumn] in CitedIds(c.rows))
  {
    var out := Join(Some(c), Some(u));
    var f := Filtered(u.rows, CitedIds(c.rows)).value;
    assert out.rows == f[..|out.rows|];
    forall r ensures r in f <==> r in u.rows && HasId(r) && r[IdColumn] in CitedIds(c.rows) {
      FilteredMembers(u.rows, CitedIds(c.rows), r);
      CitedIdsMembers(c.rows, "");
      FilteredDefined(u.rows, CitedIds(c.rows));
    }
    if out.complete {
      assert out.rows == f;
    }
  }

  /** An empty uncited file has no field names: `writeheader` raises and the output stays empty. */
  lemma EmptyUncitedRaises(c: Table, u: Table)
    requires u.fieldnames.None? && u.rows == []
    ensures Join(Some(c), Some(u)) == Written(None, [], false)
  {
  }

  /**
   * `writerows` writes the joined rows in order up to the first with a column outside the field
   * names, and the write completes exactly when there is no such row.
   */
  lemma JoinWriterStops(c: Table, u: Table)
    requires Join(Some(c), Some(u)).Written? && u.fieldnames.Some?
    ensures var out := Join(Some(c), Some(u));
      var f := Filtered(u.rows, CitedIds(c.rows)).value;
      var h := u.fieldnames.value;
      out.rows == f[..|out.rows|]
      && (forall k :: 0 <= k < |out.rows| ==> CleanAnalysis.FitsHeader(out.rows[k], h))
      && (out.complete <==> |out.rows| == |f|)
      && (!out.complete ==> !CleanAnalysis.FitsHeader(f[|out.rows|], h))
  {
    CleanAnalysis.DictWriterStops(Filtered(u.rows, CitedIds(c.rows)).value, u.fieldnames.value);
  }

  /** When every uncited row has only the file's columns, every joined row is written. */
  lemma JoinCompletes(c: Table, u: Table)
    requires Join(Some(c), Some(u)).Written? && u.fieldnames.Some?
    requires forall k :: 0 <= k < |u.rows| ==> CleanAnalysis.FitsHeader(u.rows[k], u.fieldnames.value)
    ensures var out := Join(Some(c), Some(u));
      out.complete && out.rows == Filtered(u.rows, CitedIds(c.rows)).value
  {
    var f := Filtered(u.rows, CitedIds(c.rows)).value;
    var h := u.fieldnames.value;
    forall k | 0 <= k < |f| ensures CleanAnalysis.FitsHeader(f[k], h) {
      FilteredMembers(u.rows, CitedIds(c.rows), f[k]);
      var m :| 0 <= m < |u.rows| && u.rows[m] == f[k];
    }
    CleanAnalysis.DictWriterAll(f, h);
  }

  method JoinMain(cited: Option<Table>, uncited: Option<Table>) returns (outcome: JoinOutcome)
    ensures outcome == Join(cited, uncited)
  {
    if cited.None? {
      return MissingCited;
    }
    var ids := CollectIds(cited.value.rows);
    if uncited.None? {
      return MissingUncited;
    }
    var rows := FilterRows(uncited.value.rows, ids);
    if rows.None? {
      return Raised;
    }
    if uncited.value.fieldnames.None? {
      return Written(None, [], false);
    }
    var written := CleanAnalysis.WriteDictRows(rows.value, uncited.value.fieldnames.value);
    return Written(uncited.value.fieldnames, written, |written| == |rows.value|);
  }
}
