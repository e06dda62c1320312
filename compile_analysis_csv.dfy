/**
 * The analysis table: one row per agent result, with the factor columns F01..F15 and their
 * scores filled from the result's `factors`, cited results before uncited ones.
 */
module AnalysisCsv {
  import opened Wrappers
  import opened Strings
  import opened Json

  /** `f"F{i:02d}"`: `F`, then the two digits of `i`, which is below 20. */
  function FactorId(i: nat): string
    requires 1 <= i <= 15
  {
    if i < 10 then ['F', '0', DigitChar(i)] else ['F', '1', DigitChar(i - 10)]
  }

  /** `f"{fid}_score"`. */
  function ScoreKey(fid: string): string
  {
    fid + "_score"
  }

  lemma FactorIdInjective(i: nat, j: nat)
    requires 1 <= i <= 15 && 1 <= j <= 15 && FactorId(i) == FactorId(j)
    ensures i == j
  {
    assert FactorId(i)[1] == FactorId(j)[1] && FactorId(i)[2] == FactorId(j)[2];
  }

  lemma FactorIdDistinct(i: nat, j: nat)
    requires 1 <= i <= 15 && 1 <= j <= 15 && i != j
    ensures FactorId(i) != FactorId(j)
  {
    assert FactorId(i)[1] != FactorId(j)[1] || FactorId(i)[2] != FactorId(j)[2];
  }

  /** The four leading columns. */
  const FixedColumns: seq<string> := ["url", "is_cited", "fetch_status", "language"]

  /** `F01, F01_score, …, Fn, Fn_score`. */
  function FactorColumns(n: nat): (cols: seq<string>)
    requires n <= 15
    ensures |cols| == 2 * n
  {
    if n == 0 then [] else FactorColumns(n - 1) + [FactorId(n), ScoreKey(FactorId(n))]
  }

  const Header: seq<string> := FixedColumns + FactorColumns(15)

  lemma {:induction false} FactorColumnsAt(n: nat, i: nat)
    requires n <= 15 && 1 <= i <= n
    ensures FactorColumns(n)[2 * i - 2] == FactorId(i) && FactorColumns(n)[2 * i - 1] == ScoreKey(FactorId(i))
  {
    if i < n {
      FactorColumnsAt(n - 1, i);
    }
  }

  lemma {:induction false} FactorColumnsShape(n: nat)
    requires n <= 15
    ensures forall c :: c in FactorColumns(n) ==> c != [] && c[0] == 'F' && |c| <= 9
  {
    if n > 0 {
      FactorColumnsShape(n - 1);
    }
  }

  /** The header: the fixed columns, then each factor followed by its score, 34 columns in all. */
  lemma HeaderLayout()
    ensures |Header| == 34 && Header[..4] == FixedColumns
    ensures forall i :: 1 <= i <= 15 ==> Header[2 * i + 2] == FactorId(i) && Header[2 * i + 3] == ScoreKey(FactorId(i))
  {
    forall i | 1 <= i <= 15
      ensures Header[2 * i + 2] == FactorId(i) && Header[2 * i + 3] == ScoreKey(FactorId(i))
    {
      FactorColumnsAt(15, i);
    }
  }

  /** The factor ids a row is meant to hold. */
  function FactorIds(): set<string>
  {
    set i | 1 <= i <= 15 :: FactorId(i)
  }

  /** The header's columns as a set: the keys `DictWriter` accepts. */
  const HeaderKeys: set<string> := set c | c in Header

  // ---------------------------------------------------------------------------
  // parse_json_file

  /** A row is a dict from column name to value; `DictWriter` takes its cells in header order. */
  type Row = map<string, J>

  /** The four leading cells, read from `meta` with their defaults; None when `meta` is not a dict. */
  function BaseRow(meta: J, isCited: int): (r: Option<Row>)
    ensures r.Some? <==> meta.JObj?
    ensures r.Some? ==> r.value.Keys == set c | c in FixedColumns
  {
    if !meta.JObj? then None
    else
      Some(map[
        "url" := PyGet(meta, "url", JStr("")).value,
        "is_cited" := JNum(isCited as real),
        "fetch_status" := PyGet(meta, "fetch_status", JStr("unknown")).value,
        "language" := PyGet(meta, "language", JStr("unknown")).value])
  }

  /** The first loop: `F01..Fn` set to False and their scores to 0.0. */
  function Defaults(row: Row, n: nat): (r: Row)
    requires n <= 15
    ensures row.Keys <= r.Keys
    ensures forall i :: 1 <= i <= n ==> FactorId(i) in r && ScoreKey(FactorId(i)) in r
  {
    if n == 0 then row
    else Defaults(row, n - 1)[FactorId(n) := JBool(false)][ScoreKey(FactorId(n)) := JNum(0.0)]
  }

  lemma ScoreKeyNotFactor(i: nat, j: nat)
    requires 1 <= i <= 15 && 1 <= j <= 15
    ensures ScoreKey(FactorId(i)) != FactorId(j)
  {
    assert |ScoreKey(FactorId(i))| == 9;
  }

  lemma ScoreKeyInjective(a: string, b: string)
    requires ScoreKey(a) == ScoreKey(b)
    ensures a == b
  {
    assert a == ScoreKey(a)[..|a|];
    assert b == ScoreKey(b)[..|b|];
  }

  /** Column `c` is one of the factor or score columns of `F01..Fn`. */
  predicate IsFactorColumn(c: string, n: nat)
    requires n <= 15
  {
    exists i :: 1 <= i <= n && (c == FactorId(i) || c == ScoreKey(FactorId(i)))
  }

  lemma DistinctColumns(i: nat, n: nat)
    requires 1 <= i < n <= 15
    ensures FactorId(i) != FactorId(n) && FactorId(i) != ScoreKey(FactorId(n)) && ScoreKey(FactorId(i)) != ScoreKey(FactorId(n))
  {
    if FactorId(i) == FactorId(n) { FactorIdInjective(i, n); }
    ScoreKeyNotFactor(n, i);
    if ScoreKey(FactorId(i)) == ScoreKey(FactorId(n)) {
      ScoreKeyInjective(FactorId(i), FactorId(n));
      FactorIdInjective(i, n);
    }
  }

  /** The defaults add exactly the factor and score columns. */
  lemma {:induction false} DefaultsKeys(row: Row, n: nat, c: string)
    requires n <= 15
    ensures c in Defaults(row, n) <==> c in row || IsFactorColumn(c, n)
  {
    if n > 0 {
      DefaultsKeys(row, n - 1, c);
      if IsFactorColumn(c, n) && !IsFactorColumn(c, n - 1) {
        var i :| 1 <= i <= n && (c == FactorId(i) || c == ScoreKey(FactorId(i)));
        assert i == n;
      }
    }
  }

  /** Each factor starts False and each score 0.0. */
  lemma {:induction false} DefaultsValues(row: Row, n: nat, i: nat)
    requires 1 <= i <= n <= 15
    ensures Defaults(row, n)[FactorId(i)] == JBool(false)
    ensures Defaults(row, n)[ScoreKey(FactorId(i))] == JNum(0.0)
  {
    ScoreKeyNotFactor(n, n);
    if i < n {
      DefaultsValues(row, n - 1, i);
      DistinctColumns(i, n);
      ScoreKeyNotFactor(n, i);
    }
  }

  /** The other cells are left alone. */
  lemma {:induction false} DefaultsOthers(row: Row, n: nat, c: string)
    requires n <= 15 && c in row && !IsFactorColumn(c, n)
    ensures Defaults(row, n)[c] == row[c]
  {
    if n > 0 {
      assert c != FactorId(n) && c != ScoreKey(FactorId(n));
      assert !IsFactorColumn(c, n - 1);
      DefaultsOthers(row, n - 1, c);
      DefaultsKeys(row, n - 1, c);
    }
  }

  /** The `id` of a factor entry, None as its default; None when the entry is not a dict. */
  function IdOf(factor: J): Option<J>
  {
    PyGet(factor, "id", JNull)
  }

  /**
   * Which factor entries the loop applies. As written (line 36) an entry is applied when its id
   * is already a key of the row, so the fixed columns and the score columns qualify as well as
   * F01..F15; the comment at lines 34-35 means F01..F15 only. The script is modelled with
   * `AsWritten`; `Intended` is the corrected rule.
   */
  datatype Rule = AsWritten | Intended

  predicate Admits(rule: Rule, row: Row, fid: string)
  {
    match rule
    case AsWritten => fid in row
    case Intended => fid in FactorIds()
  }

  /**
   * One entry of the factor loop; None when the entry is not a dict or its `id` is unhashable.
   * An id that is not a string is never a key of the row.
   */
  function FactorStep(row: Row, factor: J, rule: Rule): Option<Row>
  {
    match IdOf(factor)
    case None => None
    case Some(fid) =>
      if !Hashable(fid) then None
      else if fid.JStr? && Admits(rule, row, fid.s) then
        Some(row[fid.s := PyGet(factor, "present", JBool(false)).value]
                [ScoreKey(fid.s) := PyGet(factor, "confidence_score", JNum(0.0)).value])
      else Some(row)
  }

  /** `url_score` is not one of the 34 columns. */
  lemma UrlScoreNotInHeader()
    ensures "url_score" !in Header
  {
    var cols := FactorColumns(15);
    NotFactorColumn("url_score", cols);
    assert "url_score" !in FixedColumns;
  }

  /** A column name that does not start with `F` is none of the factor columns. */
  lemma NotFactorColumn(c: string, cols: seq<string>)
    requires cols == FactorColumns(15) && c != [] && c[0] != 'F'
    ensures c !in cols
  {
    FactorColumnsShape(15);
  }

  /** As written, an entry whose id names a fixed column overwrites that cell and adds a column the header lacks. */
  lemma AsWrittenAcceptsUrlId(row: Row)
    requires "url" in row
    ensures var r := FactorStep(row, UrlEntry, AsWritten);
      r.Some? && r.value["url"] == JBool(true) && "url_score" in r.value && "url_score" !in Header
  {
    UrlEntryFields();
    AsWrittenHit(row, UrlEntry, "url", JBool(true));
    UrlScoreKey();
    UrlScoreNotInHeader();
  }

  /** An entry whose string id is already a key of the row overwrites that key and sets its score key. */
  lemma AsWrittenHit(row: Row, factor: J, fid: string, present: J)
    requires IdOf(factor) == Some(JStr(fid)) && fid in row
    requires PyGet(factor, "present", JBool(false)) == Some(present)
    ensures var r := FactorStep(row, factor, AsWritten);
      r.Some? && r.value[fid] == present && ScoreKey(fid) in r.value
  {
  }

  /** The entry `{"id": "url", "present": true}`. */
  const UrlEntry := JObj([("id", JStr("url")), ("present", JBool(true))])

  lemma UrlEntryFields()
    ensures IdOf(UrlEntry) == Some(JStr("url"))
    ensures PyGet(UrlEntry, "present", JBool(false)) == Some(JBool(true))
  {
  }

  lemma UrlScoreKey()
    ensures ScoreKey("url") == "url_score" && "url_score" != "url"
  {
  }

  /** The factor loop over `factors`; None when an entry makes Python raise. */
  function ApplyFactors(row: Row, factors: seq<J>, rule: Rule): Option<Row>
  {
    if factors == [] then Some(row)
    else
      match ApplyFactors(row, factors[..|factors| - 1], rule)
      case None => None
      case Some(r) => FactorStep(r, factors[|factors| - 1], rule)
  }

  /** A loaded file on which `parse_json_file` gets to its factor loop. */
  predicate Loads(data: J)
  {
    data.JObj? && PyGet(data, "meta", JObj([])).value.JObj? && PyIter(PyGet(data, "factors", JArr([])).value).Some?
  }

  /** The entries the factor loop visits. */
  function Factors(data: J): seq<J>
    requires Loads(data)
  {
    PyIter(PyGet(data, "factors", JArr([])).value).value
  }

  /** The row before the factor loop. */
  function Prefilled(data: J, isCited: int): (r: Row)
    requires Loads(data)
    ensures forall i :: 1 <= i <= 15 ==> FactorId(i) in r && ScoreKey(FactorId(i)) in r
  {
    Defaults(BaseRow(PyGet(data, "meta", JObj([])).value, isCited).value, 15)
  }

  /** `parse_json_file`: None when the file does not load or an access raises (the caller skips it). */
  function ParseJsonFile(content: Option<J>, isCited: int, rule: Rule): (r: Option<Row>)
    ensures r.Some? ==> content.Some? && Loads(content.value)
    ensures content.Some? && Loads(content.value) ==> r == ApplyFactors(Prefilled(content.value, isCited), Factors(content.value), rule)
  {
    match content
    case None => None
    case Some(data) =>
      if !data.JObj? then None
      else
        var meta := PyGet(data, "meta", JObj([])).value;
        var factors := PyGet(data, "factors", JArr([])).value;
        match BaseRow(meta, isCited)
        case None => None
        case Some(base) =>
          match PyIter(factors)
          case None => None
          case Some(fs) => ApplyFactors(Defaults(base, 15), fs, rule)
  }

  /** Whether the loop raises does not depend on the rule: only a non-dict entry or an unhashable id raise. */
  lemma {:induction false} ApplySameOutcome(row1: Row, row2: Row, factors: seq<J>, rule1: Rule, rule2: Rule)
    ensures ApplyFactors(row1, factors, rule1).Some? <==> ApplyFactors(row2, factors, rule2).Some?
  {
    if factors != [] {
      ApplySameOutcome(row1, row2, factors[..|factors| - 1], rule1, rule2);
    }
  }

  /** A file parses under the rule as written exactly when it parses under the intended one. */
  lemma ParseSameOutcome(content: Option<J>, isCited: int)
    ensures ParseJsonFile(content, isCited, AsWritten).Some? <==> ParseJsonFile(content, isCited, Intended).Some?
  {
    if content.Some? && Loads(content.value) {
      var data := content.value;
      ApplySameOutcome(Prefilled(data, isCited), Prefilled(data, isCited), Factors(data), AsWritten, Intended);
    }
  }

  // ---------------------------------------------------------------------------
  // What a parsed row holds under the intended rule

  /** `factor.get('present', False)` and `factor.get('confidence_score', 0.0)` of a dict entry. */
  function Present(factor: J): J
  {
    PyGet(factor, "present", JBool(false)).GetOr(JBool(false))
  }

  function Score(factor: J): J
  {
    PyGet(factor, "confidence_score", JNum(0.0)).GetOr(JNum(0.0))
  }

  /** The last entry of `factors` whose `id` is `fid`. */
  function LastFor(factors: seq<J>, fid: string): (r: Option<J>)
    ensures r.Some? ==> r.value in factors && IdOf(r.value) == Some(JStr(fid))
  {
    if factors == [] then None
    else if IdOf(factors[|factors| - 1]) == Some(JStr(fid)) then Some(factors[|factors| - 1])
    else
      var r := LastFor(factors[..|factors| - 1], fid);
      assert r.Some? ==> r.value in factors;
      r
  }

  lemma {:induction false} FactorColumnsMembers(n: nat, c: string)
    requires n <= 15
    ensures c in FactorColumns(n) <==> IsFactorColumn(c, n)
  {
    if n > 0 {
      FactorColumnsMembers(n - 1, c);
      if IsFactorColumn(c, n) && !IsFactorColumn(c, n - 1) {
        var i :| 1 <= i <= n && (c == FactorId(i) || c == ScoreKey(FactorId(i)));
        assert i == n;
      }
    }
  }

  /** Under the intended rule an applied entry sets exactly its own factor and score cells. */
  lemma StepCells(row: Row, factor: J, i: nat)
    requires 1 <= i <= 15 && FactorStep(row, factor, Intended).Some?
    requires FactorId(i) in row && ScoreKey(FactorId(i)) in row
    ensures var r := FactorStep(row, factor, Intended).value;
      r.Keys == row.Keys + (if r == row then {} else r.Keys - row.Keys)
      && FactorId(i) in r && ScoreKey(FactorId(i)) in r
      && r[FactorId(i)] == (if IdOf(factor) == Some(JStr(FactorId(i))) then Present(factor) else row[FactorId(i)])
      && r[ScoreKey(FactorId(i))] == (if IdOf(factor) == Some(JStr(FactorId(i))) then Score(factor) else row[ScoreKey(FactorId(i))])
  {
    var fid := IdOf(factor).value;
    if fid.JStr? && fid.s in FactorIds() {
      var j :| 1 <= j <= 15 && fid.s == FactorId(j);
      ScoreKeyNotFactor(j, i);
      if j != i {
        if FactorId(j) == FactorId(i) { FactorIdInjective(i, j); }
        if ScoreKey(FactorId(j)) == ScoreKey(FactorId(i)) {
          ScoreKeyInjective(FactorId(j), FactorId(i));
          FactorIdInjective(i, j);
        }
      }
    } else {
      assert FactorId(i) in FactorIds();
    }
  }

  /**
   * Under the intended rule each factor cell holds the `present` of the last entry with its id,
   * the value it had when no entry has that id, and likewise for the score: a later entry
   * overrides an earlier one.
   */
  lemma {:induction false} FactorCell(row: Row, factors: seq<J>, i: nat)
    requires 1 <= i <= 15 && ApplyFactors(row, factors, Intended).Some?
    requires FactorId(i) in row && ScoreKey(FactorId(i)) in row
    ensures var r := ApplyFactors(row, factors, Intended).value;
      FactorId(i) in r && ScoreKey(FactorId(i)) in r
      && r[FactorId(i)] == (match LastFor(factors, FactorId(i)) case None => row[FactorId(i)] case Some(f) => Present(f))
      && r[ScoreKey(FactorId(i))] == (match LastFor(factors, FactorId(i)) case None => row[ScoreKey(FactorId(i))] case Some(f) => Score(f))
  {
    if factors != [] {
      var init := factors[..|factors| - 1];
      FactorCell(row, init, i);
      StepCells(ApplyFactors(row, init, Intended).value, factors[|factors| - 1], i);
    }
  }

  /** Under the intended rule entries change no other cell and add no column once the factor columns exist. */
  lemma {:induction false} OtherCells(row: Row, factors: seq<J>, c: string)
    requires ApplyFactors(row, factors, Intended).Some?
    requires forall i :: 1 <= i <= 15 ==> FactorId(i) in row && ScoreKey(FactorId(i)) in row
    requires !IsFactorColumn(c, 15)
    ensures var r := ApplyFactors(row, factors, Intended).value;
      (c in r <==> c in row) && (c in row ==> r[c] == row[c])
      && forall i :: 1 <= i <= 15 ==> FactorId(i) in r && ScoreKey(FactorId(i)) in r
  {
    if factors != [] {
      var init := factors[..|factors| - 1];
      OtherCells(row, init, c);
      var r0 := ApplyFactors(row, init, Intended).value;
      var fid := IdOf(factors[|factors| - 1]).value;
      if fid.JStr? && fid.s in FactorIds() {
        var j :| 1 <= j <= 15 && fid.s == FactorId(j);
        assert c != FactorId(j) && c != ScoreKey(FactorId(j));
      }
    }
  }

  /** Under the intended rule a parsed row has exactly the 34 header columns. */
  lemma ParsedColumns(data: J, isCited: int, c: string)
    requires ParseJsonFile(Some(data), isCited, Intended).Some?
    ensures c in ParseJsonFile(Some(data), isCited, Intended).value <==> c in Header
  {
    var base := BaseRow(PyGet(data, "meta", JObj([])).value, isCited).value;
    DefaultsKeys(base, 15, c);
    FactorColumnsMembers(15, c);
    if !IsFactorColumn(c, 15) {
      OtherCells(Prefilled(data, isCited), Factors(data), c);
    } else {
      var i :| 1 <= i <= 15 && (c == FactorId(i) || c == ScoreKey(FactorId(i)));
      FactorCell(Prefilled(data, isCited), Factors(data), i);
    }
  }

  lemma FixedNotFactor(c: string)
    requires c in FixedColumns
    ensures !IsFactorColumn(c, 15)
  {
    forall i | 1 <= i <= 15 ensures c != FactorId(i) && c != ScoreKey(FactorId(i)) {
      assert FactorId(i)[0] == 'F' && ScoreKey(FactorId(i))[0] == 'F';
      assert c[0] != 'F';
    }
  }

  lemma FixedCell(data: J, isCited: int, c: string)
    requires ParseJsonFile(Some(data), isCited, Intended).Some? && c in FixedColumns
    ensures var base := BaseRow(PyGet(data, "meta", JObj([])).value, isCited).value;
      c in ParseJsonFile(Some(data), isCited, Intended).value && ParseJsonFile(Some(data), isCited, Intended).value[c] == base[c]
  {
    var base := BaseRow(PyGet(data, "meta", JObj([])).value, isCited).value;
    FixedNotFactor(c);
    DefaultsKeys(base, 15, c);
    DefaultsOthers(base, 15, c);
    OtherCells(Prefilled(data, isCited), Factors(data), c);
  }

  /**
   * Under the intended rule the fixed cells are `url`, `fetch_status` and `language` from
   * `meta` with their defaults, and `is_cited` the argument.
   */
  lemma ParsedFixedCells(data: J, isCited: int)
    requires ParseJsonFile(Some(data), isCited, Intended).Some?
    ensures var r := ParseJsonFile(Some(data), isCited, Intended).value;
      var meta := PyGet(data, "meta", JObj([])).value;
      "url" in r && "is_cited" in r && "fetch_status" in r && "language" in r
      && r["url"] == PyGet(meta, "url", JStr("")).value
      && r["is_cited"] == JNum(isCited as real)
      && r["fetch_status"] == PyGet(meta, "fetch_status", JStr("unknown")).value
      && r["language"] == PyGet(meta, "language", JStr("unknown")).value
  {
    FixedCell(data, isCited, "url");
    FixedCell(data, isCited, "is_cited");
    FixedCell(data, isCited, "fetch_status");
    FixedCell(data, isCited, "language");
  }

  /** Under the intended rule each factor and score is the last entry's for its id, False and 0.0 when there is none. */
  lemma ParsedFactorCells(data: J, isCited: int, i: nat)
    requires 1 <= i <= 15 && ParseJsonFile(Some(data), isCited, Intended).Some?
    ensures var r := ParseJsonFile(Some(data), isCited, Intended).value;
      FactorId(i) in r && ScoreKey(FactorId(i)) in r
      && r[FactorId(i)] == (match LastFor(Factors(data), FactorId(i)) case None => JBool(false) case Some(f) => Present(f))
      && r[ScoreKey(FactorId(i))] == (match LastFor(Factors(data), FactorId(i)) case None => JNum(0.0) case Some(f) => Score(f))
  {
    var base := BaseRow(PyGet(data, "meta", JObj([])).value, isCited).value;
    DefaultsValues(base, 15, i);
    FactorCell(Prefilled(data, isCited), Factors(data), i);
  }

  // ---------------------------------------------------------------------------
  // What a parsed row holds as written

  /** The prefilled row has exactly the header columns. */
  lemma PrefilledKeys(data: J, isCited: int)
    requires Loads(data)
    ensures Prefilled(data, isCited).Keys == HeaderKeys
  {
    var base := BaseRow(PyGet(data, "meta", JObj([])).value, isCited).value;
    forall c ensures c in Prefilled(data, isCited) <==> c in HeaderKeys {
      DefaultsKeys(base, 15, c);
      FactorColumnsMembers(15, c);
    }
  }

  /** F01..F15 and their score columns are header columns. */
  lemma FactorIdInHeader(fid: string)
    requires fid in FactorIds()
    ensures fid in HeaderKeys && ScoreKey(fid) in HeaderKeys
  {
    var i :| 1 <= i <= 15 && fid == FactorId(i);
    HeaderLayout();
    assert Header[2 * i + 2] == fid && Header[2 * i + 3] == ScoreKey(fid);
  }

  /** No fixed column ends in `_score`. */
  lemma ScoreKeyNotFixed(fid: string)
    ensures ScoreKey(fid) !in FixedColumns
  {
    var k := ScoreKey(fid);
    assert k[|k| - 6..] == "_score";
  }

  /** A header column that ends in `_score` is the score column of one of F01..F15. */
  lemma ScoreBaseInHeader(fid: string)
    requires ScoreKey(fid) in Header
    ensures fid in FactorIds()
  {
    var c := ScoreKey(fid);
    ScoreKeyNotFixed(fid);
    assert c in FactorColumns(15);
    FactorColumnsMembers(15, c);
    var i :| 1 <= i <= 15 && (c == FactorId(i) || c == ScoreKey(FactorId(i)));
    assert |c| >= 6 && |FactorId(i)| == 3;
    assert c == ScoreKey(FactorId(i));
    ScoreKeyInjective(fid, FactorId(i));
  }

  /** A column of the header other than F01..F15: a fixed column or a score column. */
  predicate OtherHeaderColumn(c: string)
  {
    c in Header && c !in FactorIds()
  }

  /** The entry's id is a string naming a fixed or score column. */
  predicate NamesOther(factor: J)
  {
    IdOf(factor).Some? && IdOf(factor).value.JStr? && OtherHeaderColumn(IdOf(factor).value.s)
  }

  /** Some entry of `factors` names a fixed or score column. */
  predicate NamesOtherColumn(factors: seq<J>)
  {
    factors != [] && (NamesOtherColumn(factors[..|factors| - 1]) || NamesOther(factors[|factors| - 1]))
  }

  /** The score column of a fixed or score column is not a header column. */
  lemma ScoreKeyOutside(c: string)
    requires OtherHeaderColumn(c)
    ensures ScoreKey(c) !in Header
  {
    ScoreKeyNotFixed(c);
    if c in FixedColumns {
      FixedHead(c);
      NotFactorColumn(ScoreKey(c), FactorColumns(15));
    } else {
      ScoreColumnLength(c);
      FactorColumnsShape(15);
    }
  }

  /** No fixed column starts with `F`. */
  lemma FixedHead(c: string)
    requires c in FixedColumns
    ensures c != [] && c[0] != 'F'
  {
  }

  /** A factor column that is not a factor id is a score column, nine characters long. */
  lemma ScoreColumnLength(c: string)
    requires c in FactorColumns(15) && c !in FactorIds()
    ensures |c| == 9
  {
    FactorColumnsMembers(15, c);
    var i :| 1 <= i <= 15 && (c == FactorId(i) || c == ScoreKey(FactorId(i)));
    assert c != FactorId(i);
  }

  /** `writerow` accepts a row whose keys all are header columns (`extrasaction='raise'`). */
  predicate Writable(row: Row)
  {
    row.Keys <= HeaderKeys
  }

  /**
   * On a row with exactly the header columns, an entry that names no fixed or score column is
   * applied by both rules alike, and the columns stay the header's.
   */
  lemma StepAgrees(row: Row, factor: J)
    requires row.Keys == HeaderKeys && !NamesOther(factor)
    ensures FactorStep(row, factor, AsWritten) == FactorStep(row, factor, Intended)
    ensures FactorStep(row, factor, Intended).Some? ==> FactorStep(row, factor, Intended).value.Keys == HeaderKeys
  {
    var fid := IdOf(factor);
    if fid.Some? && fid.value.JStr? {
      var c := fid.value.s;
      if c in FactorIds() {
        FactorIdInHeader(c);
        StepAgreesAt(row, factor, c, true);
      } else {
        OutsideHeader(row, c);
        StepAgreesAt(row, factor, c, false);
      }
    }
  }

  lemma StepAgreesAt(row: Row, factor: J, c: string, admitted: bool)
    requires IdOf(factor) == Some(JStr(c))
    requires (c in row) == admitted && (c in FactorIds()) == admitted
    requires admitted ==> ScoreKey(c) in row
    ensures FactorStep(row, factor, AsWritten) == FactorStep(row, factor, Intended)
    ensures FactorStep(row, factor, Intended).Some? ==> FactorStep(row, factor, Intended).value.Keys == row.Keys
  {
    if admitted {
      UpdateKeys(row, c, PyGet(factor, "present", JBool(false)).value, ScoreKey(c), PyGet(factor, "confidence_score", JNum(0.0)).value);
    }
  }

  lemma UpdateKeys(row: Row, c: string, v: J, d: string, w: J)
    requires c in row && d in row
    ensures row[c := v][d := w].Keys == row.Keys
  {
  }

  lemma OutsideHeader(row: Row, c: string)
    requires row.Keys == HeaderKeys && c !in Header
    ensures c !in row
  {
  }

  /** Entries that name no fixed or score column are applied alike by both rules. */
  lemma {:induction false} AsWrittenAgrees(row: Row, factors: seq<J>)
    requires row.Keys == HeaderKeys && !NamesOtherColumn(factors)
    ensures ApplyFactors(row, factors, AsWritten) == ApplyFactors(row, factors, Intended)
    ensures ApplyFactors(row, factors, Intended).Some? ==> ApplyFactors(row, factors, Intended).value.Keys == HeaderKeys
  {
    if factors != [] {
      var init := factors[..|factors| - 1];
      AsWrittenAgrees(row, init);
      if ApplyFactors(row, init, Intended).Some? {
        StepAgrees(ApplyFactors(row, init, Intended).value, factors[|factors| - 1]);
      }
    }
  }

  /** As written, once an entry names a fixed or score column the row gains a column the header lacks. */
  lemma {:induction false} AsWrittenExtraColumn(row: Row, factors: seq<J>)
    requires row.Keys == HeaderKeys && NamesOtherColumn(factors)
    requires ApplyFactors(row, factors, AsWritten).Some?
    ensures !Writable(ApplyFactors(row, factors, AsWritten).value)
  {
    var init := factors[..|factors| - 1];
    var last := factors[|factors| - 1];
    var r0 := ApplyFactors(row, init, AsWritten).value;
    var r := ApplyFactors(row, factors, AsWritten).value;
    assert FactorStep(r0, last, AsWritten) == Some(r);
    if NamesOtherColumn(init) {
      AsWrittenExtraColumn(row, init);
      var c :| c in r0 && c !in HeaderKeys;
      assert c in r;
    } else {
      AsWrittenAgrees(row, init);
      var fid := IdOf(last).value.s;
      ScoreKeyOutside(fid);
      assert ScoreKey(fid) in r;
    }
  }

  /**
   * As written, `DictWriter` accepts a parsed row exactly when no entry of the file names a
   * fixed or score column, and then the row is the one the intended rule gives.
   */
  lemma ParsedWritable(data: J, isCited: int)
    requires ParseJsonFile(Some(data), isCited, AsWritten).Some?
    ensures var r := ParseJsonFile(Some(data), isCited, AsWritten).value;
      (Writable(r) <==> !NamesOtherColumn(Factors(data)))
      && (Writable(r) ==> ParseJsonFile(Some(data), isCited, Intended) == Some(r))
  {
    PrefilledKeys(data, isCited);
    if NamesOtherColumn(Factors(data)) {
      AsWrittenExtraColumn(Prefilled(data, isCited), Factors(data));
    } else {
      AsWrittenAgrees(Prefilled(data, isCited), Factors(data));
    }
  }

  /** What entry `factor` writes into column `c` as written, once its id is a key of the row. */
  function Writes(factor: J, c: string): Option<J>
  {
    if IdOf(factor).Some? && IdOf(factor).value.JStr? then
      var fid := IdOf(factor).value.s;
      if ScoreKey(fid) == c then Some(Score(factor))
      else if fid == c then Some(Present(factor))
      else None
    else None
  }

  /** The value column `c` ends with: the last entry's write, `start` when no entry writes it. */
  function LastWrite(factors: seq<J>, c: string, start: J): J
  {
    if factors == [] then start
    else
      match Writes(factors[|factors| - 1], c)
      case Some(v) => v
      case None => LastWrite(factors[..|factors| - 1], c, start)
  }

  /**
   * As written, each header cell ends with the last write into it: an entry with id `c` writes
   * its `present` into `c`, an entry with id `d` its `confidence_score` into `d_score`, so an
   * entry `{"id": "url"}` replaces the URL and one with id `F01_score` the score of F01.
   */
  lemma {:induction false} AsWrittenCell(row: Row, factors: seq<J>, c: string)
    requires HeaderKeys <= row.Keys && c in Header
    requires ApplyFactors(row, factors, AsWritten).Some?
    ensures var r := ApplyFactors(row, factors, AsWritten).value;
      HeaderKeys <= r.Keys && r[c] == LastWrite(factors, c, row[c])
  {
    if factors != [] {
      var init := factors[..|factors| - 1];
      var last := factors[|factors| - 1];
      AsWrittenCell(row, init, c);
      var fid := IdOf(last).value;
      if fid.JStr? && ScoreKey(fid.s) == c {
        ScoreBaseInHeader(fid.s);
        FactorIdInHeader(fid.s);
      }
    }
  }

  // ---------------------------------------------------------------------------
  // parse_json_file and main as loops

  lemma ApplySnoc(row: Row, factors: seq<J>, k: nat, rule: Rule)
    requires k < |factors|
    ensures ApplyFactors(row, factors[..k + 1], rule) ==
      match ApplyFactors(row, factors[..k], rule) case None => None case Some(r) => FactorStep(r, factors[k], rule)
  {
    assert factors[..k + 1][..k] == factors[..k];
  }

  lemma {:induction false} ApplyAbort(row: Row, factors: seq<J>, n: nat, rule: Rule)
    requires n <= |factors| && ApplyFactors(row, factors[..n], rule).None?
    ensures ApplyFactors(row, factors, rule).None?
    decreases |factors| - n
  {
    if n < |factors| {
      ApplySnoc(row, factors, n, rule);
      ApplyAbort(row, factors, n + 1, rule);
    } else {
      assert factors[..n] == factors;
    }
  }

  /** The loop that fills every factor with `False` and every score with `0.0`. */
  method FillDefaults(base: Row) returns (row: Row)
    ensures row == Defaults(base, 15)
  {
    row := base;
    for i := 1 to 16
      invariant row == Defaults(base, i - 1)
    {
      var fid := FactorId(i);
      row := row[fid := JBool(false)];
      row := row[ScoreKey(fid) := JNum(0.0)];
    }
  }

  /** The loop over the entries of `factors`, with the test `fid in row`; None when an entry makes Python raise. */
  method ApplyEntries(start: Row, fs: seq<J>) returns (r: Option<Row>)
    ensures r == ApplyFactors(start, fs, AsWritten)
  {
    var row := start;
    for k := 0 to |fs|
      invariant ApplyFactors(start, fs[..k], AsWritten) == Some(row)
    {
      ApplySnoc(start, fs, k, AsWritten);
      var fid := IdOf(fs[k]);
      if fid.None? || !Hashable(fid.value) {
        ApplyAbort(start, fs, k + 1, AsWritten);
        return None;
      }
      var present := PyGet(fs[k], "present", JBool(false)).value;
      var score := PyGet(fs[k], "confidence_score", JNum(0.0)).value;
      if fid.value.JStr? && fid.value.s in row {
        row := row[fid.value.s := present];
        row := row[ScoreKey(fid.value.s) := score];
      }
    }
    assert fs[..|fs|] == fs;
    return Some(row);
  }

  /** `parse_json_file`, building the row cell by cell. */
  method ReadRow(content: Option<J>, isCited: int) returns (r: Option<Row>)
    ensures r == ParseJsonFile(content, isCited, AsWritten)
  {
    if content.None? {
      return None;
    }
    var data := content.value;
    if !data.JObj? {
      return None;
    }
    var meta := PyGet(data, "meta", JObj([])).value;
    var factors := PyGet(data, "factors", JArr([])).value;
    if !meta.JObj? {
      return None;
    }
    var base: Row := map[
      "url" := PyGet(meta, "url", JStr("")).value,
      "is_cited" := JNum(isCited as real),
      "fetch_status" := PyGet(meta, "fetch_status", JStr("unknown")).value,
      "language" := PyGet(meta, "language", JStr("unknown")).value];
    var row := FillDefaults(base);
    var entries := PyIter(factors);
    if entries.None? {
      return None;
    }
    r := ApplyEntries(row, entries.value);
  }

  /** The rows of one directory's files, in glob order; a file that fails to parse is skipped. */
  function DirRows(files: seq<Option<J>>, isCited: int, rule: Rule): seq<Row>
  {
    if files == [] then []
    else
      DirRows(files[..|files| - 1], isCited, rule)
      + match ParseJsonFile(files[|files| - 1], isCited, rule) case None => [] case Some(r) => [r]
  }

  /** Under the intended rule every row of a directory carries that directory's `is_cited`. */
  lemma {:induction false} DirRowsCited(files: seq<Option<J>>, isCited: int)
    ensures Flagged(DirRows(files, isCited, Intended), isCited as real)
  {
    if files != [] {
      DirRowsCited(files[..|files| - 1], isCited);
      var last := files[|files| - 1];
      if ParseJsonFile(last, isCited, Intended).Some? {
        ParsedFixedCells(last.value, isCited);
      }
    }
  }

  /** Every row of `rows` has exactly the header columns. */
  predicate HeaderRows(rows: seq<Row>)
  {
    forall k :: 0 <= k < |rows| ==> rows[k].Keys == HeaderKeys
  }

  /** Under the intended rule every row of a directory has exactly the header columns. */
  lemma {:induction false} DirRowsColumns(files: seq<Option<J>>, isCited: int)
    ensures HeaderRows(DirRows(files, isCited, Intended))
  {
    if files != [] {
      DirRowsColumns(files[..|files| - 1], isCited);
      var last := files[|files| - 1];
      var init := DirRows(files[..|files| - 1], isCited, Intended);
      match ParseJsonFile(last, isCited, Intended)
      case None =>
        assert DirRows(files, isCited, Intended) == init + [];
      case Some(r) =>
        ParsedKeys(last.value, isCited);
        HeaderRowsSnoc(init, r);
    }
  }

  /** A row parsed under the intended rule has exactly the header columns. */
  lemma ParsedKeys(data: J, isCited: int)
    requires ParseJsonFile(Some(data), isCited, Intended).Some?
    ensures ParseJsonFile(Some(data), isCited, Intended).value.Keys == HeaderKeys
  {
    var r := ParseJsonFile(Some(data), isCited, Intended).value;
    forall c ensures c in r <==> c in HeaderKeys {
      ParsedColumns(data, isCited, c);
    }
  }

  lemma HeaderRowsSnoc(rows: seq<Row>, r: Row)
    requires HeaderRows(rows) && r.Keys == HeaderKeys
    ensures HeaderRows(rows + [r])
  {
    forall k | 0 <= k < |rows| + 1 ensures (rows + [r])[k].Keys == HeaderKeys {
      if k < |rows| { assert (rows + [r])[k] == rows[k]; }
    }
  }

  /** A directory yields no row exactly when none of its files parses. */
  lemma {:induction false} DirRowsEmpty(files: seq<Option<J>>, isCited: int)
    ensures DirRows(files, isCited, AsWritten) == [] <==> forall k :: 0 <= k < |files| ==> ParseJsonFile(files[k], isCited, AsWritten).None?
  {
    if files != [] {
      DirRowsEmpty(files[..|files| - 1], isCited);
      DirRowsEmptyStep(files, isCited);
      NoneParsesSnoc(files, isCited);
    }
  }

  lemma DirRowsEmptyStep(files: seq<Option<J>>, isCited: int)
    requires files != []
    ensures DirRows(files, isCited, AsWritten) == [] <==>
      DirRows(files[..|files| - 1], isCited, AsWritten) == [] && ParseJsonFile(files[|files| - 1], isCited, AsWritten).None?
  {
  }

  /** No file of `files` parses. */
  predicate NoneParses(files: seq<Option<J>>, isCited: int)
  {
    forall k :: 0 <= k < |files| ==> ParseJsonFile(files[k], isCited, AsWritten).None?
  }

  lemma NoneParsesSnoc(files: seq<Option<J>>, isCited: int)
    requires files != []
    ensures NoneParses(files, isCited) <==>
      NoneParses(files[..|files| - 1], isCited) && ParseJsonFile(files[|files| - 1], isCited, AsWritten).None?
  {
    var init := files[..|files| - 1];
    assert forall k :: 0 <= k < |init| ==> init[k] == files[k];
  }

  /** The rows of one more file of a directory. */
  lemma DirRowsNext(files: seq<Option<J>>, i: nat, isCited: int)
    requires i < |files|
    ensures DirRows(files[..i + 1], isCited, AsWritten) == DirRows(files[..i], isCited, AsWritten)
      + match ParseJsonFile(files[i], isCited, AsWritten) case None => [] case Some(r) => [r]
  {
    assert files[..i + 1][..i] == files[..i];
  }

  /** Two row lists of one length that agree on every row of the first that `writerow` accepts. */
  predicate AgreeWhereWritable(a: seq<Row>, b: seq<Row>)
  {
    |a| == |b| && forall k :: 0 <= k < |a| && Writable(a[k]) ==> a[k] == b[k]
  }

  lemma AgreeConcat(a: seq<Row>, b: seq<Row>, c: seq<Row>, d: seq<Row>)
    requires AgreeWhereWritable(a, b) && AgreeWhereWritable(c, d)
    ensures AgreeWhereWritable(a + c, b + d)
  {
    forall k | 0 <= k < |a + c| && Writable((a + c)[k]) ensures (a + c)[k] == (b + d)[k] {
      if k >= |a| {
        assert (a + c)[k] == c[k - |a|] && (b + d)[k] == d[k - |b|];
      }
    }
  }

  /** A directory's rows as written agree with the intended ones wherever `writerow` accepts them. */
  lemma {:induction false} DirRowsAgree(files: seq<Option<J>>, isCited: int)
    ensures AgreeWhereWritable(DirRows(files, isCited, AsWritten), DirRows(files, isCited, Intended))
  {
    if files != [] {
      var init := files[..|files| - 1];
      var last := files[|files| - 1];
      DirRowsAgree(init, isCited);
      ParseSameOutcome(last, isCited);
      if ParseJsonFile(last, isCited, AsWritten).Some? {
        ParsedWritable(last.value, isCited);
      }
      AgreeConcat(DirRows(init, isCited, AsWritten), DirRows(init, isCited, Intended),
        match ParseJsonFile(last, isCited, AsWritten) case None => [] case Some(r) => [r],
        match ParseJsonFile(last, isCited, Intended) case None => [] case Some(r) => [r]);
    }
  }

  /** The files of a directory that exists, in glob order; None when it was not given or does not exist. */
  type Source = Option<seq<Option<J>>>

  function SourceRows(src: Source, isCited: int, rule: Rule): seq<Row>
  {
    match src case None => [] case Some(files) => DirRows(files, isCited, rule)
  }

  /**
   * The rows `DictWriter` writes after the header: those before the first row with a column
   * outside the header, whose ValueError ends the writing (caught at lines 101-102).
   */
  function WrittenRows(rows: seq<Row>): (w: seq<Row>)
    ensures |w| <= |rows| && w == rows[..|w|]
  {
    if rows == [] || !Writable(rows[0]) then []
    else [rows[0]] + WrittenRows(rows[1..])
  }

  /** Every written row is accepted, and the row after them, if any, is refused. */
  lemma {:induction false} WrittenRowsStops(rows: seq<Row>)
    ensures var w := WrittenRows(rows);
      (forall k :: 0 <= k < |w| ==> Writable(w[k])) && (|w| < |rows| ==> !Writable(rows[|w|]))
  {
    if rows != [] && Writable(rows[0]) {
      WrittenRowsStops(rows[1..]);
      var w := WrittenRows(rows);
      assert forall k :: 1 <= k < |w| ==> w[k] == rows[1..][k - 1];
    }
  }

  lemma AgreeTail(a: seq<Row>, b: seq<Row>)
    requires AgreeWhereWritable(a, b) && a != []
    ensures AgreeWhereWritable(a[1..], b[1..]) && (Writable(a[0]) ==> a[0] == b[0])
  {
    forall k | 0 <= k < |a| - 1 && Writable(a[1..][k]) ensures a[1..][k] == b[1..][k] {
      assert a[1..][k] == a[k + 1] && b[1..][k] == b[k + 1];
    }
  }

  /** Where the intended rows agree, the written rows are a prefix of them. */
  lemma {:induction false} WrittenAgree(a: seq<Row>, b: seq<Row>)
    requires AgreeWhereWritable(a, b)
    ensures |WrittenRows(a)| <= |b| && WrittenRows(a) == b[..|WrittenRows(a)|]
    decreases |a|
  {
    if a != [] && Writable(a[0]) {
      AgreeTail(a, b);
      WrittenAgree(a[1..], b[1..]);
      var m := |WrittenRows(a[1..])|;
      assert [b[0]] + b[1..][..m] == b[..m + 1];
    }
  }

  /**
   * `main`: the rows collected, cited (`is_cited` 1) before uncited (0), of which the writer
   * writes those before the first it refuses; None when no row was collected and no file is written.
   */
  function Compile(cited: Source, uncited: Source): Option<seq<Row>>
  {
    var rows := SourceRows(cited, 1, AsWritten) + SourceRows(uncited, 0, AsWritten);
    if rows == [] then None else Some(WrittenRows(rows))
  }

  /**
   * What `main` writes after the header: the rows of the intended rule, in order, up to the
   * first row whose file has an entry naming a fixed or score column; each written row has
   * exactly the 34 header columns.
   */
  lemma CompileWritten(cited: Source, uncited: Source)
    requires Compile(cited, uncited).Some?
    ensures var w := Compile(cited, uncited).value;
      var rows := SourceRows(cited, 1, AsWritten) + SourceRows(uncited, 0, AsWritten);
      var intended := SourceRows(cited, 1, Intended) + SourceRows(uncited, 0, Intended);
      |rows| == |intended| && w == intended[..|w|] && HeaderRows(w)
      && (|w| < |rows| ==> !Writable(rows[|w|]))
  {
    var a1 := SourceRows(cited, 1, AsWritten);
    var a0 := SourceRows(uncited, 0, AsWritten);
    var i1 := SourceRows(cited, 1, Intended);
    var i0 := SourceRows(uncited, 0, Intended);
    if cited.Some? { DirRowsAgree(cited.value, 1); DirRowsColumns(cited.value, 1); }
    if uncited.Some? { DirRowsAgree(uncited.value, 0); DirRowsColumns(uncited.value, 0); }
    AgreeConcat(a1, i1, a0, i0);
    WrittenAgree(a1 + a0, i1 + i0);
    HeaderRowsConcat(i1, i0);
    HeaderRowsPrefix(i1 + i0, |WrittenRows(a1 + a0)|);
    WrittenRowsStops(a1 + a0);
  }

  lemma HeaderRowsPrefix(rows: seq<Row>, n: nat)
    requires HeaderRows(rows) && n <= |rows|
    ensures HeaderRows(rows[..n])
  {
    assert forall k :: 0 <= k < n ==> rows[..n][k] == rows[k];
  }

  lemma HeaderRowsConcat(a: seq<Row>, b: seq<Row>)
    requires HeaderRows(a) && HeaderRows(b)
    ensures HeaderRows(a + b)
  {
    assert forall k :: |a| <= k < |a + b| ==> (a + b)[k] == b[k - |a|];
  }

  /** The file `{"meta": {"url": "u"}, "factors": [{"id": "url", "present": true}]}`. */
  const UrlIdFile: J := JObj([("meta", JObj([("url", JStr("u"))])), ("factors", JArr([UrlEntry]))])

  lemma UrlIdFileFields()
    ensures PyGet(UrlIdFile, "meta", JObj([])) == Some(JObj([("url", JStr("u"))]))
    ensures PyGet(UrlIdFile, "factors", JArr([])) == Some(JArr([UrlEntry]))
    ensures Loads(UrlIdFile) && Factors(UrlIdFile) == [UrlEntry]
  {
    assert UrlIdFile.fields[1..][0] == ("factors", JArr([UrlEntry]));
    assert UrlIdFile.fields[0].0 != "factors";
  }

  /** The factor loop over a single entry is that entry's step. */
  lemma ApplyOne(row: Row, factor: J, rule: Rule)
    ensures ApplyFactors(row, [factor], rule) == FactorStep(row, factor, rule)
  {
    assert [factor][..0] == [];
  }

  /** An entry with a hashable id makes no step raise. */
  lemma StepSome(row: Row, factor: J, rule: Rule)
    requires IdOf(factor).Some? && Hashable(IdOf(factor).value)
    ensures FactorStep(row, factor, rule).Some?
  {
  }

  /** A directory of one file holds that file's row, if it parses. */
  lemma DirRowsOne(file: Option<J>, isCited: int, rule: Rule)
    ensures DirRows([file], isCited, rule) == match ParseJsonFile(file, isCited, rule) case None => [] case Some(r) => [r]
  {
    assert [file][..0] == [];
  }

  /** The entry names a fixed column. */
  lemma UrlEntryNamesOther()
    ensures NamesOtherColumn([UrlEntry])
  {
    UrlEntryFields();
    assert "url" !in FactorIds() by { FixedNotFactor("url"); }
    assert [UrlEntry][..0] == [];
  }

  lemma UrlEntryStep(row: Row, rule: Rule)
    ensures ApplyFactors(row, [UrlEntry], rule).Some?
  {
    UrlEntryFields();
    ApplyOne(row, UrlEntry, rule);
    StepSome(row, UrlEntry, rule);
  }

  /** A loaded file whose one entry is that entry parses under both rules, to a row the writer refuses. */
  lemma UrlEntryParses(data: J, isCited: int)
    requires Loads(data) && Factors(data) == [UrlEntry]
    ensures ParseJsonFile(Some(data), isCited, AsWritten).Some?
    ensures !Writable(ParseJsonFile(Some(data), isCited, AsWritten).value)
    ensures ParseJsonFile(Some(data), isCited, Intended).Some?
  {
    var pre := Prefilled(data, isCited);
    UrlEntryStep(pre, AsWritten);
    UrlEntryStep(pre, Intended);
    assert ParseJsonFile(Some(data), isCited, AsWritten) == ApplyFactors(pre, Factors(data), AsWritten);
    assert ParseJsonFile(Some(data), isCited, Intended) == ApplyFactors(pre, Factors(data), Intended);
    UrlEntryNamesOther();
    ParsedWritable(data, isCited);
  }

  /** That file parses under both rules, and its as-written row has a column outside the header. */
  lemma UrlIdParses()
    ensures ParseJsonFile(Some(UrlIdFile), 1, AsWritten).Some?
    ensures !Writable(ParseJsonFile(Some(UrlIdFile), 1, AsWritten).value)
    ensures ParseJsonFile(Some(UrlIdFile), 1, Intended).Some?
  {
    UrlIdFileFields();
    UrlEntryParses(UrlIdFile, 1);
  }

  /** With that file as the only cited result, `main` writes the header alone; the intended rule gives it a row. */
  lemma UrlIdStopsWriter()
    ensures Compile(Some([Some(UrlIdFile)]), None) == Some([])
    ensures |SourceRows(Some([Some(UrlIdFile)]), 1, Intended)| == 1
  {
    UrlIdParses();
    DirRowsOne(Some(UrlIdFile), 1, AsWritten);
    DirRowsOne(Some(UrlIdFile), 1, Intended);
    var r := ParseJsonFile(Some(UrlIdFile), 1, AsWritten).value;
    assert WrittenRows([r]) == [];
  }

  /** Every row of `rows` has `is_cited` equal to `flag`. */
  predicate Flagged(rows: seq<Row>, flag: real)
  {
    forall k :: 0 <= k < |rows| ==> "is_cited" in rows[k] && rows[k]["is_cited"] == JNum(flag)
  }

  /** Every row is flagged 1 or 0, and no row flagged 0 comes before one flagged 1. */
  predicate CitedFirst(rows: seq<Row>)
  {
    (forall k :: 0 <= k < |rows| ==> "is_cited" in rows[k] && (rows[k]["is_cited"] == JNum(1.0) || rows[k]["is_cited"] == JNum(0.0)))
    && (forall k, l :: 0 <= k < l < |rows| ==> !(rows[k]["is_cited"] == JNum(0.0) && rows[l]["is_cited"] == JNum(1.0)))
  }

  lemma FlagsConcat(a: seq<Row>, b: seq<Row>)
    requires Flagged(a, 1.0) && Flagged(b, 0.0)
    ensures CitedFirst(a + b)
  {
    assert forall k :: 0 <= k < |a| ==> (a + b)[k] == a[k];
    assert forall k :: |a| <= k < |a + b| ==> (a + b)[k] == b[k - |a|];
  }

  lemma CitedFirstPrefix(rows: seq<Row>, n: nat)
    requires CitedFirst(rows) && n <= |rows|
    ensures CitedFirst(rows[..n])
  {
    assert forall k :: 0 <= k < n ==> rows[..n][k] == rows[k];
  }

  /** Every written row is flagged 1 or 0, and no uncited row comes before a cited one. */
  lemma CitedBeforeUncited(cited: Source, uncited: Source)
    requires Compile(cited, uncited).Some?
    ensures CitedFirst(Compile(cited, uncited).value)
  {
    if cited.Some? { DirRowsCited(cited.value, 1); }
    if uncited.Some? { DirRowsCited(uncited.value, 0); }
    var a := SourceRows(cited, 1, Intended);
    var b := SourceRows(uncited, 0, Intended);
    assert Flagged(a, 1.0) && Flagged(b, 0.0);
    FlagsConcat(a, b);
    CompileWritten(cited, uncited);
    CitedFirstPrefix(a + b, |Compile(cited, uncited).value|);
  }

  /** No output file exactly when no file of either directory parses. */
  lemma NothingWritten(cited: Source, uncited: Source)
    ensures Compile(cited, uncited).None? <==>
      (cited.None? || forall k :: 0 <= k < |cited.value| ==> ParseJsonFile(cited.value[k], 1, AsWritten).None?)
      && (uncited.None? || forall k :: 0 <= k < |uncited.value| ==> ParseJsonFile(uncited.value[k], 0, AsWritten).None?)
  {
    if cited.Some? { DirRowsEmpty(cited.value, 1); }
    if uncited.Some? { DirRowsEmpty(uncited.value, 0); }
  }

  /** One directory's loop, appending to `rows`. */
  method AddDir(rows: seq<Row>, src: Source, isCited: int) returns (rows': seq<Row>)
    ensures rows' == rows + SourceRows(src, isCited, AsWritten)
  {
    rows' := rows;
    if src.None? {
      return;
    }
    var files := src.value;
    for i := 0 to |files|
      invariant rows' == rows + DirRows(files[..i], isCited, AsWritten)
    {
      DirRowsNext(files, i, isCited);
      var row := ReadRow(files[i], isCited);
      if row.Some? {
        rows' := rows' + [row.value];
      }
    }
    assert files[..|files|] == files;
  }

  /** From row `k` on, the writer takes row `k` if it accepts it, and nothing otherwise. */
  lemma WrittenRowsAt(rows: seq<Row>, k: nat)
    requires k <= |rows|
    ensures k < |rows| && Writable(rows[k]) ==> WrittenRows(rows[k..]) == [rows[k]] + WrittenRows(rows[k + 1..])
    ensures (k == |rows| || !Writable(rows[k])) ==> WrittenRows(rows[k..]) == []
  {
    if k < |rows| {
      assert rows[k..][0] == rows[k] && rows[k..][1..] == rows[k + 1..];
    }
  }

  /** The writer's loop: `writerow` for each row until one is refused. */
  method WriteRows(rows: seq<Row>) returns (written: seq<Row>)
    ensures written == WrittenRows(rows)
  {
    written := [];
    var k := 0;
    while k < |rows| && Writable(rows[k])
      invariant k <= |rows| && WrittenRows(rows) == written + WrittenRows(rows[k..])
    {
      WrittenRowsAt(rows, k);
      written := written + [rows[k]];
      k := k + 1;
    }
    WrittenRowsAt(rows, k);
  }

  /** `main`: both directories' loops, then the writer's loop. */
  method CompileMain(cited: Source, uncited: Source) returns (out: Option<seq<Row>>)
    ensures out == Compile(cited, uncited)
  {
    var rows := AddDir([], cited, 1);
    assert rows == SourceRows(cited, 1, AsWritten);
    rows := AddDir(rows, uncited, 0);
    if rows == [] {
      return None;
    }
    var written := WriteRows(rows);
    return Some(written);
  }
}
