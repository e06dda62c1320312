/**
 * The filter over uncited URLs: drops files and pages of excluded hosts, and keeps the first
 * substantial row of each normalised URL, counting the rejected rows by reason.
 *
 * Its `normalize_url` has the same text as the batch dispatcher's, so it is that function.
 */
module SubstantialFilter {
  import opened Wrappers
  import opened Strings
  import opened UrllibParse
  import BatchRunAgent

  /** A row of `csv.reader`. */
  type Row = seq<string>

  /** `EXCLUDED_EXTENSIONS`, in the order of its set display. */
  const ExcludedExtensions: seq<string> :=
    [".pdf", ".jpg", ".png", ".gif", ".jpeg", ".doc", ".docx", ".xls", ".xlsx", ".ppt", ".pptx",
     ".zip", ".rar", ".mp3", ".mp4", ".avi"]

  /** `EXCLUDED_DOMAINS`, in the order of its set display. */
  const ExcludedDomains: seq<string> :=
    ["youtube.com", "vimeo.com", "tiktok.com", "docs.google.com", "drive.google.com",
     "sheets.google.com", "slides.google.com", "notion.so", "scribd.com", "pinterest.com"]

  /** The header written when the first row is not one. */
  const DefaultHeader: Row := ["conversation_id", "title", "url"]

  function NormalizeUrl(url: string): string
  {
    BatchRunAgent.NormalizeUrl(url)
  }

  /** `netloc == domain or netloc.endswith('.' + domain)`. */
  predicate OnDomain(netloc: string, domain: string)
  {
    netloc == domain || EndsWith(netloc, "." + domain)
  }

  /** The first of `exts` that `path` ends with. */
  function FirstSuffix(path: string, exts: seq<string>): (r: Option<string>)
    ensures r.Some? ==> r.value in exts && EndsWith(path, r.value)
    ensures r.None? <==> forall e :: e in exts ==> !EndsWith(path, e)
  {
    if exts == [] then None
    else if EndsWith(path, exts[0]) then Some(exts[0])
    else FirstSuffix(path, exts[1..])
  }

  /** The first of `domains` that `netloc` is on. */
  function FirstDomain(netloc: string, domains: seq<string>): (r: Option<string>)
    ensures r.Some? ==> r.value in domains && OnDomain(netloc, r.value)
    ensures r.None? <==> forall d :: d in domains ==> !OnDomain(netloc, d)
  {
    if domains == [] then None
    else if OnDomain(netloc, domains[0]) then Some(domains[0])
    else FirstDomain(netloc, domains[1..])
  }

  /**
   * `is_substantial_content`: `(False, "Error")` when parsing raises; `(False, "Extension: e")`
   * when the lower-cased path ends with an excluded extension; then `(False, "Domain: d")` when
   * the lower-cased host is an excluded domain or below one; `(True, "OK")` otherwise.
   */
  function Substantial(url: string): (bool, string)
  {
    Verdict(UrlParse(url))
  }

  /** The verdict on what `urlparse` returned (None when it raised). */
  function Verdict(parsed: Option<Url>): (bool, string)
  {
    match parsed
    case None => (false, "Error")
    case Some(p) =>
      match FirstSuffix(Lower(p.path), ExcludedExtensions)
      case Some(e) => (false, "Extension: " + e)
      case None =>
        match FirstDomain(Lower(p.netloc), ExcludedDomains)
        case Some(d) => (false, "Domain: " + d)
        case None => (true, "OK")
  }

  /** A URL is substantial iff it parses and neither its path nor its host is excluded. */
  lemma VerdictIff(parsed: Option<Url>)
    ensures Verdict(parsed).0 <==>
      (parsed.Some?
       && (forall e :: e in ExcludedExtensions ==> !EndsWith(Lower(parsed.value.path), e))
       && (forall d :: d in ExcludedDomains ==> !OnDomain(Lower(parsed.value.netloc), d)))
    ensures Verdict(parsed).0 <==> Verdict(parsed).1 == "OK"
    ensures Verdict(parsed).1 == "Error" <==> parsed.None?
  {
    if parsed.Some? {
      var e := FirstSuffix(Lower(parsed.value.path), ExcludedExtensions);
      if e.Some? {
        ReasonNotOk("Extension: ", e.value);
      } else {
        var d := FirstDomain(Lower(parsed.value.netloc), ExcludedDomains);
        if d.Some? {
          ReasonNotOk("Domain: ", d.value);
        }
      }
    }
  }

  lemma ReasonNotOk(head: string, x: string)
    requires head == "Extension: " || head == "Domain: "
    ensures head + x != "OK" && head + x != "Error"
  {
    assert (head + x)[..3] == head[..3];
  }

  /** The extension check comes first: an excluded extension wins over an excluded host. */
  lemma ExtensionBeforeDomain(p: Url, e: string)
    requires e in ExcludedExtensions && EndsWith(Lower(p.path), e)
    ensures Verdict(Some(p)) == (false, "Extension: " + e)
  {
    var f := FirstSuffix(Lower(p.path), ExcludedExtensions);
    ExtensionUnique(Lower(p.path), f.value, e);
  }

  /** An excluded host gives its own domain as the reason when the path is not excluded. */
  lemma DomainReason(p: Url, d: string)
    requires d in ExcludedDomains && OnDomain(Lower(p.netloc), d)
    requires forall e :: e in ExcludedExtensions ==> !EndsWith(Lower(p.path), e)
    ensures Verdict(Some(p)) == (false, "Domain: " + d)
  {
    var g := FirstDomain(Lower(p.netloc), ExcludedDomains);
    DomainUnique(Lower(p.netloc), g.value, d);
  }

  lemma SuffixOfSuffix(s: string, a: string, b: string)
    requires EndsWith(s, a) && EndsWith(s, b) && |a| <= |b|
    ensures EndsWith(b, a)
  {
    assert b[|b| - |a|..] == s[|s| - |a|..];
  }

  /** A dot, then no further dot. */
  predicate DotOnlyFirst(e: string)
  {
    e != [] && e[0] == '.' && forall i :: 0 < i < |e| ==> e[i] != '.'
  }

  lemma ExtensionsDotOnlyFirst()
    ensures forall e :: e in ExcludedExtensions ==> DotOnlyFirst(e)
  {
  }

  /**
   * At most one excluded extension ends a given path, so the iteration order of the set
   * does not matter.
   */
  lemma ExtensionUnique(path: string, e1: string, e2: string)
    requires e1 in ExcludedExtensions && e2 in ExcludedExtensions
    requires EndsWith(path, e1) && EndsWith(path, e2)
    ensures e1 == e2
  {
    ExtensionsDotOnlyFirst();
    if |e1| <= |e2| {
      SuffixOfSuffix(path, e1, e2);
      assert e2[|e2| - |e1|] == '.';
    } else {
      SuffixOfSuffix(path, e2, e1);
    }
  }

  /** A string that differs from `t` in one of its first two characters does not end `s`. */
  lemma NotSuffixAt(s: string, t: string)
    requires |t| >= 2 && |t| <= |s| && (s[|s| - |t|] != t[0] || s[|s| - |t| + 1] != t[1])
    ensures !EndsWith(s, t)
  {
    var tail := s[|s| - |t|..];
    assert tail[0] == s[|s| - |t|] && tail[1] == s[|s| - |t| + 1];
  }

  /** No excluded domain lies below the i-th one. */
  lemma NothingBelow(i: nat)
    requires i < |ExcludedDomains|
    ensures forall d2 :: d2 in ExcludedDomains ==> !EndsWith(d2, "." + ExcludedDomains[i])
  {
    if i < 5 {
      NothingBelowFirst(i);
    } else {
      NothingBelowLast(i);
    }
  }

  /** The first five entries, one by one. */
  lemma NothingBelowFirst(i: nat)
    requires i < 5
    ensures forall d2 :: d2 in ExcludedDomains ==> !EndsWith(d2, "." + ExcludedDomains[i])
  {
    var t := "." + ExcludedDomains[i];
    if i == 0 { assert ExcludedDomains[0] == "youtube.com"; }
    else if i == 1 { assert ExcludedDomains[1] == "vimeo.com"; }
    else if i == 2 { assert ExcludedDomains[2] == "tiktok.com"; }
    else if i == 3 { assert ExcludedDomains[3] == "docs.google.com"; }
    else { assert ExcludedDomains[4] == "drive.google.com"; }
    NoDomainEndsWith(t);
  }

  /** The last five entries, one by one. */
  lemma NothingBelowLast(i: nat)
    requires 5 <= i < |ExcludedDomains|
    ensures forall d2 :: d2 in ExcludedDomains ==> !EndsWith(d2, "." + ExcludedDomains[i])
  {
    var t := "." + ExcludedDomains[i];
    if i == 5 { assert ExcludedDomains[5] == "sheets.google.com"; }
    else if i == 6 { assert ExcludedDomains[6] == "slides.google.com"; }
    else if i == 7 { assert ExcludedDomains[7] == "notion.so"; }
    else if i == 8 { assert ExcludedDomains[8] == "scribd.com"; }
    else { assert ExcludedDomains[9] == "pinterest.com"; }
    NoDomainEndsWith(t);
  }

  /** A dotted name that differs from every excluded domain in both places it could end one. */
  lemma NoDomainEndsWith(t: string)
    requires |t| >= 2
    requires forall d2 :: d2 in ExcludedDomains && |t| <= |d2| ==> d2[|d2| - |t|] != t[0] || d2[|d2| - |t| + 1] != t[1]
    ensures forall d2 :: d2 in ExcludedDomains ==> !EndsWith(d2, t)
  {
    forall d2 | d2 in ExcludedDomains ensures !EndsWith(d2, t) {
      if |t| <= |d2| {
        NotSuffixAt(d2, t);
      }
    }
  }

  /** No excluded domain lies below another one. */
  lemma DomainsUnnested(d1: string, d2: string)
    requires d1 in ExcludedDomains && d2 in ExcludedDomains
    ensures !EndsWith(d2, "." + d1)
  {
    var i :| 0 <= i < |ExcludedDomains| && ExcludedDomains[i] == d1;
    NothingBelow(i);
  }

  lemma OnDomainEndsWith(netloc: string, d: string)
    requires OnDomain(netloc, d)
    ensures EndsWith(netloc, d)
  {
    if netloc != d {
      var s := "." + d;
      assert netloc[|netloc| - |d|..] == s[1..];
    }
  }

  /** At most one excluded domain matches a given host, so the iteration order does not matter. */
  lemma DomainUnique(netloc: string, d1: string, d2: string)
    requires d1 in ExcludedDomains && d2 in ExcludedDomains
    requires OnDomain(netloc, d1) && OnDomain(netloc, d2)
    ensures d1 == d2
  {
    DomainsUnnested(d1, d2);
    DomainsUnnested(d2, d1);
    OnDomainEndsWith(netloc, d1);
    OnDomainEndsWith(netloc, d2);
    if |d1| < |d2| {
      assert netloc != d1;
      SuffixOfSuffix(netloc, "." + d1, d2);
    } else if |d2| < |d1| {
      assert netloc != d2;
      SuffixOfSuffix(netloc, "." + d2, d1);
    } else {
      SuffixOfSuffix(netloc, d1, d2);
    }
  }

  /** The extension loop: the first of `exts` that `path` ends with. */
  method FindSuffix(path: string, exts: seq<string>) returns (r: Option<string>)
    ensures r == FirstSuffix(path, exts)
  {
    for i := 0 to |exts|
      invariant FirstSuffix(path, exts) == FirstSuffix(path, exts[i..])
    {
      if EndsWith(path, exts[i]) {
        return Some(exts[i]);
      }
      assert exts[i..][1..] == exts[i + 1..];
    }
    return None;
  }

  /** The domain loop: the first of `domains` that `netloc` is on. */
  method FindDomain(netloc: string, domains: seq<string>) returns (r: Option<string>)
    ensures r == FirstDomain(netloc, domains)
  {
    for i := 0 to |domains|
      invariant FirstDomain(netloc, domains) == FirstDomain(netloc, domains[i..])
    {
      var domain := domains[i];
      if netloc == domain || EndsWith(netloc, "." + domain) {
        return Some(domain);
      }
      assert domains[i..][1..] == domains[i + 1..];
    }
    return None;
  }

  /** `is_substantial_content`, returning at the first excluded extension, then at the first excluded domain. */
  method IsSubstantialContent(url: string) returns (substantial: bool, reason: string)
    ensures (substantial, reason) == Substantial(url)
  {
    var parsed := UrlParse(url);
    assert Substantial(url) == Verdict(parsed);
    if parsed.None? {
      return false, "Error";
    }
    var ext := FindSuffix(Lower(parsed.value.path), ExcludedExtensions);
    if ext.Some? {
      return false, "Extension: " + ext.value;
    }
    var domain := FindDomain(Lower(parsed.value.netloc), ExcludedDomains);
    if domain.Some? {
      return false, "Domain: " + domain.value;
    }
    return true, "OK";
  }

  // ---------------------------------------------------------------------------
  // The dedup/keep/remove loop of main

  /**
   * The loop's state: `seen_urls`, `kept_urls`, `removed_count`, and `removal_reasons` as the
   * multiset in which each reason occurs as often as it is counted.
   */
  datatype FilterState = FilterState(seen: set<string>, kept: seq<Row>, removed: nat, reasons: multiset<string>)

  /** A row the loop looks at: not empty and with at least three cells. */
  predicate HasUrlCell(row: Row)
  {
    |row| >= 3
  }

  /**
   * One row of the loop, for a normaliser `key` and a verdict `judge`; `main` uses
   * `NormalizeUrl` and `Substantial`.
   */
  function FilterStep(st: FilterState, row: Row, key: string -> string, judge: string -> (bool, string)): FilterState
  {
    if !HasUrlCell(row) then st
    else if key(row[2]) in st.seen then st
    else if judge(row[2]).0 then st.(kept := st.kept + [row], seen := st.seen + {key(row[2])})
    else st.(removed := st.removed + 1, reasons := st.reasons + multiset{judge(row[2]).1})
  }

  /** The loop over `rows`, from the empty state. */
  function FilterRows(rows: seq<Row>, key: string -> string, judge: string -> (bool, string)): FilterState
  {
    if rows == [] then FilterState({}, [], 0, multiset{})
    else FilterStep(FilterRows(rows[..|rows| - 1], key, judge), rows[|rows| - 1], key, judge)
  }

  /** The keys of the rows the verdict accepts. */
  function AcceptedKeys(rows: seq<Row>, key: string -> string, judge: string -> (bool, string)): set<string>
  {
    set i | 0 <= i < |rows| && HasUrlCell(rows[i]) && judge(rows[i][2]).0 :: key(rows[i][2])
  }

  /** Row `i` is the first accepted row of its key. */
  predicate FirstOfKey(rows: seq<Row>, i: nat, key: string -> string, judge: string -> (bool, string))
    requires i < |rows|
  {
    HasUrlCell(rows[i]) && judge(rows[i][2]).0 && key(rows[i][2]) !in AcceptedKeys(rows[..i], key, judge)
  }

  /** The reference answer: the first accepted row of each key, in input order. */
  function FirstRows(rows: seq<Row>, key: string -> string, judge: string -> (bool, string)): seq<Row>
  {
    if rows == [] then []
    else FirstRows(rows[..|rows| - 1], key, judge) + (if FirstOfKey(rows, |rows| - 1, key, judge) then [rows[|rows| - 1]] else [])
  }

  /** The reference count of removals: rejected rows whose key no earlier accepted row had. */
  function RejectedRows(rows: seq<Row>, key: string -> string, judge: string -> (bool, string)): nat
  {
    if rows == [] then 0
    else
      var row := rows[|rows| - 1];
      var init := rows[..|rows| - 1];
      RejectedRows(init, key, judge)
      + (if HasUrlCell(row) && key(row[2]) !in AcceptedKeys(init, key, judge) && !judge(row[2]).0 then 1 else 0)
  }

  lemma AcceptedKeysSnoc(rows: seq<Row>, key: string -> string, judge: string -> (bool, string))
    requires rows != []
    ensures var row := rows[|rows| - 1];
      AcceptedKeys(rows, key, judge) == AcceptedKeys(rows[..|rows| - 1], key, judge)
        + (if HasUrlCell(row) && judge(row[2]).0 then {key(row[2])} else {})
  {
    var init := rows[..|rows| - 1];
    var row := rows[|rows| - 1];
    var extra: set<string> := if HasUrlCell(row) && judge(row[2]).0 then {key(row[2])} else {};
    forall k | k in AcceptedKeys(rows, key, judge) ensures k in AcceptedKeys(init, key, judge) + extra {
      var i :| 0 <= i < |rows| && HasUrlCell(rows[i]) && judge(rows[i][2]).0 && k == key(rows[i][2]);
      if i < |init| {
        assert init[i] == rows[i];
      }
    }
    forall k | k in AcceptedKeys(init, key, judge) + extra ensures k in AcceptedKeys(rows, key, judge) {
      if k in AcceptedKeys(init, key, judge) {
        var i :| 0 <= i < |init| && HasUrlCell(init[i]) && judge(init[i][2]).0 && k == key(init[i][2]);
        assert rows[i] == init[i];
      } else {
        assert rows[|rows| - 1] == row;
      }
    }
  }

  /**
   * The loop keeps exactly the first accepted row of each key, `seen_urls` is the set of keys
   * of the accepted rows so far, and the removals are the rejected rows with a fresh key.
   */
  lemma {:induction false} FilterRowsReference(rows: seq<Row>, key: string -> string, judge: string -> (bool, string))
    ensures FilterRows(rows, key, judge).seen == AcceptedKeys(rows, key, judge)
    ensures FilterRows(rows, key, judge).kept == FirstRows(rows, key, judge)
    ensures FilterRows(rows, key, judge).removed == RejectedRows(rows, key, judge)
  {
    if rows != [] {
      FilterRowsReference(rows[..|rows| - 1], key, judge);
      AcceptedKeysSnoc(rows, key, judge);
    }
  }

  /** The keys of the kept rows are exactly `seen_urls`. */
  lemma {:induction false} KeptKeys(rows: seq<Row>, key: string -> string, judge: string -> (bool, string))
    ensures var st := FilterRows(rows, key, judge);
      (forall r :: r in st.kept ==> HasUrlCell(r) && key(r[2]) in st.seen)
      && (forall k :: k in st.seen ==> exists r :: r in st.kept && HasUrlCell(r) && key(r[2]) == k)
  {
    if rows != [] {
      KeptKeys(rows[..|rows| - 1], key, judge);
      var st := FilterRows(rows[..|rows| - 1], key, judge);
      var row := rows[|rows| - 1];
      var st' := FilterRows(rows, key, judge);
      assert st' == FilterStep(st, row, key, judge);
      if HasUrlCell(row) && key(row[2]) !in st.seen && judge(row[2]).0 {
        assert st'.kept == st.kept + [row];
        forall k | k in st'.seen ensures exists r :: r in st'.kept && HasUrlCell(r) && key(r[2]) == k {
          if k in st.seen {
            var r :| r in st.kept && HasUrlCell(r) && key(r[2]) == k;
            assert r in st'.kept;
          } else {
            assert row in st'.kept;
          }
        }
      }
    }
  }

  /** Kept rows have pairwise different keys, and the verdict accepts each of them. */
  lemma {:induction false} KeptDistinct(rows: seq<Row>, key: string -> string, judge: string -> (bool, string))
    ensures var kept := FilterRows(rows, key, judge).kept;
      (forall r :: r in kept ==> HasUrlCell(r) && judge(r[2]).0)
      && (forall i, j :: 0 <= i < j < |kept| ==> HasUrlCell(kept[i]) && HasUrlCell(kept[j]) && key(kept[i][2]) != key(kept[j][2]))
  {
    if rows != [] {
      KeptDistinct(rows[..|rows| - 1], key, judge);
      KeptKeys(rows[..|rows| - 1], key, judge);
      var st := FilterRows(rows[..|rows| - 1], key, judge);
      var row := rows[|rows| - 1];
      assert FilterRows(rows, key, judge) == FilterStep(st, row, key, judge);
      if HasUrlCell(row) && key(row[2]) !in st.seen && judge(row[2]).0 {
        var kept := st.kept + [row];
        forall i, j | 0 <= i < j < |kept| ensures HasUrlCell(kept[i]) && HasUrlCell(kept[j]) && key(kept[i][2]) != key(kept[j][2]) {
          assert kept[i] in st.kept;
          if j < |st.kept| {
            assert kept[j] == st.kept[j];
          }
        }
      }
    }
  }

  /** The kept rows are a subsequence of the input: each is a row of it, in input order. */
  lemma {:induction false} KeptInOrder(rows: seq<Row>, key: string -> string, judge: string -> (bool, string))
    returns (idx: seq<nat>)
    ensures |idx| == |FilterRows(rows, key, judge).kept|
    ensures forall k :: 0 <= k < |idx| ==> idx[k] < |rows| && rows[idx[k]] == FilterRows(rows, key, judge).kept[k]
    ensures forall k, l :: 0 <= k < l < |idx| ==> idx[k] < idx[l]
  {
    if rows == [] {
      return [];
    }
    var init := rows[..|rows| - 1];
    idx := KeptInOrder(init, key, judge);
    var st := FilterRows(init, key, judge);
    var row := rows[|rows| - 1];
    assert FilterRows(rows, key, judge) == FilterStep(st, row, key, judge);
    assert forall k :: 0 <= k < |idx| ==> rows[idx[k]] == init[idx[k]];
    if FilterRows(rows, key, judge).kept != st.kept {
      idx := idx + [|rows| - 1];
    }
  }

  /** Every removal is counted under one reason: `removed_count` is the total of `removal_reasons`. */
  lemma {:induction false} RemovedIsReasonTotal(rows: seq<Row>, key: string -> string, judge: string -> (bool, string))
    ensures FilterRows(rows, key, judge).removed == |FilterRows(rows, key, judge).reasons|
  {
    if rows != [] {
      RemovedIsReasonTotal(rows[..|rows| - 1], key, judge);
    }
  }

  /** With a verdict whose rejections never say "OK", no counted reason is "OK". */
  lemma {:induction false} ReasonsRejections(rows: seq<Row>, key: string -> string, judge: string -> (bool, string))
    requires forall u :: !judge(u).0 ==> judge(u).1 != "OK"
    ensures "OK" !in FilterRows(rows, key, judge).reasons
  {
    if rows != [] {
      ReasonsRejections(rows[..|rows| - 1], key, judge);
    }
  }

  /** `is_substantial_content` says "OK" exactly when it accepts. */
  lemma SubstantialOk(url: string)
    ensures Substantial(url).0 <==> Substantial(url).1 == "OK"
  {
    VerdictIff(UrlParse(url));
  }

  /** The reasons `main` counts are the rejections' reasons, so none of them is "OK". */
  lemma NoOkReason(rows: seq<Row>)
    ensures "OK" !in FilterRows(rows, NormalizeUrl, Substantial).reasons
  {
    forall u ensures !Substantial(u).0 ==> Substantial(u).1 != "OK" {
      SubstantialOk(u);
    }
    ReasonsRejections(rows, NormalizeUrl, Substantial);
  }

  /** The printed total, kept plus removed, never exceeds the number of rows looked at. */
  lemma {:induction false} TotalBounded(rows: seq<Row>, key: string -> string, judge: string -> (bool, string))
    ensures |FilterRows(rows, key, judge).kept| + FilterRows(rows, key, judge).removed <= |rows|
  {
    if rows != [] {
      TotalBounded(rows[..|rows| - 1], key, judge);
    }
  }

  /**
   * A rejected URL is not remembered: the same rejected row twice in a row, with a key that
   * is not in `seen_urls`, is counted as removed twice.
   */
  lemma RejectedCountedAgain(rows: seq<Row>, row: Row, key: string -> string, judge: string -> (bool, string))
    requires HasUrlCell(row) && !judge(row[2]).0 && key(row[2]) !in FilterRows(rows, key, judge).seen
    ensures FilterRows(rows + [row, row], key, judge).removed == FilterRows(rows, key, judge).removed + 2
  {
    var r1 := rows + [row];
    var r2 := rows + [row, row];
    assert r2[..|r2| - 1] == r1;
    assert r1[..|r1| - 1] == rows;
  }

  /** A row whose key is already in `seen_urls` is dropped without being counted. */
  lemma DuplicateNotCounted(rows: seq<Row>, row: Row, key: string -> string, judge: string -> (bool, string))
    requires HasUrlCell(row) && key(row[2]) in FilterRows(rows, key, judge).seen
    ensures FilterRows(rows + [row], key, judge) == FilterRows(rows, key, judge)
  {
    assert (rows + [row])[..|rows|] == rows;
  }

  /** Rows that are empty or have fewer than three cells change nothing. */
  lemma ShortRowIgnored(rows: seq<Row>, row: Row, key: string -> string, judge: string -> (bool, string))
    requires |row| < 3
    ensures FilterRows(rows + [row], key, judge) == FilterRows(rows, key, judge)
  {
    assert (rows + [row])[..|rows|] == rows;
  }

  lemma FilterRowsSnoc(rows: seq<Row>, i: nat, key: string -> string, judge: string -> (bool, string))
    requires i < |rows|
    ensures FilterRows(rows[..i + 1], key, judge) == FilterStep(FilterRows(rows[..i], key, judge), rows[i], key, judge)
  {
    assert rows[..i + 1][..i] == rows[..i];
  }

  /** `for row in reader` after the header, with the state in the loop's variables. */
  method FilterLoop(rows: seq<Row>) returns (st: FilterState)
    ensures st == FilterRows(rows, NormalizeUrl, Substantial)
  {
    var seen: set<string> := {};
    var kept: seq<Row> := [];
    var removed: nat := 0;
    var reasons: multiset<string> := multiset{};
    for i := 0 to |rows|
      invariant FilterState(seen, kept, removed, reasons) == FilterRows(rows[..i], NormalizeUrl, Substantial)
    {
      FilterRowsSnoc(rows, i, NormalizeUrl, Substantial);
      var row := rows[i];
      if |row| >= 3 {
        var url := row[2];
        var normalized := NormalizeUrl(url);
        if normalized !in seen {
          var isSubstantial, reason := IsSubstantialContent(url);
          if isSubstantial {
            kept := kept + [row];
            seen := seen + {normalized};
          } else {
            removed := removed + 1;
            reasons := reasons + multiset{reason};
          }
        }
      }
    }
    assert rows[..|rows|] == rows;
    st := FilterState(seen, kept, removed, reasons);
  }

  /** What `main` ends with: no input file, an empty input file, or the file it writes. */
  datatype FilterOutcome = MissingInput | EmptyInput | Written(header: Row, rows: seq<Row>, removed: nat, reasons: multiset<string>)

  /** The first row, always consumed: kept as the header only when its first cell mentions `conversation_id`. */
  function HeaderOf(first: Row): (r: Row)
    ensures r == first || r == DefaultHeader
    ensures r == first <== first != [] && Contains(Lower(first[0]), "conversation_id")
    ensures r == DefaultHeader <== first == [] || !Contains(Lower(first[0]), "conversation_id")
  {
    if first != [] && Contains(Lower(first[0]), "conversation_id") then first else DefaultHeader
  }

  /** `main` as a whole: the CSV file's rows, or None when it does not exist. */
  function FilterFile(input: Option<seq<Row>>): FilterOutcome
  {
    match input
    case None => MissingInput
    case Some(rows) =>
      if rows == [] then EmptyInput
      else
        var st := FilterRows(rows[1..], NormalizeUrl, Substantial);
        Written(HeaderOf(rows[0]), st.kept, st.removed, st.reasons)
  }

  method FilterMain(input: Option<seq<Row>>) returns (outcome: FilterOutcome)
    ensures outcome == FilterFile(input)
  {
    if input.None? {
      return MissingInput;
    }
    var rows := input.value;
    if rows == [] {
      return EmptyInput;
    }
    var header := HeaderOf(rows[0]);
    var st := FilterLoop(rows[1..]);
    return Written(header, st.kept, st.removed, st.reasons);
  }

  /** The first row is never treated as data, even when it is not a header. */
  lemma FirstRowNeverData(first: Row, rows: seq<Row>)
    ensures FilterFile(Some([first] + rows)).rows == FilterRows(rows, NormalizeUrl, Substantial).kept
  {
    assert ([first] + rows)[1..] == rows;
  }
}
