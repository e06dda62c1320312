/**
 * The safe-URL harvest: the last `content_references` list of each transcript, the union of
 * the `safe_urls` of its entries, and the rows written per file in sorted order.
 */
module SafeUrls {
  import opened Wrappers
  import opened Strings
  import opened Json
  import opened Sorting
  import opened Sets

  const RefsKey := "content_references"

  /** What one dict member adds to `content_refs` before its value is visited: its list, if it is one under `content_references`. */
  function Recorded(key: string, value: J): seq<seq<J>>
  {
    if key == RefsKey && value.JArr? then [value.items] else []
  }

  /**
   * The lists `traverse` appends to `content_refs` under `v`, in visiting order: dict members
   * in order, each one recorded before the keys nested inside it, and list items by index.
   */
  function Refs(v: J): seq<seq<J>>
    decreases v, 1
  {
    match v
    case JObj(fields) => RefsFields(v, |fields|)
    case JArr(items) => RefsItems(v, |items|)
    case _ => []
  }

  function RefsFields(v: J, n: nat): seq<seq<J>>
    requires v.JObj? && n <= |v.fields|
    decreases v, 0, n
  {
    if n == 0 then [] else RefsFields(v, n - 1) + MemberRefs(v.fields[n - 1].0, v.fields[n - 1].1)
  }

  /** What one dict member adds: its own list, then the lists under its value. */
  function MemberRefs(key: string, value: J): seq<seq<J>>
    decreases value, 2
  {
    Recorded(key, value) + Refs(value)
  }

  function RefsItems(v: J, n: nat): seq<seq<J>>
    requires v.JArr? && n <= |v.items|
    decreases v, 0, n
  {
    if n == 0 then [] else RefsItems(v, n - 1) + Refs(v.items[n - 1])
  }

  /** Visiting member `i` of a dict: its own list, then the lists under its value. */
  lemma FieldStep(v: J, i: nat, acc: seq<seq<J>>)
    requires v.JObj? && i < |v.fields|
    ensures acc + RefsFields(v, i + 1)
      == acc + RefsFields(v, i) + Recorded(v.fields[i].0, v.fields[i].1) + Refs(v.fields[i].1)
  {
    var f := v.fields[i];
    assert RefsFields(v, i + 1) == RefsFields(v, i) + MemberRefs(f.0, f.1);
    SeqAssoc(acc, RefsFields(v, i), Recorded(f.0, f.1) + Refs(f.1));
    SeqAssoc(acc + RefsFields(v, i), Recorded(f.0, f.1), Refs(f.1));
  }

  /** Visiting item `i` of a list: the lists under it. */
  lemma ItemStep(v: J, i: nat, acc: seq<seq<J>>)
    requires v.JArr? && i < |v.items|
    ensures acc + RefsItems(v, i + 1) == acc + RefsItems(v, i) + Refs(v.items[i])
  {
    SeqAssoc(acc, RefsItems(v, i), Refs(v.items[i]));
  }

  /** `find_last_content_references`: the last recorded list, or `[]` when there is none. */
  function LastRefs(data: J): seq<J>
  {
    var refs := Refs(data);
    if refs == [] then [] else refs[|refs| - 1]
  }

  /** `traverse`: appends to `acc` every list found under `v`. */
  method Traverse(v: J, acc: seq<seq<J>>) returns (acc': seq<seq<J>>)
    ensures acc' == acc + Refs(v)
    decreases v
  {
    acc' := acc;
    match v {
      case JObj(fields) =>
        for i := 0 to |fields|
          invariant acc' == acc + RefsFields(v, i)
        {
          FieldStep(v, i, acc);
          if fields[i].0 == RefsKey && fields[i].1.JArr? {
            acc' := acc' + [fields[i].1.items];
          }
          acc' := Traverse(fields[i].1, acc');
        }
      case JArr(items) =>
        for i := 0 to |items|
          invariant acc' == acc + RefsItems(v, i)
        {
          ItemStep(v, i, acc);
          acc' := Traverse(items[i], acc');
        }
      case _ =>
    }
  }

  method FindLastContentReferences(data: J) returns (r: seq<J>)
    ensures r == LastRefs(data)
  {
    var refs := Traverse(data, []);
    if refs == [] {
      return [];
    }
    return refs[|refs| - 1];
  }

  // ---------------------------------------------------------------------------
  // Where the lists come from

  /** Some `content_references` key under `v` maps to a list. */
  predicate HasRefList(v: J)
    decreases v
  {
    match v
    case JObj(fields) =>
      exists i :: 0 <= i < |fields| && ((fields[i].0 == RefsKey && fields[i].1.JArr?) || HasRefList(fields[i].1))
    case JArr(items) => exists i :: 0 <= i < |items| && HasRefList(items[i])
    case _ => false
  }

  lemma {:induction false} RefsEmptyIff(v: J)
    ensures Refs(v) == [] <==> !HasRefList(v)
    decreases v
  {
    match v
    case JObj(fields) => RefsFieldsEmptyIff(v, |fields|);
    case JArr(items) => RefsItemsEmptyIff(v, |items|);
    case _ =>
  }

  lemma {:induction false} RefsFieldsEmptyIff(v: J, n: nat)
    requires v.JObj? && n <= |v.fields|
    ensures RefsFields(v, n) == [] <==>
      forall i :: 0 <= i < n ==> !(v.fields[i].0 == RefsKey && v.fields[i].1.JArr?) && !HasRefList(v.fields[i].1)
    decreases v, n
  {
    if n > 0 {
      RefsFieldsEmptyIff(v, n - 1);
      RefsEmptyIff(v.fields[n - 1].1);
    }
  }

  lemma {:induction false} RefsItemsEmptyIff(v: J, n: nat)
    requires v.JArr? && n <= |v.items|
    ensures RefsItems(v, n) == [] <==> forall i :: 0 <= i < n ==> !HasRefList(v.items[i])
    decreases v, n
  {
    if n > 0 {
      RefsItemsEmptyIff(v, n - 1);
      RefsEmptyIff(v.items[n - 1]);
    }
  }

  /** Without any `content_references` list the result is `[]`. */
  lemma NoRefsGivesEmpty(data: J)
    requires !HasRefList(data)
    ensures LastRefs(data) == []
  {
    RefsEmptyIff(data);
  }

  /** A `content_references` list is recorded before the lists nested inside it. */
  lemma OuterBeforeInner(items: seq<J>)
    ensures Refs(JObj([(RefsKey, JArr(items))])) == [items] + Refs(JArr(items))
  {
    var v := JObj([(RefsKey, JArr(items))]);
    assert RefsFields(v, 1) == RefsFields(v, 0) + MemberRefs(RefsKey, JArr(items));
  }

  /** Hence a list with a nested list inside loses to it: the nested one comes later. */
  lemma InnerWins(items: seq<J>)
    requires HasRefList(JArr(items))
    ensures LastRefs(JObj([(RefsKey, JArr(items))])) == LastRefs(JArr(items))
  {
    OuterBeforeInner(items);
    RefsEmptyIff(JArr(items));
  }

  /** A value under `content_references` that is not a list is not recorded, but what is inside it is. */
  lemma NonListDescended(w: J)
    requires !w.JArr?
    ensures Refs(JObj([(RefsKey, w)])) == Refs(w)
  {
    var v := JObj([(RefsKey, w)]);
    assert RefsFields(v, 1) == RefsFields(v, 0) + MemberRefs(RefsKey, w);
  }

  lemma {:induction false} RefsFieldsPrefix(v: J, w: J, n: nat)
    requires v.JObj? && w.JObj? && n <= |v.fields| && n <= |w.fields| && v.fields[..n] == w.fields[..n]
    ensures RefsFields(v, n) == RefsFields(w, n)
  {
    if n > 0 {
      assert v.fields[..n - 1] == v.fields[..n][..n - 1];
      assert w.fields[..n - 1] == w.fields[..n][..n - 1];
      RefsFieldsPrefix(v, w, n - 1);
      assert v.fields[n - 1] == v.fields[..n][n - 1];
      assert w.fields[n - 1] == w.fields[..n][n - 1];
    }
  }

  lemma {:induction false} RefsFieldsConcat(f1: seq<(string, J)>, f2: seq<(string, J)>, m: nat, n: nat)
    requires m <= |f2| && n == |f1| + m
    ensures RefsFields(JObj(f1 + f2), n) == Refs(JObj(f1)) + RefsFields(JObj(f2), m)
  {
    if m == 0 {
      RefsFieldsConcatBase(f1, f2);
    } else {
      RefsFieldsConcat(f1, f2, m - 1, n - 1);
      RefsFieldsConcatStep(f1, f2, m, n);
    }
  }

  /** No member of the second part yet: the first part's own lists. */
  lemma RefsFieldsConcatBase(f1: seq<(string, J)>, f2: seq<(string, J)>)
    ensures RefsFields(JObj(f1 + f2), |f1|) == Refs(JObj(f1))
  {
    assert (f1 + f2)[..|f1|] == f1[..|f1|];
    RefsFieldsPrefix(JObj(f1 + f2), JObj(f1), |f1|);
  }

  /** One more member of the second part adds the same lists on both sides. */
  lemma RefsFieldsConcatStep(f1: seq<(string, J)>, f2: seq<(string, J)>, m: nat, n: nat)
    requires 0 < m <= |f2| && n == |f1| + m
    requires RefsFields(JObj(f1 + f2), n - 1) == Refs(JObj(f1)) + RefsFields(JObj(f2), m - 1)
    ensures RefsFields(JObj(f1 + f2), n) == Refs(JObj(f1)) + RefsFields(JObj(f2), m)
  {
    var x := f2[m - 1];
    assert (f1 + f2)[n - 1] == x;
    RefsFieldsLast(JObj(f1 + f2), n, n - 1, x);
    RefsFieldsLast(JObj(f2), m, m - 1, x);
    AppendStep(RefsFields(JObj(f1 + f2), n), RefsFields(JObj(f1 + f2), n - 1),
      Refs(JObj(f1)), RefsFields(JObj(f2), m), RefsFields(JObj(f2), m - 1), MemberRefs(x.0, x.1));
  }

  /** Extending both sides of `whole' == a + r'` by the same tail. */
  lemma AppendStep<T>(whole: seq<T>, whole': seq<T>, a: seq<T>, r: seq<T>, r': seq<T>, t: seq<T>)
    requires whole' == a + r' && whole == whole' + t && r == r' + t
    ensures whole == a + r
  {
    SeqAssoc(a, r', t);
  }

  /** The lists of the first `n` members: those of the first `n - 1`, then those of member `n`. */
  lemma RefsFieldsLast(v: J, n: nat, k: nat, x: (string, J))
    requires v.JObj? && n == k + 1 && n <= |v.fields| && v.fields[k] == x
    ensures RefsFields(v, n) == RefsFields(v, k) + MemberRefs(x.0, x.1)
  {
  }

  /** Dict members are visited in order: the lists of later members come after those of earlier ones. */
  lemma RefsOfConcat(f1: seq<(string, J)>, f2: seq<(string, J)>)
    ensures Refs(JObj(f1 + f2)) == Refs(JObj(f1)) + Refs(JObj(f2))
  {
    RefsFieldsConcat(f1, f2, |f2|, |f1| + |f2|);
  }

  /** Hence the last list wins: a later member holding a list decides the result. */
  lemma LaterMemberWins(f1: seq<(string, J)>, f2: seq<(string, J)>)
    requires HasRefList(JObj(f2))
    ensures LastRefs(JObj(f1 + f2)) == LastRefs(JObj(f2))
  {
    RefsOfConcat(f1, f2);
    RefsEmptyIff(JObj(f2));
  }

  // ---------------------------------------------------------------------------
  // The safe-url union

  /** One entry: the items of its `safe_urls` list; nothing when it is not a dict or `safe_urls` is not a list; None when `update` raises. */
  function RefSafeUrls(ref: J): (r: Option<set<J>>)
    ensures r.Some? && r.value != {} ==>
      ref.JObj? && Lookup(ref.fields, "safe_urls").Some? && Lookup(ref.fields, "safe_urls").value.JArr?
      && forall x :: x in r.value <==> x in Lookup(ref.fields, "safe_urls").value.items
  {
    if !ref.JObj? then Some({})
    else match Lookup(ref.fields, "safe_urls")
      case None => Some({})
      case Some(su) =>
        if !su.JArr? then Some({})
        else if forall k :: 0 <= k < |su.items| ==> Hashable(su.items[k]) then Some(set x | x in su.items)
        else None
  }

  /** `extract_safe_urls_from_content_references`: the union over the entries. */
  function SafeUrlSet(refs: seq<J>): Option<set<J>>
  {
    Collect(refs, RefSafeUrls)
  }

  /** Non-dict entries and non-list `safe_urls` add nothing. */
  lemma IgnoredEntries(ref: J)
    requires !ref.JObj? || Lookup(ref.fields, "safe_urls").None? || !Lookup(ref.fields, "safe_urls").value.JArr?
    ensures RefSafeUrls(ref) == Some({})
  {
  }

  /** `x` is an item of the `safe_urls` list of the dict `ref`. */
  predicate Listed(ref: J, x: J)
  {
    ref.JObj? && Lookup(ref.fields, "safe_urls").Some? && Lookup(ref.fields, "safe_urls").value.JArr?
    && x in Lookup(ref.fields, "safe_urls").value.items
  }

  lemma RefSafeUrlsMembers(ref: J, x: J)
    requires RefSafeUrls(ref).Some?
    ensures x in RefSafeUrls(ref).value <==> Listed(ref, x)
  {
  }

  /** The set is the union of the `safe_urls` lists of the dict entries. */
  lemma SafeUrlSetMembers(refs: seq<J>, x: J)
    requires SafeUrlSet(refs).Some?
    ensures x in SafeUrlSet(refs).value <==> exists k :: 0 <= k < |refs| && Listed(refs[k], x)
  {
    if x in SafeUrlSet(refs).value {
      var k :| 0 <= k < |refs| && RefSafeUrls(refs[k]).Some? && x in RefSafeUrls(refs[k]).value;
      RefSafeUrlsMembers(refs[k], x);
    }
    if exists k :: 0 <= k < |refs| && Listed(refs[k], x) {
      var k :| 0 <= k < |refs| && Listed(refs[k], x);
      RefSafeUrlsMembers(refs[k], x);
    }
  }

  /** `urls.update(items)`: adds the items one at a time; None when one of them is unhashable. */
  method Update(urls: set<J>, items: seq<J>) returns (r: Option<set<J>>)
    ensures r.Some? <==> forall k :: 0 <= k < |items| ==> Hashable(items[k])
    ensures r.Some? ==> r.value == urls + set x | x in items
  {
    var acc := urls;
    for k := 0 to |items|
      invariant forall m :: 0 <= m < k ==> Hashable(items[m])
      invariant acc == urls + set x | x in items[..k]
    {
      if !Hashable(items[k]) {
        return None;
      }
      assert items[..k + 1] == items[..k] + [items[k]];
      acc := acc + {items[k]};
    }
    assert items[..|items|] == items;
    return Some(acc);
  }

  /** The loop over the entries of `extract_safe_urls_from_content_references`. */
  method ExtractSafeUrls(refs: seq<J>) returns (r: Option<set<J>>)
    ensures r == SafeUrlSet(refs)
  {
    var urls: set<J> := {};
    for i := 0 to |refs|
      invariant Collect(refs[..i], RefSafeUrls) == Some(urls)
    {
      CollectSnoc(refs, RefSafeUrls, i);
      var updated := AddRef(urls, refs[i]);
      if updated.None? {
        assert RefSafeUrls(refs[i]).None?;
        return None;
      }
      urls := updated.value;
    }
    assert refs[..|refs|] == refs;
    return Some(urls);
  }

  /** One pass of the loop body: the entry's `safe_urls` added to `urls`, None when an item is unhashable. */
  method AddRef(urls: set<J>, ref: J) returns (r: Option<set<J>>)
    ensures r == Union(Some(urls), RefSafeUrls(ref))
  {
    if ref.JObj? && Lookup(ref.fields, "safe_urls").Some? {
      var su := Lookup(ref.fields, "safe_urls").value;
      if su.JArr? {
        r := Update(urls, su.items);
        return;
      }
    }
    assert urls + {} == urls;
    return Some(urls);
  }

  // ---------------------------------------------------------------------------
  // sorted(urls): Python's `<` orders two strings, or two numbers (a `bool` counts as 0 or 1),
  // and raises TypeError on any other pair; a set of one item is returned without a comparison.

  /** A value Python compares as a number. */
  predicate Numeric(v: J)
  {
    v.JNum? || v.JBool?
  }

  /** The number a numeric value stands for. */
  function NumValue(v: J): real
    requires Numeric(v)
  {
    if v.JNum? then v.n else if v.b then 1.0 else 0.0
  }

  /** `a < b` does not raise. */
  predicate Comparable(a: J, b: J)
  {
    (a.JStr? && b.JStr?) || (Numeric(a) && Numeric(b))
  }

  /** `sorted(urls)` does not raise: every two distinct items can be compared. */
  predicate Orderable(urls: set<J>)
  {
    forall x, y :: x in urls && y in urls && x != y ==> Comparable(x, y)
  }

  /** `a` may come before `b` in a sorted list: a smaller string, or a number no larger. */
  predicate Before(a: J, b: J)
  {
    (a.JStr? && b.JStr? && StrLt(a.s, b.s)) || (Numeric(a) && Numeric(b) && NumValue(a) <= NumValue(b))
  }

  /** Ascending, with no item twice. */
  predicate Ascending(r: seq<J>)
  {
    forall i, j :: 0 <= i < j < |r| ==> r[i] != r[j] && Before(r[i], r[j])
  }

  /** `r` is `sorted(urls)`: ascending and holding exactly the items of the set. */
  predicate SortsUrls(urls: set<J>, r: seq<J>)
  {
    Ascending(r) && (forall x :: x in r ==> x in urls) && (forall x :: x in urls ==> x in r)
  }

  /** A set `sorted` accepts is a single item, all strings, or all numbers. */
  lemma OrderableCases(urls: set<J>)
    ensures Orderable(urls) <==>
      |urls| < 2 || (forall x :: x in urls ==> x.JStr?) || (forall x :: x in urls ==> Numeric(x))
  {
    forall x, y | x in urls && y in urls && x != y
      ensures |urls| >= 2
    {
      assert {x, y} <= urls;
      assert |{x, y}| == 2;
      SubsetSize({x, y}, urls);
    }
    if Orderable(urls) && |urls| >= 2 && exists y :: y in urls && !y.JStr? {
      var y :| y in urls && !y.JStr?;
      var z := Other(urls, y);
      assert Comparable(z, y);
      forall x | x in urls ensures Numeric(x) {
        if x != y {
          assert Comparable(x, y);
        }
      }
    }
  }

  /** A set of at least two items holds one other than `y`. */
  lemma Other(urls: set<J>, y: J) returns (z: J)
    requires |urls| >= 2
    ensures z in urls && z != y
  {
    assert urls <= (urls - {y}) + {y};
    SubsetSize(urls, (urls - {y}) + {y});
    assert |urls - {y}| > 0;
    z :| z in urls - {y};
  }

  /** A subset is no larger. */
  lemma SubsetSize<T>(a: set<T>, b: set<T>)
    requires a <= b
    ensures |a| <= |b|
  {
    assert b == a + (b - a);
  }

  /** An ascending list of a set has as many entries as the set has items. */
  lemma {:induction false} SortsUrlsSize(urls: set<J>, r: seq<J>)
    requires SortsUrls(urls, r)
    ensures |r| == |urls|
  {
    if r != [] {
      var n := |r| - 1;
      var init := r[..n];
      forall x ensures x in init <==> x in urls - {r[n]} {
        if x in init {
          var k :| 0 <= k < n && init[k] == x;
          assert r[k] == x;
        }
        if x in urls - {r[n]} {
          var k :| 0 <= k < |r| && r[k] == x;
          assert k < n && init[k] == x;
        }
      }
      SortsUrlsSize(urls - {r[n]}, init);
    }
  }

  /** Puts the number `x` into an ascending list of numbers. */
  function InsertNum(ys: seq<J>, x: J): (r: seq<J>)
    requires Numeric(x) && x !in ys && Ascending(ys) && forall k :: 0 <= k < |ys| ==> Numeric(ys[k])
    ensures Ascending(r) && forall k :: 0 <= k < |r| ==> Numeric(r[k])
    ensures forall z :: z in r <==> z in ys || z == x
  {
    if ys == [] then [x]
    else if NumValue(x) <= NumValue(ys[0]) then [x] + ys
    else
      var rest := InsertNum(ys[1..], x);
      forall k | 0 <= k < |rest| ensures rest[k] != ys[0] && Before(ys[0], rest[k]) {
        if rest[k] != x {
          assert rest[k] in ys[1..];
          var m :| 0 <= m < |ys| - 1 && ys[1..][m] == rest[k];
          assert ys[m + 1] == rest[k];
        }
      }
      [ys[0]] + rest
  }

  /** `sorted` on a set of numbers: one item at a time put in its place. */
  method SortedNums(urls: set<J>) returns (r: seq<J>)
    requires forall x :: x in urls ==> Numeric(x)
    ensures SortsUrls(urls, r)
  {
    r := [];
    var left := urls;
    while left != {}
      invariant left <= urls
      invariant Ascending(r) && forall k :: 0 <= k < |r| ==> Numeric(r[k])
      invariant forall x :: x in r <==> x in urls - left
      decreases |left|
    {
      var x := Pick(left);
      r := InsertNum(r, x);
      left := left - {x};
    }
  }

  /** `sorted` on a set of strings, through the sorted list of the strings themselves. */
  method SortedStrs(urls: set<J>) returns (r: seq<J>)
    requires forall x :: x in urls ==> x.JStr?
    ensures SortsUrls(urls, r)
  {
    var strs := set x | x in urls :: x.s;
    var ss := SortedList(strs);
    r := seq(|ss|, i requires 0 <= i < |ss| => JStr(ss[i]));
    forall i, j | 0 <= i < j < |r| ensures r[i] != r[j] && Before(r[i], r[j]) {
      SortedDistinct(ss, i, j);
    }
    forall x ensures x in r <==> x in urls {
      if x in r {
        var i :| 0 <= i < |r| && r[i] == x;
        assert ss[i] in strs;
        var y :| y in urls && y.s == ss[i];
        assert y == x;
      }
      if x in urls {
        assert x.s in ss;
        var i :| 0 <= i < |ss| && ss[i] == x.s;
        assert r[i] == x;
      }
    }
  }

  /** `sorted(urls)`: None when it raises. */
  method Sorted(urls: set<J>) returns (r: Option<seq<J>>)
    ensures r.Some? <==> Orderable(urls)
    ensures r.Some? ==> SortsUrls(urls, r.value)
  {
    OrderableCases(urls);
    if |urls| < 2 {
      if urls == {} {
        return Some([]);
      }
      var x := Pick(urls);
      assert urls == {x} by {
        SubsetSize({x}, urls);
        if urls - {x} != {} {
          var y :| y in urls - {x};
          assert {x, y} <= urls && |{x, y}| == 2;
          SubsetSize({x, y}, urls);
        }
      }
      return Some([x]);
    }
    if forall x :: x in urls ==> x.JStr? {
      var sorted := SortedStrs(urls);
      return Some(sorted);
    }
    if forall x :: x in urls ==> Numeric(x) {
      var sorted := SortedNums(urls);
      return Some(sorted);
    }
    return None;
  }

  /** Python compares strings with strings and numbers with numbers, and a single item with nothing. */
  lemma OrderableExamples(s: string, t: string, n: real, v: J)
    ensures Orderable({JStr(s), JStr(t)}) && Orderable({JNum(n), JBool(true)}) && Orderable({v})
    ensures !Orderable({JStr(s), JNum(n)}) && !Orderable({JNull, v}) == (v != JNull)
  {
    if v != JNull {
      assert !Comparable(JNull, v);
    }
  }

  // ---------------------------------------------------------------------------
  // main: one group of rows per transcript, in sorted file-name order

  /** The conversations directory: each entry's parsed content, None when it does not load. */
  type Dir = map<string, Option<J>>

  /**
   * A name `Path.glob("*.json")` matches: any name ending in `.json`. Unlike `glob.glob`, the
   * path glob does not pass over names that start with `.`, so `.json` and `.x.json` are read too.
   */
  predicate IsJsonName(name: string)
  {
    EndsWith(name, ".json")
  }

  function JsonNames(dir: Dir): set<string>
  {
    set name | name in dir.Keys && IsJsonName(name)
  }

  /**
   * What one file adds: its `title` (default "Untitled") and its URL set; None when it fails to
   * load, is not a dict, has no (or an empty) last list, yields no URL, or `update` or `sorted` raises.
   */
  function FileGroup(content: Option<J>): (r: Option<(J, set<J>)>)
    ensures r.Some? ==> r.value.1 != {} && Orderable(r.value.1)
  {
    match content
    case None => None
    case Some(data) =>
      if !data.JObj? then None
      else
        var title := PyGet(data, "title", JStr("Untitled")).value;
        var refs := LastRefs(data);
        if refs == [] then None
        else match SafeUrlSet(refs)
          case None => None
          case Some(urls) =>
            if urls == {} || !Orderable(urls) then None
            else Some((title, urls))
  }

  /** Every name is an entry of the directory. */
  predicate InDir(names: seq<string>, dir: Dir)
  {
    forall i :: 0 <= i < |names| ==> names[i] in dir
  }

  lemma InDirPrefix(names: seq<string>, n: nat, dir: Dir)
    requires InDir(names, dir) && n <= |names|
    ensures InDir(names[..n], dir)
  {
  }

  /** The groups of `file_urls` for the files taken in the order of `names`. */
  function Groups(names: seq<string>, dir: Dir): seq<(J, set<J>)>
    requires InDir(names, dir)
  {
    if names == [] then []
    else
      var init := names[..|names| - 1];
      InDirPrefix(names, |names| - 1, dir);
      Groups(init, dir)
      + match FileGroup(dir[names[|names| - 1]]) case None => [] case Some(g) => [g]
  }

  lemma GroupsSnoc(names: seq<string>, i: nat, dir: Dir)
    requires i < |names| && InDir(names, dir)
    ensures InDir(names[..i], dir) && InDir(names[..i + 1], dir)
    ensures Groups(names[..i + 1], dir)
      == Groups(names[..i], dir) + match FileGroup(dir[names[i]]) case None => [] case Some(g) => [g]
  {
    InDirPrefix(names, i, dir);
    InDirPrefix(names, i + 1, dir);
    assert names[..i + 1][..i] == names[..i];
  }

  /** Every group has at least one URL: files without any contribute no group. */
  lemma {:induction false} GroupsNonEmpty(names: seq<string>, dir: Dir, k: nat)
    requires InDir(names, dir)
    requires k < |Groups(names, dir)|
    ensures Groups(names, dir)[k].1 != {}
  {
    var init := names[..|names| - 1];
    InDirPrefix(names, |names| - 1, dir);
    if k < |Groups(init, dir)| {
      GroupsNonEmpty(init, dir, k);
    }
  }

  /** The body of the file loop; the URLs of a group come out sorted. */
  method ProcessFile(content: Option<J>) returns (r: Option<(J, seq<J>)>)
    ensures r.Some? <==> FileGroup(content).Some?
    ensures r.Some? ==> r.value.0 == FileGroup(content).value.0 && SortsUrls(FileGroup(content).value.1, r.value.1)
  {
    if content.None? {
      return None;
    }
    var data := content.value;
    if !data.JObj? {
      return None;
    }
    var title := PyGet(data, "title", JStr("Untitled")).value;
    var refs := FindLastContentReferences(data);
    if refs == [] {
      return None;
    }
    var urls := ExtractSafeUrls(refs);
    if urls.None? || urls.value == {} {
      return None;
    }
    var sorted := Sorted(urls.value);
    if sorted.None? {
      return None;
    }
    return Some((title, sorted.value));
  }

  /** The written groups, one per group of `sets`, with the same title and its URLs sorted. */
  predicate GroupsAgree(groups: seq<(J, seq<J>)>, sets: seq<(J, set<J>)>)
  {
    |groups| == |sets| && forall k :: 0 <= k < |groups| ==> groups[k].0 == sets[k].0 && SortsUrls(sets[k].1, groups[k].1)
  }

  lemma GroupsAgreeSnoc(groups: seq<(J, seq<J>)>, sets: seq<(J, set<J>)>, g: (J, seq<J>), s: (J, set<J>))
    requires GroupsAgree(groups, sets) && g.0 == s.0 && SortsUrls(s.1, g.1)
    ensures GroupsAgree(groups + [g], sets + [s])
  {
    var gs, ss := groups + [g], sets + [s];
    forall k | 0 <= k < |gs| ensures gs[k].0 == ss[k].0 && SortsUrls(ss[k].1, gs[k].1) {
      if k < |groups| {
        assert gs[k] == groups[k] && ss[k] == sets[k];
      }
    }
  }

  /** The loop of `main` over the files, in the order of `names`. */
  method CollectGroups(names: seq<string>, dir: Dir) returns (groups: seq<(J, seq<J>)>)
    requires InDir(names, dir)
    ensures GroupsAgree(groups, Groups(names, dir))
  {
    groups := [];
    InDirPrefix(names, 0, dir);
    for i := 0 to |names|
      invariant InDir(names[..i], dir)
      invariant GroupsAgree(groups, Groups(names[..i], dir))
    {
      GroupsSnoc(names, i, dir);
      var group := ProcessFile(dir[names[i]]);
      if group.Some? {
        GroupsAgreeSnoc(groups, Groups(names[..i], dir), group.value, FileGroup(dir[names[i]]).value);
        groups := groups + [group.value];
      } else {
        assert Groups(names[..i + 1], dir) == Groups(names[..i], dir) + [];
      }
    }
    assert names[..|names|] == names;
  }

  /**
   * `main`: the `*.json` names in sorted order, and for each file in that order the group it
   * adds, with its URLs sorted.
   */
  method SafeUrlsMain(dir: Dir) returns (names: seq<string>, groups: seq<(J, seq<J>)>)
    ensures SortsTo(JsonNames(dir), names)
    ensures InDir(names, dir)
    ensures GroupsAgree(groups, Groups(names, dir))
  {
    names := SortedList(JsonNames(dir));
    assert forall i :: 0 <= i < |names| ==> names[i] in JsonNames(dir);
    groups := CollectGroups(names, dir);
  }

  /** The rows of `unique_safe_urls.csv` after its header: each group's URLs with its title. */
  function CsvRows(groups: seq<(J, seq<J>)>): seq<(J, J)>
  {
    if groups == [] then []
    else
      var (title, urls) := groups[|groups| - 1];
      CsvRows(groups[..|groups| - 1]) + seq(|urls|, i requires 0 <= i < |urls| => (title, urls[i]))
  }

  /** The printed total: the sum of the sizes of the groups' URL sets. */
  function Total(groups: seq<(J, set<J>)>): nat
  {
    if groups == [] then 0 else Total(groups[..|groups| - 1]) + |groups[|groups| - 1].1|
  }

  /** The printed total is the number of rows written. */
  lemma {:induction false} TotalIsRowCount(groups: seq<(J, seq<J>)>, sets: seq<(J, set<J>)>)
    requires GroupsAgree(groups, sets)
    ensures |CsvRows(groups)| == Total(sets)
  {
    if groups != [] {
      var n := |groups| - 1;
      TotalIsRowCount(groups[..n], sets[..n]);
      SortsUrlsSize(sets[n].1, groups[n].1);
    }
  }
}
