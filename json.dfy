/**
 * Parsed JSON values and the few Python operations the scripts apply to them.
 * An object lists its members in insertion order; as `json.load` builds a dict,
 * its keys are taken to be distinct, and a lookup returns the first member with the key.
 */
module Json {
  import opened Wrappers
  import opened Strings

  datatype J =
    | JNull
    | JBool(b: bool)
    | JNum(n: real)
    | JStr(s: string)
    | JArr(items: seq<J>)
    | JObj(fields: seq<(string, J)>)

  /** `d[key]` on a dict given by its members; None for a missing key. */
  function Lookup(fields: seq<(string, J)>, key: string): (r: Option<J>)
    ensures r.None? <==> forall i :: 0 <= i < |fields| ==> fields[i].0 != key
    ensures r.Some? ==> exists i :: 0 <= i < |fields| && fields[i] == (key, r.value)
  {
    if fields == [] then None
    else if fields[0].0 == key then Some(fields[0].1)
    else
      var r := Lookup(fields[1..], key);
      assert forall i :: 1 <= i < |fields| ==> fields[i] == fields[1..][i - 1];
      r
  }

  /** Python truthiness. */
  predicate Truthy(v: J)
  {
    match v
    case JNull => false
    case JBool(b) => b
    case JNum(n) => n != 0.0
    case JStr(s) => s != ""
    case JArr(items) => items != []
    case JObj(fields) => fields != []
  }

  /** `v.get(key, default)`; None when `v` is not a dict (Python raises AttributeError). */
  function PyGet(v: J, key: string, default: J): Option<J>
  {
    if v.JObj? then Some(Lookup(v.fields, key).GetOr(default)) else None
  }

  /** `key in v` for a string `key`; None when Python raises TypeError. */
  function PyIn(key: string, v: J): Option<bool>
  {
    match v
    case JObj(fields) => Some(Lookup(fields, key).Some?)
    case JArr(items) => Some(JStr(key) in items)
    case JStr(s) => Some(Contains(s, key))
    case _ => None
  }

  /** `v[key]` for a string `key`; None when Python raises KeyError or TypeError. */
  function PyIndex(v: J, key: string): Option<J>
  {
    if v.JObj? then Lookup(v.fields, key) else None
  }

  /** What `for x in v` visits: items, keys, or characters; None when `v` is not iterable. */
  function PyIter(v: J): Option<seq<J>>
  {
    match v
    case JArr(items) => Some(items)
    case JObj(fields) => Some(seq(|fields|, i requires 0 <= i < |fields| => JStr(fields[i].0)))
    case JStr(s) => Some(seq(|s|, i requires 0 <= i < |s| => JStr([s[i]])))
    case _ => None
  }

  /** `d.values()` of a dict given by its members, in insertion order. */
  function Values(fields: seq<(string, J)>): (vs: seq<J>)
    ensures |vs| == |fields| && forall i :: 0 <= i < |fields| ==> vs[i] == fields[i].1
  {
    seq(|fields|, i requires 0 <= i < |fields| => fields[i].1)
  }

  /** Values a Python set accepts: lists and dicts raise TypeError. */
  predicate Hashable(v: J)
  {
    !v.JArr? && !v.JObj?
  }

  /** What happens to a set that a loop fills: the values it gains, or None when Python raises and the run stops. */
  function Union(a: Option<set<J>>, b: Option<set<J>>): (r: Option<set<J>>)
    ensures r.Some? <==> a.Some? && b.Some?
    ensures r.Some? ==> r.value == a.value + b.value
  {
    if a.Some? && b.Some? then Some(a.value + b.value) else None
  }

  /** A `for` loop over `xs` whose body adds `f(x)` to the set, stopping the run if a body raises. */
  function Collect<T>(xs: seq<T>, f: T -> Option<set<J>>): (r: Option<set<J>>)
    ensures r.Some? <==> forall k :: 0 <= k < |xs| ==> f(xs[k]).Some?
    ensures r.Some? ==> forall x :: x in r.value <==> exists k :: 0 <= k < |xs| && f(xs[k]).Some? && x in f(xs[k]).value
  {
    if xs == [] then Some({})
    else
      var init := xs[..|xs| - 1];
      assert forall k :: 0 <= k < |init| ==> init[k] == xs[k];
      Union(Collect(init, f), f(xs[|xs| - 1]))
  }

  lemma CollectSnoc<T>(xs: seq<T>, f: T -> Option<set<J>>, k: nat)
    requires k < |xs|
    ensures Collect(xs[..k + 1], f) == Union(Collect(xs[..k], f), f(xs[k]))
  {
    assert xs[..k + 1][..k] == xs[..k];
  }
}
