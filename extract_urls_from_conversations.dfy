/**
 * The citation classifier: for each exported conversation transcript it collects the
 * URLs the assistant cited (from `content_references`) and the URLs that merely appear in
 * the transcript's text, normalised so that `utm_source` tracking does not matter, and
 * without the bare home pages of sites.
 */
module ConversationUrls {
  import opened Wrappers
  import opened Strings
  import opened Json
  import opened UrllibParse
  import opened Sets

  // ---------------------------------------------------------------------------
  // normalize_url

  /** The query after `parse_qs`, `del query_params['utm_source']` and `urlencode(..., doseq=True)`. */
  function CleanQuery(query: string): string
  {
    UrlEncode(RemoveName(ParseQs(query), "utm_source"))
  }

  /** `urlunparse` of the parsed URL with the cleaned query, less one trailing `?`. */
  function Reassemble(p: Url): string
  {
    var u := UrlUnparse(p.(query := CleanQuery(p.query)));
    if EndsWith(u, "?") then u[..|u| - 1] else u
  }

  /**
   * `normalize_url`: re-assembles the parsed URL with `utm_source` removed from the query,
   * then drops one trailing `?`; the input comes back unchanged when parsing raises.
   */
  function NormalizeUrl(url: string): string
  {
    match UrlParse(url)
    case None => url
    case Some(p) => Reassemble(p)
  }

  lemma NormalizeParsed(url: string, p: Url)
    requires UrlParse(url) == Some(p)
    ensures NormalizeUrl(url) == Reassemble(p)
  {
  }

  /**
   * A host that makes parsing raise (unbalanced square brackets, or a character whose NFKC form
   * is a delimiter) leaves the URL as it was.
   */
  lemma NormalizeRejected(scheme: string, host: string, path: string)
    requires IsSchemeName(scheme) && HostChars(host) && IsPathPart(path)
    requires !IsHostPart(host)
    ensures NormalizeUrl(scheme + "://" + host + path) == scheme + "://" + host + path
  {
    UrlParseRejected(scheme, host, path);
  }

  /**
   * A host followed by a full-width question mark (U+FF1F), as in `https://example.com？`, comes
   * back unchanged, and so does any query after it: `utm_source` is not removed.
   */
  lemma NormalizeFullwidthQuestion(scheme: string, host: string, q: string)
    requires IsSchemeName(scheme) && HostChars(host) && '#' !in q && NoUnsafe(q)
    ensures NormalizeUrl(scheme + "://" + host + "\U{FF1F}") == scheme + "://" + host + "\U{FF1F}"
    ensures NormalizeUrl(scheme + "://" + host + "\U{FF1F}" + "?" + q) == scheme + "://" + host + "\U{FF1F}" + "?" + q
  {
    var h := host + "\U{FF1F}";
    NfkcDelimiterHost(host, '\U{FF1F}');
    assert IsPathPart("");
    UrlParseRejected(scheme, h, "");
    var s := scheme + "://" + h + "";
    assert scheme + "://" + host + "\U{FF1F}" == s;
    HierarchicalNoQuery(scheme, h, "");
    UrlParseAppendQuery(s, q);
  }

  /** The new query parses back to the old parameters without `utm_source`, in their original order. */
  lemma CleanQueryParsesBack(query: string)
    ensures ParseQs(CleanQuery(query)) == RemoveName(ParseQs(query), "utm_source")
    ensures !HasName(ParseQs(CleanQuery(query)), "utm_source")
  {
    ParseQsWellFormed(query);
    RemoveNameWellFormed(ParseQs(query), "utm_source");
    ParseQsUrlEncode(RemoveName(ParseQs(query), "utm_source"));
  }

  /** A query without `utm_source` keeps all its parameters, with their values in order. */
  lemma CleanQueryKeepsOthers(query: string)
    requires !HasName(ParseQs(query), "utm_source")
    ensures ParseQs(CleanQuery(query)) == ParseQs(query)
  {
    CleanQueryParsesBack(query);
    RemoveNameAbsent(ParseQs(query), "utm_source");
  }

  /**
   * Two queries that carry the same parameters apart from `utm_source` normalise to the same URL:
   * `normalize_url` depends on the query only through its parameters other than `utm_source`.
   */
  lemma NormalizeIgnoresUtmSource(s: string, q1: string, q2: string)
    requires '?' !in s && '#' !in s && '[' !in s && ']' !in s && NfkcSafe(s)
    requires '#' !in q1 && NoUnsafe(q1) && '#' !in q2 && NoUnsafe(q2)
    requires RemoveName(ParseQs(q1), "utm_source") == RemoveName(ParseQs(q2), "utm_source")
    ensures NormalizeUrl(s + "?" + q1) == NormalizeUrl(s + "?" + q2)
  {
    NormalizeWithQuery(s, q1);
    NormalizeWithQuery(s, q2);
    ReassembleByCleanQuery(UrlParse(s).value, q1, q2);
  }

  /** A query appended to a URL without one is what the parse of the whole URL carries. */
  lemma NormalizeWithQuery(s: string, q: string)
    requires '?' !in s && '#' !in s && '[' !in s && ']' !in s && NfkcSafe(s)
    requires '#' !in q && NoUnsafe(q)
    ensures UrlParse(s).Some? && NormalizeUrl(s + "?" + q) == Reassemble(UrlParse(s).value.(query := q))
  {
    UrlParseNoBrackets(s);
    UrlParseAppendQuery(s, q);
  }

  /** The re-assembled URL depends on the query only through its cleaned form. */
  lemma ReassembleByCleanQuery(p: Url, q1: string, q2: string)
    requires RemoveName(ParseQs(q1), "utm_source") == RemoveName(ParseQs(q2), "utm_source")
    ensures Reassemble(p.(query := q1)) == Reassemble(p.(query := q2))
  {
    assert CleanQuery(q1) == CleanQuery(q2);
    assert p.(query := q1).(query := CleanQuery(q1)) == p.(query := q2).(query := CleanQuery(q2));
  }

  lemma ParseQsEmpty()
    ensures ParseQs("") == []
  {
    FindChar("", '&');
    assert FieldPairs([""]) == FieldPairs([]) + ParseField("");
  }

  lemma ParseQsUtmOnly(v: string)
    requires v != [] && '&' !in v
    ensures RemoveName(ParseQs("utm_source=" + v), "utm_source") == []
  {
    var q := "utm_source=" + v;
    UtmField(v);
    ParseQslSingle(q);
    ParseFieldEncoded("utm_source", v);
    GroupSingle("utm_source", v);
  }

  lemma UtmField(v: string)
    requires '&' !in v
    ensures '&' !in "utm_source=" + v && "utm_source=" + v == "utm_source" + "=" + v
    ensures '=' !in "utm_source"
  {
  }

  /** `example.com?utm_source=chatgpt.com` and `example.com` are treated as the same URL. */
  lemma NormalizeDropsUtmOnlyQuery(s: string, v: string)
    requires '?' !in s && '#' !in s && '[' !in s && ']' !in s && NfkcSafe(s)
    requires v != [] && '&' !in v && '#' !in v && NoUnsafe(v)
    ensures NormalizeUrl(s + "?utm_source=" + v) == NormalizeUrl(s)
  {
    var q := "utm_source=" + v;
    assert s + "?utm_source=" + v == s + "?" + q;
    assert NoUnsafe(q) by {
      forall i | 0 <= i < |q| ensures !IsUnsafe(q[i]) {
        if i >= 11 { assert q[i] == v[i - 11]; }
      }
    }
    assert '#' !in q;
    ParseQsUtmOnly(v);
    ParseQsEmpty();
    NormalizeIgnoresUtmSource(s, q, "");
    UrlParseAppendQuery(s, "");
    assert s + "?" + "" == s + "?";
    UrlParseNoBrackets(s);
    var p := UrlParse(s).value;
    assert p.(query := "") == p;
  }

  lemma CleanQueryEmpty()
    ensures CleanQuery("") == ""
  {
    ParseQsEmpty();
  }

  lemma UnparseNoQuestion(p: Url)
    requires '?' !in p.scheme && '?' !in p.netloc && '?' !in p.path && '?' !in p.params
    requires p.query == "" && p.fragment == ""
    ensures '?' !in UrlUnparse(p)
  {
  }

  lemma UnparseFragment(p: Url, f: string)
    requires p.fragment == "" && f != ""
    ensures UrlUnparse(p.(fragment := f)) == UrlUnparse(p) + "#" + f
  {
  }

  lemma EndsWithChar(u: string, c: char)
    ensures EndsWith(u, [c]) <==> u != [] && u[|u| - 1] == c
  {
    if u != [] && u[|u| - 1] == c {
      assert u[|u| - 1..] == [c];
    }
  }

  lemma ReassembleFragment(p: Url, f: string)
    requires '?' !in p.scheme && '?' !in p.netloc && '?' !in p.path && '?' !in p.params
    requires p.query == "" && p.fragment == ""
    requires f != [] && f[|f| - 1] != '?'
    ensures Reassemble(p.(fragment := f)) == Reassemble(p) + "#" + f
  {
    CleanQueryEmpty();
    var pf := p.(fragment := f);
    assert p.(query := CleanQuery(p.query)) == p;
    assert pf.(query := CleanQuery(pf.query)) == pf;
    var u := UrlUnparse(p);
    UnparseNoQuestion(p);
    UnparseFragment(p, f);
    var w := u + "#" + f;
    EndsWithChar(u, '?');
    EndsWithChar(w, '?');
    assert w[|w| - 1] == f[|f| - 1];
  }

  /** The fragment is kept: on a URL with no query, appending `#f` appends it to the normalised URL. */
  lemma NormalizeKeepsFragment(s: string, f: string)
    requires '?' !in s && '#' !in s && '[' !in s && ']' !in s && NfkcSafe(s)
    requires f != [] && f[|f| - 1] != '?' && NoUnsafe(f)
    ensures NormalizeUrl(s + "#" + f) == NormalizeUrl(s) + "#" + f
  {
    ParseNoQuery(s);
    UrlParseAppendFragment(s, f);
    ReassembleFragment(UrlParse(s).value, f);
  }

  /** A URL without `?`, `#` and brackets parses, with no `?` anywhere and no query or fragment. */
  lemma ParseNoQuery(s: string)
    requires '?' !in s && '#' !in s && '[' !in s && ']' !in s && NfkcSafe(s)
    ensures UrlParse(s).Some?
    ensures var p := UrlParse(s).value;
      '?' !in p.scheme && '?' !in p.netloc && '?' !in p.path && '?' !in p.params
      && p.query == "" && p.fragment == ""
  {
    UrlParseNoBrackets(s);
    UrlParseAppendQuery(s, "");
    UrlParseAbsent(s, '?');
  }

  lemma UnparseHierarchical(p: Url)
    requires p.scheme != "" && p.netloc != "" && p.params == "" && p.fragment != ""
    requires p.path == "" || p.path[0] == '/'
    ensures UrlUnparse(p)
      == p.scheme + "://" + p.netloc + p.path + (if p.query == "" then "" else "?" + p.query) + "#" + p.fragment
  {
  }

  lemma ReassembleHierarchical(p: Url)
    requires p.scheme != "" && p.netloc != "" && p.params == ""
    requires p.path == "" || p.path[0] == '/'
    requires p.fragment != "" && p.fragment[|p.fragment| - 1] != '?'
    ensures var cq := CleanQuery(p.query);
      Reassemble(p) == p.scheme + "://" + p.netloc + p.path + (if cq == "" then "" else "?" + cq) + "#" + p.fragment
  {
    var pc := p.(query := CleanQuery(p.query));
    UnparseHierarchical(pc);
    var w := UrlUnparse(pc);
    assert w[|w| - 1] == p.fragment[|p.fragment| - 1];
    EndsWithChar(w, '?');
  }

  /**
   * On `scheme://host/path?query#fragment`, `normalize_url` keeps the scheme (as `urlsplit`
   * lower-cases it), the host, the path and the fragment verbatim and rewrites only the query.
   */
  lemma NormalizeHierarchical(scheme: string, host: string, path: string, q: string, f: string)
    requires IsSchemeName(scheme) && IsHostPart(host) && host != "" && IsPlainPath(path)
    requires '#' !in q && NoUnsafe(q)
    requires f != [] && f[|f| - 1] != '?' && NoUnsafe(f)
    ensures var cq := CleanQuery(q);
      NormalizeUrl(scheme + "://" + host + path + "?" + q + "#" + f)
      == Lower(scheme) + "://" + host + path + (if cq == "" then "" else "?" + cq) + "#" + f
  {
    ParseHierarchicalQueryFragment(scheme, host, path, q, f);
    ReassembleHierarchicalOf(scheme, host, path, q, f);
    NormalizeParsed(scheme + "://" + host + path + "?" + q + "#" + f, Url(Lower(scheme), host, path, "", q, f));
  }

  lemma ReassembleHierarchicalOf(scheme: string, host: string, path: string, q: string, f: string)
    requires IsSchemeName(scheme) && host != "" && IsPlainPath(path)
    requires f != [] && f[|f| - 1] != '?'
    ensures var cq := CleanQuery(q);
      Reassemble(Url(Lower(scheme), host, path, "", q, f))
      == Lower(scheme) + "://" + host + path + (if cq == "" then "" else "?" + cq) + "#" + f
  {
    ReassembleHierarchical(Url(Lower(scheme), host, path, "", q, f));
  }

  lemma ParseHierarchicalQueryFragment(scheme: string, host: string, path: string, q: string, f: string)
    requires IsSchemeName(scheme) && IsHostPart(host) && IsPlainPath(path)
    requires '#' !in q && NoUnsafe(q) && NoUnsafe(f)
    ensures UrlParse(scheme + "://" + host + path + "?" + q + "#" + f) == Some(Url(Lower(scheme), host, path, "", q, f))
  {
    var s := scheme + "://" + host + path;
    HierarchicalNoQuery(scheme, host, path);
    UrlParseHierarchical(scheme, host, path);
    UrlParseWithQueryFragment(s, Url(Lower(scheme), host, path, "", "", ""), q, f);
  }

  /**
   * With parameters, for a scheme that uses them: on `scheme://host/path;params?query#fragment`
   * the parameters are kept when there are any, and a bare `;` is lost, as `urlunparse` writes
   * the `;` only before parameters that are not empty.
   */
  lemma NormalizeParams(scheme: string, host: string, path: string, params: string, q: string, f: string)
    requires IsSchemeName(scheme) && Lower(scheme) in UsesParams && IsHostPart(host) && host != ""
    requires IsPlainPath(path) && path != ""
    requires '/' !in params && '?' !in params && '#' !in params && NoUnsafe(params)
    requires '#' !in q && NoUnsafe(q)
    requires f != [] && f[|f| - 1] != '?' && NoUnsafe(f)
    ensures var cq := CleanQuery(q);
      NormalizeUrl(scheme + "://" + host + path + ";" + params + "?" + q + "#" + f)
      == Lower(scheme) + "://" + host + path + (if params == "" then "" else ";" + params)
        + (if cq == "" then "" else "?" + cq) + "#" + f
  {
    ParseParamsQueryFragment(scheme, host, path, params, q, f);
    ReassembleParamsOf(scheme, host, path, params, q, f);
    NormalizeParsed(scheme + "://" + host + path + ";" + params + "?" + q + "#" + f, Url(Lower(scheme), host, path, params, q, f));
  }

  lemma ReassembleParamsOf(scheme: string, host: string, path: string, params: string, q: string, f: string)
    requires IsSchemeName(scheme) && host != "" && IsPlainPath(path) && path != ""
    requires f != [] && f[|f| - 1] != '?'
    ensures var cq := CleanQuery(q);
      Reassemble(Url(Lower(scheme), host, path, params, q, f))
      == Lower(scheme) + "://" + host + path + (if params == "" then "" else ";" + params)
        + (if cq == "" then "" else "?" + cq) + "#" + f
  {
    ReassembleParams(Url(Lower(scheme), host, path, params, q, f));
  }

  lemma ParseParamsQueryFragment(scheme: string, host: string, path: string, params: string, q: string, f: string)
    requires IsSchemeName(scheme) && Lower(scheme) in UsesParams && IsHostPart(host)
    requires IsPlainPath(path) && path != ""
    requires '/' !in params && '?' !in params && '#' !in params && NoUnsafe(params)
    requires '#' !in q && NoUnsafe(q) && NoUnsafe(f)
    ensures UrlParse(scheme + "://" + host + path + ";" + params + "?" + q + "#" + f)
      == Some(Url(Lower(scheme), host, path, params, q, f))
  {
    var s := scheme + "://" + host + path + ";" + params;
    ParamsPathPart(path, params);
    HierarchicalNoQuery(scheme, host, path + ";" + params);
    assert s == scheme + "://" + host + (path + ";" + params);
    UrlParseParams(scheme, host, path, params);
    UrlParseWithQueryFragment(s, Url(Lower(scheme), host, path, params, "", ""), q, f);
  }

  /** A bare `;` at the end of the path makes no difference to the normalised URL. */
  lemma NormalizeDropsBareSemicolon(scheme: string, host: string, path: string, q: string, f: string)
    requires IsSchemeName(scheme) && Lower(scheme) in UsesParams && IsHostPart(host) && host != ""
    requires IsPlainPath(path) && path != ""
    requires '#' !in q && NoUnsafe(q)
    requires f != [] && f[|f| - 1] != '?' && NoUnsafe(f)
    ensures NormalizeUrl(scheme + "://" + host + path + ";" + "?" + q + "#" + f)
      == NormalizeUrl(scheme + "://" + host + path + "?" + q + "#" + f)
  {
    NormalizeParams(scheme, host, path, "", q, f);
    assert scheme + "://" + host + path + ";" + "" == scheme + "://" + host + path + ";";
    NormalizeHierarchical(scheme, host, path, q, f);
    var x := Lower(scheme) + "://" + host + path;
    assert x + "" == x;
  }

  lemma ReassembleParams(p: Url)
    requires p.scheme != "" && p.netloc != "" && p.path != "" && p.path[0] == '/'
    requires p.fragment != "" && p.fragment[|p.fragment| - 1] != '?'
    ensures var cq := CleanQuery(p.query);
      Reassemble(p) == p.scheme + "://" + p.netloc + p.path + (if p.params == "" then "" else ";" + p.params)
        + (if cq == "" then "" else "?" + cq) + "#" + p.fragment
  {
    var pc := p.(query := CleanQuery(p.query));
    UnparseParams(pc);
    var w := UrlUnparse(pc);
    assert w[|w| - 1] == p.fragment[|p.fragment| - 1];
    EndsWithChar(w, '?');
  }

  lemma UnparseParams(p: Url)
    requires p.scheme != "" && p.netloc != "" && p.path != "" && p.path[0] == '/' && p.fragment != ""
    ensures UrlUnparse(p) == p.scheme + "://" + p.netloc + p.path + (if p.params == "" then "" else ";" + p.params)
      + (if p.query == "" then "" else "?" + p.query) + "#" + p.fragment
  {
    var semi := if p.params == "" then "" else ";" + p.params;
    var query := if p.query == "" then "" else "?" + p.query;
    var path := if p.params != "" then p.path + ";" + p.params else p.path;
    assert path == p.path + semi by {
      if p.params == "" {
        assert p.path + "" == p.path;
      }
    }
    assert path[0] == '/';
    assert UrlUnparse(p) == p.scheme + ":" + ("//" + p.netloc + path) + query + "#" + p.fragment;
    JoinNetloc(p.scheme, p.netloc, p.path, semi, query);
  }

  /**
   * The `?` removal is not limited to an emptied query: a fragment that ends with `?`
   * loses that character, so the fragment is not always kept verbatim.
   */
  lemma NormalizeTrimsFragmentQuestion(scheme: string, host: string, path: string, f: string)
    requires IsSchemeName(scheme) && IsHostPart(host) && host != "" && IsPlainPath(path)
    requires f != [] && f[|f| - 1] == '?' && NoUnsafe(f)
    ensures NormalizeUrl(scheme + "://" + host + path + "#" + f)
      == Lower(scheme) + "://" + host + path + "#" + f[..|f| - 1]
  {
    ParseHierarchicalFragment(scheme, host, path, f);
    ReassembleTrailingQuestionOf(scheme, host, path, f);
    NormalizeParsed(scheme + "://" + host + path + "#" + f, Url(Lower(scheme), host, path, "", "", f));
  }

  lemma ReassembleTrailingQuestionOf(scheme: string, host: string, path: string, f: string)
    requires IsSchemeName(scheme) && host != "" && IsPlainPath(path)
    requires f != [] && f[|f| - 1] == '?'
    ensures Reassemble(Url(Lower(scheme), host, path, "", "", f))
      == Lower(scheme) + "://" + host + path + "#" + f[..|f| - 1]
  {
    ReassembleTrailingQuestion(Url(Lower(scheme), host, path, "", "", f));
  }

  lemma ParseHierarchicalFragment(scheme: string, host: string, path: string, f: string)
    requires IsSchemeName(scheme) && IsHostPart(host) && IsPlainPath(path) && NoUnsafe(f)
    ensures UrlParse(scheme + "://" + host + path + "#" + f) == Some(Url(Lower(scheme), host, path, "", "", f))
  {
    var s := scheme + "://" + host + path;
    NotSchemeChar('#');
    assert '#' !in s;
    UrlParseHierarchical(scheme, host, path);
    UrlParseAppendFragment(s, f);
  }

  lemma ReassembleTrailingQuestion(p: Url)
    requires p.scheme != "" && p.netloc != "" && p.params == "" && p.query == ""
    requires p.path == "" || p.path[0] == '/'
    requires p.fragment != "" && p.fragment[|p.fragment| - 1] == '?'
    ensures Reassemble(p) == p.scheme + "://" + p.netloc + p.path + "#" + p.fragment[..|p.fragment| - 1]
  {
    ReassembleNoQuery(p);
    UnparseTrailingQuestion(p);
  }

  lemma UnparseTrailingQuestion(p: Url)
    requires p.scheme != "" && p.netloc != "" && p.params == "" && p.query == ""
    requires p.path == "" || p.path[0] == '/'
    requires p.fragment != "" && p.fragment[|p.fragment| - 1] == '?'
    ensures var u := UrlUnparse(p);
      EndsWith(u, "?") && u[..|u| - 1] == p.scheme + "://" + p.netloc + p.path + "#" + p.fragment[..|p.fragment| - 1]
  {
    UnparseNoQuery(p);
    DropTrailingQuestion(UrlUnparse(p), p.scheme + "://" + p.netloc + p.path + "#", p.fragment);
  }

  lemma ReassembleNoQuery(p: Url)
    requires p.query == ""
    ensures var u := UrlUnparse(p); Reassemble(p) == if EndsWith(u, "?") then u[..|u| - 1] else u
  {
    CleanQueryEmpty();
    assert p.(query := CleanQuery(p.query)) == p;
  }

  lemma UnparseNoQuery(p: Url)
    requires p.scheme != "" && p.netloc != "" && p.params == "" && p.query == "" && p.fragment != ""
    requires p.path == "" || p.path[0] == '/'
    ensures UrlUnparse(p) == p.scheme + "://" + p.netloc + p.path + "#" + p.fragment
  {
    UnparseHierarchical(p);
  }

  lemma DropTrailingQuestion(w: string, x: string, f: string)
    requires w == x + f && f != [] && f[|f| - 1] == '?'
    ensures EndsWith(w, "?") && w[..|w| - 1] == x + f[..|f| - 1]
  {
    EndsWithChar(w, '?');
  }

  // ---------------------------------------------------------------------------
  // is_main_page

  /** An empty path, `/`, or one of the index pages, compared case-insensitively. */
  predicate IsRootPath(path: string)
  {
    path == "" || path == "/" || Lower(path) in {"/index.html", "/index.php", "/index.htm", "/home"}
  }

  /** The path with one trailing `/` removed. */
  function TrimOneSlash(path: string): string
  {
    if EndsWith(path, "/") then path[..|path| - 1] else path
  }

  /**
   * `is_main_page`: a URL (given `http://` when it does not start with `http`) whose path,
   * less one trailing `/`, is a root path, with no query and no fragment; false when parsing raises.
   */
  predicate IsMainPage(url: string)
  {
    var full := if "http" <= url then url else "http://" + url;
    match UrlParse(full)
    case None => false
    case Some(p) => IsRootPath(TrimOneSlash(p.path)) && p.query == "" && p.fragment == ""
  }

  /** `is_main_page` on any JSON value: only a string can be a main page (other values raise). */
  predicate IsMainPageValue(v: J)
  {
    v.JStr? && IsMainPage(v.s)
  }

  /**
   * A URL whose host makes parsing raise (unbalanced square brackets, or a character whose NFKC
   * form is a delimiter) is no main page, whatever its path: `is_main_page` answers false.
   */
  lemma MainPageRejected(scheme: string, host: string, path: string)
    requires (scheme == "http" || scheme == "https") && HostChars(host) && IsPathPart(path)
    requires !IsHostPart(host)
    ensures !IsMainPage(scheme + "://" + host + path)
  {
    var s := scheme + "://" + host + path;
    assert s[..4] == "http";
    assert IsSchemeName(scheme) by {
      assert forall k :: 0 <= k < |scheme| ==> scheme[k] in "https";
    }
    UrlParseRejected(scheme, host, path);
  }

  /** Hence `https://example.com` followed by a full-width question mark is no main page. */
  lemma FullwidthQuestionNotMainPage(scheme: string, host: string)
    requires (scheme == "http" || scheme == "https") && HostChars(host)
    ensures !IsMainPage(scheme + "://" + host + "\U{FF1F}")
  {
    var h := host + "\U{FF1F}";
    NfkcDelimiterHost(host, '\U{FF1F}');
    assert IsPathPart("");
    MainPageRejected(scheme, h, "");
    assert scheme + "://" + host + "\U{FF1F}" == scheme + "://" + h + "";
  }

  lemma StartsWithAppend(p: string, u: string, t: string)
    requires p <= u
    ensures p <= u + t
  {
    assert (u + t)[..|p|] == u[..|p|];
  }

  /** A URL with a query is never a main page. */
  lemma QueryIsNotMainPage(s: string, q: string)
    requires "http" <= s && '?' !in s && '#' !in s
    requires q != [] && '#' !in q && NoUnsafe(q)
    ensures !IsMainPage(s + "?" + q)
  {
    StartsWithAppend("http", s, "?" + q);
    assert s + "?" + q == s + ("?" + q);
    UrlParseAppendQuery(s, q);
  }

  /** A URL with a fragment is never a main page. */
  lemma FragmentIsNotMainPage(s: string, f: string)
    requires "http" <= s && '#' !in s
    requires f != [] && NoUnsafe(f)
    ensures !IsMainPage(s + "#" + f)
  {
    StartsWithAppend("http", s, "#" + f);
    assert s + "#" + f == s + ("#" + f);
    UrlParseAppendFragment(s, f);
  }

  /** On `http://host/path` or `https://host/path`, `is_main_page` decides by the path alone. */
  lemma MainPageByPath(scheme: string, host: string, path: string)
    requires scheme == "http" || scheme == "https"
    requires IsHostPart(host) && IsPlainPath(path)
    ensures IsMainPage(scheme + "://" + host + path) <==> IsRootPath(TrimOneSlash(path))
  {
    var url := scheme + "://" + host + path;
    assert url == "http" + url[4..];
    assert IsSchemeName(scheme) by {
      assert forall k :: 0 <= k < |scheme| ==> IsSchemeChar(scheme[k]);
    }
    UrlParseHierarchical(scheme, host, path);
  }

  /** A bare host such as `www.example.com`, with no scheme, is a main page, with or without `/`. */
  lemma BareHostIsMainPage(host: string, path: string)
    requires IsHostPart(host) && !("http" <= host + path)
    requires path == "" || path == "/"
    ensures IsMainPage(host + path)
  {
    BareHostUrl(host, path);
    RootPathPlain(path);
    MainPageBare(host + path);
    MainPageByPath("http", host, path);
  }

  lemma BareHostUrl(host: string, path: string)
    ensures "http://" + (host + path) == "http" + "://" + host + path
  {
    assert "http://" == "http" + "://";
    SeqAssoc("http://", host, path);
  }

  lemma RootPathPlain(path: string)
    requires path == "" || path == "/"
    ensures IsPlainPath(path) && IsRootPath(TrimOneSlash(path))
  {
    if path == "/" {
      assert EndsWith(path, "/");
    }
  }

  /** A URL without `http` at its start is judged as if `http://` preceded it. */
  lemma MainPageBare(url: string)
    requires !("http" <= url)
    ensures IsMainPage(url) == IsMainPage("http://" + url)
  {
    assert "http" <= "http://" + url;
  }

  lemma LowerAsciiPath()
    ensures Lower("/INDEX.HTML") == "/index.html"
  {
  }

  // ---------------------------------------------------------------------------
  // extract_urls

  /** The characters of `[^\s<>"]`. */
  predicate InUrlClass(c: char)
  {
    !IsSpace(c) && c != '<' && c != '>' && c != '"'
  }

  /** The end of the longest run of `[^\s<>"]` characters starting at `j`. */
  function RunEnd(text: string, j: nat): (k: nat)
    requires j <= |text|
    ensures j <= k <= |text|
    ensures forall m :: j <= m < k ==> InUrlClass(text[m])
    ensures k < |text| ==> !InUrlClass(text[k])
    decreases |text| - j
  {
    if j < |text| && InUrlClass(text[j]) then RunEnd(text, j + 1) else j
  }

  predicate HasPrefixAt(text: string, i: nat, prefix: string)
  {
    i + |prefix| <= |text| && text[i..i + |prefix|] == prefix
  }

  /** The characters of the three prefixes are all in the class. */
  lemma PrefixesInClass(text: string, i: nat)
    ensures HasPrefixAt(text, i, "https://") ==> forall m :: i <= m < i + 8 ==> InUrlClass(text[m])
    ensures HasPrefixAt(text, i, "http://") ==> forall m :: i <= m < i + 7 ==> InUrlClass(text[m])
    ensures HasPrefixAt(text, i, "www.") ==> forall m :: i <= m < i + 4 ==> InUrlClass(text[m])
  {
    PrefixInClass(text, i, "https://");
    PrefixInClass(text, i, "http://");
    PrefixInClass(text, i, "www.");
  }

  lemma PrefixInClass(text: string, i: nat, prefix: string)
    requires forall j :: 0 <= j < |prefix| ==> InUrlClass(prefix[j])
    ensures HasPrefixAt(text, i, prefix) ==> forall m :: i <= m < i + |prefix| ==> InUrlClass(text[m])
  {
    if HasPrefixAt(text, i, prefix) {
      forall m | i <= m < i + |prefix| ensures InUrlClass(text[m]) {
        assert text[m] == text[i..i + |prefix|][m - i];
      }
    }
  }

  /**
   * The end of the match of `https?://[^\s<>"]+|www\.[^\s<>"]+` starting at `i`, if any:
   * the prefix must be followed by at least one character of the class, and the run is greedy.
   */
  function MatchAt(text: string, i: nat): (r: Option<nat>)
    ensures r.Some? ==> i < r.value <= |text|
    ensures r.Some? ==> HasPrefixAt(text, i, "https://") || HasPrefixAt(text, i, "http://") || HasPrefixAt(text, i, "www.")
    ensures r.Some? ==> forall m :: i <= m < r.value ==> InUrlClass(text[m])
    ensures r.Some? && r.value < |text| ==> !InUrlClass(text[r.value])
  {
    PrefixesInClass(text, i);
    var n :=
      if HasPrefixAt(text, i, "https://") then 8
      else if HasPrefixAt(text, i, "http://") then 7
      else if HasPrefixAt(text, i, "www.") then 4
      else 0;
    if n != 0 && i + n < |text| && InUrlClass(text[i + n]) then Some(RunEnd(text, i + n)) else None
  }

  predicate Covered(spans: seq<(nat, nat)>, p: nat)
  {
    exists k :: 0 <= k < |spans| && spans[k].0 <= p < spans[k].1
  }

  /**
   * `re.findall` from position `i`: the spans of the successive matches, each search
   * resuming where the previous match ended, or one character further when none starts here.
   */
  function ScanSpans(text: string, i: nat): (spans: seq<(nat, nat)>)
    requires i <= |text|
    ensures forall k :: 0 <= k < |spans| ==> i <= spans[k].0 && MatchAt(text, spans[k].0) == Some(spans[k].1)
    decreases |text| - i
  {
    if i == |text| then []
    else match MatchAt(text, i)
      case Some(e) => [(i, e)] + ScanSpans(text, e)
      case None => ScanSpans(text, i + 1)
  }

  /** Spans in text order, none overlapping the next. */
  predicate Ordered(spans: seq<(nat, nat)>)
  {
    forall k :: 0 <= k < |spans| - 1 ==> spans[k].1 <= spans[k + 1].0
  }

  lemma OrderedCons(i: nat, e: nat, rest: seq<(nat, nat)>)
    requires Ordered(rest) && (rest != [] ==> e <= rest[0].0)
    ensures Ordered([(i, e)] + rest)
  {
    var spans := [(i, e)] + rest;
    forall k | 0 <= k < |spans| - 1 ensures spans[k].1 <= spans[k + 1].0 {
      if k > 0 {
        assert spans[k] == rest[k - 1] && spans[k + 1] == rest[k];
      }
    }
  }

  /** The matches are in text order and do not overlap. */
  lemma {:induction false} ScanSpansOrdered(text: string, i: nat)
    requires i <= |text|
    ensures Ordered(ScanSpans(text, i))
    decreases |text| - i
  {
    if i < |text| {
      match MatchAt(text, i)
      case Some(e) =>
        ScanSpansOrdered(text, e);
        ScanSpansSome(text, i, e);
        OrderedCons(i, e, ScanSpans(text, e));
      case None =>
        ScanSpansOrdered(text, i + 1);
        ScanSpansNone(text, i);
    }
  }

  /** A match at `i` is the first span, and the search goes on where it ends. */
  lemma ScanSpansSome(text: string, i: nat, e: nat)
    requires i < |text| && MatchAt(text, i) == Some(e)
    ensures ScanSpans(text, i) == [(i, e)] + ScanSpans(text, e)
    ensures ScanSpans(text, e) != [] ==> e <= ScanSpans(text, e)[0].0
  {
  }

  /** Without a match at `i`, the search goes on one character further. */
  lemma ScanSpansNone(text: string, i: nat)
    requires i < |text| && MatchAt(text, i).None?
    ensures ScanSpans(text, i) == ScanSpans(text, i + 1)
  {
  }

  lemma CoveredCons(e: nat, rest: seq<(nat, nat)>, i: nat, p: nat)
    requires Covered(rest, p) || i <= p < e
    ensures Covered([(i, e)] + rest, p)
  {
    var spans := [(i, e)] + rest;
    if i <= p < e {
      assert spans[0].0 <= p < spans[0].1;
    } else {
      var k :| 0 <= k < |rest| && rest[k].0 <= p < rest[k].1;
      assert spans[k + 1] == rest[k];
    }
  }

  lemma CoveredConsIff(e: nat, rest: seq<(nat, nat)>, i: nat, p: nat)
    ensures Covered([(i, e)] + rest, p) <==> i <= p < e || Covered(rest, p)
  {
    var spans := [(i, e)] + rest;
    if Covered(spans, p) {
      var k :| 0 <= k < |spans| && spans[k].0 <= p < spans[k].1;
      if k > 0 {
        assert spans[k] == rest[k - 1];
      }
    }
    if i <= p < e || Covered(rest, p) {
      CoveredCons(e, rest, i, p);
    }
  }

  /** The search is leftmost: no match starts at a position that no reported match covers. */
  lemma {:induction false} ScanSpansLeftmost(text: string, i: nat)
    requires i <= |text|
    ensures forall p :: i <= p < |text| && !Covered(ScanSpans(text, i), p) ==> MatchAt(text, p).None?
    decreases |text| - i
  {
    if i < |text| {
      match MatchAt(text, i)
      case Some(e) =>
        ScanSpansLeftmost(text, e);
        LeftmostCons(text, i, e, ScanSpans(text, e));
        ScanSpansSome(text, i, e);
      case None =>
        ScanSpansLeftmost(text, i + 1);
        LeftmostSkip(text, i, ScanSpans(text, i + 1));
        ScanSpansNone(text, i);
    }
  }

  /** A match `(i, e)` put in front keeps every uncovered position from `i` on without a match. */
  lemma LeftmostCons(text: string, i: nat, e: nat, rest: seq<(nat, nat)>)
    requires i <= e
    requires forall p :: e <= p < |text| && !Covered(rest, p) ==> MatchAt(text, p).None?
    ensures forall p :: i <= p < |text| && !Covered([(i, e)] + rest, p) ==> MatchAt(text, p).None?
  {
    forall p | i <= p < |text| && !Covered([(i, e)] + rest, p)
      ensures MatchAt(text, p).None?
    {
      CoveredConsIff(e, rest, i, p);
    }
  }

  /** A position without a match extends the range that has none outside the spans. */
  lemma LeftmostSkip(text: string, i: nat, spans: seq<(nat, nat)>)
    requires i < |text| && MatchAt(text, i).None?
    requires forall p :: i + 1 <= p < |text| && !Covered(spans, p) ==> MatchAt(text, p).None?
    ensures forall p :: i <= p < |text| && !Covered(spans, p) ==> MatchAt(text, p).None?
  {
  }

  /** `re.findall(pattern, text)`: the matched texts, left to right. */
  function FindAll(text: string): (ms: seq<string>)
    ensures |ms| == |ScanSpans(text, 0)|
  {
    var spans := ScanSpans(text, 0);
    seq(|spans|, k requires 0 <= k < |spans| => text[spans[k].0..spans[k].1])
  }

  /**
   * Each matched text starts with `http://`, `https://` or `www.`, goes on past that prefix, and
   * holds no white space, `<`, `>` or `"`.
   */
  lemma FindAllShape(text: string, k: nat)
    requires k < |FindAll(text)|
    ensures var m := FindAll(text)[k];
      ("https://" < m || "http://" < m || "www." < m) && forall j :: 0 <= j < |m| ==> InUrlClass(m[j])
  {
    var spans := ScanSpans(text, 0);
    var (i, e) := spans[k];
    var m := text[i..e];
    assert FindAll(text)[k] == m;
    assert forall j :: 0 <= j < |m| ==> m[j] == text[i + j];
    if HasPrefixAt(text, i, "https://") {
      assert m[..8] == text[i..i + 8];
    } else if HasPrefixAt(text, i, "http://") {
      assert m[..7] == text[i..i + 7];
    } else {
      assert m[..4] == text[i..i + 4];
    }
  }

  /** The punctuation `extract_urls` strips from the end of a match. */
  predicate IsTrailChar(c: char)
  {
    c in ".,;)]}\"'"
  }

  /** The `while` loop of `extract_urls`: drops trailing punctuation. */
  function TrimTrail(u: string): (r: string)
    ensures |r| <= |u| && r == u[..|r|]
    ensures r != [] ==> !IsTrailChar(r[|r| - 1])
    ensures forall m :: |r| <= m < |u| ==> IsTrailChar(u[m])
  {
    if u != [] && IsTrailChar(u[|u| - 1]) then TrimTrail(u[..|u| - 1]) else u
  }

  /** The URLs `extract_urls` keeps from the matches: trimmed, and only when something is left. */
  function CleanMatches(ms: seq<string>): seq<string>
  {
    if ms == [] then []
    else
      var u := TrimTrail(ms[0]);
      (if u != [] then [u] else []) + CleanMatches(ms[1..])
  }

  /** Every kept URL is non-empty, ends with no trailing punctuation, and is a prefix of a match. */
  lemma {:induction false} CleanMatchesSound(ms: seq<string>)
    ensures forall u :: u in CleanMatches(ms) ==>
      u != [] && !IsTrailChar(u[|u| - 1]) && exists k :: 0 <= k < |ms| && u <= ms[k]
  {
    if ms != [] {
      var tail := CleanMatches(ms[1..]);
      CleanMatchesSound(ms[1..]);
      forall u | u in CleanMatches(ms)
        ensures u != [] && !IsTrailChar(u[|u| - 1]) && exists k :: 0 <= k < |ms| && u <= ms[k]
      {
        CleanMatchesHead(ms, u);
        if u in tail {
          var k :| 0 <= k < |ms[1..]| && u <= ms[1..][k];
          assert ms[k + 1] == ms[1..][k];
          assert u <= ms[k + 1];
        } else {
          assert u <= ms[0];
        }
      }
    }
  }

  lemma CleanMatchesHead(ms: seq<string>, u: string)
    requires ms != [] && u in CleanMatches(ms)
    ensures u in CleanMatches(ms[1..]) || (u == TrimTrail(ms[0]) && u != [])
  {
  }

  /** Matches that survive trimming are kept in their order, one URL each. */
  lemma {:induction false} CleanMatchesOrder(ms: seq<string>)
    requires forall k :: 0 <= k < |ms| ==> TrimTrail(ms[k]) != []
    ensures CleanMatches(ms) == seq(|ms|, k requires 0 <= k < |ms| => TrimTrail(ms[k]))
  {
    if ms != [] {
      forall k | 0 <= k < |ms| - 1 ensures TrimTrail(ms[1..][k]) != [] {
        assert ms[1..][k] == ms[k + 1];
      }
      CleanMatchesOrder(ms[1..]);
      TrimmedCons(ms);
    }
  }

  lemma TrimmedCons(ms: seq<string>)
    requires ms != []
    ensures seq(|ms|, k requires 0 <= k < |ms| => TrimTrail(ms[k]))
      == [TrimTrail(ms[0])] + seq(|ms| - 1, k requires 0 <= k < |ms| - 1 => TrimTrail(ms[1..][k]))
  {
  }

  lemma CleanMatchesAt(ms: seq<string>, k: nat)
    requires k < |ms|
    ensures var u := TrimTrail(ms[k]);
      CleanMatches(ms[k..]) == (if u != [] then [u] else []) + CleanMatches(ms[k + 1..])
  {
    assert ms[k..][1..] == ms[k + 1..];
  }

  /** `extract_urls`: the matches of the URL pattern with trailing punctuation trimmed off. */
  method ExtractUrls(text: string) returns (urls: seq<string>)
    ensures urls == CleanMatches(FindAll(text))
  {
    var matches := FindAll(text);
    ghost var all := CleanMatches(matches);
    urls := [];
    var k := 0;
    while k < |matches|
      invariant 0 <= k <= |matches|
      invariant urls + CleanMatches(matches[k..]) == all
    {
      var url := matches[k];
      while |url| > 0 && IsTrailChar(url[|url| - 1])
        invariant TrimTrail(url) == TrimTrail(matches[k])
        decreases |url|
      {
        url := url[..|url| - 1];
      }
      assert url == TrimTrail(url);
      CleanMatchesAt(matches, k);
      ghost var rest := CleanMatches(matches[k + 1..]);
      if url != [] {
        SeqAssoc(urls, [url], rest);
        urls := urls + [url];
      } else {
        assert [] + rest == rest;
      }
      k := k + 1;
    }
    assert matches[k..] == [];
    assert matches[0..] == matches;
  }

  // ---------------------------------------------------------------------------
  // Cited URLs: mapping[*].message.metadata.content_references[*].items[*].url

  /** `normalize_url` on any JSON value: strings are normalised, other values come back unchanged. */
  function NormalizeValue(v: J): (r: J)
    ensures r.JStr? <==> v.JStr?
    ensures !v.JStr? ==> r == v
  {
    if v.JStr? then JStr(NormalizeUrl(v.s)) else v
  }

  /** One item: `if 'url' in item`, then its normalised url unless that is a main page. */
  function ItemCited(item: J): (r: Option<set<J>>)
    ensures r.Some? ==> forall x :: x in r.value ==> Hashable(x) && !IsMainPageValue(x)
    ensures r.Some? && r.value != {} ==>
      item.JObj? && Lookup(item.fields, "url").Some? && r.value == {NormalizeValue(Lookup(item.fields, "url").value)}
  {
    match PyIn("url", item)
    case None => None
    case Some(has) =>
      if !has then Some({})
      else match PyIndex(item, "url")
        case None => None
        case Some(url) =>
          var norm := NormalizeValue(url);
          if IsMainPageValue(norm) then Some({})
          else if Hashable(norm) then Some({norm})
          else None
  }

  /** One content reference: `if 'items' in ref`, then each of `ref['items']`. */
  function RefCited(ref: J): (r: Option<set<J>>)
    ensures r.Some? ==> forall x :: x in r.value ==> Hashable(x) && !IsMainPageValue(x)
  {
    match PyIn("items", ref)
    case None => None
    case Some(has) =>
      if !has then Some({})
      else match PyIndex(ref, "items")
        case None => None
        case Some(items) =>
          match PyIter(items)
          case None => None
          case Some(xs) => Collect(xs, ItemCited)
  }

  /**
   * One node of `mapping`: skipped when falsy, without a `message`, or with a falsy one;
   * otherwise each of `message.metadata.content_references`.
   */
  function NodeCited(node: J): (r: Option<set<J>>)
    ensures r.Some? ==> forall x :: x in r.value ==> Hashable(x) && !IsMainPageValue(x)
    ensures r.Some? && r.value != {} ==>
      Truthy(node) && node.JObj? && Lookup(node.fields, "message").Some? && Truthy(Lookup(node.fields, "message").value)
  {
    if !Truthy(node) then Some({})
    else match PyIn("message", node)
      case None => None
      case Some(has) =>
        if !has then Some({})
        else match PyIndex(node, "message")
          case None => None
          case Some(message) =>
            if !Truthy(message) then Some({})
            else match PyGet(message, "metadata", JObj([]))
              case None => None
              case Some(metadata) =>
                match PyGet(metadata, "content_references", JArr([]))
                case None => None
                case Some(refs) =>
                  match PyIter(refs)
                  case None => None
                  case Some(xs) => Collect(xs, RefCited)
  }

  /** The cited set of a transcript: every node of `data.get('mapping', {})`; None when Python raises. */
  function CitedUrls(data: J): (r: Option<set<J>>)
    ensures r.Some? ==> forall x :: x in r.value ==> Hashable(x) && !IsMainPageValue(x)
  {
    match PyGet(data, "mapping", JObj([]))
    case None => None
    case Some(mapping) =>
      if mapping.JObj? then Collect(Values(mapping.fields), NodeCited) else None
  }

  /** The items loop: adds the normalised `url` of each item that has one. */
  method CiteItems(items: seq<J>) returns (r: Option<set<J>>)
    ensures r == Collect(items, ItemCited)
  {
    var cited: set<J> := {};
    for k := 0 to |items|
      invariant Collect(items[..k], ItemCited) == Some(cited)
    {
      CollectSnoc(items, ItemCited, k);
      var item := items[k];
      var has := PyIn("url", item);
      if has.None? {
        return None;
      }
      if has.value {
        var url := PyIndex(item, "url");
        if url.None? {
          return None;
        }
        var norm := NormalizeValue(url.value);
        if !IsMainPageValue(norm) {
          if !Hashable(norm) {
            return None;
          }
          assert ItemCited(item) == Some({norm});
          cited := cited + {norm};
        } else {
          assert ItemCited(item) == Some({});
          assert cited + {} == cited;
        }
      } else {
        assert ItemCited(item) == Some({});
        assert cited + {} == cited;
      }
    }
    assert items[..|items|] == items;
    return Some(cited);
  }

  /** The `content_references` loop: each reference that has `items`. */
  method CiteRefs(refs: seq<J>) returns (r: Option<set<J>>)
    ensures r == Collect(refs, RefCited)
  {
    var cited: set<J> := {};
    for k := 0 to |refs|
      invariant Collect(refs[..k], RefCited) == Some(cited)
    {
      CollectSnoc(refs, RefCited, k);
      var ref := refs[k];
      var has := PyIn("items", ref);
      if has.None? {
        return None;
      }
      if has.value {
        var items := PyIndex(ref, "items");
        if items.None? {
          return None;
        }
        var xs := PyIter(items.value);
        if xs.None? {
          return None;
        }
        var found := CiteItems(xs.value);
        if found.None? {
          return None;
        }
        assert RefCited(ref) == found;
        cited := cited + found.value;
      } else {
        assert RefCited(ref) == Some({});
        assert cited + {} == cited;
      }
    }
    assert refs[..|refs|] == refs;
    return Some(cited);
  }

  /** The `mapping` loop of `main`: the cited set of a transcript. */
  method CollectCited(data: J) returns (r: Option<set<J>>)
    ensures r == CitedUrls(data)
  {
    var mapping := PyGet(data, "mapping", JObj([]));
    if mapping.None? || !mapping.value.JObj? {
      return None;
    }
    var nodes := Values(mapping.value.fields);
    var cited: set<J> := {};
    for k := 0 to |nodes|
      invariant Collect(nodes[..k], NodeCited) == Some(cited)
    {
      CollectSnoc(nodes, NodeCited, k);
      var node := nodes[k];
      if !Truthy(node) {
        assert NodeCited(node) == Some({}) && cited + {} == cited;
        continue;
      }
      var has := PyIn("message", node);
      if has.None? {
        return None;
      }
      if !has.value {
        assert NodeCited(node) == Some({}) && cited + {} == cited;
        continue;
      }
      var message := PyIndex(node, "message");
      if message.None? {
        return None;
      }
      if !Truthy(message.value) {
        assert NodeCited(node) == Some({}) && cited + {} == cited;
        continue;
      }
      var metadata := PyGet(message.value, "metadata", JObj([]));
      if metadata.None? {
        return None;
      }
      var refs := PyGet(metadata.value, "content_references", JArr([]));
      if refs.None? {
        return None;
      }
      var xs := PyIter(refs.value);
      if xs.None? {
        return None;
      }
      var found := CiteRefs(xs.value);
      if found.None? {
        return None;
      }
      assert NodeCited(node) == found;
      cited := cited + found.value;
    }
    assert nodes[..|nodes|] == nodes;
    return Some(cited);
  }

  // ---------------------------------------------------------------------------
  // All URLs: walk_json over the values of the transcript

  /** The normalised forms of a list of URLs. */
  function NormalizeAll(urls: seq<string>): set<string>
  {
    if urls == [] then {} else NormalizeAll(urls[..|urls| - 1]) + {NormalizeUrl(urls[|urls| - 1])}
  }

  /** The URLs `walk_json` records for one string: each extracted URL, normalised. */
  function StrUrls(s: string): set<string>
  {
    NormalizeAll(CleanMatches(FindAll(s)))
  }

  /**
   * The recursion of `walk_json`, with `leaf` what it does on a string: dict values and list
   * items are visited, keys are not, and other values add nothing.
   */
  function Walk(v: J, leaf: string -> set<string>): set<string>
    decreases v
  {
    match v
    case JStr(s) => leaf(s)
    case JArr(items) => WalkItems(v, |items|, leaf)
    case JObj(fields) => WalkFields(v, |fields|, leaf)
    case _ => {}
  }

  function WalkItems(v: J, n: nat, leaf: string -> set<string>): set<string>
    requires v.JArr? && n <= |v.items|
    decreases v, n
  {
    if n == 0 then {} else WalkItems(v, n - 1, leaf) + Walk(v.items[n - 1], leaf)
  }

  function WalkFields(v: J, n: nat, leaf: string -> set<string>): set<string>
    requires v.JObj? && n <= |v.fields|
    decreases v, n
  {
    if n == 0 then {} else WalkFields(v, n - 1, leaf) + Walk(v.fields[n - 1].1, leaf)
  }

  /** Everything `walk_json(data)` adds to `file_all_urls`. */
  function AllUrls(v: J): set<string>
  {
    Walk(v, StrUrls)
  }

  lemma {:induction false} WalkFieldsIgnoresKeys(v: J, w: J, n: nat, leaf: string -> set<string>)
    requires v.JObj? && w.JObj? && |v.fields| == |w.fields| && n <= |v.fields|
    requires forall i :: 0 <= i < |v.fields| ==> v.fields[i].1 == w.fields[i].1
    ensures WalkFields(v, n, leaf) == WalkFields(w, n, leaf)
  {
    if n > 0 {
      WalkFieldsIgnoresKeys(v, w, n - 1, leaf);
      assert v.fields[n - 1].1 == w.fields[n - 1].1;
    }
  }

  /** Dict keys are never scanned: renaming the keys of an object leaves its URLs unchanged. */
  lemma AllUrlsIgnoresKeys(fields: seq<(string, J)>, keys: seq<string>)
    requires |keys| == |fields|
    ensures AllUrls(JObj(seq(|fields|, i requires 0 <= i < |fields| => (keys[i], fields[i].1))))
      == AllUrls(JObj(fields))
  {
    var w := JObj(seq(|fields|, i requires 0 <= i < |fields| => (keys[i], fields[i].1)));
    WalkFieldsIgnoresKeys(JObj(fields), w, |fields|, StrUrls);
  }

  /** Only strings are scanned: whatever `leaf` does, a value with no string inside contributes nothing. */
  predicate NoStrings(v: J)
    decreases v
  {
    match v
    case JStr(_) => false
    case JArr(items) => forall i :: 0 <= i < |items| ==> NoStrings(items[i])
    case JObj(fields) => forall i :: 0 <= i < |fields| ==> NoStrings(fields[i].1)
    case _ => true
  }

  lemma {:induction false} WalkNoStrings(v: J, leaf: string -> set<string>)
    requires NoStrings(v)
    ensures Walk(v, leaf) == {}
    decreases v
  {
    match v
    case JArr(items) => WalkItemsNoStrings(v, |items|, leaf);
    case JObj(fields) => WalkFieldsNoStrings(v, |fields|, leaf);
    case _ =>
  }

  lemma {:induction false} WalkItemsNoStrings(v: J, n: nat, leaf: string -> set<string>)
    requires v.JArr? && n <= |v.items| && NoStrings(v)
    ensures WalkItems(v, n, leaf) == {}
    decreases v, n
  {
    if n > 0 {
      WalkItemsNoStrings(v, n - 1, leaf);
      WalkNoStrings(v.items[n - 1], leaf);
    }
  }

  lemma {:induction false} WalkFieldsNoStrings(v: J, n: nat, leaf: string -> set<string>)
    requires v.JObj? && n <= |v.fields| && NoStrings(v)
    ensures WalkFields(v, n, leaf) == {}
    decreases v, n
  {
    if n > 0 {
      WalkFieldsNoStrings(v, n - 1, leaf);
      WalkNoStrings(v.fields[n - 1].1, leaf);
    }
  }

  /** A transcript whose values hold no strings has no URLs at all. */
  lemma AllUrlsNoStrings(v: J)
    requires NoStrings(v)
    ensures AllUrls(v) == {}
  {
    WalkNoStrings(v, StrUrls);
  }

  lemma NormalizeAllSnoc(urls: seq<string>, k: nat)
    requires k < |urls|
    ensures NormalizeAll(urls[..k + 1]) == NormalizeAll(urls[..k]) + {NormalizeUrl(urls[k])}
  {
    assert urls[..k + 1][..k] == urls[..k];
  }

  /** The string case of `walk_json`: each URL `extract_urls` finds is normalised and added. */
  method RecordUrls(s: string, acc: set<string>) returns (acc': set<string>)
    ensures acc' == acc + StrUrls(s)
  {
    var found := ExtractUrls(s);
    acc' := acc;
    for k := 0 to |found|
      invariant acc' == acc + NormalizeAll(found[..k])
    {
      NormalizeAllSnoc(found, k);
      acc' := acc' + {NormalizeUrl(found[k])};
    }
    assert found[..|found|] == found;
  }

  /**
   * `walk_json`: adds to `acc` every URL found in the string values under `v`. The ghost `leaf`
   * is `StrUrls`, passed as a parameter so that only the string case looks into it.
   */
  method WalkJson(v: J, acc: set<string>, ghost leaf: string -> set<string>) returns (acc': set<string>)
    requires forall s {:trigger StrUrls(s)} :: leaf(s) == StrUrls(s)
    ensures acc' == acc + Walk(v, leaf)
    decreases v, 1
  {
    acc' := acc;
    match v {
      case JObj(fields) =>
        acc' := WalkFieldsJson(v, acc, leaf);
      case JArr(items) =>
        acc' := WalkItemsJson(v, acc, leaf);
      case JStr(s) =>
        acc' := RecordUrls(s, acc);
      case _ =>
    }
  }

  /** The dict case of `walk_json`: each value in turn, in the order of the fields. */
  method WalkFieldsJson(v: J, acc: set<string>, ghost leaf: string -> set<string>) returns (acc': set<string>)
    requires v.JObj?
    requires forall s {:trigger StrUrls(s)} :: leaf(s) == StrUrls(s)
    ensures acc' == acc + WalkFields(v, |v.fields|, leaf)
    decreases v, 0
  {
    var fields := v.fields;
    acc' := acc;
    for i := 0 to |fields|
      invariant acc' == acc + WalkFields(v, i, leaf)
    {
      acc' := WalkJson(fields[i].1, acc', leaf);
    }
  }

  /** The list case of `walk_json`: each item in turn. */
  method WalkItemsJson(v: J, acc: set<string>, ghost leaf: string -> set<string>) returns (acc': set<string>)
    requires v.JArr?
    requires forall s {:trigger StrUrls(s)} :: leaf(s) == StrUrls(s)
    ensures acc' == acc + WalkItems(v, |v.items|, leaf)
    decreases v, 0
  {
    var items := v.items;
    acc' := acc;
    for i := 0 to |items|
      invariant acc' == acc + WalkItems(v, i, leaf)
    {
      acc' := WalkJson(items[i], acc', leaf);
    }
  }

  // ---------------------------------------------------------------------------
  // The per-transcript partition

  /** The uncited set: recorded URLs that are not cited and are not main pages. */
  function UncitedUrls(all: set<string>, cited: set<J>): set<string>
  {
    set u | u in all && JStr(u) !in cited && !IsMainPage(u)
  }

  /** The cited and uncited sets of a transcript; None when the run stops on an exception. */
  function Classify(data: J): Option<(set<J>, set<string>)>
  {
    match CitedUrls(data)
    case None => None
    case Some(cited) => Some((cited, UncitedUrls(AllUrls(data), cited)))
  }

  /**
   * The two sets are disjoint, neither holds a main page, nothing is cited that a set would
   * refuse, and every uncited URL was found in the string values of the transcript.
   */
  lemma ClassifyPartition(data: J)
    requires Classify(data).Some?
    ensures var (cited, uncited) := Classify(data).value;
      (forall u :: u in uncited ==> JStr(u) !in cited && !IsMainPage(u) && u in AllUrls(data))
      && (forall x :: x in cited ==> Hashable(x) && !IsMainPageValue(x))
  {
  }

  /** One CSV row: `conversation_id`, `title`, `url`. */
  datatype Row = Row(conversationId: J, title: J, url: J)

  function RowsOf(cid: J, title: J, urls: set<J>): set<Row>
  {
    set x | x in urls :: Row(cid, title, x)
  }

  /** The rows of one set, in whatever order the set is iterated: each URL exactly once. */
  method EmitRows(cid: J, title: J, urls: set<J>) returns (rows: seq<Row>)
    ensures multiset(rows) == multiset(RowsOf(cid, title, urls))
  {
    rows := [];
    var left := urls;
    ghost var done: set<J> := {};
    while left != {}
      invariant done == urls - left && left <= urls
      invariant multiset(rows) == multiset(RowsOf(cid, title, done))
      decreases |left|
    {
      var x := Pick(left);
      ghost var before := RowsOf(cid, title, done);
      assert RowsOf(cid, title, done + {x}) == before + {Row(cid, title, x)};
      MultisetAddNew(before, Row(cid, title, x));
      rows := rows + [Row(cid, title, x)];
      left := left - {x};
      done := done + {x};
    }
    assert done == urls;
  }

  /** The loop of `main` that keeps the recorded URLs that are neither cited nor main pages. */
  method SelectUncited(all: set<string>, cited: set<J>) returns (uncited: set<string>)
    ensures uncited == UncitedUrls(all, cited)
  {
    uncited := {};
    var left := all;
    while left != {}
      invariant left <= all
      invariant uncited == UncitedUrls(all - left, cited)
      decreases |left|
    {
      var u := Pick(left);
      if JStr(u) !in cited && !IsMainPage(u) {
        uncited := uncited + {u};
      }
      left := left - {u};
    }
    assert all - {} == all;
  }

  /** A directory entry: a file name and its parsed content, or None when it cannot be read. */
  type Folder = seq<(string, Option<J>)>

  /**
   * The cited and uncited rows one transcript adds: its `title` and `conversation_id`
   * (read with defaults) with each URL of each set; None when the run stops.
   */
  function FileRows(data: J): Option<(multiset<Row>, multiset<Row>)>
  {
    if !data.JObj? then None
    else
      var title := PyGet(data, "title", JStr("Untitled")).value;
      var cid := PyGet(data, "conversation_id", JStr("Unknown")).value;
      match Classify(data)
      case None => None
      case Some((cited, uncited)) =>
        Some((multiset(RowsOf(cid, title, cited)), multiset(RowsOf(cid, title, set u | u in uncited :: JStr(u)))))
  }

  /**
   * The rows of `cited_urls.csv` and `uncited_urls.csv` as multisets (set iteration order is
   * not fixed); None when an exception outside the `try` stops the run.
   */
  function Tables(folder: Folder): Option<(multiset<Row>, multiset<Row>)>
  {
    if folder == [] then Some((multiset{}, multiset{}))
    else
      var (name, content) := folder[|folder| - 1];
      match Tables(folder[..|folder| - 1])
      case None => None
      case Some(rows) =>
        if !EndsWith(name, ".json") || content.None? then Some(rows)
        else
          match FileRows(content.value)
          case None => None
          case Some(added) => Some((rows.0 + added.0, rows.1 + added.1))
  }

  /** Files that are not `.json` or cannot be read add no rows. */
  lemma TablesSkips(folder: Folder, name: string, content: Option<J>)
    requires !EndsWith(name, ".json") || content.None?
    ensures Tables(folder + [(name, content)]) == Tables(folder)
  {
    assert (folder + [(name, content)])[..|folder|] == folder;
  }

  /** The body of the file loop of `main` for one loaded transcript. */
  method ClassifyFile(data: J) returns (r: Option<(seq<Row>, seq<Row>)>)
    ensures r.Some? <==> FileRows(data).Some?
    ensures r.Some? ==> multiset(r.value.0) == FileRows(data).value.0 && multiset(r.value.1) == FileRows(data).value.1
  {
    if !data.JObj? {
      return None;
    }
    var title := PyGet(data, "title", JStr("Untitled")).value;
    var cid := PyGet(data, "conversation_id", JStr("Unknown")).value;
    var cited := CollectCited(data);
    if cited.None? {
      return None;
    }
    var all := WalkJson(data, {}, StrUrls);
    var uncited := SelectUncited(all, cited.value);
    var citedRows := EmitRows(cid, title, cited.value);
    var uncitedRows := EmitRows(cid, title, set u | u in uncited :: JStr(u));
    return Some((citedRows, uncitedRows));
  }

  /** `main`: for each readable `.json` transcript, its cited rows and its uncited rows. */
  method ClassifyFolder(folder: Folder) returns (r: Option<(seq<Row>, seq<Row>)>)
    ensures r.Some? <==> Tables(folder).Some?
    ensures r.Some? ==> multiset(r.value.0) == Tables(folder).value.0 && multiset(r.value.1) == Tables(folder).value.1
  {
    var citedRows: seq<Row> := [];
    var uncitedRows: seq<Row> := [];
    for i := 0 to |folder|
      invariant Tables(folder[..i]) == Some((multiset(citedRows), multiset(uncitedRows)))
    {
      assert folder[..i + 1][..i] == folder[..i];
      var (name, content) := folder[i];
      if !EndsWith(name, ".json") || content.None? {
        continue;
      }
      var rows := ClassifyFile(content.value);
      if rows.None? {
        TablesAbort(folder, i + 1);
        return None;
      }
      citedRows := citedRows + rows.value.0;
      uncitedRows := uncitedRows + rows.value.1;
    }
    assert folder[..|folder|] == folder;
    return Some((citedRows, uncitedRows));
  }

  lemma {:induction false} TablesAbort(folder: Folder, n: nat)
    requires 0 < n <= |folder| && Tables(folder[..n]).None?
    ensures Tables(folder).None?
    decreases |folder| - n
  {
    if n < |folder| {
      assert folder[..n + 1][..n] == folder[..n];
      TablesAbort(folder, n + 1);
    } else {
      assert folder[..n] == folder;
    }
  }
}
