/**
 * The batch dispatcher: reads the URLs of a CSV file, skips those that already have a result
 * file in the output directory, and runs the agent once on each of the others.
 *
 * The output directory is a map from file names to what `json.load` makes of each file
 * (None when the file cannot be read or parsed). The URLs are dispatched one after the other.
 */
module BatchRunAgent {
  import opened Wrappers
  import opened Strings
  import opened Json
  import opened UrllibParse
  import opened Sets
  import opened ArtifactNames
  import opened FeatureAgent

  /** The `asyncio.Semaphore` bound on concurrent agent runs. */
  const MaxConcurrentRequests := 50

  // ---------------------------------------------------------------------------
  // normalize_url (the same text appears in filter_substantial_urls.py)

  /** The stripped URL, with `https://` in front unless it starts with `http://` or `https://` (case-sensitive). */
  function WithScheme(url: string): (r: string)
    ensures "http://" <= r || "https://" <= r
  {
    var u := Strip(url);
    if "http://" <= u || "https://" <= u then u else "https://" + u
  }

  /** Scheme and network location lower-cased, trailing `/` of the path removed, fragment dropped. */
  function Rebuild(p: Url): string
  {
    UrlUnparse(Url(Lower(p.scheme), Lower(p.netloc), RStripChar(p.path, '/'), p.params, p.query, ""))
  }

  /** The parse-and-rebuild step, with the lower-cased stripped string when parsing raises. */
  function Resolve(v: string): string
  {
    match UrlParse(v)
    case None => Lower(Strip(v))
    case Some(p) => Rebuild(p)
  }

  /** `normalize_url`. */
  function NormalizeUrl(url: string): string
  {
    Resolve(WithScheme(url))
  }

  /** The two steps of `normalize_url`, composed. */
  lemma NormalizeVia(u: string, v: string, p: Url)
    requires WithScheme(u) == v && UrlParse(v) == Some(p)
    ensures NormalizeUrl(u) == Rebuild(p)
  {
  }

  lemma LowerHttp(scheme: string)
    requires scheme == "http" || scheme == "https"
    ensures Lower(scheme) == scheme && IsSchemeName(scheme)
  {
    assert forall k :: 0 <= k < |scheme| ==> IsSchemeChar(scheme[k]) && LowerChar(scheme[k]) == scheme[k];
  }

  /** A URL that is already stripped and starts with a recognised scheme is passed on as it is. */
  lemma WithSchemeStripped(u: string)
    requires "http://" <= u || "https://" <= u
    requires !IsSpace(u[|u| - 1])
    ensures Strip(u) == u && WithScheme(u) == u
  {
    assert !IsSpace(u[0]);
    StripNoop(u);
  }

  lemma HttpPrefix(scheme: string, rest: string)
    requires scheme == "http" || scheme == "https"
    ensures "http://" <= scheme + "://" + rest || "https://" <= scheme + "://" + rest
  {
    var u := scheme + "://" + rest;
    if scheme == "http" {
      assert u[..7] == "http://";
    } else {
      assert u[..8] == "https://";
    }
  }

  lemma WithSchemeHttp(scheme: string, rest: string)
    requires scheme == "http" || scheme == "https"
    requires rest == [] || !IsSpace(rest[|rest| - 1])
    ensures Strip(scheme + "://" + rest) == scheme + "://" + rest
    ensures WithScheme(scheme + "://" + rest) == scheme + "://" + rest
  {
    var u := scheme + "://" + rest;
    HttpPrefix(scheme, rest);
    assert u[|u| - 1] == if rest == [] then '/' else rest[|rest| - 1];
    WithSchemeStripped(u);
  }

  lemma UnparseResume(scheme: string, host: string, path: string, q: string)
    requires scheme != "" && host != "" && (path == "" || path[0] == '/')
    ensures UrlUnparse(Url(scheme, host, path, "", q, "")) == scheme + "://" + host + path + (if q == "" then "" else "?" + q)
  {
  }

  lemma RebuildHierarchical(scheme: string, host: string, path: string, q: string, f: string)
    requires scheme == "http" || scheme == "https"
    requires host != "" && (path == "" || path[0] == '/')
    ensures Rebuild(Url(scheme, host, path, "", q, f))
      == scheme + "://" + Lower(host) + RStripChar(path, '/') + (if q == "" then "" else "?" + q)
    ensures q == "" ==> Rebuild(Url(scheme, host, path, "", q, f)) == scheme + "://" + Lower(host) + RStripChar(path, '/')
    ensures path == "" && q != "" ==> Rebuild(Url(scheme, host, path, "", q, f)) == scheme + "://" + Lower(host) + "?" + q
    ensures path == "" && q == "" ==> Rebuild(Url(scheme, host, path, "", q, f)) == scheme + "://" + Lower(host)
  {
    LowerHttp(scheme);
    RStripPath(path);
    assert |Lower(host)| == |host|;
    UnparseResume(scheme, Lower(host), RStripChar(path, '/'), q);
    ResumeForms(scheme + "://" + Lower(host), path, q);
  }

  /** Removing trailing `/` from a path keeps it a path. */
  lemma RStripPath(path: string)
    requires path == "" || path[0] == '/'
    ensures var rpath := RStripChar(path, '/'); rpath == "" || rpath[0] == '/'
    ensures path == "" ==> RStripChar(path, '/') == ""
  {
    var rpath := RStripChar(path, '/');
    assert rpath != [] ==> rpath[0] == path[0];
  }

  /** The rebuilt text without a query, without a path, or without both. */
  lemma ResumeForms(x: string, path: string, q: string)
    requires path == "" ==> RStripChar(path, '/') == ""
    ensures var r := x + RStripChar(path, '/') + (if q == "" then "" else "?" + q);
      (q == "" ==> r == x + RStripChar(path, '/'))
      && (path == "" && q != "" ==> r == x + "?" + q)
      && (path == "" && q == "" ==> r == x)
  {
    var rpath := RStripChar(path, '/');
    assert x + "" == x;
    assert x + rpath + "" == x + rpath;
  }

  lemma ParseHierarchicalQueryFragment(scheme: string, host: string, path: string, q: string, f: string)
    requires scheme == "http" || scheme == "https"
    requires IsHostPart(host) && IsPlainPath(path)
    requires '#' !in q && NoUnsafe(q) && NoUnsafe(f)
    ensures UrlParse(scheme + "://" + host + path + "?" + q + "#" + f) == Some(Url(scheme, host, path, "", q, f))
  {
    var s := scheme + "://" + host + path;
    LowerHttp(scheme);
    NotSchemeChar('?');
    NotSchemeChar('#');
    assert '?' !in s && '#' !in s;
    UrlParseHierarchical(scheme, host, path);
    UrlParseAppendQuery(s, q);
    assert '#' !in s + "?" + q;
    UrlParseAppendFragment(s + "?" + q, f);
  }

  /**
   * On `http(s)://host/path?query#fragment`: the host is lower-cased, all trailing `/` of the
   * path go, the query stays and the fragment is dropped.
   */
  lemma NormalizeHierarchical(scheme: string, host: string, path: string, q: string, f: string)
    requires scheme == "http" || scheme == "https"
    requires IsHostPart(host) && host != "" && IsPlainPath(path)
    requires '#' !in q && NoUnsafe(q) && NoUnsafe(f)
    requires f == [] || !IsSpace(f[|f| - 1])
    ensures NormalizeUrl(scheme + "://" + host + path + "?" + q + "#" + f)
      == scheme + "://" + Lower(host) + RStripChar(path, '/') + (if q == "" then "" else "?" + q)
  {
    var rest := host + path + "?" + q + "#" + f;
    var url := scheme + "://" + host + path + "?" + q + "#" + f;
    assert url == scheme + "://" + rest;
    assert rest[|rest| - 1] == if f == [] then '#' else f[|f| - 1];
    WithSchemeHttp(scheme, rest);
    ParseHierarchicalQueryFragment(scheme, host, path, q, f);
    RebuildHierarchical(scheme, host, path, q, f);
  }

  /**
   * With parameters: on `http(s)://host/path;params?query#fragment` the parameters are kept
   * when there are any and a bare `;` is lost; the trailing `/` before them go, except that
   * a path of slashes alone keeps one before parameters that are not empty.
   */
  lemma NormalizeParams(scheme: string, host: string, path: string, params: string, q: string, f: string)
    requires scheme == "http" || scheme == "https"
    requires IsHostPart(host) && host != "" && IsPlainPath(path) && path != ""
    requires '/' !in params && '?' !in params && '#' !in params && NoUnsafe(params)
    requires '#' !in q && NoUnsafe(q) && NoUnsafe(f)
    requires f == [] || !IsSpace(f[|f| - 1])
    ensures var rp := RStripChar(path, '/');
      NormalizeUrl(scheme + "://" + host + path + ";" + params + "?" + q + "#" + f)
      == scheme + "://" + Lower(host) + (if rp == "" && params != "" then "/" else rp)
        + (if params == "" then "" else ";" + params) + (if q == "" then "" else "?" + q)
  {
    var url := scheme + "://" + host + path + ";" + params + "?" + q + "#" + f;
    var rest := host + path + ";" + params + "?" + q + "#" + f;
    assert url == scheme + "://" + rest;
    assert rest[|rest| - 1] == if f == [] then '#' else f[|f| - 1];
    WithSchemeHttp(scheme, rest);
    ParseParamsQueryFragment(scheme, host, path, params, q, f);
    NormalizeVia(url, url, Url(scheme, host, path, params, q, f));
    RebuildParams(scheme, host, path, params, q, f);
  }

  lemma ParseParamsQueryFragment(scheme: string, host: string, path: string, params: string, q: string, f: string)
    requires scheme == "http" || scheme == "https"
    requires IsHostPart(host) && IsPlainPath(path) && path != ""
    requires '/' !in params && '?' !in params && '#' !in params && NoUnsafe(params)
    requires '#' !in q && NoUnsafe(q) && NoUnsafe(f)
    ensures UrlParse(scheme + "://" + host + path + ";" + params + "?" + q + "#" + f) == Some(Url(scheme, host, path, params, q, f))
  {
    var s := scheme + "://" + host + path + ";" + params;
    LowerHttp(scheme);
    ParamsPathPart(path, params);
    HierarchicalNoQuery(scheme, host, path + ";" + params);
    assert s == scheme + "://" + host + (path + ";" + params);
    assert scheme in UsesParams;
    UrlParseParams(scheme, host, path, params);
    UrlParseWithQueryFragment(s, Url(scheme, host, path, params, "", ""), q, f);
  }

  lemma RebuildParams(scheme: string, host: string, path: string, params: string, q: string, f: string)
    requires scheme == "http" || scheme == "https"
    requires host != "" && path != "" && path[0] == '/'
    ensures var rp := RStripChar(path, '/');
      Rebuild(Url(scheme, host, path, params, q, f))
      == scheme + "://" + Lower(host) + (if rp == "" && params != "" then "/" else rp)
        + (if params == "" then "" else ";" + params) + (if q == "" then "" else "?" + q)
  {
    LowerHttp(scheme);
    RStripPath(path);
    assert |Lower(host)| == |host|;
    UnparseParamsResume(scheme, Lower(host), RStripChar(path, '/'), params, q);
  }

  lemma UnparseParamsResume(scheme: string, host: string, rp: string, params: string, q: string)
    requires scheme != "" && host != "" && (rp == "" || rp[0] == '/')
    ensures UrlUnparse(Url(scheme, host, rp, params, q, ""))
      == scheme + "://" + host + (if rp == "" && params != "" then "/" else rp)
        + (if params == "" then "" else ";" + params) + (if q == "" then "" else "?" + q)
  {
    var path := if params != "" then rp + ";" + params else rp;
    var slashed := if path != "" && path[0] != '/' then "/" + path else path;
    var lead := if rp == "" && params != "" then "/" else rp;
    var semi := if params == "" then "" else ";" + params;
    var query := if q == "" then "" else "?" + q;
    assert UrlUnparse(Url(scheme, host, rp, params, q, "")) == scheme + ":" + ("//" + host + slashed) + query;
    SlashedPath(rp, params);
    JoinNetloc(scheme, host, lead, semi, query);
  }

  /** The path part `urlunparse` writes after a non-empty host. */
  lemma SlashedPath(rp: string, params: string)
    requires rp == "" || rp[0] == '/'
    ensures var path := if params != "" then rp + ";" + params else rp;
      (if path != "" && path[0] != '/' then "/" + path else path)
      == (if rp == "" && params != "" then "/" else rp) + (if params == "" then "" else ";" + params)
  {
    if params == "" {
      assert rp + "" == rp;
    } else if rp == "" {
      assert (";" + params)[0] == ';';
    } else {
      assert (rp + ";" + params)[0] == '/';
    }
  }

  /** Regrouping the pieces of a URL with a host. */
  /** A bare `;` at the end of the path makes no difference to the normalised URL. */
  lemma NormalizeDropsBareSemicolon(scheme: string, host: string, path: string, q: string, f: string)
    requires scheme == "http" || scheme == "https"
    requires IsHostPart(host) && host != "" && IsPlainPath(path) && path != ""
    requires '#' !in q && NoUnsafe(q) && NoUnsafe(f)
    requires f == [] || !IsSpace(f[|f| - 1])
    ensures NormalizeUrl(scheme + "://" + host + path + ";" + "?" + q + "#" + f)
      == NormalizeUrl(scheme + "://" + host + path + "?" + q + "#" + f)
  {
    var x := scheme + "://" + Lower(host) + RStripChar(path, '/');
    var query := if q == "" then "" else "?" + q;
    var u := scheme + "://" + host + path + ";";
    NormalizeParams(scheme, host, path, "", q, f);
    assert u + "" == u;
    assert NormalizeUrl(u + "?" + q + "#" + f) == x + "" + query;
    NormalizeHierarchical(scheme, host, path, q, f);
    assert x + "" == x;
  }

  lemma LowerKeepsHost(host: string)
    requires IsHostPart(host)
    ensures IsHostPart(Lower(host))
  {
    LowerKeeps(host, '/');
    LowerKeeps(host, '?');
    LowerKeeps(host, '#');
    if '[' in host {
      var i :| 0 <= i < |host| && host[i] == '[';
      assert Lower(host)[i] == '[';
    } else {
      LowerKeeps(host, '[');
    }
    if ']' in host {
      var i :| 0 <= i < |host| && host[i] == ']';
      assert Lower(host)[i] == ']';
    } else {
      LowerKeeps(host, ']');
    }
    assert NoUnsafe(Lower(host)) by {
      forall i | 0 <= i < |host| ensures !IsUnsafe(Lower(host)[i]) {
        assert !IsUnsafe(host[i]);
      }
    }
    LowerNfkcSafe(host);
  }

  lemma {:induction false} RStripSlashes(path: string, n: nat)
    ensures RStripChar(path + seq(n, _ => '/'), '/') == RStripChar(path, '/')
  {
    if n > 0 {
      var slashes: string := seq(n, _ => '/');
      var fewer: string := seq(n - 1, _ => '/');
      assert path + slashes == (path + fewer) + ['/'];
      assert (path + slashes)[..|path + slashes| - 1] == path + fewer;
      RStripSlashes(path, n - 1);
    } else {
      assert path + seq(n, _ => '/') == path;
    }
  }

  /** Host case and trailing slashes do not matter: both spellings normalise alike. */
  lemma NormalizeIgnoresCaseAndSlashes(scheme: string, host: string, path: string, n: nat, q: string)
    requires scheme == "http" || scheme == "https"
    requires IsHostPart(host) && host != "" && IsPlainPath(path)
    requires '#' !in q && NoUnsafe(q)
    ensures NormalizeUrl(scheme + "://" + Lower(host) + (path + seq(n, _ => '/')) + "?" + q + "#" + "")
      == NormalizeUrl(scheme + "://" + host + path + "?" + q + "#" + "")
  {
    var slashes: string := seq(n, _ => '/');
    var path' := path + slashes;
    assert IsPlainPath(path') by {
      assert path' == [] || path'[0] == '/';
      assert NoUnsafe(slashes);
      NoUnsafeAppend(path, slashes);
    }
    LowerKeepsHost(host);
    assert |Lower(host)| == |host|;
    NormalizeHierarchical(scheme, Lower(host), path', q, "");
    NormalizeHierarchical(scheme, host, path, q, "");
    LowerIdempotent(host);
    RStripSlashes(path, n);
  }

  /** The fragment is ignored: with or without `#fragment`, the URL normalises the same. */
  lemma NormalizeDropsFragment(scheme: string, host: string, path: string, q: string, f: string)
    requires scheme == "http" || scheme == "https"
    requires IsHostPart(host) && host != "" && IsPlainPath(path)
    requires '#' !in q && NoUnsafe(q) && NoUnsafe(f)
    requires f == [] || !IsSpace(f[|f| - 1])
    ensures NormalizeUrl(scheme + "://" + host + path + "?" + q + "#" + f)
      == NormalizeUrl(scheme + "://" + host + path + "?" + q + "#" + "")
  {
    NormalizeHierarchical(scheme, host, path, q, f);
    NormalizeHierarchical(scheme, host, path, q, "");
  }

  /**
   * The scheme test is case-sensitive: a scheme that starts with an upper-case letter is not
   * recognised and gets `https://` in front, so `SCHEME:` becomes the host (lower-cased) and
   * `//host` the path. `HTTPS://example.com` thus becomes `https://https://example.com`.
   */
  lemma UpperCaseSchemeNotRecognised(scheme: string, host: string)
    requires IsSchemeName(scheme) && 'A' <= scheme[0] <= 'Z'
    requires HostChars(host) && host != "" && ';' !in host && '[' !in host && ']' !in host
    requires !IsSpace(host[|host| - 1])
    ensures NormalizeUrl(scheme + "://" + host) == "https://" + Lower(scheme) + "://" + host
  {
    var u := scheme + "://" + host;
    WithSchemeUnrecognised(u);
    ParseSchemeAsHost(scheme, host);
    var p := Url("https", scheme + ":", "//" + host, "", "", "");
    NormalizeVia(u, "https://" + u, p);
    RebuildSchemeAsHost(scheme, host);
  }

  lemma RebuildSchemeAsHost(scheme: string, host: string)
    requires scheme != "" && host != "" && '/' !in host
    ensures Rebuild(Url("https", scheme + ":", "//" + host, "", "", "")) == "https://" + Lower(scheme) + "://" + host
  {
    var path := "//" + host;
    SlashesHostKept(host);
    RebuildHierarchical("https", scheme + ":", path, "", "");
    LowerColon(scheme);
    SchemeAsHostText(Lower(scheme), host);
  }

  lemma SlashesHostKept(host: string)
    requires host != "" && '/' !in host
    ensures RStripChar("//" + host, '/') == "//" + host
  {
    var path := "//" + host;
    assert path[|path| - 1] == host[|host| - 1];
  }

  lemma LowerColon(scheme: string)
    ensures Lower(scheme + ":") == Lower(scheme) + ":"
  {
    LowerAppend(scheme, ":");
    assert Lower(":") == ":";
  }

  lemma SchemeAsHostText(ls: string, host: string)
    ensures "https" + "://" + (ls + ":") + ("//" + host) == "https://" + ls + "://" + host
  {
  }

  lemma WithSchemeUnrecognised(u: string)
    requires u != [] && 'A' <= u[0] <= 'Z' && !IsSpace(u[|u| - 1])
    ensures WithScheme(u) == "https://" + u
  {
    StripNoop(u);
    assert !("http://" <= u) && !("https://" <= u) by {
      assert |u| >= 7 ==> u[..7][0] == u[0];
      assert |u| >= 8 ==> u[..8][0] == u[0];
    }
  }

  lemma ParseSchemeAsHost(scheme: string, host: string)
    requires IsSchemeName(scheme)
    requires HostChars(host) && ';' !in host && '[' !in host && ']' !in host
    ensures UrlParse("https://" + (scheme + "://" + host)) == Some(Url("https", scheme + ":", "//" + host, "", "", ""))
  {
    var netloc := scheme + ":";
    var path := "//" + host;
    assert IsPlainPath(path) by {
      assert NoUnsafe("//");
      NoUnsafeAppend("//", host);
    }
    assert IsHostPart(netloc) by {
      assert forall k :: 0 <= k < |scheme| ==> IsSchemeChar(netloc[k]);
      AsciiNfkcSafe(netloc);
    }
    assert "https://" + (scheme + "://" + host) == "https" + "://" + netloc + path;
    LowerHttp("https");
    UrlParseHierarchical("https", netloc, path);
  }

  /**
   * When parsing raises (here: a host with unbalanced brackets, or with a character whose NFKC
   * form is a delimiter), the result is the stripped URL lower-cased.
   */
  lemma NormalizeRejected(scheme: string, host: string, path: string)
    requires scheme == "http" || scheme == "https"
    requires HostChars(host) && IsPathPart(path) && !IsHostPart(host)
    requires var rest := host + path; rest != [] && !IsSpace(rest[|rest| - 1])
    ensures NormalizeUrl(scheme + "://" + host + path) == Lower(scheme + "://" + host + path)
  {
    var s := scheme + "://" + host + path;
    WithSchemeHttp(scheme, host + path);
    SeqAssoc(scheme + "://", host, path);
    LowerHttp(scheme);
    UrlParseRejected(scheme, host, path);
    NormalizeRaises(s);
  }

  /**
   * A host followed by a full-width question mark (U+FF1F), as in `https://Example.com？`, is
   * only lower-cased: its path, query and fragment, if any, are not looked at.
   */
  lemma NormalizeFullwidthQuestion(host: string)
    requires HostChars(host)
    ensures NormalizeUrl("https://" + host + "\U{FF1F}") == "https://" + Lower(host) + "\U{FF1F}"
  {
    var h := host + "\U{FF1F}";
    NfkcDelimiterHost(host, '\U{FF1F}');
    NormalizeRejectedText(h);
    FullwidthText(host);
  }

  lemma NormalizeRejectedText(h: string)
    requires HostChars(h) && !IsHostPart(h) && h != [] && h[|h| - 1] == '\U{FF1F}'
    ensures NormalizeUrl("https" + "://" + h + "") == Lower("https" + "://" + h + "")
  {
    assert IsPathPart("") && h + "" == h;
    NormalizeRejected("https", h, "");
  }

  lemma FullwidthText(host: string)
    ensures "https" + "://" + (host + "\U{FF1F}") + "" == "https://" + host + "\U{FF1F}"
    ensures Lower("https://" + host + "\U{FF1F}") == "https://" + Lower(host) + "\U{FF1F}"
  {
    LowerAppend("https://", host);
    LowerAppend("https://" + host, "\U{FF1F}");
    assert Lower("https://") == "https://" && Lower("\U{FF1F}") == "\U{FF1F}";
  }

  /** A stripped URL with a recognised scheme that does not parse comes back lower-cased. */
  lemma NormalizeRaises(u: string)
    requires Strip(u) == u && WithScheme(u) == u && UrlParse(u).None?
    ensures NormalizeUrl(u) == Lower(u)
  {
  }

  /** The host behind a lower-case scheme normalises to the lower-cased host alone. */
  lemma NormalizeHostOnly(scheme: string, host: string)
    requires scheme == "http" || scheme == "https"
    requires IsHostPart(host) && host != "" && ';' !in host
    requires !IsSpace(host[|host| - 1])
    ensures NormalizeUrl(scheme + "://" + host) == scheme + "://" + Lower(host)
  {
    WithSchemeHttp(scheme, host);
    LowerHttp(scheme);
    assert IsPlainPath("");
    assert scheme + "://" + host == scheme + "://" + host + "";
    UrlParseHierarchical(scheme, host, "");
    RebuildHierarchical(scheme, host, "", "", "");
  }

  /** Hence `HTTPS://host` yields a different key than `https://host`. */
  lemma UpperCaseSchemeDiffers(scheme: string, host: string)
    requires IsSchemeName(scheme) && 'A' <= scheme[0] <= 'Z' && Lower(scheme) == "https"
    requires HostChars(host) && host != "" && ';' !in host && '[' !in host && ']' !in host
    requires !IsSpace(host[|host| - 1])
    ensures NormalizeUrl(scheme + "://" + host) != NormalizeUrl(Lower(scheme) + "://" + host)
  {
    UpperCaseSchemeNotRecognised(scheme, host);
    NormalizeHostLength(Lower(scheme), host);
    assert |"https://" + Lower(scheme) + "://" + host| != |Lower(scheme) + "://" + Lower(host)|;
  }

  /** A bare host behind a lower-case scheme keeps its length, whether or not it parses. */
  lemma NormalizeHostLength(scheme: string, host: string)
    requires scheme == "http" || scheme == "https"
    requires HostChars(host) && host != "" && ';' !in host && '[' !in host && ']' !in host
    requires !IsSpace(host[|host| - 1])
    ensures |NormalizeUrl(scheme + "://" + host)| == |scheme| + 3 + |host|
  {
    if NfkcSafe(host) {
      NormalizeHostOnly(scheme, host);
    } else {
      assert IsPathPart("") && host + "" == host;
      assert scheme + "://" + host + "" == scheme + "://" + host;
      NormalizeRejected(scheme, host, "");
    }
  }

  lemma StripTrailingSpace(s: string)
    requires s != [] && !IsSpace(s[0]) && !IsSpace(s[|s| - 1])
    ensures Strip(s + " ") == s
  {
    var t := s + " ";
    assert LStrip(t) == t by { assert !IsSpace(t[0]); }
    assert t[..|t| - 1] == s;
    StripNoop(s);
  }

  /** `normalize_url` only looks at the stripped URL. */
  lemma NormalizeSameStrip(u: string, v: string)
    requires Strip(u) == Strip(v)
    ensures NormalizeUrl(u) == NormalizeUrl(v)
  {
  }

  lemma ParseHierarchicalQuery(scheme: string, host: string, q: string)
    requires scheme == "http" || scheme == "https"
    requires IsHostPart(host) && '#' !in q && NoUnsafe(q)
    ensures UrlParse(scheme + "://" + host + "?" + q) == Some(Url(scheme, host, "", "", q, ""))
  {
    var s := scheme + "://" + host;
    LowerHttp(scheme);
    NotSchemeChar('?');
    NotSchemeChar('#');
    assert '?' !in s && '#' !in s;
    assert IsPlainPath("");
    assert s + "" == s;
    UrlParseHierarchical(scheme, host, "");
    assert UrlParse(s) == Some(Url(scheme, host, "", "", "", ""));
    UrlParseAppendQuery(s, q);
  }

  /** A URL with a query and no fragment keeps its query. */
  lemma NormalizeQueryOnly(scheme: string, host: string, q: string)
    requires scheme == "http" || scheme == "https"
    requires IsHostPart(host) && host != "" && '#' !in q && NoUnsafe(q) && q != [] && !IsSpace(q[|q| - 1])
    ensures NormalizeUrl(scheme + "://" + host + "?" + q) == scheme + "://" + Lower(host) + "?" + q
  {
    var url := scheme + "://" + host + "?" + q;
    assert url == scheme + "://" + (host + "?" + q);
    WithSchemeHttp(scheme, host + "?" + q);
    ParseHierarchicalQuery(scheme, host, q);
    NormalizeVia(url, url, Url(scheme, host, "", "", q, ""));
    RebuildHierarchical(scheme, host, "", q, "");
  }

  /** A query that ends in a space before the fragment keeps that space. */
  lemma NormalizeKeepsQuerySpace(scheme: string, host: string, q: string)
    requires scheme == "http" || scheme == "https"
    requires IsHostPart(host) && host != "" && '#' !in q && NoUnsafe(q)
    ensures NormalizeUrl(scheme + "://" + host + "" + "?" + (q + " ") + "#" + "x") == scheme + "://" + Lower(host) + "?" + (q + " ")
  {
    assert NoUnsafe(q + " ") by { assert NoUnsafe(" "); NoUnsafeAppend(q, " "); }
    assert IsPlainPath("");
    assert NoUnsafe("x");
    NormalizeHierarchical(scheme, host, "", q + " ", "x");
    assert RStripChar("", '/') == "";
    var x := scheme + "://" + Lower(host);
    assert x + "" == x;
  }

  /** On its own output, the stripped URL is parsed again, without the space. */
  lemma NormalizeStripsQuerySpace(scheme: string, host: string, q: string)
    requires scheme == "http" || scheme == "https"
    requires IsHostPart(host) && host != "" && '#' !in q && NoUnsafe(q) && q != [] && !IsSpace(q[|q| - 1])
    ensures NormalizeUrl(scheme + "://" + host + "?" + (q + " ")) == scheme + "://" + Lower(host) + "?" + q
  {
    var base := scheme + "://" + host + "?" + q;
    assert base[0] == scheme[0] && base[|base| - 1] == q[|q| - 1];
    StripTrailingSpace(base);
    StripNoop(base);
    assert base + " " == scheme + "://" + host + "?" + (q + " ");
    NormalizeSameStrip(base + " ", base);
    NormalizeQueryOnly(scheme, host, q);
  }

  /**
   * `normalize_url` is not idempotent: a query that ends in a space before the `#` keeps the
   * space, which the next call strips off.
   */
  lemma NormalizeNotIdempotent(scheme: string, host: string, q: string)
    requires scheme == "http" || scheme == "https"
    requires IsHostPart(host) && host != "" && '#' !in q && NoUnsafe(q) && q != [] && !IsSpace(q[|q| - 1])
    ensures var once := NormalizeUrl(scheme + "://" + host + "" + "?" + (q + " ") + "#" + "x");
      once == scheme + "://" + Lower(host) + "?" + (q + " ")
      && NormalizeUrl(once) == scheme + "://" + Lower(host) + "?" + q
      && NormalizeUrl(once) != once
  {
    NormalizeKeepsQuerySpace(scheme, host, q);
    LowerKeepsHost(host);
    NormalizeStripsQuerySpace(scheme, Lower(host), q);
    LowerIdempotent(host);
    var once := scheme + "://" + Lower(host) + "?" + (q + " ");
    var twice := scheme + "://" + Lower(host) + "?" + q;
    assert |once| == |twice| + 1;
  }

  // ---------------------------------------------------------------------------
  // The "already processed" probe

  /** The output directory: file names and what `json.load` makes of each file. */
  type Dir = map<string, Option<J>>

  /**
   * One candidate file of the probe: it counts when it parses, its `meta.url` is truthy, and
   * that URL normalises to the target; a file that raises anywhere on the way (unreadable,
   * not a dict, a `meta` that is not a dict, a URL that is not a string) is ignored.
   */
  predicate FileMatches(content: Option<J>, target: string)
  {
    match content
    case None => false
    case Some(data) =>
      match PyGet(data, "meta", JObj([]))
      case None => false
      case Some(meta) =>
        match PyGet(meta, "url", JNull)
        case None => false
        case Some(fileUrl) => Truthy(fileUrl) && fileUrl.JStr? && NormalizeUrl(fileUrl.s) == target
  }

  /** The files `glob` finds for `<prefix>_*.json`. */
  function Candidates(dir: Dir, prefix: string): set<string>
  {
    set name | name in dir && GlobMatches(name, prefix)
  }

  /** A URL counts as processed iff some file the glob finds for its prefix matches it. */
  predicate Processed(dir: Dir, url: string)
  {
    exists name :: name in Candidates(dir, SafePrefix(url)) && FileMatches(dir[name], NormalizeUrl(url))
  }

  /** The loop over `existing` that sets `is_processed` and breaks at the first matching file. */
  method IsProcessed(dir: Dir, url: string) returns (isProcessed: bool)
    ensures isProcessed == Processed(dir, url)
  {
    var existing := Candidates(dir, SafePrefix(url));
    var target := NormalizeUrl(url);
    isProcessed := false;
    var left := existing;
    while left != {}
      invariant left <= existing
      invariant forall name :: name in existing - left ==> !FileMatches(dir[name], target)
      decreases |left|
    {
      var name := Pick(left);
      if FileMatches(dir[name], target) {
        isProcessed := true;
        break;
      }
      left := left - {name};
    }
  }

  /** A file under the right prefix whose `meta.url` normalises differently does not count. */
  lemma PrefixCollisionRejected(dir: Dir, url: string)
    requires forall name :: name in Candidates(dir, SafePrefix(url)) && dir[name].Some? ==>
      (var meta := PyGet(dir[name].value, "meta", JObj([]));
       meta.Some? ==> (var u := PyGet(meta.value, "url", JNull);
         u.Some? && u.value.JStr? ==> NormalizeUrl(u.value.s) != NormalizeUrl(url)))
    ensures !Processed(dir, url)
  {
  }

  /** The directory after a run of the agent: its file, if it wrote one, as `json.load` will read it. */
  function Deliver(dir: Dir, artifact: Option<Artifact>, loads: string -> Option<J>): Dir
  {
    if artifact.Some? then dir[artifact.value.name := loads(artifact.value.text)] else dir
  }

  /**
   * Once the agent has written a result whose `meta.url` normalises like the URL, the URL is
   * processed: the agent's file name is one the probe's glob finds.
   */
  lemma WriteMakesProcessed(dir: Dir, url: string, env: AgentEnv, loads: string -> Option<J>, dumps: J -> string)
    requires AgentRun(url, env, loads, dumps).Some?
    requires var a := AgentRun(url, env, loads, dumps).value; FileMatches(loads(a.text), NormalizeUrl(url))
    ensures Processed(Deliver(dir, AgentRun(url, env, loads, dumps), loads), url)
  {
    var r := AgentRun(url, env, loads, dumps);
    AgentRunWrites(url, env, loads, dumps);
    FoundFileProcesses(dir, url, r.value.name, loads(r.value.text));
  }

  /** A file under a name the glob finds, whose `meta.url` normalises like the URL, makes it processed. */
  lemma FoundFileProcesses(dir: Dir, url: string, name: string, content: Option<J>)
    requires GlobMatches(name, SafePrefix(url)) && FileMatches(content, NormalizeUrl(url))
    ensures Processed(dir[name := content], url)
  {
    assert name in Candidates(dir[name := content], SafePrefix(url));
  }

  // ---------------------------------------------------------------------------
  // process_url

  /**
   * `process_url`: a processed URL is skipped; otherwise the agent runs once on the raw URL,
   * and whatever it raises is caught.
   */
  method ProcessUrl(dir: Dir, url: string, env: AgentEnv, loads: string -> Option<J>, dumps: J -> string)
    returns (dir': Dir, called: bool)
    ensures called == !Processed(dir, url)
    ensures dir' == if called then Deliver(dir, AgentRun(url, env, loads, dumps), loads) else dir
  {
    var isProcessed := IsProcessed(dir, url);
    if isProcessed {
      return dir, false;
    }
    var artifact := AgentMain(url, env, loads, dumps);
    dir' := dir;
    if artifact.Some? {
      dir' := dir'[artifact.value.name := loads(artifact.value.text)];
    }
    called := true;
  }

  // ---------------------------------------------------------------------------
  // batch_main

  /** One row of `csv.DictReader`: column name to cell. */
  type CsvRow = map<string, string>

  /** `'url' in row and row['url'].strip()`. */
  predicate HasUrl(row: CsvRow)
  {
    "url" in row && Strip(row["url"]) != ""
  }

  /** The worklist: the 1-based row number and the stripped URL of each row with a non-blank `url`. */
  function Worklist(rows: seq<CsvRow>): seq<(nat, string)>
  {
    if rows == [] then []
    else
      var row := rows[|rows| - 1];
      Worklist(rows[..|rows| - 1]) + (if HasUrl(row) then [(|rows|, Strip(row["url"]))] else [])
  }

  lemma WorklistSnoc(rows: seq<CsvRow>, i: nat)
    requires i < |rows|
    ensures Worklist(rows[..i + 1]) == Worklist(rows[..i]) + (if HasUrl(rows[i]) then [(i + 1, Strip(rows[i]["url"]))] else [])
  {
    assert rows[..i + 1][..i] == rows[..i];
  }

  /** The `enumerate(reader)` loop of `batch_main`. */
  method BuildWorklist(rows: seq<CsvRow>) returns (urls: seq<(nat, string)>)
    ensures urls == Worklist(rows)
  {
    urls := [];
    for i := 0 to |rows|
      invariant urls == Worklist(rows[..i])
    {
      WorklistSnoc(rows, i);
      var row := rows[i];
      if "url" in row && Strip(row["url"]) != "" {
        urls := urls + [(i + 1, Strip(row["url"]))];
      }
    }
    assert rows[..|rows|] == rows;
  }

  /** `e` names a 1-based row of `rows` with a non-blank `url` and carries that cell, stripped. */
  predicate EntryOf(rows: seq<CsvRow>, e: (nat, string))
  {
    1 <= e.0 <= |rows| && HasUrl(rows[e.0 - 1]) && e.1 == Strip(rows[e.0 - 1]["url"])
  }

  /** Every entry of the worklist is an entry of its row. */
  lemma {:induction false} WorklistEntries(rows: seq<CsvRow>)
    ensures forall k :: 0 <= k < |Worklist(rows)| ==> EntryOf(rows, Worklist(rows)[k])
  {
    if rows != [] {
      var init := rows[..|rows| - 1];
      WorklistEntries(init);
      var w0 := Worklist(init);
      var w := Worklist(rows);
      var last := rows[|rows| - 1];
      assert w == w0 + (if HasUrl(last) then [(|rows|, Strip(last["url"]))] else []);
      forall k | 0 <= k < |w| ensures EntryOf(rows, w[k]) {
        if k < |w0| {
          assert EntryOf(init, w0[k]);
          assert init[w0[k].0 - 1] == rows[w0[k].0 - 1];
        }
      }
    }
  }

  /** The entries keep the order of the rows: row numbers strictly increase. */
  lemma {:induction false} WorklistIncreasing(rows: seq<CsvRow>)
    ensures forall k, l :: 0 <= k < l < |Worklist(rows)| ==> Worklist(rows)[k].0 < Worklist(rows)[l].0
  {
    if rows != [] {
      var init := rows[..|rows| - 1];
      WorklistIncreasing(init);
      WorklistEntries(init);
      var w0 := Worklist(init);
      var w := Worklist(rows);
      var last := rows[|rows| - 1];
      assert w == w0 + (if HasUrl(last) then [(|rows|, Strip(last["url"]))] else []);
      forall k, l | 0 <= k < l < |w| ensures w[k].0 < w[l].0 {
        assert w[k] == w0[k];
        assert EntryOf(init, w0[k]);
        if l < |w0| {
          assert w[l] == w0[l];
        } else {
          assert w[l].0 == |rows|;
        }
      }
    }
  }

  /** Every row with a non-blank `url` has its entry (whose URL is then that cell, by `WorklistEntries`). */
  lemma {:induction false} WorklistComplete(rows: seq<CsvRow>, i: nat)
    requires i < |rows| && HasUrl(rows[i])
    ensures exists k :: 0 <= k < |Worklist(rows)| && Worklist(rows)[k].0 == i + 1
  {
    var init := rows[..|rows| - 1];
    var w0 := Worklist(init);
    var w := Worklist(rows);
    var last := rows[|rows| - 1];
    assert w == w0 + (if HasUrl(last) then [(|rows|, Strip(last["url"]))] else []);
    if i < |init| {
      assert init[i] == rows[i];
      WorklistComplete(init, i);
      var k :| 0 <= k < |w0| && w0[k].0 == i + 1;
      assert w[k] == w0[k];
    } else {
      assert w[|w0|].0 == i + 1;
    }
  }

  /** `if limit: urls = urls[:limit]`, with Python's slice semantics. */
  function ApplyLimit<T>(urls: seq<T>, limit: Option<int>): (r: seq<T>)
    ensures limit.None? || limit.value == 0 ==> r == urls
    ensures limit.Some? && limit.value > 0 ==> r == Take(urls, limit.value)
    ensures limit.Some? && limit.value < 0 ==> r == urls[..if |urls| + limit.value < 0 then 0 else |urls| + limit.value]
  {
    if limit.Some? && limit.value != 0 then PySlice(urls, 0, limit.value) else urls
  }

  /**
   * The state after one worklist entry: skipped when `probe` finds it processed, else the
   * result of `agent` for it delivered. `agent(url, k)` is the k-th run of the agent.
   */
  function Step(state: (Dir, seq<string>), url: string, k: nat, probe: (Dir, string) -> bool,
                agent: (string, nat) -> Option<Artifact>, loads: string -> Option<J>): (r: (Dir, seq<string>))
    ensures r.1 == if probe(state.0, url) then state.1 else state.1 + [url]
  {
    if probe(state.0, url) then state
    else (Deliver(state.0, agent(url, k), loads), state.1 + [url])
  }

  /** The directory and the agent calls after dispatching `work[..n]` in order. */
  function RunPrefix(dir: Dir, work: seq<(nat, string)>, n: nat, probe: (Dir, string) -> bool,
                     agent: (string, nat) -> Option<Artifact>, loads: string -> Option<J>): (Dir, seq<string>)
    requires n <= |work|
  {
    if n == 0 then (dir, [])
    else Step(RunPrefix(dir, work, n - 1, probe, agent, loads), work[n - 1].1, n - 1, probe, agent, loads)
  }

  /**
   * `batch_main`: nothing when the CSV file is missing; otherwise the limited worklist, each
   * entry skipped or handed to the agent. `envs(k)` is what the k-th run of the agent meets.
   */
  method BatchMain(csv: Option<seq<CsvRow>>, limit: Option<int>, dir: Dir, envs: nat -> AgentEnv,
                   loads: string -> Option<J>, dumps: J -> string)
    returns (dir': Dir, calls: seq<string>)
    ensures csv.None? ==> dir' == dir && calls == []
    ensures csv.Some? ==> var work := ApplyLimit(Worklist(csv.value), limit);
      (dir', calls) == RunPrefix(dir, work, |work|, Processed, (u: string, k: nat) => AgentRun(u, envs(k), loads, dumps), loads)
  {
    if csv.None? {
      return dir, [];
    }
    var urls := BuildWorklist(csv.value);
    var work := ApplyLimit(urls, limit);
    ghost var agent := (u: string, k: nat) => AgentRun(u, envs(k), loads, dumps);
    dir', calls := dir, [];
    for k := 0 to |work|
      invariant (dir', calls) == RunPrefix(dir, work, k, Processed, agent, loads)
    {
      var (_, url) := work[k];
      var called;
      dir', called := ProcessUrl(dir', url, envs(k), loads, dumps);
      if called {
        calls := calls + [url];
      }
    }
  }

  /** Every agent call is for a URL of the worklist, and there are at most as many calls as entries. */
  lemma {:induction false} RunPrefixCalls(dir: Dir, work: seq<(nat, string)>, n: nat, probe: (Dir, string) -> bool,
                                          agent: (string, nat) -> Option<Artifact>, loads: string -> Option<J>)
    requires n <= |work|
    ensures var calls := RunPrefix(dir, work, n, probe, agent, loads).1;
      |calls| <= n && forall u :: u in calls ==> exists k :: 0 <= k < n && work[k].1 == u
  {
    if n > 0 {
      RunPrefixCalls(dir, work, n - 1, probe, agent, loads);
      var before := RunPrefix(dir, work, n - 1, probe, agent, loads).1;
      var calls := RunPrefix(dir, work, n, probe, agent, loads).1;
      assert calls == before || calls == before + [work[n - 1].1];
      forall u | u in calls ensures exists k :: 0 <= k < n && work[k].1 == u {
        if u in before {
          var k :| 0 <= k < n - 1 && work[k].1 == u;
        } else {
          assert work[n - 1].1 == u;
        }
      }
    }
  }

  /** The k-th run of the agent writes a file under `name`. */
  predicate WrittenBy(work: seq<(nat, string)>, k: nat, agent: (string, nat) -> Option<Artifact>, name: string)
    requires k < |work|
  {
    var a := agent(work[k].1, k);
    a.Some? && a.value.name == name
  }

  /** After `work[..n]`, every file was there before or was written by one of those runs. */
  lemma {:induction false} RunPrefixNames(dir: Dir, work: seq<(nat, string)>, n: nat, probe: (Dir, string) -> bool,
                                          agent: (string, nat) -> Option<Artifact>, loads: string -> Option<J>)
    requires n <= |work|
    ensures forall name :: name in RunPrefix(dir, work, n, probe, agent, loads).0 ==>
      (name in dir || exists k :: 0 <= k < n && WrittenBy(work, k, agent, name))
  {
    if n > 0 {
      RunPrefixNames(dir, work, n - 1, probe, agent, loads);
      var d := RunPrefix(dir, work, n - 1, probe, agent, loads).0;
      var d' := RunPrefix(dir, work, n, probe, agent, loads).0;
      var a := agent(work[n - 1].1, n - 1);
      assert d' == d || (a.Some? && d' == d[a.value.name := loads(a.value.text)]);
      forall name | name in d'
        ensures name in dir || exists k :: 0 <= k < n && WrittenBy(work, k, agent, name)
      {
        if name !in d {
          assert WrittenBy(work, n - 1, agent, name);
        }
      }
    }
  }

  /** Each run writes a name that neither the directory nor an earlier run had. */
  ghost predicate FreshNames(dir: Dir, work: seq<(nat, string)>, agent: (string, nat) -> Option<Artifact>)
  {
    forall k, name :: 0 <= k < |work| && WrittenBy(work, k, agent, name) ==>
      (name !in dir && forall j :: 0 <= j < k ==> !WrittenBy(work, j, agent, name))
  }

  /** `d2` has every file of `d`, with the same content. */
  ghost predicate Extends(d: Dir, d2: Dir)
  {
    forall name :: name in d ==> name in d2 && d2[name] == d[name]
  }

  /** Adding files never turns a positive answer of `probe` into a negative one. */
  ghost predicate KeptByNewFiles(probe: (Dir, string) -> bool)
  {
    forall d: Dir, d2: Dir, u: string :: Extends(d, d2) && probe(d, u) ==> probe(d2, u)
  }

  /** The probe of `process_url` is one of them. */
  lemma ProcessedKeptByNewFiles()
    ensures KeptByNewFiles(Processed)
  {
    forall d: Dir, d2: Dir, u: string | Extends(d, d2) && Processed(d, u)
      ensures Processed(d2, u)
    {
      var n :| n in Candidates(d, SafePrefix(u)) && FileMatches(d[n], NormalizeUrl(u));
      assert n in Candidates(d2, SafePrefix(u));
    }
  }

  /**
   * A URL the probe accepts before the run is accepted throughout and never handed to the
   * agent, as long as every run writes a fresh name.
   */
  lemma {:induction false} AcceptedNeverCalled(dir: Dir, work: seq<(nat, string)>, n: nat, probe: (Dir, string) -> bool,
                                               agent: (string, nat) -> Option<Artifact>, loads: string -> Option<J>, url: string)
    requires n <= |work| && probe(dir, url) && FreshNames(dir, work, agent) && KeptByNewFiles(probe)
    ensures url !in RunPrefix(dir, work, n, probe, agent, loads).1
    ensures probe(RunPrefix(dir, work, n, probe, agent, loads).0, url)
  {
    if n > 0 {
      AcceptedNeverCalled(dir, work, n - 1, probe, agent, loads, url);
      RunPrefixNames(dir, work, n - 1, probe, agent, loads);
      var d := RunPrefix(dir, work, n - 1, probe, agent, loads).0;
      var u := work[n - 1].1;
      if !probe(d, u) {
        var a := agent(u, n - 1);
        if a.Some? {
          FreshWrite(dir, work, n - 1, probe, agent, loads);
          ExtendsByNew(d, a.value.name, loads(a.value.text));
        }
      }
    }
  }

  /** The k-th run writes a name the directory does not have after the runs before it. */
  lemma FreshWrite(dir: Dir, work: seq<(nat, string)>, k: nat, probe: (Dir, string) -> bool,
                   agent: (string, nat) -> Option<Artifact>, loads: string -> Option<J>)
    requires k < |work| && FreshNames(dir, work, agent) && agent(work[k].1, k).Some?
    ensures agent(work[k].1, k).value.name !in RunPrefix(dir, work, k, probe, agent, loads).0
  {
    RunPrefixNames(dir, work, k, probe, agent, loads);
    assert WrittenBy(work, k, agent, agent(work[k].1, k).value.name);
  }

  /** A file under a new name keeps every file already there. */
  lemma ExtendsByNew(d: Dir, name: string, content: Option<J>)
    requires name !in d
    ensures Extends(d, d[name := content])
  {
  }

  /**
   * A URL that `process_url` finds processed before the batch starts is never handed to the
   * agent, as long as every run writes a fresh name (its timestamp differs from the others').
   */
  lemma ProcessedNeverCalled(dir: Dir, work: seq<(nat, string)>, agent: (string, nat) -> Option<Artifact>,
                             loads: string -> Option<J>, url: string)
    requires Processed(dir, url) && FreshNames(dir, work, agent)
    ensures url !in RunPrefix(dir, work, |work|, Processed, agent, loads).1
  {
    ProcessedKeptByNewFiles();
    AcceptedNeverCalled(dir, work, |work|, Processed, agent, loads, url);
  }
}
