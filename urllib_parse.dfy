/**
 * A model of the parts of Python's `urllib.parse` the scripts call: `urlparse`,
 * `urlunparse`, `parse_qs` and `urlencode`, following CPython 3.11.4 and later.
 * The split follows the generic syntax of section 3 of RFC 3986 the way CPython does it
 * (scheme, network location, path, parameters, query, fragment). Percent-decoding in
 * `parse_qs` and percent-encoding in `urlencode` are not modelled: names and values
 * are carried over verbatim.
 */
module UrllibParse {
  import opened Wrappers
  import opened Strings

  /** The six components of `urlparse`'s result. */
  datatype Url = Url(scheme: string, netloc: string, path: string, params: string, query: string, fragment: string)

  const UsesNetloc: set<string> := {
    "", "ftp", "http", "gopher", "nntp", "telnet", "imap", "wais", "file", "mms", "https", "shttp",
    "snews", "prospero", "rtsp", "rtspu", "rsync", "svn", "svn+ssh", "sftp", "nfs", "git", "git+ssh",
    "ws", "wss"}

  const UsesParams: set<string> := {
    "", "ftp", "hdl", "prospero", "http", "imap", "https", "shttp", "rtsp", "rtspu", "sip", "sips",
    "mms", "sftp", "tel"}

  predicate IsSchemeChar(c: char)
  {
    IsAlnum(c) || c == '+' || c == '-' || c == '.'
  }

  /** Tab, carriage return and line feed, which `urlsplit` deletes everywhere. */
  predicate IsUnsafe(c: char)
  {
    c == '\t' || c == '\r' || c == '\n'
  }

  predicate NoUnsafe(s: string)
  {
    forall i :: 0 <= i < |s| ==> !IsUnsafe(s[i])
  }

  /** Drops leading C0 control characters and spaces. */
  function LStripControl(s: string): string
  {
    if s != [] && s[0] <= ' ' then LStripControl(s[1..]) else s
  }

  function DropUnsafe(s: string): (r: string)
    ensures forall c :: c in r ==> c in s
  {
    if s == [] then [] else (if IsUnsafe(s[0]) then [] else [s[0]]) + DropUnsafe(s[1..])
  }

  /** The clean-up `urlsplit` applies before splitting. */
  function Sanitize(url: string): string
  {
    DropUnsafe(LStripControl(url))
  }

  /** A valid scheme name: a letter followed by letters, digits, `+`, `-` and `.`. */
  predicate IsSchemeName(scheme: string)
  {
    scheme != [] && IsAsciiLetter(scheme[0]) && forall k :: 0 <= k < |scheme| ==> IsSchemeChar(scheme[k])
  }

  /** Splits off `scheme:` when the text before the first `:` is a scheme name; the scheme is lower-cased. */
  function SplitScheme(url: string): (string, string)
  {
    var i := IndexOf(url, ':');
    if i < |url| && IsSchemeName(url[..i]) then (Lower(url[..i]), url[i + 1..]) else ("", url)
  }

  /** Splits off `//netloc`, which runs up to the first `/`, `?` or `#`. */
  function SplitNetloc(rest: string): (string, string)
  {
    if "//" <= rest then
      var end := 2 + IndexOfAny(rest[2..], {'/', '?', '#'});
      (rest[2..end], rest[end..])
    else ("", rest)
  }

  /** The scheme, the network location and the rest of the URL, after the clean-up. */
  function SplitFront(url: string): (string, string, string)
  {
    var (scheme, afterScheme) := SplitScheme(Sanitize(url));
    var (netloc, afterNetloc) := SplitNetloc(afterScheme);
    (scheme, netloc, afterNetloc)
  }

  /** Path, query and fragment: the fragment follows the first `#`, then the query the first `?`. */
  function SplitTail(rest: string): (string, string, string)
  {
    var (beforeFragment, fragment) := SplitAt(rest, '#');
    var (path, query) := SplitAt(beforeFragment, '?');
    (path, query, fragment)
  }

  /**
   * The characters whose NFKC normal form holds one of `/`, `?`, `#`, `@` and `:`: U+2047 to
   * U+2049 (doubled question and exclamation marks), U+2100, U+2101, U+2105 and U+2106 (the
   * account-of and care-of signs), U+2A74 (double colon equal) and the vertical, small and
   * full-width forms U+FE13, U+FE16, U+FE55, U+FE56, U+FE5F, U+FE6B, U+FF03, U+FF0F, U+FF1A,
   * U+FF1F and U+FF20. None of them is ASCII.
   */
  predicate IsNfkcDelimiter(c: char)
  {
    '\U{2047}' <= c &&
    (c <= '\U{2049}' || c == '\U{2100}' || c == '\U{2101}' || c == '\U{2105}'
    || c == '\U{2106}' || c == '\U{2A74}' || c == '\U{FE13}' || c == '\U{FE16}' || c == '\U{FE55}'
    || c == '\U{FE56}' || c == '\U{FE5F}' || c == '\U{FE6B}' || c == '\U{FF03}' || c == '\U{FF0F}'
    || c == '\U{FF1A}' || c == '\U{FF1F}' || c == '\U{FF20}')
  }

  /**
   * `_checknetloc` lets a network location through exactly when none of its characters is one
   * of those. It returns at once on an ASCII netloc; otherwise it deletes `@`, `:`, `#` and `?`,
   * normalises to NFKC and raises ValueError when one of `/?#@:` then shows up. NFKC decomposes
   * character by character and no delimiter takes part in a composition, so a delimiter shows up
   * exactly when one of the characters above is present.
   */
  predicate NfkcSafe(netloc: string)
  {
    forall i :: 0 <= i < |netloc| ==> !IsNfkcDelimiter(netloc[i])
  }

  /**
   * `urlsplit`; None stands for the ValueError it raises for an unbalanced `[` or `]` in the
   * network location, and for a network location `_checknetloc` refuses.
   */
  function UrlSplit(url: string): Option<Url>
  {
    var (scheme, netloc, rest) := SplitFront(url);
    if ('[' in netloc) != (']' in netloc) || !NfkcSafe(netloc) then None
    else
      var (path, query, fragment) := SplitTail(rest);
      Some(Url(scheme, netloc, path, "", query, fragment))
  }

  /** `_splitparams`: the parameters follow the first `;` of the last path segment. */
  function SplitParams(path: string): (string, string)
  {
    var slash := LastIndexOf(path, '/');
    var start := if slash < 0 then 0 else slash;
    var i := start + IndexOf(path[start..], ';');
    if i < |path| then (path[..i], path[i + 1..]) else (path, "")
  }

  /** `urlparse`; None stands for a raised ValueError. */
  function UrlParse(url: string): Option<Url>
  {
    match UrlSplit(url)
    case None => None
    case Some(p) => Some(WithParams(p))
  }

  /** The parameters split off the path for the schemes that use them. */
  function WithParams(p: Url): Url
  {
    if p.scheme in UsesParams && ';' in p.path then
      var (path, params) := SplitParams(p.path);
      p.(path := path, params := params)
    else p
  }

  /** Splitting off the parameters looks at the scheme and the path only. */
  lemma WithParamsKeeps(p: Url, q: string, f: string)
    ensures WithParams(p).query == p.query && WithParams(p).fragment == p.fragment
    ensures WithParams(p.(query := q, fragment := f)) == WithParams(p).(query := q, fragment := f)
  {
  }

  /** `urlunparse`. */
  function UrlUnparse(p: Url): string
  {
    var path := if p.params != "" then p.path + ";" + p.params else p.path;
    var hier :=
      if p.netloc != "" || (p.scheme != "" && p.scheme in UsesNetloc && !("//" <= path)) then
        "//" + p.netloc + (if path != "" && path[0] != '/' then "/" + path else path)
      else path;
    var withScheme := if p.scheme != "" then p.scheme + ":" + hier else hier;
    var withQuery := if p.query != "" then withScheme + "?" + p.query else withScheme;
    if p.fragment != "" then withQuery + "#" + p.fragment else withQuery
  }

  /** Regrouping the pieces `urlunparse` joins after a scheme and a host. */
  lemma JoinNetloc(scheme: string, host: string, a: string, b: string, c: string)
    ensures scheme + ":" + ("//" + host + (a + b)) + c == scheme + "://" + host + a + b + c
  {
    assert ":" + "//" == "://";
  }

  // ---------------------------------------------------------------------------
  // Query strings

  /** The result of `parse_qs`: each name with its values, names in order of first appearance. */
  type Multimap = seq<(string, seq<string>)>

  /** One `&`-separated field of `parse_qsl`: fields without `=` or with an empty value are dropped. */
  function ParseField(field: string): seq<(string, string)>
  {
    var i := IndexOf(field, '=');
    if i + 1 < |field| then [(field[..i], field[i + 1..])] else []
  }

  function FieldPairs(fields: seq<string>): seq<(string, string)>
  {
    if fields == [] then [] else FieldPairs(fields[..|fields| - 1]) + ParseField(fields[|fields| - 1])
  }

  /** `parse_qsl(qs)`. */
  function ParseQsl(qs: string): seq<(string, string)>
  {
    FieldPairs(SplitOn(qs, "&"))
  }

  /** Adds one value under `name`, after the values already there, or as a new last entry. */
  function AddPair(m: Multimap, name: string, value: string): Multimap
  {
    if m == [] then [(name, [value])]
    else if m[0].0 == name then [(name, m[0].1 + [value])] + m[1..]
    else [m[0]] + AddPair(m[1..], name, value)
  }

  function Group(pairs: seq<(string, string)>): Multimap
  {
    if pairs == [] then []
    else AddPair(Group(pairs[..|pairs| - 1]), pairs[|pairs| - 1].0, pairs[|pairs| - 1].1)
  }

  /** `parse_qs(qs)`. */
  function ParseQs(qs: string): Multimap
  {
    Group(ParseQsl(qs))
  }

  predicate HasName(m: Multimap, name: string)
  {
    exists i :: 0 <= i < |m| && m[i].0 == name
  }

  /** `del m[name]`; a name that is absent leaves `m` as it is. */
  function RemoveName(m: Multimap, name: string): (r: Multimap)
    ensures !HasName(r, name)
    ensures forall e :: e in r <==> e in m && e.0 != name
  {
    if m == [] then []
    else
      var rest := RemoveName(m[1..], name);
      assert forall e :: e in m <==> e == m[0] || e in m[1..];
      if m[0].0 == name then rest else [m[0]] + rest
  }

  function EntryPairs(name: string, values: seq<string>): seq<(string, string)>
  {
    seq(|values|, i requires 0 <= i < |values| => (name, values[i]))
  }

  /** The `(name, value)` pairs `urlencode(m, doseq=True)` emits, in order. */
  function Pairs(m: Multimap): seq<(string, string)>
  {
    if m == [] then [] else Pairs(m[..|m| - 1]) + EntryPairs(m[|m| - 1].0, m[|m| - 1].1)
  }

  function EncodeFields(pairs: seq<(string, string)>): seq<string>
  {
    seq(|pairs|, i requires 0 <= i < |pairs| => pairs[i].0 + "=" + pairs[i].1)
  }

  /** `urlencode(m, doseq=True)`, with names and values not percent-encoded. */
  function UrlEncode(m: Multimap): string
  {
    Join(EncodeFields(Pairs(m)), "&")
  }

  // ---------------------------------------------------------------------------
  // How `urlsplit` treats a query or a fragment appended to a URL

  lemma LStripControlAppend(a: string, b: string)
    requires b != [] && b[0] > ' '
    ensures LStripControl(a + b) == LStripControl(a) + b
  {
    if a == [] {
      assert a + b == b;
    } else if a[0] <= ' ' {
      assert (a + b)[1..] == a[1..] + b;
      LStripControlAppend(a[1..], b);
    }
  }

  lemma DropUnsafeAppend(a: string, b: string)
    ensures DropUnsafe(a + b) == DropUnsafe(a) + DropUnsafe(b)
  {
    if a == [] {
      assert a + b == b;
    } else {
      assert (a + b)[1..] == a[1..] + b;
      DropUnsafeAppend(a[1..], b);
    }
  }

  lemma DropUnsafeSafe(a: string)
    requires NoUnsafe(a)
    ensures DropUnsafe(a) == a
  {
    if a != [] {
      DropUnsafeSafe(a[1..]);
    }
  }

  lemma NoUnsafeAppend(a: string, b: string)
    requires NoUnsafe(a) && NoUnsafe(b)
    ensures NoUnsafe(a + b)
  {
    forall i | 0 <= i < |a + b| ensures !IsUnsafe((a + b)[i]) {
      if i >= |a| { assert (a + b)[i] == b[i - |a|]; }
    }
  }

  lemma SanitizeAppend(a: string, b: string)
    requires b != [] && b[0] > ' ' && NoUnsafe(b)
    ensures Sanitize(a + b) == Sanitize(a) + b
  {
    LStripControlAppend(a, b);
    DropUnsafeAppend(LStripControl(a), b);
    DropUnsafeSafe(b);
  }

  lemma SanitizeAbsent(a: string, c: char)
    requires c !in a
    ensures c !in Sanitize(a)
  {
    LStripControlSuffix(a);
    DropAbsent(a, c, LStripControl(a));
  }

  /** Each front stage leaves a suffix of its input for the next. */
  lemma {:induction false} LStripControlSuffix(s: string)
    ensures |LStripControl(s)| <= |s| && LStripControl(s) == s[|s| - |LStripControl(s)|..]
  {
    if s != [] && s[0] <= ' ' {
      LStripControlSuffix(s[1..]);
      assert s[1..][|s| - 1 - |LStripControl(s)|..] == s[|s| - |LStripControl(s)|..];
    }
  }

  lemma SplitSchemeSuffix(url: string)
    ensures |SplitScheme(url).1| <= |url| && SplitScheme(url).1 == url[|url| - |SplitScheme(url).1|..]
  {
  }

  lemma SplitNetlocSuffix(rest: string)
    ensures |SplitNetloc(rest).1| <= |rest| && SplitNetloc(rest).1 == rest[|rest| - |SplitNetloc(rest).1|..]
  {
  }

  lemma NotSchemeChar(c: char)
    requires c == '?' || c == '#'
    ensures !IsSchemeChar(c)
  {
  }

  lemma SplitSchemeAppend(u: string, t: string)
    requires t != [] && (t[0] == '?' || t[0] == '#')
    ensures SplitScheme(u + t) == (SplitScheme(u).0, SplitScheme(u).1 + t)
  {
    IndexOfAnyAppend(u, t, {':'});
    var i := IndexOf(u, ':');
    if i < |u| {
      assert (u + t)[..i] == u[..i];
      assert (u + t)[i + 1..] == u[i + 1..] + t;
    } else {
      var j := IndexOf(u + t, ':');
      if j < |u + t| {
        assert (u + t)[..j][|u|] == t[0];
        NotSchemeChar(t[0]);
      }
    }
  }

  lemma SplitNetlocAppend(r: string, t: string)
    requires t != [] && (t[0] == '?' || t[0] == '#')
    ensures SplitNetloc(r + t) == (SplitNetloc(r).0, SplitNetloc(r).1 + t)
  {
    if "//" <= r {
      NetlocAppendSlashes(r, t);
    } else if |r| >= 2 {
      SliceAppend(r, t, 0, 2);
    } else {
      NetlocAppendShort(r, t);
    }
  }

  lemma NetlocAppendSlashes(r: string, t: string)
    requires "//" <= r && t != [] && (t[0] == '?' || t[0] == '#')
    ensures SplitNetloc(r + t) == (SplitNetloc(r).0, SplitNetloc(r).1 + t)
  {
    NetlocEndAppend(r, t);
    var k := IndexOfAny(r[2..], {'/', '?', '#'});
    SliceAppend(r, t, 2, 2 + k);
    SliceAppend(r, t, 2 + k, 2 + k);
  }

  /** Past the two slashes, the network location of `r + t` ends where that of `r` does. */
  lemma NetlocEndAppend(r: string, t: string)
    requires "//" <= r && t != [] && (t[0] == '?' || t[0] == '#')
    ensures "//" <= r + t
    ensures IndexOfAny((r + t)[2..], {'/', '?', '#'}) == IndexOfAny(r[2..], {'/', '?', '#'})
  {
    var cs := {'/', '?', '#'};
    SliceAppend(r, t, 0, 2);
    SliceAppend(r, t, 2, 2);
    IndexOfAnyAppend(r[2..], t, cs);
    assert t[0] in cs;
  }

  lemma NetlocAppendShort(r: string, t: string)
    requires |r| < 2 && t != [] && (t[0] == '?' || t[0] == '#')
    ensures !("//" <= r + t) && SplitNetloc(r + t) == ("", r + t)
  {
    if |r| == 0 {
      assert (r + t)[0] == t[0];
    } else {
      assert (r + t)[1] == t[0];
    }
  }

  /** The front stages are unaffected by a query or fragment appended to the URL. */
  lemma SplitFrontAppend(s: string, t: string)
    requires t != [] && (t[0] == '?' || t[0] == '#') && NoUnsafe(t)
    ensures SplitFront(s + t) == (SplitFront(s).0, SplitFront(s).1, SplitFront(s).2 + t)
  {
    SanitizeAppend(s, t);
    SplitSchemeAppend(Sanitize(s), t);
    SplitNetlocAppend(SplitScheme(Sanitize(s)).1, t);
  }

  lemma SplitFrontAbsent(s: string, c: char)
    requires c !in s
    ensures c !in SplitFront(s).2
  {
    SanitizeAbsent(s, c);
    var a := SplitScheme(Sanitize(s)).1;
    SplitSchemeSuffix(Sanitize(s));
    DropAbsent(Sanitize(s), c, a);
    SplitNetlocSuffix(a);
    DropAbsent(a, c, SplitNetloc(a).1);
  }

  lemma SplitTailQuery(b: string, q: string)
    requires '?' !in b && '#' !in b && '#' !in q
    ensures SplitTail(b) == (b, "", "")
    ensures SplitTail(b + "?" + q) == (b, q, "")
  {
    assert '#' !in b + "?" + q;
    SplitAtAbsent(b + "?" + q, '#');
    SplitAtAppend(b, '?', q);
  }

  lemma SplitTailFragment(b: string, f: string)
    requires '#' !in b
    ensures SplitTail(b).2 == ""
    ensures SplitTail(b + "#" + f) == (SplitTail(b).0, SplitTail(b).1, f)
  {
    SplitAtAppend(b, '#', f);
  }

  lemma FrontWithSuffix(s: string, c: char, q: string)
    requires (c == '?' || c == '#') && (c == '?' ==> '#' !in q) && NoUnsafe(q)
    ensures SplitFront(s + [c] + q) == (SplitFront(s).0, SplitFront(s).1, SplitFront(s).2 + [c] + q)
  {
    var t := [c] + q;
    NoUnsafeCons(c, q);
    SeqAssoc(s, [c], q);
    SplitFrontAppend(s, t);
    SeqAssoc(SplitFront(s).2, [c], q);
  }

  lemma NoUnsafeCons(c: char, q: string)
    requires (c == '?' || c == '#') && NoUnsafe(q)
    ensures NoUnsafe([c] + q)
  {
    assert forall i :: 1 <= i < |q| + 1 ==> ([c] + q)[i] == q[i - 1];
  }

  lemma TailWithQuery(s: string, q: string)
    requires '?' !in s && '#' !in s && '#' !in q
    ensures SplitTail(SplitFront(s).2) == (SplitFront(s).2, "", "")
    ensures SplitTail(SplitFront(s).2 + "?" + q) == (SplitFront(s).2, q, "")
  {
    SplitFrontAbsent(s, '?');
    SplitFrontAbsent(s, '#');
    SplitTailQuery(SplitFront(s).2, q);
  }

  /** Appending `?q` to a URL with no query and no fragment sets the query to `q` and changes nothing else. */
  lemma UrlSplitAppendQuery(s: string, q: string)
    requires '?' !in s && '#' !in s
    requires '#' !in q && NoUnsafe(q)
    ensures UrlSplit(s).Some? ==> UrlSplit(s).value.query == "" && UrlSplit(s).value.fragment == ""
    ensures UrlSplit(s + "?" + q) == if UrlSplit(s).Some? then Some(UrlSplit(s).value.(query := q)) else None
  {
    FrontWithSuffix(s, '?', q);
    TailWithQuery(s, q);
    var (scheme, netloc, rest) := SplitFront(s);
    UrlSplitOfParts(s, scheme, netloc, rest, rest, "", "");
    UrlSplitOfParts(s + "?" + q, scheme, netloc, rest + "?" + q, rest, q, "");
  }

  lemma TailWithFragment(s: string, f: string)
    requires '#' !in s
    ensures SplitTail(SplitFront(s).2).2 == ""
    ensures SplitTail(SplitFront(s).2 + "#" + f) == (SplitTail(SplitFront(s).2).0, SplitTail(SplitFront(s).2).1, f)
  {
    SplitFrontAbsent(s, '#');
    SplitTailFragment(SplitFront(s).2, f);
  }

  /** Appending `#f` to a URL with no fragment sets the fragment to `f` and changes nothing else. */
  lemma UrlSplitAppendFragment(s: string, f: string)
    requires '#' !in s && NoUnsafe(f)
    ensures UrlSplit(s).Some? ==> UrlSplit(s).value.fragment == ""
    ensures UrlSplit(s + "#" + f) == if UrlSplit(s).Some? then Some(UrlSplit(s).value.(fragment := f)) else None
  {
    FrontWithSuffix(s, '#', f);
    TailWithFragment(s, f);
    var (scheme, netloc, rest) := SplitFront(s);
    var (path, query, _) := SplitTail(rest);
    UrlSplitOfParts(s, scheme, netloc, rest, path, query, "");
    UrlSplitOfParts(s + "#" + f, scheme, netloc, rest + "#" + f, path, query, f);
  }

  lemma UrlSplitOfParts(url: string, scheme: string, netloc: string, rest: string, path: string, query: string, fragment: string)
    requires SplitFront(url) == (scheme, netloc, rest) && SplitTail(rest) == (path, query, fragment)
    ensures UrlSplit(url) == if ('[' in netloc) != (']' in netloc) || !NfkcSafe(netloc) then None else Some(Url(scheme, netloc, path, "", query, fragment))
  {
  }

  lemma UrlParseAppendQuery(s: string, q: string)
    requires '?' !in s && '#' !in s
    requires '#' !in q && NoUnsafe(q)
    ensures UrlParse(s).Some? ==> UrlParse(s).value.query == "" && UrlParse(s).value.fragment == ""
    ensures UrlParse(s + "?" + q) == if UrlParse(s).Some? then Some(UrlParse(s).value.(query := q)) else None
  {
    UrlSplitAppendQuery(s, q);
    if UrlSplit(s).Some? {
      var p := UrlSplit(s).value;
      WithParamsKeeps(p, q, p.fragment);
    }
  }

  lemma UrlParseAppendFragment(s: string, f: string)
    requires '#' !in s && NoUnsafe(f)
    ensures UrlParse(s).Some? ==> UrlParse(s).value.fragment == ""
    ensures UrlParse(s + "#" + f) == if UrlParse(s).Some? then Some(UrlParse(s).value.(fragment := f)) else None
  {
    UrlSplitAppendFragment(s, f);
    if UrlSplit(s).Some? {
      var p := UrlSplit(s).value;
      WithParamsKeeps(p, p.query, f);
    }
  }

  /** Text that `urlsplit` takes whole as the network location: no `/`, `?`, `#`, tab or line break. */
  predicate HostChars(host: string)
  {
    '/' !in host && '?' !in host && '#' !in host && NoUnsafe(host)
  }

  /** A host part that ends at the first `/`, `?` or `#`, has balanced brackets and passes `_checknetloc`. */
  predicate IsHostPart(host: string)
  {
    HostChars(host) && ('[' in host <==> ']' in host) && NfkcSafe(host)
  }

  /** An absolute path with no query and no fragment. */
  predicate IsPathPart(path: string)
  {
    (path == [] || path[0] == '/') && '?' !in path && '#' !in path && NoUnsafe(path)
  }

  /** An absolute path with no query, fragment or parameters. */
  predicate IsPlainPath(path: string)
  {
    IsPathPart(path) && ';' !in path
  }

  /** A host followed by one of those characters is a host `urlsplit` refuses. */
  lemma NfkcDelimiterHost(host: string, c: char)
    requires HostChars(host) && IsNfkcDelimiter(c)
    ensures HostChars(host + [c]) && !IsHostPart(host + [c])
  {
    assert (host + [c])[|host|] == c;
    NoUnsafeAppend(host, [c]);
  }

  /** An ASCII network location always passes `_checknetloc`. */
  lemma AsciiNfkcSafe(netloc: string)
    requires forall i :: 0 <= i < |netloc| ==> netloc[i] < '\U{80}'
    ensures NfkcSafe(netloc)
  {
  }

  /** Lower-casing (ASCII letters only) keeps a network location acceptable to `_checknetloc`. */
  lemma LowerNfkcSafe(netloc: string)
    requires NfkcSafe(netloc)
    ensures NfkcSafe(Lower(netloc))
  {
    forall i | 0 <= i < |netloc| ensures !IsNfkcDelimiter(Lower(netloc)[i]) {
      assert !IsNfkcDelimiter(netloc[i]);
    }
  }

  lemma SplitSchemeHierarchical(scheme: string, rest: string)
    requires IsSchemeName(scheme)
    ensures SplitScheme(scheme + ":" + rest) == (Lower(scheme), rest)
  {
    var u := scheme + ":" + rest;
    assert u == scheme + (":" + rest);
    assert ':' !in scheme by {
      forall k | 0 <= k < |scheme| ensures scheme[k] != ':' { assert IsSchemeChar(scheme[k]); }
    }
    IndexOfAnyAppend(scheme, ":" + rest, {':'});
    assert u[..|scheme|] == scheme;
    assert u[|scheme| + 1..] == rest;
  }

  lemma SplitNetlocHierarchical(host: string, path: string)
    requires HostChars(host) && IsPathPart(path)
    ensures SplitNetloc("//" + host + path) == (host, path)
  {
    var rest := "//" + host + path;
    assert rest[2..] == host + path;
    IndexOfAnyAppend(host, path, {'/', '?', '#'});
    assert IndexOfAny(host, {'/', '?', '#'}) == |host|;
    assert rest[2..2 + |host|] == host;
    assert rest[2 + |host|..] == path;
  }

  lemma SanitizeHierarchical(scheme: string, host: string, path: string)
    requires IsSchemeName(scheme) && HostChars(host) && IsPathPart(path)
    ensures Sanitize(scheme + "://" + host + path) == scheme + ":" + ("//" + host + path)
  {
    var rest := "//" + host + path;
    var u := scheme + ":" + rest;
    assert scheme + "://" + host + path == u;
    assert NoUnsafe(scheme) by {
      forall k | 0 <= k < |scheme| ensures !IsUnsafe(scheme[k]) { assert IsSchemeChar(scheme[k]); }
    }
    NoUnsafeAppend(host, path);
    assert "//" + (host + path) == rest;
    NoUnsafeAppend("//", host + path);
    NoUnsafeAppend(":", rest);
    NoUnsafeAppend(scheme, ":" + rest);
    assert scheme + (":" + rest) == u;
    LStripControlAppend([], u);
    DropUnsafeSafe(u);
  }

  lemma SplitFrontHierarchical(scheme: string, host: string, path: string)
    requires IsSchemeName(scheme) && HostChars(host) && IsPathPart(path)
    ensures SplitFront(scheme + "://" + host + path) == (Lower(scheme), host, path)
  {
    SanitizeHierarchical(scheme, host, path);
    SplitSchemeHierarchical(scheme, "//" + host + path);
    SplitNetlocHierarchical(host, path);
  }

  /** `scheme://host/path`, the path possibly with parameters, splits into its scheme (lower-cased), host and path. */
  lemma UrlSplitHierarchical(scheme: string, host: string, path: string)
    requires IsSchemeName(scheme) && IsHostPart(host) && IsPathPart(path)
    ensures UrlSplit(scheme + "://" + host + path) == Some(Url(Lower(scheme), host, path, "", "", ""))
  {
    SplitFrontHierarchical(scheme, host, path);
    SplitTailQuery(path, "");
  }

  /** `scheme://host/path` parses into its scheme (lower-cased), host and path. */
  lemma UrlParseHierarchical(scheme: string, host: string, path: string)
    requires IsSchemeName(scheme) && IsHostPart(host) && IsPlainPath(path)
    ensures UrlParse(scheme + "://" + host + path) == Some(Url(Lower(scheme), host, path, "", "", ""))
  {
    UrlSplitHierarchical(scheme, host, path);
  }

  /**
   * `scheme://host/path;params`, for a scheme that uses parameters, parses with the text after
   * the `;` of the last path segment as the parameters, also when that text is empty.
   */
  lemma UrlParseParams(scheme: string, host: string, path: string, params: string)
    requires IsSchemeName(scheme) && Lower(scheme) in UsesParams && IsHostPart(host)
    requires IsPlainPath(path) && path != ""
    requires '/' !in params && '?' !in params && '#' !in params && NoUnsafe(params)
    ensures UrlParse(scheme + "://" + host + path + ";" + params) == Some(Url(Lower(scheme), host, path, params, "", ""))
  {
    var full := path + ";" + params;
    ParamsPathPart(path, params);
    assert scheme + "://" + host + path + ";" + params == scheme + "://" + host + full;
    UrlSplitHierarchical(scheme, host, full);
    SplitParamsAt(path, params);
  }

  /** `path;params` is still a path with no query and no fragment. */
  lemma ParamsPathPart(path: string, params: string)
    requires IsPlainPath(path) && path != ""
    requires '?' !in params && '#' !in params && NoUnsafe(params)
    ensures IsPathPart(path + ";" + params)
  {
    var full := path + ";" + params;
    assert full[0] == path[0];
    assert NoUnsafe(";");
    NoUnsafeAppend(path, ";");
    NoUnsafeAppend(path + ";", params);
  }

  /** The parameters of `path;params` are `params` when the path holds no `;` and `params` no `/`. */
  lemma SplitParamsAt(path: string, params: string)
    requires path != "" && path[0] == '/' && ';' !in path && '/' !in params
    ensures ';' in path + ";" + params && SplitParams(path + ";" + params) == (path, params)
  {
    var full := path + ";" + params;
    var k := LastIndexOf(path, '/');
    assert k >= 0 by { assert path[0] == '/'; }
    LastSlashOfParams(path, params, k);
    FirstSemicolonOfParams(path, params, k);
    assert k + IndexOf(full[k..], ';') == |path|;
    assert full[|path|] == ';';
    assert SplitParams(full) == (full[..|path|], full[|path| + 1..]);
    assert full[..|path|] == path && full[|path| + 1..] == params;
  }

  lemma LastSlashOfParams(path: string, params: string, k: nat)
    requires k < |path| && path[k] == '/' && (forall j :: k < j < |path| ==> path[j] != '/') && '/' !in params
    ensures LastIndexOf(path + ";" + params, '/') == k
  {
    var full := path + ";" + params;
    forall j | k < j < |full| ensures full[j] != '/' {
      if j < |path| { assert full[j] == path[j]; }
      else if j > |path| { assert full[j] == params[j - |path| - 1]; }
    }
    LastIndexOfAt(full, '/', k);
  }

  lemma FirstSemicolonOfParams(path: string, params: string, k: nat)
    requires k < |path| && ';' !in path
    ensures IndexOf((path + ";" + params)[k..], ';') == |path| - k
  {
    var tail := (path + ";" + params)[k..];
    assert tail == path[k..] + ";" + params;
    forall j | 0 <= j < |path| - k ensures tail[j] != ';' { assert tail[j] == path[k + j]; }
    IndexOfAt(tail, ';', |path| - k);
  }

  /** `scheme://host/path` holds no `?` and no `#`. */
  lemma HierarchicalNoQuery(scheme: string, host: string, path: string)
    requires IsSchemeName(scheme) && HostChars(host) && IsPathPart(path)
    ensures '?' !in scheme + "://" + host + path && '#' !in scheme + "://" + host + path
  {
    NotSchemeChar('?');
    NotSchemeChar('#');
  }

  /** A query and then a fragment appended to a URL that has neither are parsed as such. */
  lemma UrlParseWithQueryFragment(s: string, p: Url, q: string, f: string)
    requires '?' !in s && '#' !in s && UrlParse(s) == Some(p)
    requires '#' !in q && NoUnsafe(q) && NoUnsafe(f)
    ensures UrlParse(s + "?" + q + "#" + f) == Some(p.(query := q, fragment := f))
  {
    UrlParseAppendQuery(s, q);
    assert '#' !in s + "?" + q;
    UrlParseAppendFragment(s + "?" + q, f);
  }

  /**
   * A host `urlsplit` refuses (a `[` without `]` or the reverse, or a character `_checknetloc`
   * refuses) makes parsing raise ValueError.
   */
  lemma UrlParseRejected(scheme: string, host: string, path: string)
    requires IsSchemeName(scheme) && HostChars(host) && IsPathPart(path)
    requires !IsHostPart(host)
    ensures UrlParse(scheme + "://" + host + path).None?
  {
    SplitFrontHierarchical(scheme, host, path);
  }

  // ---------------------------------------------------------------------------
  // `parse_qs` and `urlencode` are inverse on well-formed multimaps

  predicate ValidName(name: string)
  {
    '&' !in name && '=' !in name
  }

  predicate ValidValue(value: string)
  {
    value != [] && '&' !in value
  }

  /** What `parse_qs` can produce: distinct valid names, each with a non-empty list of valid values. */
  predicate WellFormed(m: Multimap)
  {
    (forall i, j :: 0 <= i < j < |m| ==> m[i].0 != m[j].0)
    && forall i :: 0 <= i < |m| ==> ValidName(m[i].0) && m[i].1 != [] && forall k :: 0 <= k < |m[i].1| ==> ValidValue(m[i].1[k])
  }

  predicate ValidPairs(pairs: seq<(string, string)>)
  {
    forall i :: 0 <= i < |pairs| ==> ValidName(pairs[i].0) && ValidValue(pairs[i].1)
  }

  lemma ParseFieldEncoded(name: string, value: string)
    requires '=' !in name && value != []
    ensures ParseField(name + "=" + value) == [(name, value)]
  {
    AroundChar(name, '=', value);
    IndexOfAt(name + "=" + value, '=', |name|);
  }

  lemma {:induction false} FieldPairsAppend(a: seq<string>, b: seq<string>)
    ensures FieldPairs(a + b) == FieldPairs(a) + FieldPairs(b)
    decreases |b|
  {
    if b == [] {
      assert a + b == a;
    } else {
      var n := |b| - 1;
      assert (a + b)[..|a + b| - 1] == a + b[..n];
      assert (a + b)[|a + b| - 1] == b[n];
      FieldPairsAppend(a, b[..n]);
    }
  }

  /** A query without `&` is one field. */
  lemma ParseQslSingle(field: string)
    requires '&' !in field
    ensures ParseQsl(field) == ParseField(field)
  {
    FindChar(field, '&');
    assert SplitOn(field, "&") == [field];
    assert FieldPairs([field]) == FieldPairs([]) + ParseField(field);
  }

  /** One pair groups into one name with one value. */
  lemma GroupSingle(name: string, value: string)
    ensures Group([(name, value)]) == [(name, [value])]
  {
    assert Group([(name, value)]) == AddPair([], name, value);
  }

  /** `parse_qsl` of two queries joined by `&` is the concatenation of their pairs. */
  lemma ParseQslConcat(a: string, b: string)
    ensures ParseQsl(a + "&" + b) == ParseQsl(a) + ParseQsl(b)
  {
    SplitOnConcat(a, '&', b);
    FieldPairsAppend(SplitOn(a, "&"), SplitOn(b, "&"));
  }

  lemma {:induction false} FieldPairsEncoded(pairs: seq<(string, string)>)
    requires ValidPairs(pairs)
    ensures FieldPairs(EncodeFields(pairs)) == pairs
    decreases |pairs|
  {
    if pairs != [] {
      var n := |pairs| - 1;
      EncodeFieldsInit(pairs);
      FieldPairsSnoc(EncodeFields(pairs[..n]), pairs[n].0 + "=" + pairs[n].1);
      FieldPairsEncoded(pairs[..n]);
      ParseFieldEncoded(pairs[n].0, pairs[n].1);
      InitLast(pairs);
    }
  }

  /** The encoded fields of all pairs but the last, then the last pair encoded. */
  lemma EncodeFieldsInit(pairs: seq<(string, string)>)
    requires ValidPairs(pairs) && pairs != []
    ensures var n := |pairs| - 1;
      EncodeFields(pairs) == EncodeFields(pairs[..n]) + [pairs[n].0 + "=" + pairs[n].1]
      && ValidPairs(pairs[..n]) && '=' !in pairs[n].0 && pairs[n].1 != []
  {
    var n := |pairs| - 1;
    assert EncodeFields(pairs) == EncodeFields(pairs[..n]) + [pairs[n].0 + "=" + pairs[n].1];
    assert ValidName(pairs[n].0) && ValidValue(pairs[n].1);
  }

  lemma FieldPairsSnoc(fields: seq<string>, f: string)
    ensures FieldPairs(fields + [f]) == FieldPairs(fields) + ParseField(f)
  {
    assert (fields + [f])[..|fields|] == fields;
  }

  lemma EncodedFieldsSeparable(pairs: seq<(string, string)>)
    requires ValidPairs(pairs)
    ensures forall i :: 0 <= i < |pairs| ==> '&' !in EncodeFields(pairs)[i]
  {
    forall i | 0 <= i < |pairs| ensures '&' !in EncodeFields(pairs)[i] {
      assert ValidName(pairs[i].0) && ValidValue(pairs[i].1);
    }
  }

  lemma {:induction false} PairsValid(m: Multimap)
    requires WellFormed(m)
    ensures ValidPairs(Pairs(m))
    decreases |m|
  {
    if m != [] {
      var n := |m| - 1;
      assert WellFormed(m[..n]);
      PairsValid(m[..n]);
      assert ValidName(m[n].0) && forall k :: 0 <= k < |m[n].1| ==> ValidValue(m[n].1[k]);
    }
  }

  /** `parse_qsl(urlencode(m, doseq=True))` lists the pairs of `m` in order. */
  lemma ParseQslUrlEncode(m: Multimap)
    requires WellFormed(m)
    ensures ParseQsl(UrlEncode(m)) == Pairs(m)
  {
    var ps := Pairs(m);
    PairsValid(m);
    if ps == [] {
      assert SplitOn("", "&") == [""] by { FindChar("", '&'); }
      assert FieldPairs([""]) == FieldPairs([]) + ParseField("");
    } else {
      EncodedFieldsSeparable(ps);
      SplitOnJoin(EncodeFields(ps), '&');
      FieldPairsEncoded(ps);
    }
  }

  lemma AddPairNew(m: Multimap, name: string, value: string)
    requires !HasName(m, name)
    ensures AddPair(m, name, value) == m + [(name, [value])]
  {
    if m != [] {
      assert m[0].0 != name;
      AddPairNew(m[1..], name, value);
    }
  }

  lemma AddPairLast(m: Multimap, name: string, values: seq<string>, value: string)
    requires !HasName(m, name)
    ensures AddPair(m + [(name, values)], name, value) == m + [(name, values + [value])]
  {
    if m != [] {
      assert m[0].0 != name;
      assert (m + [(name, values)])[1..] == m[1..] + [(name, values)];
      AddPairLast(m[1..], name, values, value);
    }
  }

  lemma {:induction false} GroupEntry(pairs: seq<(string, string)>, name: string, values: seq<string>)
    requires !HasName(Group(pairs), name) && values != []
    ensures Group(pairs + EntryPairs(name, values)) == Group(pairs) + [(name, values)]
    decreases |values|
  {
    var n := |values| - 1;
    var e := pairs + EntryPairs(name, values);
    assert e[..|e| - 1] == pairs + EntryPairs(name, values[..n]);
    assert e[|e| - 1] == (name, values[n]);
    if n == 0 {
      assert pairs + EntryPairs(name, values[..n]) == pairs;
      AddPairNew(Group(pairs), name, values[n]);
      assert [values[n]] == values;
    } else {
      GroupEntry(pairs, name, values[..n]);
      AddPairLast(Group(pairs), name, values[..n], values[n]);
      assert values[..n] + [values[n]] == values;
    }
  }

  lemma {:induction false} GroupPairs(m: Multimap)
    requires WellFormed(m)
    ensures Group(Pairs(m)) == m
    decreases |m|
  {
    if m != [] {
      var n := |m| - 1;
      assert WellFormed(m[..n]);
      GroupPairs(m[..n]);
      assert !HasName(m[..n], m[n].0);
      GroupEntry(Pairs(m[..n]), m[n].0, m[n].1);
      InitLast(m);
    }
  }

  /** `parse_qs(urlencode(m, doseq=True)) == m` for every multimap `parse_qs` can produce. */
  lemma ParseQsUrlEncode(m: Multimap)
    requires WellFormed(m)
    ensures ParseQs(UrlEncode(m)) == m
  {
    ParseQslUrlEncode(m);
    GroupPairs(m);
  }

  // ---------------------------------------------------------------------------
  // `parse_qs` produces well-formed multimaps, and `del` keeps them well-formed

  lemma ParseFieldValid(field: string)
    requires '&' !in field
    ensures ValidPairs(ParseField(field))
  {
    var i := IndexOf(field, '=');
    if i + 1 < |field| {
      DropAbsent(field, '&', field[..i]);
      DropAbsent(field, '&', field[i + 1..]);
      assert '=' !in field[..i];
    }
  }

  lemma ValidPairsAppend(a: seq<(string, string)>, b: seq<(string, string)>)
    requires ValidPairs(a) && ValidPairs(b)
    ensures ValidPairs(a + b)
  {
    forall i | 0 <= i < |a + b| ensures ValidName((a + b)[i].0) && ValidValue((a + b)[i].1) {
      if i >= |a| { assert (a + b)[i] == b[i - |a|]; }
    }
  }

  lemma {:induction false} FieldPairsValid(fields: seq<string>)
    requires forall k :: 0 <= k < |fields| ==> '&' !in fields[k]
    ensures ValidPairs(FieldPairs(fields))
    decreases |fields|
  {
    if fields != [] {
      var n := |fields| - 1;
      FieldPairsValid(fields[..n]);
      ParseFieldValid(fields[n]);
      ValidPairsAppend(FieldPairs(fields[..n]), ParseField(fields[n]));
    }
  }

  lemma ParseQslValid(qs: string)
    ensures ValidPairs(ParseQsl(qs))
  {
    var fields := SplitOn(qs, "&");
    SplitOnPieces(qs, '&');
    assert forall k :: 0 <= k < |fields| ==> fields[k] in fields;
    FieldPairsValid(fields);
  }

  lemma HasNameCons(e: (string, seq<string>), rest: Multimap, k: string)
    ensures HasName([e] + rest, k) <==> e.0 == k || HasName(rest, k)
  {
    var s := [e] + rest;
    if HasName(s, k) {
      var i :| 0 <= i < |s| && s[i].0 == k;
      if i > 0 {
        assert s[i] == rest[i - 1];
      }
    }
    if HasName(rest, k) {
      var i :| 0 <= i < |rest| && rest[i].0 == k;
      assert s[i + 1] == rest[i];
    }
    if e.0 == k {
      assert s[0] == e;
    }
  }

  lemma {:induction false} AddPairNames(m: Multimap, name: string, value: string)
    ensures forall k :: HasName(AddPair(m, name, value), k) <==> HasName(m, k) || k == name
    decreases |m|
  {
    var r := AddPair(m, name, value);
    if m == [] {
      assert r == [(name, [value])] + [];
      forall k ensures HasName(r, k) <==> k == name {
        HasNameCons((name, [value]), [], k);
      }
    } else {
      assert m == [m[0]] + m[1..];
      forall k ensures HasName(m, k) <==> m[0].0 == k || HasName(m[1..], k) {
        HasNameCons(m[0], m[1..], k);
      }
      if m[0].0 == name {
        forall k ensures HasName(r, k) <==> name == k || HasName(m[1..], k) {
          HasNameCons((name, m[0].1 + [value]), m[1..], k);
        }
      } else {
        var rt := AddPair(m[1..], name, value);
        AddPairNames(m[1..], name, value);
        forall k ensures HasName(r, k) <==> m[0].0 == k || HasName(rt, k) {
          HasNameCons(m[0], rt, k);
        }
      }
    }
  }

  lemma {:induction false} AddPairWellFormed(m: Multimap, name: string, value: string)
    requires WellFormed(m) && ValidName(name) && ValidValue(value)
    ensures WellFormed(AddPair(m, name, value))
    decreases |m|
  {
    var r := AddPair(m, name, value);
    if m == [] {
    } else {
      WellFormedTail(m);
      var tail := m[1..];
      if m[0].0 == name {
        var e := (name, m[0].1 + [value]);
        forall k | 0 <= k < |e.1| ensures ValidValue(e.1[k]) {
          if k < |m[0].1| {
            assert e.1[k] == m[0].1[k];
          }
        }
        WellFormedCons(e, tail);
      } else {
        AddPairWellFormed(tail, name, value);
        AddPairNames(tail, name, value);
        var rt := AddPair(tail, name, value);
        assert !HasName(rt, m[0].0);
        forall j | 0 <= j < |rt| ensures rt[j].0 != m[0].0 {
          assert !(rt[j].0 == m[0].0);
        }
        WellFormedCons(m[0], rt);
      }
    }
  }

  lemma {:induction false} GroupWellFormed(pairs: seq<(string, string)>)
    requires ValidPairs(pairs)
    ensures WellFormed(Group(pairs))
    decreases |pairs|
  {
    if pairs != [] {
      var n := |pairs| - 1;
      GroupWellFormed(pairs[..n]);
      AddPairWellFormed(Group(pairs[..n]), pairs[n].0, pairs[n].1);
    }
  }

  /** Every multimap `parse_qs` returns is well-formed. */
  lemma ParseQsWellFormed(qs: string)
    ensures WellFormed(ParseQs(qs))
  {
    ParseQslValid(qs);
    GroupWellFormed(ParseQsl(qs));
  }

  lemma {:induction false} RemoveNameWellFormed(m: Multimap, name: string)
    requires WellFormed(m)
    ensures WellFormed(RemoveName(m, name))
    decreases |m|
  {
    if m != [] {
      WellFormedTail(m);
      RemoveNameWellFormed(m[1..], name);
      var rest := RemoveName(m[1..], name);
      if m[0].0 != name {
        forall j | 0 <= j < |rest| ensures rest[j].0 != m[0].0 {
          assert rest[j] in m[1..];
        }
        WellFormedCons(m[0], rest);
      }
    }
  }

  /** A well-formed multimap without its first entry, and that entry on its own. */
  lemma WellFormedTail(m: Multimap)
    requires WellFormed(m) && m != []
    ensures WellFormed(m[1..])
    ensures ValidName(m[0].0) && m[0].1 != [] && forall k :: 0 <= k < |m[0].1| ==> ValidValue(m[0].1[k])
    ensures forall j :: 0 <= j < |m| - 1 ==> m[1..][j].0 != m[0].0
  {
    var t := m[1..];
    forall i, j | 0 <= i < j < |t| ensures t[i].0 != t[j].0 {
      assert t[i] == m[i + 1] && t[j] == m[j + 1];
    }
    forall j | 0 <= j < |t| ensures t[j].0 != m[0].0 {
      assert t[j] == m[j + 1];
    }
  }

  lemma WellFormedCons(e: (string, seq<string>), rest: Multimap)
    requires WellFormed(rest)
    requires ValidName(e.0) && e.1 != [] && forall k :: 0 <= k < |e.1| ==> ValidValue(e.1[k])
    requires forall j :: 0 <= j < |rest| ==> rest[j].0 != e.0
    ensures WellFormed([e] + rest)
  {
    var m := [e] + rest;
    forall i, j | 0 <= i < j < |m| ensures m[i].0 != m[j].0 {
      assert m[j] == rest[j - 1];
      if i > 0 {
        assert m[i] == rest[i - 1];
      }
    }
    forall i | 0 <= i < |m|
      ensures ValidName(m[i].0) && m[i].1 != [] && forall k :: 0 <= k < |m[i].1| ==> ValidValue(m[i].1[k])
    {
      if i > 0 {
        assert m[i] == rest[i - 1];
      }
    }
  }

  /** `del` of a name that is absent changes nothing. */
  lemma {:induction false} RemoveNameAbsent(m: Multimap, name: string)
    requires !HasName(m, name)
    ensures RemoveName(m, name) == m
    decreases |m|
  {
    if m != [] {
      assert m[0].0 != name;
      RemoveNameAbsent(m[1..], name);
    }
  }

  // ---------------------------------------------------------------------------
  // A character absent from the URL is absent from every component

  lemma SchemeAbsent(s: string, c: char)
    requires c !in s && !IsAsciiLetter(c)
    ensures c !in SplitFront(s).0
  {
    SanitizeAbsent(s, c);
    var sn := Sanitize(s);
    var i := IndexOf(sn, ':');
    if i < |sn| {
      DropAbsent(sn, c, sn[..i]);
      LowerKeeps(sn[..i], c);
    }
  }

  lemma SplitNetlocAbsent(a: string, c: char)
    requires c !in a
    ensures c !in SplitNetloc(a).0
  {
    if "//" <= a {
      var end := 2 + IndexOfAny(a[2..], {'/', '?', '#'});
      assert forall k :: 0 <= k < end - 2 ==> a[2..end][k] == a[k + 2];
    }
  }

  lemma NetlocAbsent(s: string, c: char)
    requires c !in s
    ensures c !in SplitFront(s).1
  {
    SanitizeAbsent(s, c);
    var a := SplitScheme(Sanitize(s)).1;
    DropAbsent(Sanitize(s), c, a);
    SplitNetlocAbsent(a, c);
  }

  lemma TailAbsent(b: string, c: char)
    requires c !in b
    ensures c !in SplitTail(b).0 && c !in SplitTail(b).1 && c !in SplitTail(b).2
  {
    var (f, frag) := SplitAt(b, '#');
    var i := IndexOf(b, '#');
    if i < |b| { DropAbsent(b, c, b[..i]); DropAbsent(b, c, b[i + 1..]); }
    var j := IndexOf(f, '?');
    if j < |f| { DropAbsent(f, c, f[..j]); DropAbsent(f, c, f[j + 1..]); }
  }

  lemma ParamsAbsent(path: string, c: char)
    requires c !in path
    ensures c !in SplitParams(path).0 && c !in SplitParams(path).1
  {
    var slash := LastIndexOf(path, '/');
    var start := if slash < 0 then 0 else slash;
    var j := start + IndexOf(path[start..], ';');
    if j < |path| {
      DropAbsent(path, c, path[..j]);
      DropAbsent(path, c, path[j + 1..]);
    }
  }

  lemma UrlSplitAbsent(s: string, c: char)
    requires c !in s && !IsAsciiLetter(c)
    ensures UrlSplit(s).Some? ==> var p := UrlSplit(s).value;
      c !in p.scheme && c !in p.netloc && c !in p.path && c !in p.query && c !in p.fragment
  {
    SchemeAbsent(s, c);
    NetlocAbsent(s, c);
    SplitFrontAbsent(s, c);
    TailAbsent(SplitFront(s).2, c);
  }

  /** A character other than a letter that does not occur in the URL occurs in none of its components. */
  lemma UrlParseAbsent(s: string, c: char)
    requires c !in s && !IsAsciiLetter(c)
    ensures UrlParse(s).Some? ==> var p := UrlParse(s).value;
      c !in p.scheme && c !in p.netloc && c !in p.path && c !in p.params && c !in p.query && c !in p.fragment
  {
    UrlSplitAbsent(s, c);
    if UrlSplit(s).Some? {
      ParamsAbsent(UrlSplit(s).value.path, c);
    }
  }

  /** A URL without square brackets and without a character `_checknetloc` refuses always parses. */
  lemma UrlParseNoBrackets(s: string)
    requires '[' !in s && ']' !in s && NfkcSafe(s)
    ensures UrlParse(s).Some?
  {
    NetlocAbsent(s, '[');
    NetlocAbsent(s, ']');
    var netloc := SplitFront(s).1;
    forall i | 0 <= i < |netloc| ensures !IsNfkcDelimiter(netloc[i]) {
      if IsNfkcDelimiter(netloc[i]) {
        NetlocAbsent(s, netloc[i]);
      }
    }
  }
}
