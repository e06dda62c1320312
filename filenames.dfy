/**
 * The file names the agent writes and the batch dispatcher looks for: a URL reduced to its
 * letters, digits, `-` and `_`, then `_<timestamp>.json`. The dispatcher finds the earlier
 * results of a URL with the glob `<prefix>_*.json`.
 */
module ArtifactNames {
  import opened Strings

  /** The characters a safe file name keeps: `c.isalnum() or c in ('-', '_')`. */
  predicate IsSafeChar(c: char)
  {
    IsAlnum(c) || c == '-' || c == '_'
  }

  predicate AllSafe(s: string)
  {
    forall i :: 0 <= i < |s| ==> IsSafeChar(s[i])
  }

  /** `"".join([c for c in s if c.isalnum() or c in ('-', '_')])`. */
  function SafeChars(s: string): (r: string)
    ensures AllSafe(r)
  {
    if s == [] then ""
    else
      var c := s[|s| - 1];
      SafeChars(s[..|s| - 1]) + (if IsSafeChar(c) then [c] else "")
  }

  /** Each safe character is kept as often as it occurs; every other character is deleted. */
  lemma {:induction false} SafeCharsCounts(s: string, c: char)
    ensures multiset(SafeChars(s))[c] == if IsSafeChar(c) then multiset(s)[c] else 0
  {
    if s != [] {
      var init := s[..|s| - 1];
      SafeCharsCounts(init, c);
      assert s == init + [s[|s| - 1]];
    }
  }

  /** Filtering distributes over concatenation, so it keeps the order of the kept characters. */
  lemma {:induction false} SafeCharsAppend(a: string, b: string)
    ensures SafeChars(a + b) == SafeChars(a) + SafeChars(b)
    decreases |b|
  {
    if b == [] {
      assert a + b == a;
    } else {
      var init := b[..|b| - 1];
      assert a + b == (a + init) + [b[|b| - 1]];
      assert (a + b)[..|a + b| - 1] == a + init;
      SafeCharsAppend(a, init);
    }
  }

  /** A string of safe characters is its own filtering. */
  lemma {:induction false} SafeCharsOfSafe(s: string)
    requires AllSafe(s)
    ensures SafeChars(s) == s
  {
    if s != [] {
      SafeCharsOfSafe(s[..|s| - 1]);
      assert s == s[..|s| - 1] + [s[|s| - 1]];
    }
  }

  /** A safe character is no white space, so `strip()` leaves a filtered string alone. */
  lemma StripSafe(s: string)
    requires AllSafe(s)
    ensures Strip(s) == s
  {
    assert LStrip(s) == s by {
      if s != [] { assert !IsSpace(s[0]); }
    }
    if s != [] { assert !IsSpace(s[|s| - 1]); }
  }

  /** `get_safe_filename_prefix`: the safe characters of the URL, stripped, at most 100 of them. */
  function SafePrefix(url: string): (r: string)
    ensures |r| <= 100 && AllSafe(r)
    ensures r == Take(SafeChars(url), 100)
  {
    StripSafe(SafeChars(url));
    Take(Strip(SafeChars(url)), 100)
  }

  /** `fnmatch` of a directory entry against `<prefix>_*.json`. */
  predicate GlobMatches(name: string, prefix: string)
  {
    var head := prefix + "_";
    |head| + 5 <= |name| && name[..|head|] == head && EndsWith(name, ".json")
  }

  /** The name the agent gives its result: `f"{safe_url}_{timestamp}.json"`. */
  function ArtifactName(prefix: string, timestamp: string): string
  {
    prefix + "_" + timestamp + ".json"
  }

  /** The names the glob finds are exactly the names the agent can write for that prefix. */
  lemma GlobMatchesArtifact(name: string, prefix: string)
    ensures GlobMatches(name, prefix) <==> exists ts :: name == ArtifactName(prefix, ts)
  {
    var head := prefix + "_";
    if GlobMatches(name, prefix) {
      var ts := name[|head|..|name| - 5];
      assert name == name[..|head|] + ts + name[|name| - 5..];
      assert name == ArtifactName(prefix, ts);
    }
    if exists ts :: name == ArtifactName(prefix, ts) {
      var ts :| name == ArtifactName(prefix, ts);
      assert name == head + ts + ".json";
      assert name[..|head|] == head;
      assert name[|name| - 5..] == ".json";
    }
  }

  /** What the agent writes for a URL is found by the dispatcher's glob for the same URL. */
  lemma AgentNameFound(url: string, timestamp: string)
    ensures GlobMatches(ArtifactName(SafePrefix(url), timestamp), SafePrefix(url))
  {
    GlobMatchesArtifact(ArtifactName(SafePrefix(url), timestamp), SafePrefix(url));
  }
}
