/**
 * The character classes and `str` operations of Python that the scripts use.
 * Strings are sequences of Unicode scalar values, as Python `str` values are.
 */
module Strings {

  /** `str.isspace()`, which is also the set the `\s` class of `re` matches in a `str` pattern. */
  predicate IsSpace(c: char)
  {
    c == ' ' || '\t' <= c <= '\r' || '\U{1C}' <= c <= '\U{1F}' || c == '\U{85}' || c == '\U{A0}'
    || c == '\U{1680}' || '\U{2000}' <= c <= '\U{200A}' || c == '\U{2028}' || c == '\U{2029}'
    || c == '\U{202F}' || c == '\U{205F}' || c == '\U{3000}'
  }

  /** The line boundaries of `str.splitlines()`. */
  predicate IsLineBreak(c: char)
  {
    '\n' <= c <= '\r' || '\U{1C}' <= c <= '\U{1E}' || c == '\U{85}' || c == '\U{2028}' || c == '\U{2029}'
  }

  predicate IsAsciiLetter(c: char)
  {
    'a' <= c <= 'z' || 'A' <= c <= 'Z'
  }

  predicate IsDigit(c: char)
  {
    '0' <= c <= '9'
  }

  /** `str.isalnum()` on ASCII characters. */
  predicate IsAlnum(c: char)
  {
    IsAsciiLetter(c) || IsDigit(c)
  }

  /** `str.lower()` on one character, ASCII letters only. */
  function LowerChar(c: char): char
  {
    if 'A' <= c <= 'Z' then (c as int + 32) as char else c
  }

  function Lower(s: string): string
  {
    seq(|s|, i requires 0 <= i < |s| => LowerChar(s[i]))
  }

  predicate EndsWith(s: string, suffix: string)
  {
    |suffix| <= |s| && s[|s| - |suffix|..] == suffix
  }

  /** `str.lstrip()`: drops the leading white space. */
  function LStrip(s: string): (r: string)
    ensures |r| <= |s|
    ensures r != [] ==> !IsSpace(r[0])
    ensures forall i :: 0 <= i < |s| - |r| ==> IsSpace(s[i])
  {
    if s != [] && IsSpace(s[0]) then LStrip(s[1..]) else s
  }

  /** What `lstrip()` keeps is a suffix of its argument. */
  lemma {:induction false} LStripSuffix(s: string)
    ensures LStrip(s) == s[|s| - |LStrip(s)|..]
  {
    if s != [] && IsSpace(s[0]) {
      LStripSuffix(s[1..]);
    }
  }

  /** `str.rstrip()`: drops the trailing white space. */
  function RStrip(s: string): (r: string)
    ensures |r| <= |s| && r == s[..|r|]
    ensures r != [] ==> !IsSpace(r[|r| - 1])
    ensures forall i :: |r| <= i < |s| ==> IsSpace(s[i])
  {
    if s != [] && IsSpace(s[|s| - 1]) then RStrip(s[..|s| - 1]) else s
  }

  /** `str.strip()`. */
  function Strip(s: string): string
  {
    RStrip(LStrip(s))
  }

  /** `str.rstrip(c)` for one character `c`: drops every trailing `c`. */
  function RStripChar(s: string, c: char): (r: string)
    ensures |r| <= |s| && r == s[..|r|]
    ensures r != [] ==> r[|r| - 1] != c
    ensures forall i :: |r| <= i < |s| ==> s[i] == c
  {
    if s != [] && s[|s| - 1] == c then RStripChar(s[..|s| - 1], c) else s
  }

  /** The index of the first character of `s` in `cs`, or `|s|` when there is none. */
  function IndexOfAny(s: string, cs: set<char>): (i: nat)
    ensures i <= |s|
    ensures i < |s| ==> s[i] in cs
    ensures forall j :: 0 <= j < i ==> s[j] !in cs
  {
    if s == [] || s[0] in cs then 0 else 1 + IndexOfAny(s[1..], cs)
  }

  /** `str.find(c)` for one character, with `|s|` standing for -1. */
  function IndexOf(s: string, c: char): (i: nat)
    ensures i <= |s|
    ensures i < |s| <==> c in s
    ensures i < |s| ==> s[i] == c
    ensures forall j :: 0 <= j < i ==> s[j] != c
  {
    IndexOfAny(s, {c})
  }

  /** `str.rfind(c)` for one character. */
  function LastIndexOf(s: string, c: char): (i: int)
    ensures -1 <= i < |s|
    ensures 0 <= i ==> s[i] == c
    ensures forall j :: i < j < |s| ==> s[j] != c
  {
    if s == [] then -1 else if s[|s| - 1] == c then |s| - 1 else LastIndexOf(s[..|s| - 1], c)
  }

  /** `s.split(c, 1)` read as a pair: the text before the first `c` and the text after it. */
  function SplitAt(s: string, c: char): (string, string)
  {
    var i := IndexOf(s, c);
    if i < |s| then (s[..i], s[i + 1..]) else (s, "")
  }

  /** `pat` occurs in `s` at index `j`. */
  predicate OccursAt(s: string, pat: string, j: int)
  {
    0 <= j && j + |pat| <= |s| && s[j..j + |pat|] == pat
  }

  /** An occurrence past the first character is an occurrence in the tail, one place earlier. */
  lemma OccursInTail(s: string, pat: string)
    requires s != []
    ensures forall j :: OccursAt(s, pat, j) && j >= 1 ==> OccursAt(s[1..], pat, j - 1)
  {
    forall j | OccursAt(s, pat, j) && j >= 1 ensures OccursAt(s[1..], pat, j - 1) {
      assert s[1..][j - 1..j - 1 + |pat|] == s[j..j + |pat|];
    }
  }

  /** An occurrence in the tail is an occurrence in `s`, one place later. */
  lemma OccursFromTail(s: string, pat: string, k: nat)
    requires s != [] && OccursAt(s[1..], pat, k)
    ensures OccursAt(s, pat, k + 1)
  {
    assert s[1..][k..k + |pat|] == s[k + 1..k + 1 + |pat|];
  }

  /** `str.find(pat)`: the first index at which `pat` occurs, or -1. */
  function Find(s: string, pat: string): (i: int)
    ensures i == -1 || OccursAt(s, pat, i)
    ensures forall j :: (i < 0 || j < i) ==> !OccursAt(s, pat, j)
  {
    if |s| < |pat| then -1
    else if pat <= s then 0
    else
      var k := Find(s[1..], pat);
      OccursInTail(s, pat);
      if k < 0 then -1
      else
        OccursFromTail(s, pat, k);
        k + 1
  }

  /** The `in` operator between two strings. */
  predicate Contains(s: string, pat: string)
  {
    Find(s, pat) >= 0
  }

  /** `s.split(sep)` for a non-empty separator. */
  function SplitOn(s: string, sep: string): (parts: seq<string>)
    requires sep != []
    ensures parts != []
    decreases |s|
  {
    var i := Find(s, sep);
    if i < 0 then [s] else [s[..i]] + SplitOn(s[i + |sep|..], sep)
  }

  /** `sep.join(parts)`. */
  function Join(parts: seq<string>, sep: string): string
  {
    if parts == [] then ""
    else if |parts| == 1 then parts[0]
    else parts[0] + sep + Join(parts[1..], sep)
  }

  /** `s.replace(pat, rep)` for a non-empty pattern. */
  function ReplaceAll(s: string, pat: string, rep: string): string
    requires pat != []
    decreases |s|
  {
    var i := Find(s, pat);
    if i < 0 then s else s[..i] + rep + ReplaceAll(s[i + |pat|..], pat, rep)
  }

  /** `s[:n]` for `n >= 0`. */
  function Take<T>(s: seq<T>, n: nat): (r: seq<T>)
    ensures |r| == if |s| <= n then |s| else n
    ensures r == s[..|r|]
  {
    if |s| <= n then s else s[..n]
  }

  /** A Python slice bound (negative counts from the end) clamped to `[0, len]`. */
  function SliceBound(k: int, len: nat): (r: nat)
    ensures r <= len
  {
    if k < 0 then (if len + k < 0 then 0 else len + k) else if k > len then len else k
  }

  /** `s[a:b]` with Python's rules for negative and out-of-range bounds. */
  function PySlice<T>(s: seq<T>, a: int, b: int): seq<T>
  {
    var i, j := SliceBound(a, |s|), SliceBound(b, |s|);
    if i < j then s[i..j] else []
  }

  function DigitChar(d: nat): char
    requires d < 10
  {
    ('0' as int + d) as char
  }

  /** `str(n)` for a natural number. */
  function NatToString(n: nat): (r: string)
    ensures r != []
    ensures forall i :: 0 <= i < |r| ==> IsDigit(r[i])
  {
    if n < 10 then [DigitChar(n)] else NatToString(n / 10) + [DigitChar(n % 10)]
  }

  // ---------------------------------------------------------------------------
  // Facts about the operations above

  lemma IndexOfAnyAppend(a: string, b: string, cs: set<char>)
    ensures IndexOfAny(a + b, cs) == if IndexOfAny(a, cs) < |a| then IndexOfAny(a, cs) else |a| + IndexOfAny(b, cs)
  {
    if a != [] && a[0] !in cs {
      assert (a + b)[1..] == a[1..] + b;
      IndexOfAnyAppend(a[1..], b, cs);
    } else if a != [] {
      assert (a + b)[0] == a[0];
    } else {
      assert a + b == b;
    }
  }

  lemma SplitAtAppend(a: string, c: char, b: string)
    requires c !in a
    ensures SplitAt(a + [c] + b, c) == (a, b)
  {
    IndexOfAnyAppend(a, [c] + b, {c});
    assert a + [c] + b == a + ([c] + b);
  }

  lemma SplitAtAbsent(a: string, c: char)
    requires c !in a
    ensures SplitAt(a, c) == (a, "")
  {
  }

  /** `str.find` of a one-character pattern agrees with `IndexOf`. */
  lemma FindChar(s: string, c: char)
    ensures Find(s, [c]) == if c in s then IndexOf(s, c) else -1
  {
    var i := IndexOf(s, c);
    if i < |s| {
      assert OccursAt(s, [c], i) by { assert s[i..i + 1] == [s[i]]; }
      var k := Find(s, [c]);
      assert s[k..k + 1][0] == s[k];
    }
  }

  lemma SplitOnAbsent(a: string, c: char)
    requires c !in a
    ensures SplitOn(a, [c]) == [a]
  {
    FindChar(a, c);
  }

  /** A non-empty sequence is its first element followed by the rest. */
  lemma HeadTail<T>(s: seq<T>)
    requires s != []
    ensures s == [s[0]] + s[1..]
  {
  }

  /** A non-empty sequence is its prefix followed by its last element. */
  lemma InitLast<T>(s: seq<T>)
    requires s != []
    ensures s == s[..|s| - 1] + [s[|s| - 1]]
  {
  }

  /** The pieces of `a + b + c + d`, found again by their lengths. */
  lemma FourPieces(a: string, b: string, c: string, d: string)
    ensures var p := a + b + c + d;
      p[|a|..|a| + |b|] == b && p[|a| + |b|..|a| + |b| + |c|] == c && p[|a| + |b| + |c|..] == d
  {
  }

  lemma SeqAssoc<T>(a: seq<T>, b: seq<T>, c: seq<T>)
    ensures a + (b + c) == a + b + c
  {
  }

  lemma SeqAssoc4<T>(a: seq<T>, b: seq<T>, c: seq<T>, d: seq<T>)
    ensures a + b + c + d == a + (b + c + d)
  {
  }

  /** Slices of `a + b` that start within `a`. */
  lemma SliceAppend(a: string, b: string, i: nat, j: nat)
    requires i <= j <= |a|
    ensures (a + b)[i..j] == a[i..j] && (a + b)[i..] == a[i..] + b
  {
  }

  /** The pieces of `a + [c] + b`, position by position. */
  lemma AroundChar(a: string, c: char, b: string)
    ensures var s := a + [c] + b;
      |s| == |a| + 1 + |b| && s[..|a|] == a && s[|a|] == c && s[|a| + 1..] == b
      && forall j :: 0 <= j < |a| ==> s[j] == a[j]
  {
  }

  lemma DropAroundChar(a: string, c: char, b: string, k: nat)
    requires k <= |a|
    ensures (a + [c] + b)[k..] == a[k..] + [c] + b
  {
  }

  /** `LastIndexOf` is the last position holding `c`. */
  lemma LastIndexOfAt(s: string, c: char, k: nat)
    requires k < |s| && s[k] == c
    requires forall j :: k < j < |s| ==> s[j] != c
    ensures LastIndexOf(s, c) == k
  {
  }

  /** `IndexOf` is the first position holding `c`. */
  lemma IndexOfAt(s: string, c: char, k: nat)
    requires k < |s| && s[k] == c
    requires forall j :: 0 <= j < k ==> s[j] != c
    ensures IndexOf(s, c) == k
  {
  }

  lemma SplitOnAppend(a: string, c: char, b: string)
    requires c !in a
    ensures SplitOn(a + [c] + b, [c]) == [a] + SplitOn(b, [c])
  {
    var s := a + [c] + b;
    AroundChar(a, c, b);
    IndexOfAt(s, c, |a|);
    SplitOnWithFirst(s, c);
  }

  lemma SplitOnFirst(a: string, c: char, b: string)
    requires c in a
    ensures SplitOn(a + [c] + b, [c]) == [a[..IndexOf(a, c)]] + SplitOn(a[IndexOf(a, c) + 1..] + [c] + b, [c])
  {
    var i := IndexOf(a, c);
    var s := a + [c] + b;
    FirstOfAround(a, c, b);
    SlicesAround(a, c, b, i);
    SplitOnWithFirst(s, c);
  }

  lemma FirstOfAround(a: string, c: char, b: string)
    requires c in a
    ensures IndexOf(a + [c] + b, c) == IndexOf(a, c)
  {
    AroundChar(a, c, b);
    IndexOfAt(a + [c] + b, c, IndexOf(a, c));
  }

  lemma SlicesAround(a: string, c: char, b: string, i: nat)
    requires i < |a|
    ensures (a + [c] + b)[..i] == a[..i] && (a + [c] + b)[i + 1..] == a[i + 1..] + [c] + b
  {
    DropAroundChar(a, c, b, i + 1);
  }

  lemma SplitOnWithFirst(a: string, c: char)
    requires c in a
    ensures SplitOn(a, [c]) == [a[..IndexOf(a, c)]] + SplitOn(a[IndexOf(a, c) + 1..], [c])
  {
    FindChar(a, c);
  }

  /** Splitting at one separator character distributes over a separator between two texts. */
  lemma {:induction false} SplitOnConcat(a: string, c: char, b: string)
    ensures SplitOn(a + [c] + b, [c]) == SplitOn(a, [c]) + SplitOn(b, [c])
    decreases |a|
  {
    if c in a {
      var i := IndexOf(a, c);
      SplitOnFirst(a, c, b);
      SplitOnWithFirst(a, c);
      SplitOnConcat(a[i + 1..], c, b);
      SeqAssoc([a[..i]], SplitOn(a[i + 1..], [c]), SplitOn(b, [c]));
    } else {
      SplitOnAbsent(a, c);
      SplitOnAppend(a, c, b);
    }
  }

  /** No piece of `s.split(c)` contains `c`. */
  lemma {:induction false} SplitOnPieces(s: string, c: char)
    ensures forall p :: p in SplitOn(s, [c]) ==> c !in p
    decreases |s|
  {
    FindChar(s, c);
    if c in s {
      var i := IndexOf(s, c);
      SplitOnPieces(s[i + 1..], c);
    }
  }

  /** Splitting a joined sequence at its separator gives the pieces back. */
  lemma {:induction false} SplitOnJoin(parts: seq<string>, c: char)
    requires parts != []
    requires forall i :: 0 <= i < |parts| ==> c !in parts[i]
    ensures SplitOn(Join(parts, [c]), [c]) == parts
  {
    if |parts| == 1 {
      SplitOnAbsent(parts[0], c);
    } else {
      forall i | 0 <= i < |parts| - 1 ensures c !in parts[1..][i] {
        assert parts[1..][i] == parts[i + 1];
      }
      SplitOnJoin(parts[1..], c);
      SplitOnJoinCons(parts, c);
    }
  }

  /** The inductive step: the first piece, then the rest split back. */
  lemma SplitOnJoinCons(parts: seq<string>, c: char)
    requires |parts| > 1 && c !in parts[0]
    requires SplitOn(Join(parts[1..], [c]), [c]) == parts[1..]
    ensures SplitOn(Join(parts, [c]), [c]) == parts
  {
    SplitOnAppend(parts[0], c, Join(parts[1..], [c]));
    HeadTail(parts);
  }

  lemma LowerAppend(a: string, b: string)
    ensures Lower(a + b) == Lower(a) + Lower(b)
  {
  }

  lemma LowerKeeps(s: string, c: char)
    requires c !in s && !IsAsciiLetter(c)
    ensures c !in Lower(s)
  {
    forall i | 0 <= i < |s| ensures Lower(s)[i] != c {
      assert s[i] != c;
    }
  }

  lemma DropAbsent(s: string, c: char, t: string)
    requires c !in s
    requires |t| <= |s| && (t == s[|s| - |t|..] || t == s[..|t|])
    ensures c !in t
  {
    forall i | 0 <= i < |t| ensures t[i] != c {
      if t == s[|s| - |t|..] { assert t[i] == s[|s| - |t| + i]; } else { assert t[i] == s[i]; }
    }
  }

  /** `strip()` leaves a string that neither starts nor ends with white space unchanged. */
  lemma StripNoop(s: string)
    requires s == [] || (!IsSpace(s[0]) && !IsSpace(s[|s| - 1]))
    ensures Strip(s) == s
  {
    assert LStrip(s) == s by {
      if s != [] { assert !IsSpace(s[0]); }
    }
  }

  /** Lower-casing twice is lower-casing once. */
  lemma LowerIdempotent(s: string)
    ensures Lower(Lower(s)) == Lower(s)
  {
  }
}
