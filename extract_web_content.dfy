/**
 * The page-text extractor: the line clean-up of a page's text, the result of one page fetch,
 * and the per-row step that writes `<safe id>_<row>.txt` unless that file already exists.
 * The fetch and HTML parsing are a parameter; the output directory is a map from file name to text.
 */
module WebContent {
  import opened Wrappers
  import opened Strings
  import opened ArtifactNames

  // ---------------------------------------------------------------------------
  // The clean-up of extract_content

  /** The first line-boundary position of `s`, or `|s|`. */
  function LineEnd(s: string): (k: nat)
    ensures k <= |s| && (k < |s| ==> IsLineBreak(s[k]))
    ensures forall i :: 0 <= i < k ==> !IsLineBreak(s[i])
  {
    if s == [] || IsLineBreak(s[0]) then 0 else 1 + LineEnd(s[1..])
  }

  predicate NoLineBreak(s: string)
  {
    forall i :: 0 <= i < |s| ==> !IsLineBreak(s[i])
  }

  /** `str.splitlines()`: "\r\n" is one boundary, and a final boundary starts no empty line. */
  function SplitLines(s: string): (lines: seq<string>)
    ensures forall k :: 0 <= k < |lines| ==> NoLineBreak(lines[k])
    decreases |s|
  {
    if s == [] then []
    else
      var k := LineEnd(s);
      if k == |s| then [s]
      else
        var next := if s[k] == '\r' && k + 1 < |s| && s[k + 1] == '\n' then k + 2 else k + 1;
        [s[..k]] + SplitLines(s[next..])
  }

  /** `phrase.strip() for phrase in line.strip().split("  ")`. */
  function LinePhrases(line: string): (ps: seq<string>)
    ensures |ps| == |SplitOn(Strip(line), "  ")|
    ensures forall k :: 0 <= k < |ps| ==> ps[k] == Strip(SplitOn(Strip(line), "  ")[k])
  {
    var parts := SplitOn(Strip(line), "  ");
    seq(|parts|, k requires 0 <= k < |parts| => Strip(parts[k]))
  }

  /** The phrases of every line, line after line. */
  function Chunks(lines: seq<string>): seq<string>
  {
    if lines == [] then [] else Chunks(lines[..|lines| - 1]) + LinePhrases(lines[|lines| - 1])
  }

  /** `chunk for chunk in chunks if chunk`. */
  function NonEmpty(chunks: seq<string>): (r: seq<string>)
    ensures forall k :: 0 <= k < |r| ==> r[k] != []
    ensures forall c :: c in r <==> c in chunks && c != []
  {
    if chunks == [] then []
    else
      var c := chunks[|chunks| - 1];
      NonEmpty(chunks[..|chunks| - 1]) + (if c != [] then [c] else [])
  }

  /** The lines the clean-up keeps: the non-empty phrases. */
  function CleanChunks(text: string): seq<string>
  {
    NonEmpty(Chunks(SplitLines(text)))
  }

  /** The clean-up of lines 47-49: the kept phrases, one per line. */
  function CleanLines(text: string): string
  {
    Join(CleanChunks(text), "\n")
  }

  /** The characters of a piece of `split` occur in the split string. */
  lemma {:induction false} SplitOnChars(s: string, sep: string, p: string, x: char)
    requires sep != [] && p in SplitOn(s, sep) && x in p
    ensures x in s
    decreases |s|
  {
    var i := Find(s, sep);
    if i >= 0 {
      var rest := s[i + |sep|..];
      if p != s[..i] {
        SplitOnChars(rest, sep, p, x);
      }
    }
  }

  /** The characters of a stripped string occur in the string. */
  lemma StripChars(s: string, x: char)
    requires x in Strip(s)
    ensures x in s
  {
    LStripSuffix(s);
  }

  /** Stripping twice is stripping once. */
  lemma StripStripped(s: string)
    ensures Strip(Strip(s)) == Strip(s)
  {
    var l := LStrip(s);
    var r := RStrip(l);
    if r != [] {
      assert r[0] == l[0];
    }
    StripNoop(r);
  }

  /** Every phrase is stripped and lies within one line. */
  lemma {:induction false} ChunksShape(lines: seq<string>)
    requires forall k :: 0 <= k < |lines| ==> NoLineBreak(lines[k])
    ensures forall c :: c in Chunks(lines) ==> Strip(c) == c && NoLineBreak(c)
  {
    if lines != [] {
      var init, line := lines[..|lines| - 1], lines[|lines| - 1];
      ChunksShape(init);
      forall c | c in LinePhrases(line) ensures Strip(c) == c && NoLineBreak(c) {
        var parts := SplitOn(Strip(line), "  ");
        var k :| 0 <= k < |LinePhrases(line)| && LinePhrases(line)[k] == c;
        var p := parts[k];
        StripStripped(p);
        forall i | 0 <= i < |c| ensures !IsLineBreak(c[i]) {
          StripChars(p, c[i]);
          SplitOnChars(Strip(line), "  ", p, c[i]);
          StripChars(line, c[i]);
        }
      }
    }
  }

  /**
   * The cleaned text is empty when no phrase is kept; otherwise its lines are exactly the kept
   * phrases, and each of them is non-empty and has no leading or trailing white space.
   */
  lemma CleanLinesLines(text: string)
    ensures CleanChunks(text) == [] ==> CleanLines(text) == ""
    ensures CleanChunks(text) != [] ==> SplitOn(CleanLines(text), "\n") == CleanChunks(text)
    ensures forall line :: line in CleanChunks(text) ==> line != "" && Strip(line) == line && NoLineBreak(line)
  {
    var chunks := CleanChunks(text);
    ChunksShape(SplitLines(text));
    forall k | 0 <= k < |chunks| ensures '\n' !in chunks[k] {
      assert chunks[k] in Chunks(SplitLines(text));
      assert forall i :: 0 <= i < |chunks[k]| ==> chunks[k][i] != '\n';
    }
    if chunks != [] {
      SplitOnJoin(chunks, '\n');
    }
  }

  // ---------------------------------------------------------------------------
  // extract_content

  /** What `soup.title` gives: no title tag, a tag with its string, or a tag whose `.string` is None. */
  datatype Title = NoTitleTag | TitleString(s: string) | NoTitleString

  /** What the fetch and the parse of one URL give; `text` is `soup.get_text(separator=' ')`. */
  datatype Fetch = Fetched(title: Title, text: string) | TimedOut | RequestFailed(message: string) | Failed(message: string)

  /** The dict `extract_content` returns. */
  datatype Extracted = Success(title: string, text: string) | Error(message: string)

  /** The message of the AttributeError `None.strip()` raises. */
  const NoneStrip := "'NoneType' object has no attribute 'strip'"

  /** The title used when the page has no `<title>` tag. */
  const NoTitle := "No Title"

  lemma NoTitleStripped()
    ensures Strip(NoTitle) == NoTitle
  {
    StripNoop(NoTitle);
  }

  /** `extract_content`: the stripped title and the cleaned text, or the error message. */
  function ExtractContent(f: Fetch): (r: Extracted)
    ensures f.TimedOut? ==> r == Error("Timeout")
    ensures f.RequestFailed? ==> r == Error(f.message)
    ensures r.Success? ==> f.Fetched? && !f.title.NoTitleString? && r.text == CleanLines(f.text)
    ensures f.Fetched? && f.title.NoTitleTag? ==> r == Success(NoTitle, CleanLines(f.text))
  {
    match f
    case TimedOut => Error("Timeout")
    case RequestFailed(message) => Error(message)
    case Failed(message) => Error("Processing error: " + message)
    case Fetched(title, text) =>
      match title
      case NoTitleTag => NoTitleStripped(); Success(Strip(NoTitle), CleanLines(text))
      case TitleString(s) => Success(Strip(s), CleanLines(text))
      case NoTitleString => Error("Processing error: " + NoneStrip)
  }

  // ---------------------------------------------------------------------------
  // process_single_url

  /** The output directory: file names and their texts. */
  type Dir = map<string, string>

  /** A row of `csv.DictReader`. */
  type CsvRow = map<string, string>

  /** `f"{safe_id}_{i}.txt"` with the safe characters of the conversation id (no truncation). */
  function FileName(conversationId: string, i: nat): string
  {
    SafeChars(conversationId) + "_" + NatToString(i) + ".txt"
  }

  function Dashes(): (r: string)
    ensures |r| == 50 && forall k :: 0 <= k < 50 ==> r[k] == '-'
  {
    seq(50, _ => '-')
  }

  /** The file written for a page: the URL, the title and a rule of 50 dashes, each on its own line, then the text. */
  function FileText(url: string, title: string, text: string): string
  {
    ("URL: " + url) + "\n" + (("TITLE: " + title) + "\n" + (Dashes() + "\n" + text))
  }

  /** One work item: None when the row has no `url` or no `conversation_id` (KeyError), else the new directory. */
  function Step(dir: Dir, i: nat, row: CsvRow, fetch: string -> Fetch): Option<Dir>
  {
    if "url" !in row || "conversation_id" !in row then None
    else
      var name := FileName(row["conversation_id"], i);
      if name in dir then Some(dir)
      else
        match ExtractContent(fetch(row["url"]))
        case Error(_) => Some(dir)
        case Success(title, text) => Some(dir[name := FileText(row["url"], title, text)])
  }

  /** The work item as the worker performs it: the safe id, the existence check, the fetch, the write. */
  method ProcessSingleUrl(i: nat, row: CsvRow, dir: Dir, fetch: string -> Fetch) returns (r: Option<Dir>)
    ensures r == Step(dir, i, row, fetch)
  {
    if "url" !in row || "conversation_id" !in row {
      return None;
    }
    var url := row["url"];
    var safeId := SafeChars(row["conversation_id"]);
    var outputFilename := safeId + "_" + NatToString(i) + ".txt";
    if outputFilename in dir {
      return Some(dir);
    }
    var result := ExtractContent(fetch(url));
    if result.Success? {
      return Some(dir[outputFilename := FileText(url, result.title, result.text)]);
    }
    return Some(dir);
  }

  /** An existing file is neither fetched again nor rewritten. */
  lemma ExistingSkipped(dir: Dir, i: nat, row: CsvRow, f1: string -> Fetch, f2: string -> Fetch)
    requires "url" in row && "conversation_id" in row && FileName(row["conversation_id"], i) in dir
    ensures Step(dir, i, row, f1) == Step(dir, i, row, f2) == Some(dir)
  {
  }

  /** A failed page writes nothing; a page fetched writes exactly its own file. */
  lemma StepWrites(dir: Dir, i: nat, row: CsvRow, fetch: string -> Fetch)
    requires Step(dir, i, row, fetch).Some?
    ensures var d := Step(dir, i, row, fetch).value;
      var name := FileName(row["conversation_id"], i);
      var result := ExtractContent(fetch(row["url"]));
      (name in dir || result.Error? ==> d == dir)
      && (name !in dir && result.Success? ==> d == dir[name := FileText(row["url"], result.title, result.text)])
  {
  }

  lemma NoNewlineAfter(head: string, s: string)
    requires '\n' !in head && '\n' !in s
    ensures '\n' !in head + s
  {
  }

  /** A written file starts with the URL line, the title line and the rule, then holds the text's lines. */
  lemma FileTextLines(url: string, title: string, text: string)
    requires '\n' !in url && '\n' !in title
    ensures SplitOn(FileText(url, title, text), "\n") == ["URL: " + url, "TITLE: " + title, Dashes()] + SplitOn(text, "\n")
  {
    var u, t, d := "URL: " + url, "TITLE: " + title, Dashes();
    NoNewlineAfter("URL: ", url);
    NoNewlineAfter("TITLE: ", title);
    assert '\n' !in d;
    SplitOnAppend(u, '\n', t + ['\n'] + (d + ['\n'] + text));
    SplitOnAppend(t, '\n', d + ['\n'] + text);
    SplitOnAppend(d, '\n', text);
    ThreeHeads(u, t, d, SplitOn(text, "\n"));
  }

  lemma ThreeHeads(a: string, b: string, c: string, r: seq<string>)
    ensures [a] + ([b] + ([c] + r)) == [a, b, c] + r
  {
  }

  // ---------------------------------------------------------------------------
  // Distinct rows, distinct files

  lemma NatToStringShort(n: nat)
    ensures |NatToString(n)| == 1 <==> n < 10
  {
    if n >= 10 {
      assert NatToString(n / 10) != [];
    }
  }

  lemma DigitCharInjective(a: nat, b: nat)
    requires a < 10 && b < 10 && DigitChar(a) == DigitChar(b)
    ensures a == b
  {
  }

  /** `str(n)` is injective. */
  lemma {:induction false} NatToStringInjective(n: nat, m: nat)
    requires NatToString(n) == NatToString(m)
    ensures n == m
  {
    NatToStringShort(n);
    NatToStringShort(m);
    if n < 10 {
      DigitCharInjective(n, m);
    } else {
      var s := NatToString(n);
      assert s == NatToString(n / 10) + [DigitChar(n % 10)];
      assert s == NatToString(m / 10) + [DigitChar(m % 10)];
      assert s[|s| - 1] == DigitChar(n % 10) == DigitChar(m % 10);
      DigitCharInjective(n % 10, m % 10);
      assert s[..|s| - 1] == NatToString(n / 10) == NatToString(m / 10);
      NatToStringInjective(n / 10, m / 10);
    }
  }

  /** In `p + "_" + d` with no `_` in `d`, the last `_` is the separator. */
  lemma LastSeparator(p: string, d: string)
    requires '_' !in d
    ensures LastIndexOf(p + "_" + d, '_') == |p|
  {
    AfterSeparator(p, d);
    LastIndexOfAt(p + "_" + d, '_', |p|);
  }

  lemma AfterSeparator(p: string, d: string)
    requires '_' !in d
    ensures var x := p + "_" + d;
      |p| < |x| && x[|p|] == '_' && forall j :: |p| < j < |x| ==> x[j] != '_'
  {
    var x := p + "_" + d;
    forall j | |p| < j < |x| ensures x[j] != '_' {
      assert x[j] == d[j - |p| - 1];
    }
  }

  /** The digits of `str(n)` hold no `_`. */
  lemma NoSeparatorInDigits(n: nat)
    ensures '_' !in NatToString(n)
  {
    var d := NatToString(n);
    assert forall k :: 0 <= k < |d| ==> d[k] != '_';
  }

  /** Different rows never share a file name, whatever their conversation ids. */
  lemma FileNamesDistinct(c1: string, i: nat, c2: string, j: nat)
    requires FileName(c1, i) == FileName(c2, j)
    ensures i == j
  {
    var p1, d1 := SafeChars(c1), NatToString(i);
    var p2, d2 := SafeChars(c2), NatToString(j);
    var x1, x2 := p1 + "_" + d1, p2 + "_" + d2;
    var name := FileName(c1, i);
    assert name == x1 + ".txt" && name == x2 + ".txt";
    assert x1 == name[..|name| - 4] == x2;
    NoSeparatorInDigits(i);
    NoSeparatorInDigits(j);
    LastSeparator(p1, d1);
    LastSeparator(p2, d2);
    assert d1 == x1[|p1| + 1..] == x2[|p2| + 1..] == d2;
    NatToStringInjective(i, j);
  }

  // ---------------------------------------------------------------------------
  // process_csv

  /** Whether a row makes its worker raise KeyError. */
  predicate MissingKey(row: CsvRow)
  {
    "url" !in row || "conversation_id" !in row
  }

  /** The directory after the work items of `rows`, in row order; a raising worker changes nothing. */
  function Run(rows: seq<CsvRow>, dir: Dir, fetch: string -> Fetch): Dir
  {
    if rows == [] then dir
    else
      var d := Run(rows[..|rows| - 1], dir, fetch);
      Step(d, |rows| - 1, rows[|rows| - 1], fetch).GetOr(d)
  }

  lemma RunSnoc(rows: seq<CsvRow>, k: nat, dir: Dir, fetch: string -> Fetch)
    requires k < |rows|
    ensures Run(rows[..k + 1], dir, fetch) == Step(Run(rows[..k], dir, fetch), k, rows[k], fetch).GetOr(Run(rows[..k], dir, fetch))
  {
    assert rows[..k + 1][..k] == rows[..k];
  }

  /**
   * `process_csv` run one work item after the other: the final directory, and whether a worker
   * raised. `list(executor.map(...))` re-raises the first error in row order; the items after it
   * that have not started by then are cancelled, so the directory the program leaves holds at
   * least the files of the items before the raising one (`RunPrefixKept`) and at most those of
   * every item, the schedule this method follows.
   */
  method ProcessCsv(rows: seq<CsvRow>, dir: Dir, fetch: string -> Fetch) returns (out: Dir, raised: bool)
    ensures out == Run(rows, dir, fetch)
    ensures raised <==> exists k :: 0 <= k < |rows| && MissingKey(rows[k])
  {
    out, raised := dir, false;
    for i := 0 to |rows|
      invariant out == Run(rows[..i], dir, fetch)
      invariant raised <==> AnyMissing(rows, i)
    {
      RunSnoc(rows, i, dir, fetch);
      AnyMissingSnoc(rows, i);
      StepRaises(out, i, rows[i], fetch);
      var r := ProcessSingleUrl(i, rows[i], out, fetch);
      match r {
        case None => raised := true;
        case Some(d) => out := d;
      }
    }
    assert rows[..|rows|] == rows;
  }

  /** The files written by the items before item `k` stay, unchanged, whatever the later items do. */
  lemma {:induction false} RunPrefixKept(rows: seq<CsvRow>, k: nat, dir: Dir, fetch: string -> Fetch)
    requires k <= |rows|
    ensures var before, after := Run(rows[..k], dir, fetch), Run(rows, dir, fetch);
      forall n :: n in before ==> n in after && after[n] == before[n]
  {
    if k < |rows| {
      var init := rows[..|rows| - 1];
      assert init[..k] == rows[..k];
      RunPrefixKept(init, k, dir, fetch);
      StepKeeps(Run(init, dir, fetch), |rows| - 1, rows[|rows| - 1], fetch);
    } else {
      assert rows[..k] == rows;
    }
  }

  /** Some row among the first `i` lacks a key. */
  predicate AnyMissing(rows: seq<CsvRow>, i: nat)
    requires i <= |rows|
  {
    exists k :: 0 <= k < i && MissingKey(rows[k])
  }

  lemma AnyMissingSnoc(rows: seq<CsvRow>, i: nat)
    requires i < |rows|
    ensures AnyMissing(rows, i + 1) <==> AnyMissing(rows, i) || MissingKey(rows[i])
  {
  }

  /** A work item raises exactly when its row lacks a key. */
  lemma StepRaises(dir: Dir, i: nat, row: CsvRow, fetch: string -> Fetch)
    ensures Step(dir, i, row, fetch).None? <==> MissingKey(row)
  {
  }

  /** A work item never removes or rewrites a file already there. */
  lemma StepKeeps(dir: Dir, i: nat, row: CsvRow, fetch: string -> Fetch)
    ensures var d := Step(dir, i, row, fetch).GetOr(dir);
      forall n :: n in dir ==> n in d && d[n] == dir[n]
  {
  }

  /** Resuming: the files present before the run are all there afterwards, unchanged. */
  lemma {:induction false} RunKeeps(rows: seq<CsvRow>, dir: Dir, fetch: string -> Fetch)
    ensures forall n :: n in dir ==> n in Run(rows, dir, fetch) && Run(rows, dir, fetch)[n] == dir[n]
  {
    if rows != [] {
      var init := rows[..|rows| - 1];
      RunKeeps(init, dir, fetch);
      StepKeeps(Run(init, dir, fetch), |rows| - 1, rows[|rows| - 1], fetch);
    }
  }

  /** Whether the work item of row `k` leaves its file in the directory. */
  predicate Lands(rows: seq<CsvRow>, k: nat, fetch: string -> Fetch)
    requires k < |rows|
  {
    !MissingKey(rows[k]) && ExtractContent(fetch(rows[k]["url"])).Success?
  }

  /** After the run, every row whose page was fetched has its file. */
  lemma {:induction false} RunLands(rows: seq<CsvRow>, dir: Dir, fetch: string -> Fetch, k: nat)
    requires k < |rows| && Lands(rows, k, fetch)
    ensures FileName(rows[k]["conversation_id"], k) in Run(rows, dir, fetch)
  {
    var init := rows[..|rows| - 1];
    var d := Run(init, dir, fetch);
    if k == |rows| - 1 {
      StepLands(d, k, rows[k], fetch);
    } else {
      assert init[k] == rows[k];
      RunLands(init, dir, fetch, k);
      StepKeepsName(d, |rows| - 1, rows[|rows| - 1], fetch, FileName(rows[k]["conversation_id"], k));
    }
  }

  /** A row whose page is fetched has its file after its step. */
  lemma StepLands(dir: Dir, i: nat, row: CsvRow, fetch: string -> Fetch)
    requires !MissingKey(row) && ExtractContent(fetch(row["url"])).Success?
    ensures FileName(row["conversation_id"], i) in Step(dir, i, row, fetch).GetOr(dir)
  {
  }

  /** A file present before a step is present after it. */
  lemma StepKeepsName(dir: Dir, i: nat, row: CsvRow, fetch: string -> Fetch, name: string)
    requires name in dir
    ensures name in Step(dir, i, row, fetch).GetOr(dir)
  {
  }

  /** A run over a directory that already has the file of every row that lands changes nothing. */
  lemma {:induction false} RunStable(rows: seq<CsvRow>, dir: Dir, fetch: string -> Fetch)
    requires forall k :: 0 <= k < |rows| && Lands(rows, k, fetch) ==> FileName(rows[k]["conversation_id"], k) in dir
    ensures Run(rows, dir, fetch) == dir
  {
    if rows != [] {
      var init := rows[..|rows| - 1];
      forall k | 0 <= k < |init| && Lands(init, k, fetch) ensures FileName(init[k]["conversation_id"], k) in dir {
        assert init[k] == rows[k];
        assert Lands(rows, k, fetch);
      }
      RunStable(init, dir, fetch);
      assert Lands(init + [rows[|rows| - 1]], |rows| - 1, fetch) == Lands(rows, |rows| - 1, fetch) by {
        assert init + [rows[|rows| - 1]] == rows;
      }
    }
  }

  /** Running again over the output changes nothing: the run is idempotent, as its resume check intends. */
  lemma RunIdempotent(rows: seq<CsvRow>, dir: Dir, fetch: string -> Fetch)
    ensures Run(rows, Run(rows, dir, fetch), fetch) == Run(rows, dir, fetch)
  {
    var out := Run(rows, dir, fetch);
    forall k | 0 <= k < |rows| && Lands(rows, k, fetch) ensures FileName(rows[k]["conversation_id"], k) in out {
      RunLands(rows, dir, fetch, k);
    }
    RunStable(rows, out, fetch);
  }
}
