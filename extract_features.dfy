/**
 * The single-page feature extraction with a language model: the text clean-up and truncation of
 * the fetched page, the prompt, the fallback parse of the model's reply, and the failure records.
 * The page fetch, the model, the clock and the JSON parser are parameters.
 */
module ExtractFeatures {
  import opened Wrappers
  import opened Strings
  import opened Json
  import AnalysisCsv

  // ---------------------------------------------------------------------------
  // clean_text

  /** `re.sub(r'\s+', ' ', text)`: every maximal run of white space becomes one space. */
  function Collapse(s: string): (r: string)
    ensures r == [] <==> s == []
    ensures r != [] ==> (IsSpace(r[0]) <==> IsSpace(s[0]))
    decreases |s|
  {
    if s == [] then ""
    else if !IsSpace(s[0]) then [s[0]] + Collapse(s[1..])
    else
      var t := LStrip(s);
      assert t == LStrip(s[1..]);
      " " + Collapse(t)
  }

  /** `clean_text`: the runs collapsed, then stripped. */
  function CleanText(s: string): string
  {
    Strip(Collapse(s))
  }

  /** The first white-space position of `s`, or `|s|`. */
  function SpaceAt(s: string): (k: nat)
    ensures k <= |s| && (k < |s| ==> IsSpace(s[k]))
    ensures forall i :: 0 <= i < k ==> !IsSpace(s[i])
  {
    if s == [] || IsSpace(s[0]) then 0 else 1 + SpaceAt(s[1..])
  }

  predicate NoSpace(w: string)
  {
    forall i :: 0 <= i < |w| ==> !IsSpace(w[i])
  }

  /** `s.split()`: the maximal runs of non-white-space characters, in order. */
  function Words(s: string): (ws: seq<string>)
    ensures forall k :: 0 <= k < |ws| ==> ws[k] != [] && NoSpace(ws[k])
    decreases |s|
  {
    var t := LStrip(s);
    if t == [] then []
    else
      var k := SpaceAt(t);
      [t[..k]] + Words(t[k..])
  }

  /** A sequence of words joined by single spaces. */
  predicate Spaced(r: string)
  {
    (r != [] ==> !IsSpace(r[0]) && !IsSpace(r[|r| - 1]))
    && (forall i :: 0 <= i < |r| && IsSpace(r[i]) ==> r[i] == ' ')
    && (forall i :: 0 <= i < |r| - 1 ==> !(IsSpace(r[i]) && IsSpace(r[i + 1])))
  }

  lemma SplitJoinHead(w: string, ws: seq<string>)
    requires ws != []
    ensures Join([w] + ws, " ") == w + " " + Join(ws, " ")
  {
    assert ([w] + ws)[1..] == ws;
  }

  /** Words joined by single spaces have no leading, trailing or doubled white space. */
  lemma {:induction false} JoinSpaced(ws: seq<string>)
    requires forall k :: 0 <= k < |ws| ==> ws[k] != [] && NoSpace(ws[k])
    ensures Spaced(Join(ws, " "))
  {
    if |ws| > 1 {
      JoinSpaced(ws[1..]);
      SplitJoinHead(ws[0], ws[1..]);
      assert [ws[0]] + ws[1..] == ws;
      var w, rest := ws[0], Join(ws[1..], " ");
      var r := w + " " + rest;
      assert rest != [] by { assert ws[1..][0] != []; JoinStartsWithWord(ws[1..]); }
      forall i | 0 <= i < |r| - 1 ensures !(IsSpace(r[i]) && IsSpace(r[i + 1])) {
        if i < |w| - 1 {
          assert r[i] == w[i];
        } else if i == |w| - 1 {
          assert r[i] == w[i];
        } else if i == |w| {
          assert r[i + 1] == rest[0];
        } else {
          assert r[i] == rest[i - |w| - 1] && r[i + 1] == rest[i - |w|];
        }
      }
      forall i | 0 <= i < |r| ensures IsSpace(r[i]) ==> r[i] == ' ' {
        if i < |w| {
          assert r[i] == w[i];
        } else if i > |w| {
          assert r[i] == rest[i - |w| - 1];
        }
      }
      assert r[0] == w[0];
      assert r[|r| - 1] == rest[|rest| - 1];
    } else if |ws| == 1 {
      assert Join(ws, " ") == ws[0];
    }
  }

  lemma {:induction false} JoinStartsWithWord(ws: seq<string>)
    requires ws != [] && ws[0] != []
    ensures Join(ws, " ") != [] && Join(ws, " ")[0] == ws[0][0]
  {
  }

  /** The space `re.sub` leaves at the end of a string that ends in white space. */
  function Trail(t: string): string
  {
    if t != [] && IsSpace(t[|t| - 1]) then " " else ""
  }

  lemma WordsEmpty()
    ensures Words("") == []
  {
    assert LStrip("") == "";
  }

  /** Without leading white space, the first word runs up to the first white space. */
  lemma WordsHead(t: string)
    requires t != [] && !IsSpace(t[0])
    ensures SpaceAt(t) > 0
    ensures Words(t) == [t[..SpaceAt(t)]] + Words(t[SpaceAt(t)..])
  {
    assert LStrip(t) == t;
  }

  lemma CollapseSpaceHead(x: string)
    requires x != [] && IsSpace(x[0])
    ensures Collapse(x) == " " + Collapse(LStrip(x))
  {
  }

  /** A suffix that is not empty ends like the whole string. */
  lemma TrailSuffix(t: string, u: string)
    requires u != [] && |u| <= |t| && u == t[|t| - |u|..]
    ensures Trail(u) == Trail(t)
  {
    assert u[|u| - 1] == t[|t| - 1];
  }

  /** A string of one word collapses to that word. */
  lemma CollapseSingle(w: string)
    requires w != [] && NoSpace(w)
    ensures Collapse(w) == Join(Words(w), " ") + Trail(w)
  {
    CollapseWord(w, "");
    assert w + "" == w;
    WordsHead(w);
    SpaceAtNoSpace(w);
    assert w[..|w|] == w && w[|w|..] == [];
    WordsEmpty();
    assert Words(w) == [w];
  }

  lemma ConcatAssoc(a: string, b: string, c: string)
    ensures a + (b + c) == a + b + c
  {
  }

  lemma SplitAtIndex(t: string, k: nat)
    requires k <= |t|
    ensures t == t[..k] + t[k..]
  {
  }

  lemma CollapseWordSpace(w: string, rest: string)
    requires NoSpace(w) && rest != [] && IsSpace(rest[0])
    ensures Collapse(w + rest) == w + " " + Collapse(LStrip(rest))
  {
    CollapseWord(w, rest);
    CollapseSpaceHead(rest);
  }

  /** A string without leading white space splits at its first white space. */
  lemma CollapseSplit(t: string)
    requires t != [] && !IsSpace(t[0]) && SpaceAt(t) < |t|
    ensures Collapse(t) == t[..SpaceAt(t)] + " " + Collapse(LStrip(t[SpaceAt(t)..]))
  {
    var k := SpaceAt(t);
    SplitAtIndex(t, k);
    assert NoSpace(t[..k]);
    CollapseWordSpace(t[..k], t[k..]);
  }

  lemma WordsSplit(t: string)
    requires t != [] && !IsSpace(t[0]) && SpaceAt(t) < |t|
    ensures Words(t) == [t[..SpaceAt(t)]] + Words(LStrip(t[SpaceAt(t)..]))
  {
    WordsHead(t);
    WordsLStrip(t[SpaceAt(t)..]);
  }

  /** White space at the end of a string collapses to the one space `Trail` gives. */
  lemma TrailOfSpaces(rest: string)
    requires rest != [] && LStrip(rest) == []
    ensures Trail(rest) == " "
  {
    assert IsSpace(rest[|rest| - 1]);
  }

  /** A word followed by white space only collapses to the word and one space. */
  lemma CollapseLastWord(t: string)
    requires t != [] && !IsSpace(t[0]) && SpaceAt(t) < |t| && LStrip(t[SpaceAt(t)..]) == []
    ensures Collapse(t) == Join(Words(t), " ") + Trail(t)
  {
    var w, rest := t[..SpaceAt(t)], t[SpaceAt(t)..];
    CollapseSplit(t);
    WordsSplit(t);
    TrailSuffix(t, rest);
    WordsEmpty();
    TrailOfSpaces(rest);
    assert [w] + Words(LStrip(rest)) == [w];
  }

  /** A word followed by white space and more words: the first word, one space, and the rest collapsed. */
  lemma CollapseNextWord(t: string)
    requires t != [] && !IsSpace(t[0]) && SpaceAt(t) < |t|
    requires var u := LStrip(t[SpaceAt(t)..]); u != [] && Collapse(u) == Join(Words(u), " ") + Trail(u)
    ensures Collapse(t) == Join(Words(t), " ") + Trail(t)
  {
    var w, u := t[..SpaceAt(t)], LStrip(t[SpaceAt(t)..]);
    CollapseSplit(t);
    JoinWordsSplit(t);
    TrailRest(t);
    ConcatAssoc(w + " ", Join(Words(u), " "), Trail(u));
  }

  /** The words of `t`, joined: the first word, a space, and the joined words of the rest. */
  lemma JoinWordsSplit(t: string)
    requires t != [] && !IsSpace(t[0]) && SpaceAt(t) < |t| && LStrip(t[SpaceAt(t)..]) != []
    ensures Join(Words(t), " ") == t[..SpaceAt(t)] + " " + Join(Words(LStrip(t[SpaceAt(t)..])), " ")
  {
    var u := LStrip(t[SpaceAt(t)..]);
    WordsSplit(t);
    WordsHead(u);
    SplitJoinHead(t[..SpaceAt(t)], Words(u));
  }

  /** The rest after the first word ends as `t` does. */
  lemma TrailRest(t: string)
    requires t != [] && SpaceAt(t) < |t| && LStrip(t[SpaceAt(t)..]) != []
    ensures Trail(LStrip(t[SpaceAt(t)..])) == Trail(t)
  {
    var rest := t[SpaceAt(t)..];
    TrailSuffix(t, rest);
    LStripSuffix(rest);
    TrailSuffix(rest, LStrip(rest));
  }

  /** A string without leading white space collapses to its words joined by spaces, plus a space when it ended in white space. */
  lemma {:induction false} CollapseWords(t: string)
    requires t == [] || !IsSpace(t[0])
    ensures Collapse(t) == Join(Words(t), " ") + Trail(t)
    decreases |t|
  {
    if t == [] {
      WordsEmpty();
    } else if SpaceAt(t) == |t| {
      assert NoSpace(t);
      CollapseSingle(t);
    } else {
      var u := LStrip(t[SpaceAt(t)..]);
      if u == [] {
        CollapseLastWord(t);
      } else {
        CollapseWords(u);
        CollapseNextWord(t);
      }
    }
  }

  lemma {:induction false} CollapseWord(w: string, rest: string)
    requires NoSpace(w)
    ensures Collapse(w + rest) == w + Collapse(rest)
  {
    if w != [] {
      assert (w + rest)[1..] == w[1..] + rest;
      CollapseWord(w[1..], rest);
      assert w == [w[0]] + w[1..];
    } else {
      assert w + rest == rest;
    }
  }

  lemma WordsLStrip(s: string)
    ensures Words(s) == Words(LStrip(s))
  {
    assert LStrip(LStrip(s)) == LStrip(s);
  }

  lemma LStripSpace(x: string)
    ensures LStrip(" " + x) == LStrip(x)
  {
    assert (" " + x)[1..] == x;
  }

  lemma RStripSpace(x: string)
    ensures RStrip(x + " ") == RStrip(x)
  {
    assert (x + " ")[..|x|] == x;
  }

  /** `strip()` of a spaced string followed by at most one space. */
  lemma StripTrail(j: string, b: string)
    requires b == "" || b == " "
    requires Spaced(j) && (j == [] ==> b == "")
    ensures Strip(j + b) == j
  {
    assert LStrip(j + b) == j + b;
    if b == " " {
      RStripSpace(j);
    } else {
      assert j + b == j;
    }
  }

  lemma StripSpace(x: string)
    ensures Strip(" " + x) == Strip(x)
  {
    LStripSpace(x);
  }

  /** `clean_text(text) == " ".join(text.split())`: the words of the page, separated by single spaces. */
  lemma CleanTextWords(s: string)
    ensures CleanText(s) == Join(Words(s), " ")
  {
    var t := LStrip(s);
    WordsLStrip(s);
    CollapseWords(t);
    JoinSpaced(Words(t));
    var j := Join(Words(t), " ");
    var b := Trail(t);
    if t == [] {
      WordsEmpty();
    }
    StripTrail(j, b);
    if s != [] && IsSpace(s[0]) {
      CollapseSpaceHead(s);
      StripSpace(j + b);
    } else {
      assert t == s;
    }
  }

  /** Hence the cleaned text has no leading, trailing or doubled white space, and only plain spaces. */
  lemma CleanTextSpaced(s: string)
    ensures Spaced(CleanText(s))
  {
    CleanTextWords(s);
    JoinSpaced(Words(s));
  }

  /** Splitting words joined by spaces gives the words back. */
  lemma {:induction false} WordsOfJoin(ws: seq<string>)
    requires forall k :: 0 <= k < |ws| ==> ws[k] != [] && NoSpace(ws[k])
    ensures Words(Join(ws, " ")) == ws
  {
    if ws == [] {
    } else if |ws| == 1 {
      var w := ws[0];
      assert Join(ws, " ") == w;
      WordsHead(w);
      SpaceAtNoSpace(w);
      assert w[..|w|] == w && w[|w|..] == [];
      WordsEmpty();
      assert ws == [w] + [];
    } else {
      var w, rest := ws[0], ws[1..];
      SplitJoinHead(w, rest);
      assert [w] + rest == ws;
      var s := w + " " + Join(rest, " ");
      assert LStrip(s) == s;
      SpaceAtWord(w, Join(rest, " "));
      assert s[..|w|] == w;
      var tail := s[|w|..];
      assert tail == " " + Join(rest, " ");
      WordsOfJoin(rest);
      JoinStartsWithWord(rest);
      assert LStrip(tail) == Join(rest, " ");
      WordsLStrip(tail);
    }
  }

  lemma {:induction false} SpaceAtNoSpace(w: string)
    requires NoSpace(w)
    ensures SpaceAt(w) == |w|
  {
    if w != [] {
      SpaceAtNoSpace(w[1..]);
    }
  }

  lemma {:induction false} SpaceAtWord(w: string, rest: string)
    requires NoSpace(w)
    ensures SpaceAt(w + " " + rest) == |w|
  {
    if w != [] {
      assert (w + " " + rest)[1..] == w[1..] + " " + rest;
      SpaceAtWord(w[1..], rest);
    }
  }

  /** Cleaning is idempotent. */
  lemma CleanTextIdempotent(s: string)
    ensures CleanText(CleanText(s)) == CleanText(s)
  {
    CleanTextWords(s);
    CleanTextWords(CleanText(s));
    WordsOfJoin(Words(s));
  }

  // ---------------------------------------------------------------------------
  // fetch_content

  /** What the request gives: the page's extracted text, or the exception's message. */
  datatype Response = PageText(text: string) | Raised(message: string)

  const MaxText := 100000

  /** `fetch_content`: the cleaned text cut to 100000 characters and "success", or the error message and "failed". */
  function FetchContent(response: Response): (r: (string, string))
    ensures r.1 == "success" || r.1 == "failed"
    ensures r.1 == "failed" <==> response.Raised?
    ensures response.Raised? ==> r.0 == response.message
    ensures response.PageText? ==> |r.0| <= MaxText && r.0 <= CleanText(response.text)
    ensures response.PageText? && |CleanText(response.text)| <= MaxText ==> r.0 == CleanText(response.text)
    ensures response.PageText? && |CleanText(response.text)| > MaxText ==> r.0 == CleanText(response.text)[..MaxText]
  {
    match response
    case Raised(message) => (message, "failed")
    case PageText(text) =>
      (Take(CleanText(text), MaxText), "success")
  }

  // ---------------------------------------------------------------------------
  // The prompt

  const UrlMarker := "PUT_URL_HERE"
  const TextStart := "\n\n--- PAGE TEXT START ---\n"
  const TextEnd := "\n--- PAGE TEXT END ---\n"

  /** `str.replace` is `rep.join(s.split(pat))`. */
  lemma {:induction false} ReplaceAllIsJoin(s: string, pat: string, rep: string)
    requires pat != []
    ensures ReplaceAll(s, pat, rep) == Join(SplitOn(s, pat), rep)
    decreases |s|
  {
    var i := Find(s, pat);
    if i >= 0 {
      ReplaceAllIsJoin(s[i + |pat|..], pat, rep);
      ReplaceAllCons(s, pat, rep);
    } else {
      ReplaceAllNone(s, pat, rep);
    }
  }

  /** The inductive step: when the rest past the first match is its parts joined, so is `s`. */
  lemma ReplaceAllCons(s: string, pat: string, rep: string)
    requires pat != [] && Find(s, pat) >= 0
    requires var rest := s[Find(s, pat) + |pat|..]; ReplaceAll(rest, pat, rep) == Join(SplitOn(rest, pat), rep)
    ensures ReplaceAll(s, pat, rep) == Join(SplitOn(s, pat), rep)
  {
    ReplaceAllStep(s, pat, rep);
    JoinSplitStep(s, pat, rep);
  }

  /** Joining the parts of `s`: the text before the first match, the separator, then the rest joined. */
  lemma JoinSplitStep(s: string, pat: string, rep: string)
    requires pat != [] && Find(s, pat) >= 0
    ensures var i := Find(s, pat);
      Join(SplitOn(s, pat), rep) == s[..i] + rep + Join(SplitOn(s[i + |pat|..], pat), rep)
  {
    var i := Find(s, pat);
    var parts := SplitOn(s[i + |pat|..], pat);
    assert SplitOn(s, pat) == [s[..i]] + parts;
    JoinCons(s[..i], parts, rep);
  }

  lemma ReplaceAllNone(s: string, pat: string, rep: string)
    requires pat != [] && Find(s, pat) < 0
    ensures ReplaceAll(s, pat, rep) == s == Join(SplitOn(s, pat), rep)
  {
  }

  lemma ReplaceAllStep(s: string, pat: string, rep: string)
    requires pat != [] && Find(s, pat) >= 0
    ensures var i := Find(s, pat);
      ReplaceAll(s, pat, rep) == s[..i] + rep + ReplaceAll(s[i + |pat|..], pat, rep)
      && SplitOn(s, pat) == [s[..i]] + SplitOn(s[i + |pat|..], pat)
  {
  }

  lemma JoinCons(x: string, rest: seq<string>, sep: string)
    requires rest != []
    ensures Join([x] + rest, sep) == x + sep + Join(rest, sep)
  {
    assert ([x] + rest)[1..] == rest;
  }

  /** The prompt: the URL put in place of every marker, then the page text between its markers. */
  function Prompt(base: string, url: string, text: string): (r: string)
    ensures r == Join(SplitOn(base, UrlMarker), url) + TextStart + text + TextEnd
  {
    ReplaceAllIsJoin(base, UrlMarker, url);
    ReplaceAll(base, UrlMarker, url) + TextStart + text + TextEnd
  }

  /** The page text sits right after the start marker and is followed only by the end marker. */
  lemma PromptText(base: string, url: string, text: string)
    ensures var p := Prompt(base, url, text);
      var head := |p| - |TextEnd| - |text|;
      head >= |TextStart| && p[head - |TextStart|..head] == TextStart
      && p[head..|p| - |TextEnd|] == text && EndsWith(p, TextEnd)
  {
    FourPieces(ReplaceAll(base, UrlMarker, url), TextStart, text, TextEnd);
  }

  // ---------------------------------------------------------------------------
  // The model's reply

  /** What `json.loads` gives: the value, or the decode error's message. */
  datatype Decoded = Parsed(value: J) | DecodeError(message: string)

  /** What the model call gives: the reply's text, or the exception's message. */
  datatype Reply = ReplyText(text: string) | ModelError(message: string)

  /** The fallback clean-up: strip, then `text[7:-3]` after "```json", else `text[3:-3]` after "```". */
  function Unfence(reply: string): string
  {
    var t := Strip(reply);
    if "```json" <= t then PySlice(t, 7, -3)
    else if "```" <= t then PySlice(t, 3, -3)
    else t
  }

  lemma FencedStrip(s: string)
    requires |s| > 0 && s[0] == '`' && s[|s| - 1] == '`'
    ensures Strip(s) == s
  {
    StripNoop(s);
  }

  /** A block fenced by "```json" and "```" gives its body. */
  lemma UnfenceJson(body: string)
    ensures Unfence("```json" + body + "```") == body
  {
    var s := "```json" + body + "```";
    FencedStrip(s);
    assert s[..7] == "```json";
    assert SliceBound(7, |s|) == 7 && SliceBound(-3, |s|) == |s| - 3;
    assert s[7..|s| - 3] == body;
  }

  /** A plain fence around a body that does not start with "json" is no "```json" fence. */
  lemma NotJsonFence(body: string)
    requires !("json" <= body)
    ensures !("```json" <= "```" + body + "```")
  {
    var s := "```" + body + "```";
    if |body| >= 4 {
      assert s[3..7] == body[..4] != "json";
      assert "```json"[3..] == "json";
      assert |s| >= 7 && s[..7][3..] == s[3..7];
    } else if |s| >= 7 {
      assert s[..7][3 + |body|] == s[3 + |body|] == '`';
      assert "```json"[3 + |body|] != '`';
    }
  }

  /** A stripped text with a plain opening fence loses three characters at each end. */
  lemma UnfencePlainShape(s: string)
    requires Strip(s) == s && !("```json" <= s) && "```" <= s
    ensures Unfence(s) == PySlice(s, 3, -3)
  {
  }

  /** The inner part of a string between a three-character head and a three-character tail. */
  lemma SliceInner(head: string, body: string, tail: string)
    requires |head| == 3 && |tail| == 3
    ensures PySlice(head + body + tail, 3, -3) == body
  {
    var s := head + body + tail;
    assert SliceBound(3, |s|) == 3 && SliceBound(-3, |s|) == |s| - 3;
    assert s[3..|s| - 3] == body;
  }

  /** A block fenced by "```" alone gives its body, unless the body starts with "json". */
  lemma UnfencePlain(body: string)
    requires !("json" <= body)
    ensures Unfence("```" + body + "```") == body
  {
    var s := "```" + body + "```";
    FencedStrip(s);
    NotJsonFence(body);
    assert s[..3] == "```";
    UnfencePlainShape(s);
    SliceInner("```", body, "```");
  }

  /** Without a closing fence, the slice still drops the last three characters. */
  lemma UnfenceUnclosed(body: string)
    requires |body| >= 3 && !IsSpace(body[|body| - 1])
    ensures Unfence("```json" + body) == body[..|body| - 3]
  {
    var s := "```json" + body;
    assert s[|s| - 1] == body[|body| - 1];
    StripNoop(s);
    assert s[7..|s| - 3] == body[..|body| - 3];
  }

  lemma JsonFenceIsFence(t: string)
    ensures "```json" <= t ==> "```" <= t
  {
    if "```json" <= t {
      assert t[..3] == t[..7][..3];
    }
  }

  /** Text that starts with no fence is used stripped. */
  lemma UnfenceUnfenced(reply: string)
    requires !("```" <= Strip(reply))
    ensures Unfence(reply) == Strip(reply)
  {
    var t := Strip(reply);
    JsonFenceIsFence(t);
  }

  // ---------------------------------------------------------------------------
  // extract_features

  /** The record returned when the fetch or the model fails. */
  function FailureRecord(url: string, timestamp: string, observation: string, gap: string): J
  {
    JObj([
      ("meta", FailureMetaObject(url, timestamp)),
      ("factors", JArr([])),
      ("summary", JObj([("indexability_score", JNum(0.0)), ("key_observations", JStr(observation)), ("content_gaps", JArr([JStr(gap)]))]))
    ])
  }

  /** The model's failure record; `message` is the text of the exception. */
  function ModelFailure(url: string, now: string, message: string): J
  {
    FailureRecord(url, now, "LLM generation failed: " + message, "LLM processing failed")
  }

  /**
   * `extract_features`: the fetch failure record; otherwise the reply parsed as it is, else after
   * the fallback clean-up; the model failure record when the model raises or the second parse fails.
   */
  function Extract(url: string, now: string, response: Response, base: string,
                   generate: string -> Reply, loads: string -> Decoded): (r: J)
    ensures response.Raised? ==> r == FailureRecord(url, now, "Failed to fetch content: " + response.message, "Content fetch failed")
    ensures response.PageText? ==> (exists t :: loads(t) == Parsed(r)) || (exists m :: r == ModelFailure(url, now, m))
  {
    var (pageText, status) := FetchContent(response);
    if status == "failed" then
      FailureRecord(url, now, "Failed to fetch content: " + pageText, "Content fetch failed")
    else
      match generate(Prompt(base, url, pageText))
      case ModelError(message) => ModelFailure(url, now, message)
      case ReplyText(text) =>
        match loads(text)
        case Parsed(v) => v
        case DecodeError(_) =>
          match loads(Unfence(text))
          case Parsed(v) => v
          case DecodeError(message) => ModelFailure(url, now, message)
  }

  /** A fetch failure gives the fetch failure record, and the model is never asked. */
  lemma FetchFailureRecord(url: string, now: string, message: string, base: string,
                           g1: string -> Reply, g2: string -> Reply, loads: string -> Decoded)
    ensures Extract(url, now, Raised(message), base, g1, loads) == Extract(url, now, Raised(message), base, g2, loads)
      == FailureRecord(url, now, "Failed to fetch content: " + message, "Content fetch failed")
  {
  }

  /** A fetched page is sent to the model inside the prompt, and a reply that parses is the result. */
  lemma ReplyParsed(url: string, now: string, page: string, base: string,
                    generate: string -> Reply, loads: string -> Decoded)
    requires var p := Prompt(base, url, FetchContent(PageText(page)).0);
      generate(p).ReplyText? && loads(generate(p).text).Parsed?
    ensures var p := Prompt(base, url, FetchContent(PageText(page)).0);
      Extract(url, now, PageText(page), base, generate, loads) == loads(generate(p).text).value
  {
  }

  /**
   * The fallback: a reply that does not parse is stripped and unfenced and parsed again; that
   * parse's value is the result, and its failure gives the model failure record with its message.
   */
  lemma ReplyFallback(url: string, now: string, page: string, base: string,
                      generate: string -> Reply, loads: string -> Decoded)
    requires var p := Prompt(base, url, FetchContent(PageText(page)).0);
      generate(p).ReplyText? && loads(generate(p).text).DecodeError?
    ensures var text := generate(Prompt(base, url, FetchContent(PageText(page)).0)).text;
      Extract(url, now, PageText(page), base, generate, loads)
      == match loads(Unfence(text))
         case Parsed(v) => v
         case DecodeError(message) => ModelFailure(url, now, message)
  {
  }

  /** A model that raises gives the model failure record. */
  lemma ModelRaises(url: string, now: string, page: string, base: string,
                    generate: string -> Reply, loads: string -> Decoded)
    requires generate(Prompt(base, url, FetchContent(PageText(page)).0)).ModelError?
    ensures Extract(url, now, PageText(page), base, generate, loads)
      == ModelFailure(url, now, generate(Prompt(base, url, FetchContent(PageText(page)).0)).message)
  {
  }

  /** The meta object of a failure record answers the three lookups the compiler makes. */
  lemma FailureMeta(url: string, now: string, observation: string, gap: string)
    ensures var meta := PyGet(FailureRecord(url, now, observation, gap), "meta", JObj([])).value;
      PyGet(meta, "url", JStr("")) == Some(JStr(url))
      && PyGet(meta, "fetch_status", JStr("unknown")) == Some(JStr("failed"))
      && PyGet(meta, "language", JStr("unknown")) == Some(JStr("unknown"))
  {
    var meta := PyGet(FailureRecord(url, now, observation, gap), "meta", JObj([])).value;
    assert meta == FailureMetaObject(url, now);
    FailureMetaStatus(url, now);
    FailureMetaLanguage(url, now);
  }

  /** The `meta` object of a failure record. */
  function FailureMetaObject(url: string, now: string): J
  {
    JObj([("url", JStr(url)), ("timestamp", JStr(now)), ("language", JStr("unknown")), ("fetch_status", JStr("failed"))])
  }

  lemma FailureMetaStatus(url: string, now: string)
    ensures Lookup(FailureMetaObject(url, now).fields, "fetch_status") == Some(JStr("failed"))
  {
    var fields := FailureMetaObject(url, now).fields;
    assert fields[1..][1..][1..][0] == ("fetch_status", JStr("failed"));
    assert fields[0].0 != "fetch_status" && fields[1].0 != "fetch_status" && fields[2].0 != "fetch_status";
  }

  lemma FailureMetaLanguage(url: string, now: string)
    ensures Lookup(FailureMetaObject(url, now).fields, "language") == Some(JStr("unknown"))
  {
    var fields := FailureMetaObject(url, now).fields;
    assert fields[1..][1..][0] == ("language", JStr("unknown"));
    assert fields[0].0 != "language" && fields[1].0 != "language";
  }

  /** A failure record loads, and its factor list is empty. */
  lemma FailureLoads(url: string, now: string, observation: string, gap: string)
    ensures AnalysisCsv.Loads(FailureRecord(url, now, observation, gap))
      && AnalysisCsv.Factors(FailureRecord(url, now, observation, gap)) == []
  {
  }

  /**
   * A failure record compiles to a row that `DictWriter` accepts, with `fetch_status` "failed",
   * its URL, language "unknown", and every factor False with score 0.0.
   */
  lemma FailureRecordRow(url: string, now: string, observation: string, gap: string, isCited: int, i: nat)
    requires 1 <= i <= 15
    ensures var row := AnalysisCsv.ParseJsonFile(Some(FailureRecord(url, now, observation, gap)), isCited, AnalysisCsv.AsWritten);
      row.Some? && AnalysisCsv.Writable(row.value)
      && "url" in row.value && row.value["url"] == JStr(url)
      && "fetch_status" in row.value && row.value["fetch_status"] == JStr("failed")
      && "language" in row.value && row.value["language"] == JStr("unknown")
      && AnalysisCsv.FactorId(i) in row.value && row.value[AnalysisCsv.FactorId(i)] == JBool(false)
      && AnalysisCsv.ScoreKey(AnalysisCsv.FactorId(i)) in row.value
      && row.value[AnalysisCsv.ScoreKey(AnalysisCsv.FactorId(i))] == JNum(0.0)
  {
    var data := FailureRecord(url, now, observation, gap);
    FailureMeta(url, now, observation, gap);
    FailureLoads(url, now, observation, gap);
    AnalysisCsv.ParsedWritable(data, isCited);
    AnalysisCsv.ParsedFixedCells(data, isCited);
    AnalysisCsv.ParsedFactorCells(data, isCited, i);
  }
}
