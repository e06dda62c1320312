/**
 * The single-URL agent run: what `main` writes once the agent workflow has produced its
 * text. The workflow, the clock and the JSON parser and printer are parameters.
 */
module FeatureAgent {
  import opened Wrappers
  import opened Strings
  import opened Json
  import opened ArtifactNames

  /**
   * What `main` meets when it runs: whether `OPENAI_API_KEY` is set, whether the agent was
   * initialised, the workflow's `output_text` (None when the workflow raises), and the
   * timestamp of the run as `strftime("%Y%m%d_%H%M%S")` renders it.
   */
  datatype AgentEnv = AgentEnv(hasApiKey: bool, agentLoaded: bool, output: Option<string>, timestamp: string)

  /** A result file: its name in the output directory, its text, and the preview printed after writing. */
  datatype Artifact = Artifact(name: string, text: string, preview: string)

  /** The code-fence clean-up: strip, then drop a leading "```json", then a trailing "```". */
  function StripFences(output: string): string
  {
    var t := Strip(output);
    var t' := if "```json" <= t then t[7..] else t;
    if EndsWith(t', "```") then t'[..|t'| - 3] else t'
  }

  /** The clean-up as `main` performs it, reassigning `clean_text` step by step. */
  method CleanOutput(output: string) returns (clean: string)
    ensures clean == StripFences(output)
  {
    clean := Strip(output);
    if "```json" <= clean {
      clean := clean[7..];
    }
    if EndsWith(clean, "```") {
      clean := clean[..|clean| - 3];
    }
  }

  /** A fenced block yields exactly its body, whatever the body is. */
  lemma StripFencesBlock(body: string)
    ensures StripFences("```json" + body + "```") == body
  {
    var s := "```json" + body + "```";
    assert s[0] == '`' && s[|s| - 1] == '`';
    assert LStrip(s) == s;
    assert RStrip(s) == s;
    assert "```json" <= s;
    assert s[7..] == body + "```";
    assert EndsWith(body + "```", "```") by {
      var t := body + "```";
      assert t[|t| - 3..] == "```";
    }
    assert (body + "```")[..|body|] == body;
  }

  /** Text without fences is only stripped. */
  lemma StripFencesPlain(output: string)
    requires !("```json" <= Strip(output)) && !EndsWith(Strip(output), "```")
    ensures StripFences(output) == Strip(output)
  {
  }

  /** The printed preview: the first 500 characters and `...` when the text is longer. */
  function Preview(text: string): (r: string)
    ensures |text| <= 500 ==> r == text
    ensures |text| > 500 ==> |r| == 503 && r[..500] == text[..500] && r[500..] == "..."
  {
    if |text| > 500 then text[..500] + "..." else text
  }

  /**
   * `main(url, output_dir)`: nothing without an API key or an initialised agent, nothing when
   * the workflow raises (the exception is caught); otherwise the file named from the URL's safe
   * prefix and the timestamp, holding the re-serialised JSON, or the raw output when it does not parse.
   */
  function AgentRun(url: string, env: AgentEnv, loads: string -> Option<J>, dumps: J -> string): Option<Artifact>
  {
    if !env.hasApiKey || !env.agentLoaded || env.output.None? then None
    else
      var output := env.output.value;
      var text := match loads(StripFences(output)) case Some(data) => dumps(data) case None => output;
      Some(Artifact(ArtifactName(SafePrefix(url), env.timestamp), text, Preview(text)))
  }

  /** `main` as a method: the same run, with the fence clean-up done by `CleanOutput`. */
  method AgentMain(url: string, env: AgentEnv, loads: string -> Option<J>, dumps: J -> string)
    returns (r: Option<Artifact>)
    ensures r == AgentRun(url, env, loads, dumps)
  {
    if !env.hasApiKey {
      return None;
    }
    if !env.agentLoaded {
      return None;
    }
    if env.output.None? {
      return None;
    }
    var output := env.output.value;
    var clean := CleanOutput(output);
    var formatted: string;
    match loads(clean) {
      case Some(data) => formatted := dumps(data);
      case None => formatted := output;
    }
    var name := ArtifactName(SafePrefix(url), env.timestamp);
    return Some(Artifact(name, formatted, Preview(formatted)));
  }

  /** A run without an API key, without the agent, or whose workflow raises writes no file. */
  lemma NoFileWithout(url: string, env: AgentEnv, loads: string -> Option<J>, dumps: J -> string)
    requires !env.hasApiKey || !env.agentLoaded || env.output.None?
    ensures AgentRun(url, env, loads, dumps).None?
  {
  }

  /**
   * A run that writes a file writes it under a name the dispatcher's glob finds for the same
   * URL, with the raw output when the cleaned text does not parse.
   */
  lemma AgentRunWrites(url: string, env: AgentEnv, loads: string -> Option<J>, dumps: J -> string)
    requires AgentRun(url, env, loads, dumps).Some?
    ensures var a := AgentRun(url, env, loads, dumps).value;
      GlobMatches(a.name, SafePrefix(url))
      && (loads(StripFences(env.output.value)).None? ==> a.text == env.output.value)
      && a.preview == Preview(a.text)
  {
    AgentNameFound(url, env.timestamp);
  }
}
