# URL bookkeeping of the web-factor-analysis pipeline, in Dafny

The pipeline collects ChatGPT conversation transcripts and sorts the URLs in them into *cited* URLs
(those the assistant listed as sources) and *uncited* ones (those only mentioned in the text). It
filters and deduplicates those URLs and fetches each page. An LLM agent then records which of
fifteen page "factors" (F01..F15) each page shows. Finally the per-page results are compiled and
cleaned into one CSV. Everything between the network and the LLM is string, list, set and
dictionary bookkeeping. This project models that bookkeeping and proves what it promises.

The model is one Dafny module per script, plus shared modules:

| module | file | models |
|---|---|---|
| `ConversationUrls` | extract_urls_from_conversations.dfy | the classifier: its `normalize_url` (drops `utm_source`, keeps fragments), `extract_urls`, `is_main_page`, and the per-transcript cited/uncited partition of `main` with its nested `walk_json` |
| `BatchRunAgent` | batch_run_agent.dfy | the batch dispatcher: its own `normalize_url` (lower-cases, drops trailing `/` and fragments, defaults to `https://`), the "already processed" probe of `process_url`, the worklist and `--limit` of `batch_main`, and the sequential dispatch |
| `SubstantialFilter` | filter_substantial_urls.dfy | `is_substantial_content` (extension and domain exclusion) and the keep-first-occurrence loop of `main`; its `normalize_url` is textually that of the dispatcher, so `SubstantialFilter.NormalizeUrl` is defined as `BatchRunAgent.NormalizeUrl` |
| `SafeUrls` | extract_safe_urls.dfy | the pre-order walk that finds the last `content_references` list, the `safe_urls` union, `sorted` on that set (strings with strings, numbers with numbers), and the per-file groups of `main` |
| `AnalysisCsv` | compile_analysis_csv.dfy | `parse_json_file` with its `fid in row` test, the cited-then-uncited rows, the 34-column header of `main`, and the `DictWriter` that stops at the first row with a column outside the header |
| `CleanAnalysis` | clean_analysis_data.dfy | the success filter and the 0/1 factor encoding of `clean_data`, and the `DictWriter` over the input's own header |
| `UncitedInCited` | extract_uncited_urls_in_cited_conversations.dfy | the conversation-id join of `main` and the `DictWriter` that writes it |
| `ExtractFeatures` | extract_features.dfy | `clean_text`, the truncation of `fetch_content`, the prompt, the JSON fallback and the failure records of `extract_features` |
| `FeatureAgent` | extract_features_with_agent.dfy | the code-fence clean-up, the result file name and content, and the preview of `main` |
| `WebContent` | extract_web_content.dfy | the text clean-up of `extract_content`, and the file name, resume check and file layout of `process_single_url`, run over all rows by `process_csv` |
| `UrllibParse` | urllib_parse.dfy | the parts of Python's `urllib.parse` the scripts call: `urlparse`/`urlsplit`, `urlunparse`, `parse_qs`/`parse_qsl`, `urlencode(doseq=True)` |
| `ArtifactNames` | filenames.dfy | the safe-character filter shared by `get_safe_filename_prefix`, the agent's file name and `safe_id`, and the dispatcher's `<prefix>_*.json` glob |
| `Json`, `Strings`, `Sorting`, `Sets`, `Wrappers` | json.dfy, strings.dfy, sorting.dfy, sets.dfy, wrappers.dfy | JSON values and Python's dynamic-typing failures, `str` methods, `sorted` of a set of strings, `Option` |

Modelling conventions:

- **JSON values.** A JSON value is the datatype `J`. Objects are member sequences with distinct
  keys, as `json.load` produces them. Every access that can raise in Python (`.get` on a
  non-dict, `in` on a number, an unhashable set element, …) returns `Option`, with `None`
  standing for the exception.
- **Directories and external calls.** A directory is a map from file name to what `json.load` (or
  the CSV reader) makes of the file, with `None` for a file that cannot be read. The network, the
  LLM, the agent workflow, `json.loads`/`json.dumps`, float parsing and the clock are function- or
  value-parameters.
- **Loops.** Each script's loops are `method`s with loop invariants, proved equal to a function
  that states what the loop computes; the lemmas are about those functions. The concurrent
  dispatch of `batch_run_agent.py` and the thread pool of `extract_web_content.py` run their work
  items one after the other.
- **Character classes and `urlsplit`.**
  - `str.isspace` and the regular expression class `\s` use Python's exact set of white-space
    characters.
  - `str.isalnum` and `str.lower` are ASCII only.
  - `urlsplit` follows the CPython 3.11 series from 3.11.4 on. It strips leading C0 controls and
    spaces and removes tab, CR and LF. It raises `ValueError` in two cases. The first is an
    unbalanced `[`/`]` in the network location. The second is the `_checknetloc` test: the
    network location holds one of the 19 characters whose NFKC form contains `/`, `?`, `#`, `@` or
    `:`, for instance the fullwidth `？` (U+FF1F). These characters are listed in
    `UrllibParse.IsNfkcDelimiter`.

Facts about the two `normalize_url` functions that the lemmas pin down:

- The dispatcher's `normalize_url` removes *all* trailing `/` of the path (`rstrip('/')`).
- Its scheme test is case-sensitive, so `HTTPS://host` gets `https://` put in front.
- Applying it twice can give a different result from applying it once
  (`BatchRunAgent.NormalizeNotIdempotent`).
- The classifier's `normalize_url` returns its input unchanged, not stripped, when parsing raises.
- Its trailing-`?` removal also trims a fragment that ends in `?`.

## Model

| member | source | states |
|---|---|---|
| ConversationUrls.CleanQueryParsesBack | extract_urls_from_conversations.py:14-21 | the re-encoded query parses back to the original parameters minus `utm_source`, each name with its values in the original order, and has no `utm_source` |
| ConversationUrls.CleanQueryKeepsOthers | extract_urls_from_conversations.py:14-21 | a query without `utm_source` keeps every parameter and value |
| ConversationUrls.NormalizeIgnoresUtmSource | extract_urls_from_conversations.py:13-35 | on a URL that `urlsplit` accepts (no brackets, no NFKC delimiter), two queries with the same parameters apart from `utm_source` normalise to the same string |
| ConversationUrls.NormalizeDropsUtmOnlyQuery | extract_urls_from_conversations.py:17-35 | on a URL that `urlsplit` accepts, `s?utm_source=v` normalises exactly like `s`: the emptied query leaves no `?` behind |
| ConversationUrls.NormalizeKeepsFragment | extract_urls_from_conversations.py:24-31 | appending `#f` to a URL without a query appends `#f` to its normalised form |
| ConversationUrls.NormalizeHierarchical | extract_urls_from_conversations.py:13-35 | on `scheme://host/path?q#f` with an accepted host the scheme (lower-cased only by `urlsplit`), host, path and fragment come back verbatim and only the query is rewritten, with no `?` when it is emptied |
| ConversationUrls.NormalizeParams | extract_urls_from_conversations.py:13-35 | on `scheme://host/path;p?q#f` (a scheme with params) the params come back verbatim after `;`, and an empty `p` leaves no `;` |
| ConversationUrls.NormalizeDropsBareSemicolon | extract_urls_from_conversations.py:24-31 | a bare `;` before the query is dropped: the URL normalises like the one without it |
| ConversationUrls.NormalizeTrimsFragmentQuestion | extract_urls_from_conversations.py:34-35 | a fragment ending in `?` loses that one character |
| ConversationUrls.NormalizeRejected | extract_urls_from_conversations.py:38-40 | when parsing raises (unbalanced brackets or an NFKC delimiter in the host) the input is returned unchanged |
| ConversationUrls.NormalizeFullwidthQuestion | extract_urls_from_conversations.py:13-40 | `https://host？` and `https://host？?q` come back unchanged, `utm_source` included, because `urlsplit` raises |
| ConversationUrls.MatchAt | extract_urls_from_conversations.py:48 | a match starts with `http://`, `https://` or `www.`, extends beyond that prefix, consists of `[^\s<>"]` characters and is greedy: the next character is outside the class |
| ConversationUrls.RunEnd | extract_urls_from_conversations.py:48 | the greedy run of `[^\s<>"]`: every character up to the end is in the class and the one after is not |
| ConversationUrls.ScanSpans | extract_urls_from_conversations.py:49 | every span `re.findall` reports is a match at its start position |
| ConversationUrls.ScanSpansOrdered | extract_urls_from_conversations.py:49 | the matches are in text order and do not overlap |
| ConversationUrls.ScanSpansLeftmost | extract_urls_from_conversations.py:49 | the scan is leftmost: no match starts at a position that no reported match covers |
| ConversationUrls.FindAll | extract_urls_from_conversations.py:49 | one matched text for each span |
| ConversationUrls.FindAllShape | extract_urls_from_conversations.py:48-49 | each matched text starts with `http://`, `https://` or `www.`, goes on past it, and contains no white space, `<`, `>` or `"` |
| ConversationUrls.TrimTrail | extract_urls_from_conversations.py:57-58 | the result is a prefix of the match, does not end in `. , ; ) ] } " '`, and everything trimmed was such a character |
| ConversationUrls.CleanMatchesSound | extract_urls_from_conversations.py:57-61 | every returned URL is non-empty, has no trailing punctuation, and is a prefix of one of the matches |
| ConversationUrls.CleanMatchesOrder | extract_urls_from_conversations.py:57-61 | matches that survive trimming give one URL each, in match order |
| ConversationUrls.ExtractUrls | extract_urls_from_conversations.py:42-63 | the `extract_urls` loop returns the trimmed non-empty matches of the pattern, in order |
| ConversationUrls.QueryIsNotMainPage | extract_urls_from_conversations.py:82-89 | a URL with a query is never a main page |
| ConversationUrls.FragmentIsNotMainPage | extract_urls_from_conversations.py:82-89 | a URL with a fragment is never a main page |
| ConversationUrls.MainPageByPath | extract_urls_from_conversations.py:76-89 | on `http(s)://host/path`, `is_main_page` holds iff the path less one trailing `/` is empty, `/` or (case-insensitively) `/index.html`, `/index.php`, `/index.htm` or `/home` |
| ConversationUrls.BareHostIsMainPage | extract_urls_from_conversations.py:69-89 | a bare host without a scheme, with or without `/`, is a main page |
| ConversationUrls.MainPageBare | extract_urls_from_conversations.py:70-74 | a URL that does not start with `http` is judged as if `http://` preceded it |
| ConversationUrls.MainPageRejected | extract_urls_from_conversations.py:90-91 | a URL whose parse raises (unbalanced brackets or an NFKC delimiter in the host) is not a main page, whatever its path |
| ConversationUrls.FullwidthQuestionNotMainPage | extract_urls_from_conversations.py:76-91 | `https://host？` is not a main page |
| ConversationUrls.NormalizeValue | extract_urls_from_conversations.py:135-137 | `normalize_url` on a JSON value: strings stay strings, any other value comes back unchanged |
| ConversationUrls.ItemCited | extract_urls_from_conversations.py:134-140 | an item adds at most its normalised `url`, only when it has one, and never a main page or an unhashable value |
| ConversationUrls.RefCited | extract_urls_from_conversations.py:131-140 | a content reference adds only hashable non-main-page values |
| ConversationUrls.NodeCited | extract_urls_from_conversations.py:123-140 | a node adds URLs only when it is truthy and has a truthy `message`; what it adds is hashable and no main page |
| ConversationUrls.CitedUrls | extract_urls_from_conversations.py:117-140 | the cited set holds only hashable non-main-page values (None when Python raises) |
| ConversationUrls.CiteItems | extract_urls_from_conversations.py:133-140 | the items loop adds exactly the union of what each item adds |
| ConversationUrls.CiteRefs | extract_urls_from_conversations.py:131-140 | the `content_references` loop adds exactly the union of what each reference adds |
| ConversationUrls.CollectCited | extract_urls_from_conversations.py:117-140 | the `mapping` loop computes the cited set of the transcript |
| ConversationUrls.AllUrlsIgnoresKeys | extract_urls_from_conversations.py:145-151 | dict keys are never scanned: renaming them leaves the URLs found unchanged |
| ConversationUrls.AllUrlsNoStrings | extract_urls_from_conversations.py:145-156 | a transcript with no string values yields no URL at all |
| ConversationUrls.RecordUrls | extract_urls_from_conversations.py:152-156 | the string case adds exactly the normalised URLs `extract_urls` finds in the string |
| ConversationUrls.WalkJson | extract_urls_from_conversations.py:143-158 | `walk_json` adds to the set exactly the URLs of the string values under the value |
| ConversationUrls.WalkFieldsJson | extract_urls_from_conversations.py:146-148 | the dict case: the values, walked in field order, add to the set exactly the URLs under them; keys are not scanned |
| ConversationUrls.WalkItemsJson | extract_urls_from_conversations.py:149-151 | the list case: the items, walked in order, add to the set exactly the URLs under them |
| ConversationUrls.ClassifyPartition | extract_urls_from_conversations.py:117-167 | cited and uncited sets are disjoint, neither holds a main page, and every uncited URL was found in a string value of the transcript |
| ConversationUrls.SelectUncited | extract_urls_from_conversations.py:162-167 | the uncited loop keeps exactly the found URLs that are neither cited nor main pages |
| ConversationUrls.EmitRows | extract_urls_from_conversations.py:170-174 | one row per URL of the set, each URL exactly once, in whatever order the set is iterated |
| ConversationUrls.ClassifyFile | extract_urls_from_conversations.py:113-174 | the body of the file loop yields the cited and uncited rows of the transcript, as multisets |
| ConversationUrls.TablesSkips | extract_urls_from_conversations.py:101-111 | a file that is not `.json` or cannot be read adds no row |
| ConversationUrls.ClassifyFolder | extract_urls_from_conversations.py:101-174 | `main` collects, over all transcripts, the cited rows and the uncited rows |
| ConversationUrls.TablesAbort | extract_urls_from_conversations.py:113-158 | an exception raised while a transcript is processed (outside the `try`) ends the whole run |
| BatchRunAgent.WithScheme | batch_run_agent.py:20-23 | after stripping, the URL starts with `http://` or `https://` |
| BatchRunAgent.RebuildHierarchical | batch_run_agent.py:25-32 | the rebuilt URL is the lower-cased scheme and host, the path without any trailing `/`, and the query, with no fragment |
| BatchRunAgent.NormalizeHierarchical | batch_run_agent.py:19-32 | on `http(s)://host/path?q#f` with an accepted host: host lower-cased, all trailing `/` of the path removed, query kept, fragment dropped |
| BatchRunAgent.NormalizeParams | batch_run_agent.py:19-32 | on `http(s)://host/path;p?q#f` the params are kept after `;`, the path losing its trailing `/` (a `/` stays in front of non-empty params when nothing else is left) |
| BatchRunAgent.NormalizeDropsBareSemicolon | batch_run_agent.py:25-32 | a bare `;` before the query is dropped |
| BatchRunAgent.NormalizeIgnoresCaseAndSlashes | batch_run_agent.py:27-29 | host case and trailing slashes do not change the key |
| BatchRunAgent.NormalizeDropsFragment | batch_run_agent.py:32 | with or without a fragment the URL normalises the same |
| BatchRunAgent.NormalizeHostOnly | batch_run_agent.py:19-32 | a host behind `http://` or `https://` normalises to that scheme and the lower-cased host |
| BatchRunAgent.NormalizeQueryOnly | batch_run_agent.py:19-32 | a query without a fragment is kept verbatim |
| BatchRunAgent.UpperCaseSchemeNotRecognised | batch_run_agent.py:22-23 | the scheme test is case-sensitive: `SCHEME://host` gets `https://` in front, its scheme becoming the host |
| BatchRunAgent.UpperCaseSchemeDiffers | batch_run_agent.py:22-23 | so `HTTPS://host` and `https://host` get different keys |
| BatchRunAgent.NormalizeSameStrip | batch_run_agent.py:20 | only the stripped URL matters |
| BatchRunAgent.NormalizeRejected | batch_run_agent.py:33-34 | when parsing raises (unbalanced brackets or an NFKC delimiter in the host), the result is the stripped URL, lower-cased |
| BatchRunAgent.NormalizeFullwidthQuestion | batch_run_agent.py:19-34 | `https://host？` is only lower-cased |
| BatchRunAgent.NormalizeKeepsQuerySpace | batch_run_agent.py:20-32 | a query ending in a space before `#` keeps the space |
| BatchRunAgent.NormalizeStripsQuerySpace | batch_run_agent.py:20-32 | a URL ending in a space loses it |
| BatchRunAgent.NormalizeNotIdempotent | batch_run_agent.py:19-34 | normalising twice can differ from normalising once |
| BatchRunAgent.IsProcessed | batch_run_agent.py:46-65 | the loop over the glob's files, with its `break`, computes the probe: some candidate file parses, has a non-empty string `meta.url`, and that URL normalises like the input |
| BatchRunAgent.PrefixCollisionRejected | batch_run_agent.py:51-62 | files under the right prefix whose `meta.url` normalises differently never make the URL processed |
| BatchRunAgent.FoundFileProcesses | batch_run_agent.py:46-62 | a file the glob finds whose `meta.url` normalises like the URL makes it processed |
| BatchRunAgent.WriteMakesProcessed | batch_run_agent.py:36-62 | a result the agent writes, with a matching `meta.url`, lies under a name the probe's glob finds, so the URL is then processed |
| BatchRunAgent.ProcessUrl | batch_run_agent.py:41-75 | a processed URL is skipped; otherwise the agent is called exactly once on the raw URL, and its exception is swallowed |
| BatchRunAgent.BuildWorklist | batch_run_agent.py:83-87 | the `enumerate` loop builds the worklist of `(row number, stripped url)` entries |
| BatchRunAgent.WorklistEntries | batch_run_agent.py:84-87 | every entry comes from a row with a non-blank `url` and carries its 1-based number and the stripped URL |
| BatchRunAgent.WorklistIncreasing | batch_run_agent.py:83-87 | row numbers strictly increase along the worklist |
| BatchRunAgent.WorklistComplete | batch_run_agent.py:84-87 | every row with a non-blank `url` has an entry |
| BatchRunAgent.ApplyLimit | batch_run_agent.py:91-93 | no limit or `0` keeps the list; a positive limit keeps the first entries; a negative one drops entries from the end, as Python slicing does |
| BatchRunAgent.Step | batch_run_agent.py:67-75 | a worklist entry calls the agent iff the probe does not accept it |
| BatchRunAgent.BatchMain | batch_run_agent.py:77-106 | a missing CSV file changes nothing and calls nothing; otherwise the limited worklist is dispatched in order |
| BatchRunAgent.RunPrefixCalls | batch_run_agent.py:100-105 | every agent call is for a worklist URL, and there are at most as many calls as entries |
| BatchRunAgent.RunPrefixNames | batch_run_agent.py:100-105 | every file afterwards was there before or was written by a run of the agent |
| BatchRunAgent.ProcessedKeptByNewFiles | batch_run_agent.py:44-65 | adding files under new names never un-processes a URL |
| BatchRunAgent.AcceptedNeverCalled | batch_run_agent.py:67-75 | a URL accepted before the batch is accepted throughout and never handed to the agent, provided each run writes a fresh name |
| BatchRunAgent.ProcessedNeverCalled | batch_run_agent.py:67-105 | a URL already processed before the batch causes no agent call |
| ArtifactNames.SafeChars | batch_run_agent.py:38 | the filtered string holds only letters, digits, `-` and `_` |
| ArtifactNames.SafeCharsCounts | batch_run_agent.py:38 | each safe character is kept as often as it occurs, every other character is deleted |
| ArtifactNames.SafeCharsAppend | batch_run_agent.py:38 | filtering distributes over concatenation, so kept characters stay in order |
| ArtifactNames.SafeCharsOfSafe | batch_run_agent.py:38 | a safe string is its own filtering |
| ArtifactNames.SafePrefix | batch_run_agent.py:36-39 | the prefix is the filtered URL cut to 100 characters, so at most 100 safe characters |
| ArtifactNames.GlobMatchesArtifact | batch_run_agent.py:46 | the glob `<prefix>_*.json` matches exactly the names `prefix + "_" + ts + ".json"` |
| ArtifactNames.AgentNameFound | extract_features_with_agent.py:214-218 | the agent's file for a URL matches the dispatcher's glob for that URL |
| SubstantialFilter.FirstSuffix | filter_substantial_urls.py:68-70 | the extension found is one of the list that the path ends with; none is found iff the path ends with none |
| SubstantialFilter.FirstDomain | filter_substantial_urls.py:75-77 | the domain found is one the host equals or lies below; none is found iff there is no such domain |
| SubstantialFilter.VerdictIff | filter_substantial_urls.py:58-83 | substantial iff the URL parses and neither the lower-cased path nor the lower-cased host is excluded; the reason is "OK" exactly then, and "Error" exactly when parsing raises |
| SubstantialFilter.ExtensionBeforeDomain | filter_substantial_urls.py:66-70 | an excluded extension gives `(False, "Extension: e")` even when the host is also excluded |
| SubstantialFilter.DomainReason | filter_substantial_urls.py:72-77 | otherwise an excluded host gives `(False, "Domain: d")` |
| SubstantialFilter.ExtensionUnique | filter_substantial_urls.py:10-14 | at most one excluded extension ends a given path, so the set's iteration order does not affect the reason |
| SubstantialFilter.DomainsUnnested | filter_substantial_urls.py:28-34 | no excluded domain lies below another one |
| SubstantialFilter.DomainUnique | filter_substantial_urls.py:28-34 | at most one excluded domain matches a host, so the iteration order does not affect the reason |
| SubstantialFilter.FindSuffix | filter_substantial_urls.py:68-70 | the extension loop returns at the first extension the path ends with |
| SubstantialFilter.FindDomain | filter_substantial_urls.py:75-77 | the domain loop returns at the first domain the host is on |
| SubstantialFilter.IsSubstantialContent | filter_substantial_urls.py:58-83 | the early-return function computes the verdict above |
| SubstantialFilter.SubstantialOk | filter_substantial_urls.py:79-83 | the verdict says "OK" exactly when it accepts |
| SubstantialFilter.FilterRowsReference | filter_substantial_urls.py:119-141 | the loop keeps exactly the first accepted row of each normalised URL; `seen_urls` is the set of accepted keys; the removals are the rejected rows whose key was not yet seen |
| SubstantialFilter.KeptKeys | filter_substantial_urls.py:126-134 | the keys of the kept rows are exactly `seen_urls` |
| SubstantialFilter.KeptDistinct | filter_substantial_urls.py:126-134 | kept rows have pairwise different normalised URLs and each is substantial |
| SubstantialFilter.KeptInOrder | filter_substantial_urls.py:119-134 | the kept rows are rows of the input, in input order |
| SubstantialFilter.RemovedIsReasonTotal | filter_substantial_urls.py:136-141 | `removed_count` equals the total of the counts in `removal_reasons` |
| SubstantialFilter.NoOkReason | filter_substantial_urls.py:136-141 | "OK" is never counted as a removal reason |
| SubstantialFilter.TotalBounded | filter_substantial_urls.py:152 | the printed total, kept plus removed, is at most the number of data rows |
| SubstantialFilter.RejectedCountedAgain | filter_substantial_urls.py:130-141 | a rejected URL is not remembered: the same rejected row twice is counted as removed twice |
| SubstantialFilter.DuplicateNotCounted | filter_substantial_urls.py:126-128 | a row whose key was already kept is dropped without being counted |
| SubstantialFilter.ShortRowIgnored | filter_substantial_urls.py:119-123 | empty rows and rows with fewer than three cells change nothing |
| SubstantialFilter.FilterLoop | filter_substantial_urls.py:119-141 | the `for row in reader` loop computes the filter state above |
| SubstantialFilter.HeaderOf | filter_substantial_urls.py:103-112 | the first row is the header iff its first cell contains `conversation_id` case-insensitively, otherwise the default header is used |
| SubstantialFilter.FilterMain | filter_substantial_urls.py:85-160 | `main` as a method computes the filter's outcome |
| SubstantialFilter.FirstRowNeverData | filter_substantial_urls.py:103-119 | the first row is never treated as data |
| SafeUrls.Traverse | extract_safe_urls.py:20-28 | `traverse` appends exactly the lists found under the value, in pre-order |
| SafeUrls.FindLastContentReferences | extract_safe_urls.py:13-31 | the method returns the last of the lists found, or `[]` |
| SafeUrls.RefsEmptyIff | extract_safe_urls.py:20-28 | no list is found iff no `content_references` key maps to a list anywhere in the value |
| SafeUrls.NoRefsGivesEmpty | extract_safe_urls.py:29-31 | then the result is `[]` |
| SafeUrls.OuterBeforeInner | extract_safe_urls.py:22-25 | a list under `content_references` is recorded before the lists nested inside it |
| SafeUrls.InnerWins | extract_safe_urls.py:22-31 | so a nested list inside it wins |
| SafeUrls.NonListDescended | extract_safe_urls.py:23-25 | a non-list value under `content_references` is not recorded but is descended into |
| SafeUrls.RefsOfConcat | extract_safe_urls.py:21-25 | dict members are visited in order: later members' lists come after earlier ones' |
| SafeUrls.LaterMemberWins | extract_safe_urls.py:21-31 | a later member holding a list decides the result |
| SafeUrls.RefSafeUrls | extract_safe_urls.py:37-41 | an entry contributes exactly the items of its `safe_urls` list, and nothing when it is not a dict or `safe_urls` is not a list |
| SafeUrls.IgnoredEntries | extract_safe_urls.py:38-40 | non-dict entries and non-list `safe_urls` add nothing |
| SafeUrls.SafeUrlSetMembers | extract_safe_urls.py:34-42 | the set is the union of the `safe_urls` lists of the dict entries |
| SafeUrls.Update | extract_safe_urls.py:41 | `set.update` succeeds iff every item is hashable, and then adds exactly the items |
| SafeUrls.AddRef | extract_safe_urls.py:37-41 | one loop pass adds the entry's `safe_urls` |
| SafeUrls.ExtractSafeUrls | extract_safe_urls.py:34-42 | the loop computes the union |
| SafeUrls.FileGroup | extract_safe_urls.py:54-80 | a file contributes a group only with a non-empty URL set that `sorted` can order |
| SafeUrls.OrderableCases | extract_safe_urls.py:70 | `sorted` raises on a set exactly when it holds two items and not all are strings or all numbers (`bool` counting as a number) |
| SafeUrls.OrderableExamples | extract_safe_urls.py:70 | two strings, a number and a `bool`, or any one item can be sorted; a string with a number, or `null` with anything else, cannot |
| SafeUrls.InsertNum | extract_safe_urls.py:70 | inserting a number into an ascending list of numbers keeps it ascending and adds exactly that number |
| SafeUrls.SortedNums | extract_safe_urls.py:70 | `sorted` of a set of numbers: ascending by value, each item once |
| SafeUrls.SortedStrs | extract_safe_urls.py:70 | `sorted` of a set of strings: strictly increasing, each item once |
| SafeUrls.Sorted | extract_safe_urls.py:70 | `sorted(urls)` succeeds iff the set is orderable, and then lists the set's items in ascending order |
| SafeUrls.SortsUrlsSize | extract_safe_urls.py:70 | the sorted list has as many entries as the set has items |
| SafeUrls.GroupsNonEmpty | extract_safe_urls.py:65-72 | every group written has at least one URL |
| SafeUrls.ProcessFile | extract_safe_urls.py:56-80 | the file loop body yields the file's group with its URLs, of any JSON type, sorted ascending, and nothing for a file that fails |
| SafeUrls.CollectGroups | extract_safe_urls.py:54-80 | the loop yields the groups of the files in the order given |
| SafeUrls.SafeUrlsMain | extract_safe_urls.py:45-95 | every name `Path.glob("*.json")` lists, names starting with `.` included, is processed in sorted-name order, each file contributing its group with sorted URLs |
| SafeUrls.TotalIsRowCount | extract_safe_urls.py:83-95 | the printed total, the sum of the set sizes, is the number of rows written |
| Sorting.SortedList | extract_safe_urls.py:51 | `sorted` of a set: a strictly increasing sequence with exactly the set's elements |
| Sorting.SortedUnique | extract_safe_urls.py:51 | two strictly increasing sequences with the same elements are equal |
| Sorting.SortsToSize | extract_safe_urls.py:51 | a sorted set has as many entries as elements |
| AnalysisCsv.HeaderLayout | compile_analysis_csv.py:86-90 | the header is the four fixed columns followed by each factor and its score, 34 columns in all |
| AnalysisCsv.FactorIdDistinct | compile_analysis_csv.py:24-27 | different factor numbers give different ids `F01`..`F15` |
| AnalysisCsv.BaseRow | compile_analysis_csv.py:12-20 | the four fixed cells exist exactly when `meta` is a dict |
| AnalysisCsv.DefaultsKeys | compile_analysis_csv.py:24-27 | the defaults add exactly the factor and score columns |
| AnalysisCsv.DefaultsValues | compile_analysis_csv.py:24-27 | each factor starts `False` and each score `0.0` |
| AnalysisCsv.DefaultsOthers | compile_analysis_csv.py:24-27 | the other cells are left alone |
| AnalysisCsv.FillDefaults | compile_analysis_csv.py:24-27 | the default loop computes the defaults |
| AnalysisCsv.StepCells | compile_analysis_csv.py:29-38 | under the corrected rule (ids `F01`..`F15` only), which every written row follows (`ParsedWritable`), an applied entry sets exactly its own factor and score cells |
| AnalysisCsv.FactorCell | compile_analysis_csv.py:29-38 | under the corrected rule each factor cell holds `present` of the last entry with its id, and its score the `confidence_score`; a later entry overrides an earlier one |
| AnalysisCsv.OtherCells | compile_analysis_csv.py:29-38 | under the corrected rule entries change no other cell and add no column |
| AnalysisCsv.AsWrittenHit | compile_analysis_csv.py:36-38 | as written, an entry whose string id is a key of the row overwrites that cell with `present` and sets the id's score key |
| AnalysisCsv.AsWrittenCell | compile_analysis_csv.py:29-38 | as written, each header cell ends with the last write into it: an entry with id `c` writes `present` into `c`, an entry with id `d` its score into `d_score` |
| AnalysisCsv.StepAgrees | compile_analysis_csv.py:36-38 | on a row with exactly the header columns, an entry naming no fixed or score column is applied alike by both rules |
| AnalysisCsv.AsWrittenAgrees | compile_analysis_csv.py:29-38 | entries naming no fixed or score column give the same row under both rules, with the header's columns |
| AnalysisCsv.AsWrittenExtraColumn | compile_analysis_csv.py:36-38 | as written, once an entry names a fixed or score column the row has a column outside the header |
| AnalysisCsv.ApplyEntries | compile_analysis_csv.py:29-38 | the entry loop with its `fid in row` test computes the factor application, None when an entry makes Python raise |
| AnalysisCsv.ParseJsonFile | compile_analysis_csv.py:8-40 | a row exists only for a file that loads, and is the prefilled row with the factor entries applied |
| AnalysisCsv.ReadRow | compile_analysis_csv.py:8-40 | `parse_json_file` built cell by cell computes that row, as written |
| AnalysisCsv.ParsedColumns | compile_analysis_csv.py:15-38 | under the corrected rule a parsed row has exactly the 34 header columns |
| AnalysisCsv.ParsedWritable | compile_analysis_csv.py:36-38 | as written, `DictWriter` accepts a parsed row iff no entry of the file names a fixed or score column, and then the row is the corrected one |
| AnalysisCsv.ParsedFixedCells | compile_analysis_csv.py:15-20 | under the corrected rule, and so in every written row, `url` defaults to `''`, `fetch_status` and `language` to `'unknown'`, and `is_cited` is the argument |
| AnalysisCsv.ParsedFactorCells | compile_analysis_csv.py:24-38 | under the corrected rule, and so in every written row, each factor and score is the last matching entry's, `False` and `0.0` when there is none |
| AnalysisCsv.AsWrittenAcceptsUrlId | compile_analysis_csv.py:36-38 | as written, an entry with id `url` overwrites the `url` cell and adds `url_score`, a column the header lacks |
| AnalysisCsv.DirRowsCited | compile_analysis_csv.py:53-78 | under the corrected rule every row of a directory carries that directory's `is_cited` |
| AnalysisCsv.DirRowsColumns | compile_analysis_csv.py:53-78 | under the corrected rule every row of a directory has exactly the header columns |
| AnalysisCsv.DirRowsAgree | compile_analysis_csv.py:53-78 | a directory's rows as written equal the corrected ones wherever `DictWriter` accepts them |
| AnalysisCsv.DirRowsEmpty | compile_analysis_csv.py:53-78 | a directory yields no row iff none of its files parses |
| AnalysisCsv.AddDir | compile_analysis_csv.py:53-64 | one directory's loop appends exactly the rows of its parsing files, in order |
| AnalysisCsv.WrittenRowsStops | compile_analysis_csv.py:92-102 | every row written has only header columns, and the row after them, if any, has one outside the header |
| AnalysisCsv.CompileWritten | compile_analysis_csv.py:52-102 | `main` writes the corrected rows, in order, up to the first row that `DictWriter` refuses; each has exactly the 34 header columns |
| AnalysisCsv.UrlIdStopsWriter | compile_analysis_csv.py:36-102 | a single cited file with the entry `{"id": "url", "present": true}` leaves the CSV with the header alone, where the corrected rule writes one row |
| AnalysisCsv.CitedBeforeUncited | compile_analysis_csv.py:52-78 | every written row is flagged 1 or 0, and no uncited row precedes a cited one |
| AnalysisCsv.NothingWritten | compile_analysis_csv.py:80-82 | no output file iff no file of either directory parses |
| AnalysisCsv.WriteRows | compile_analysis_csv.py:93-99 | the `writerow` loop writes the rows up to the first one refused |
| AnalysisCsv.CompileMain | compile_analysis_csv.py:42-102 | `main` as a method computes the rows collected as written and the prefix of them that is written |
| CleanAnalysis.Encode | clean_analysis_data.py:39-61 | the cell is `"1"` or `"0"`; without threshold `"1"` iff the raw cell is `'True'`; with one iff also the score is at least the threshold, an unparseable or missing score counting as 0.0 |
| CleanAnalysis.ThresholdOnlyClears | clean_analysis_data.py:55-58 | the threshold only clears factors, it never sets one |
| CleanAnalysis.EncodedKeys | clean_analysis_data.py:36-61 | a cleaned row has the input row's columns plus the factor columns, and no other |
| CleanAnalysis.EncodedFactor | clean_analysis_data.py:39-61 | each factor cell holds that factor's encoding |
| CleanAnalysis.EncodedOther | clean_analysis_data.py:36 | every non-factor column, the scores included, is copied unchanged |
| CleanAnalysis.EncodedBinary | clean_analysis_data.py:39-61 | every `F01`..`F15` cell is 1 or 0 |
| CleanAnalysis.CleanRowsReference | clean_analysis_data.py:24-65 | output rows are the successful input rows in order, each cleaned; `success_count` is their number, at most `total_count`, the number of input rows |
| CleanAnalysis.KeptSucceeded | clean_analysis_data.py:31-36 | cleaning keeps `fetch_status` of a kept row |
| CleanAnalysis.CleanRow | clean_analysis_data.py:36-61 | the factor loop computes the cleaned row |
| CleanAnalysis.DictWriterStops | clean_analysis_data.py:68-72 | `writerows` writes the rows up to the first with a column outside the header, and stops there |
| CleanAnalysis.DictWriterAll | clean_analysis_data.py:68-72 | when every row fits the header, every row is written |
| CleanAnalysis.CleanedHasFactors | clean_analysis_data.py:39-61 | every cleaned row has the columns `F01`..`F15` |
| CleanAnalysis.HeaderWithoutFactor | clean_analysis_data.py:68-75 | with a header lacking a factor column only the header is written, and the write completes only when no row was kept |
| CleanAnalysis.HeaderWithFactors | clean_analysis_data.py:24-75 | with a header holding the factor columns and every column of the kept rows, all kept rows are written, cleaned and in order |
| CleanAnalysis.SuccessRowsFrom | clean_analysis_data.py:31-34 | every kept row is an input row whose fetch succeeded |
| CleanAnalysis.WriteDictRows | clean_analysis_data.py:72 | the `writerows` loop writes the rows up to the first that does not fit |
| CleanAnalysis.CleanDataMain | clean_analysis_data.py:5-75 | `clean_data` as a method: a missing file gives nothing; otherwise both counts, the header (none for an empty file) and the cleaned rows `writerows` gets out, and whether it completed |
| UncitedInCited.CitedIdsMembers | extract_uncited_urls_in_cited_conversations.py:13-16 | the id set holds exactly the non-empty `conversation_id` values of the cited rows |
| UncitedInCited.CollectIds | extract_uncited_urls_in_cited_conversations.py:11-16 | the first loop computes that set |
| UncitedInCited.FilteredDefined | extract_uncited_urls_in_cited_conversations.py:30-32 | the filter succeeds iff every uncited row has a `conversation_id` column |
| UncitedInCited.FilteredMembers | extract_uncited_urls_in_cited_conversations.py:30-32 | a row is output iff it is an uncited row whose id is in the set |
| UncitedInCited.FilteredConcat | extract_uncited_urls_in_cited_conversations.py:30-32 | the filter keeps order: it distributes over concatenation |
| UncitedInCited.EmptyIdNeverOutput | extract_uncited_urls_in_cited_conversations.py:15-31 | a row with an empty id is never output |
| UncitedInCited.FilterRows | extract_uncited_urls_in_cited_conversations.py:25-32 | the filter loop computes the filtered rows |
| UncitedInCited.MissingCitedIgnoresUncited | extract_uncited_urls_in_cited_conversations.py:18-20 | a missing cited file ends the run, whatever the uncited file holds |
| UncitedInCited.JoinOutput | extract_uncited_urls_in_cited_conversations.py:25-39 | the output has the uncited file's field names; every row written is an uncited row whose id is cited, and when the write completes those are exactly all of them |
| UncitedInCited.EmptyUncitedRaises | extract_uncited_urls_in_cited_conversations.py:26-38 | an empty uncited file has no field names, so `writeheader` raises and nothing is written |
| UncitedInCited.JoinWriterStops | extract_uncited_urls_in_cited_conversations.py:36-39 | `writerows` writes the joined rows in order up to the first with a column outside the field names, and completes iff there is none |
| UncitedInCited.JoinCompletes | extract_uncited_urls_in_cited_conversations.py:28-39 | when the uncited rows have only the file's columns, every joined row is written |
| UncitedInCited.JoinMain | extract_uncited_urls_in_cited_conversations.py:3-44 | `main` as a method computes the join's outcome: a missing file, the KeyError, or the header and the rows written |
| ExtractFeatures.CleanTextWords | extract_features.py:33-38 | `clean_text` is the words of the text joined by single spaces |
| ExtractFeatures.CleanTextSpaced | extract_features.py:33-38 | the cleaned text has no leading, trailing or doubled white space |
| ExtractFeatures.CleanTextIdempotent | extract_features.py:33-38 | cleaning twice is cleaning once |
| ExtractFeatures.Collapse | extract_features.py:37 | `re.sub(r'\s+', ' ')` is empty iff its input is, and starts with white space iff its input does |
| ExtractFeatures.WordsOfJoin | extract_features.py:33-38 | splitting words joined by spaces gives the words back |
| ExtractFeatures.FetchContent | extract_features.py:40-70 | the status is "success" or "failed", "failed" iff the fetch raised (with its message); a fetched text is the cleaned text when it has at most 100000 characters, and exactly its first 100000 characters otherwise |
| ExtractFeatures.ReplaceAllIsJoin | extract_features.py:99 | `str.replace` is `rep.join(s.split(pat))` |
| ExtractFeatures.Prompt | extract_features.py:99-105 | the prompt is the base prompt with every `PUT_URL_HERE` replaced by the URL, then the text between its markers |
| ExtractFeatures.PromptText | extract_features.py:105 | the page text sits right after the start marker and is followed only by the end marker |
| ExtractFeatures.UnfenceJson | extract_features.py:117-119 | a reply fenced by ```` ```json ```` and ```` ``` ```` gives its body (`text[7:-3]`) |
| ExtractFeatures.UnfencePlain | extract_features.py:120-121 | a reply fenced by ```` ``` ```` alone gives its body (`text[3:-3]`) |
| ExtractFeatures.UnfenceUnclosed | extract_features.py:117-119 | without a closing fence the slice still drops the last three characters |
| ExtractFeatures.UnfenceUnfenced | extract_features.py:115-122 | a reply without a fence is used stripped |
| ExtractFeatures.FetchFailureRecord | extract_features.py:81-95 | a fetch failure gives the fetch failure record, and the model is never asked |
| ExtractFeatures.Extract | extract_features.py:73-139 | a failed fetch gives the fetch failure record; otherwise the result is a value `json.loads` returned or the model failure record |
| ExtractFeatures.ReplyParsed | extract_features.py:99-114 | a reply that parses is the result |
| ExtractFeatures.ReplyFallback | extract_features.py:115-139 | a reply that does not parse is stripped, unfenced and parsed again; that value is the result, and a second failure gives the model failure record with the decoder's message |
| ExtractFeatures.ModelRaises | extract_features.py:124-139 | a model exception gives the failure record with gap "LLM processing failed" |
| ExtractFeatures.FailureMeta | extract_features.py:81-95 | a failure record's `meta` has the URL, `fetch_status` "failed" and `language` "unknown" |
| ExtractFeatures.FailureLoads | extract_features.py:81-95 | a failure record has an empty factor list |
| ExtractFeatures.FailureRecordRow | extract_features.py:81-95 | a failure record compiles to a row with its URL, status "failed", language "unknown" and every factor False with score 0.0 |
| FeatureAgent.CleanOutput | extract_features_with_agent.py:199-203 | the step-by-step clean-up strips, drops a leading ```` ```json ```` and then a trailing ```` ``` ```` |
| FeatureAgent.StripFencesBlock | extract_features_with_agent.py:199-203 | a fenced block yields exactly its body |
| FeatureAgent.StripFencesPlain | extract_features_with_agent.py:199-203 | text without fences is only stripped |
| FeatureAgent.Preview | extract_features_with_agent.py:225 | the preview is the whole text up to 500 characters, else its first 500 and `...` |
| FeatureAgent.NoFileWithout | extract_features_with_agent.py:181-230 | without an API key, without the agent, or when the workflow raises, no file is written |
| FeatureAgent.AgentRunWrites | extract_features_with_agent.py:205-225 | a written file's name matches the dispatcher's glob for the URL, and its text is the raw output when the cleaned text does not parse |
| FeatureAgent.AgentMain | extract_features_with_agent.py:177-230 | `main` as a method computes the run |
| WebContent.SplitLines | extract_web_content.py:47 | `splitlines()` pieces contain no line break |
| WebContent.LinePhrases | extract_web_content.py:48 | one stripped phrase per double-space piece of the stripped line |
| WebContent.NonEmpty | extract_web_content.py:49 | only the non-empty chunks are kept |
| WebContent.ChunksShape | extract_web_content.py:47-48 | every phrase is stripped and lies within one line |
| WebContent.CleanLinesLines | extract_web_content.py:47-49 | the cleaned text's lines are exactly the kept phrases, each non-empty with no leading or trailing white space; no phrase gives the empty text |
| WebContent.ExtractContent | extract_web_content.py:20-62 | a timeout gives the error "Timeout", a request failure its message; a success carries the cleaned text |
| WebContent.Dashes | extract_web_content.py:89 | the rule is 50 dashes |
| WebContent.ProcessSingleUrl | extract_web_content.py:63-94 | the work item computes the step |
| WebContent.ExistingSkipped | extract_web_content.py:77-78 | an existing file is neither fetched again nor rewritten |
| WebContent.StepWrites | extract_web_content.py:77-94 | a failed page writes nothing; a fetched page writes exactly its own file |
| WebContent.FileTextLines | extract_web_content.py:86-90 | a written file is the URL line, the title line, the rule, then the text's lines |
| WebContent.NatToStringInjective | extract_web_content.py:74 | `str(n)` is injective |
| WebContent.FileNamesDistinct | extract_web_content.py:73-74 | different rows never share a file name, whatever their conversation ids |
| WebContent.ProcessCsv | extract_web_content.py:96-120 | the work items, run one after the other, give the final directory; the run raises iff a row lacks a key |
| WebContent.RunPrefixKept | extract_web_content.py:116-120 | the files of the items before any given item stay, unchanged, whatever the later items do |
| WebContent.StepRaises | extract_web_content.py:68-70 | a work item raises iff its row lacks `url` or `conversation_id` |
| WebContent.StepKeeps | extract_web_content.py:77-92 | a work item never removes or rewrites a file already there |
| WebContent.RunKeeps | extract_web_content.py:114-120 | files present before the run are all there afterwards, unchanged |
| WebContent.RunLands | extract_web_content.py:114-120 | after the run every row whose page was fetched has its file |
| WebContent.RunStable | extract_web_content.py:77-78 | a directory that already has every landing row's file is left unchanged |
| WebContent.RunIdempotent | extract_web_content.py:77-78 | running again over the output changes nothing |
| UrllibParse.UrlParseHierarchical | extract_urls_from_conversations.py:13 | `scheme://host/path` with an accepted host (balanced brackets, no NFKC delimiter) parses into its lower-cased scheme, host and path |
| UrllibParse.UrlSplitHierarchical | extract_urls_from_conversations.py:13 | `urlsplit` of `scheme://host/path` gives that scheme, host and path, a `;` staying in the path |
| UrllibParse.UrlParseParams | extract_urls_from_conversations.py:13 | for a scheme that uses params, `scheme://host/path;p` parses with `p` as its params |
| UrllibParse.UrlParseWithQueryFragment | extract_urls_from_conversations.py:13 | appending `?q#f` to a URL without `?` or `#` sets the query and fragment and changes nothing else |
| UrllibParse.NfkcDelimiterHost | extract_urls_from_conversations.py:13 | a host followed by an NFKC delimiter is not one `urlsplit` accepts |
| UrllibParse.AsciiNfkcSafe | extract_urls_from_conversations.py:13 | an ASCII network location passes the NFKC test |
| UrllibParse.UrlParseRejected | extract_urls_from_conversations.py:38-40 | a host with `[` but no `]`, or the reverse, or with an NFKC delimiter, makes parsing raise |
| UrllibParse.UrlParseNoBrackets | extract_urls_from_conversations.py:13 | a URL without square brackets or NFKC delimiters always parses |
| UrllibParse.UrlParseAppendQuery | extract_urls_from_conversations.py:13 | appending `?q` to a URL without query or fragment sets the query and changes nothing else |
| UrllibParse.UrlParseAppendFragment | extract_urls_from_conversations.py:13 | appending `#f` to a URL without fragment sets the fragment and changes nothing else |
| UrllibParse.UrlParseAbsent | extract_urls_from_conversations.py:13 | a non-letter absent from the URL is absent from every component |
| UrllibParse.ParseQslConcat | extract_urls_from_conversations.py:14 | `parse_qsl` of `a&b` is the pairs of `a` followed by those of `b` |
| UrllibParse.ParseQsWellFormed | extract_urls_from_conversations.py:14 | every multimap `parse_qs` returns is well-formed |
| UrllibParse.RemoveName | extract_urls_from_conversations.py:17-18 | `del` removes exactly the entries of that name |
| UrllibParse.RemoveNameAbsent | extract_urls_from_conversations.py:17-18 | `del` of an absent name changes nothing |
| UrllibParse.RemoveNameWellFormed | extract_urls_from_conversations.py:17-18 | `del` keeps a multimap well-formed |
| UrllibParse.ParseQslUrlEncode | extract_urls_from_conversations.py:21 | `parse_qsl(urlencode(m, doseq=True))` lists the pairs of `m` in order |
| UrllibParse.ParseQsUrlEncode | extract_urls_from_conversations.py:14-21 | `parse_qs(urlencode(m, doseq=True)) == m` for every well-formed multimap |
| Json.Lookup | extract_safe_urls.py:38 | `d[key]` is None iff no member has that key, else the value of a member with it |
| Json.Collect | extract_urls_from_conversations.py:131-140 | a loop adding sets succeeds iff every body does, and gives the union |
| Strings.SplitOnJoin | extract_web_content.py:48 | splitting at a character that no piece holds inverts joining |
| Strings.StripNoop | extract_web_content.py:48 | `strip()` leaves a string without outer white space unchanged |
| Strings.LowerIdempotent | batch_run_agent.py:27-28 | lower-casing twice is lower-casing once |

## Left out

- Concurrency: the `asyncio.Semaphore`/`gather` bound of 50 in batch_run_agent.py:100-105 and the `ThreadPoolExecutor` of extract_web_content.py:116-120 are modelled as sequential loops; the interleavings are not modelled.
- WebContent.ProcessCsv: when a worker raises, the iterator of `executor.map` re-raises in row order and cancels the items that have not started. The method runs every item, which is the largest of the possible outcomes. `WebContent.RunPrefixKept` states what every outcome keeps: the files of the items before the raising one.
- Network, LLM and HTML: `requests.get`, BeautifulSoup, Gemini `generate_content` and the agent workflow are parameters: a fetch outcome, a reply, an `output_text`.
- File and CSV I/O: `open`, `os.listdir`, `glob`, `os.path.exists`, `os.makedirs` and the CSV reader and writer are inputs and outputs (maps and row sequences). Errors from `open` and from writing to the file are not modelled. The `ValueError` that `csv.DictWriter` raises on a row with a column outside its header is modelled. The directory listing order is an input.
- `json.load`, `json.loads` and `json.dumps` are parameters or already-parsed values. All JSON numbers are reals, so `0` and `0.0` are one value.
- `float()` of a score cell (clean_analysis_data.py:50) is the parameter `parse`.
- `datetime.now()` timestamps are opaque strings.
- `print` and logging are left out.
- urllib.parse: percent-decoding, `+` as space in `parse_qs` and `quote_plus` in `urlencode` are left out. Names and values pass through unchanged.
- urllib.parse: the check of bracketed hosts (IPv6 and IPvFuture literals) that CPython 3.12 added to `urlsplit` is left out; the model follows the 3.11 series from 3.11.4.
- `str.isalnum` and `str.lower` are ASCII only, so non-ASCII letters count as unsafe characters and are not lower-cased.
- `csv.DictReader` filling short rows with `None` is not modelled; rows are maps from the columns they have. The extra cells of a long row, which it files under the key `None`, are modelled as a column outside the header.
- Not part of this model: analyze_factors_regression.py (floating-point statistics), prompt.py (one string constant), extract_unique_cited_conversations.py (a pandas `drop_duplicates` wrapper), `setup_gemini`, the API key check and command-line handling of extract_features.py, and the `--test` path of extract_web_content.py.
- WebContent.ExtractContent: states each fetch outcome's result as implications (timeout, request failure, success); the `title.string` cases beyond a missing `<title>` tag are left to the function's body.
- FeatureAgent.AgentRun: the `data = {"error": ...}` assignment in the decode-error branch (extract_features_with_agent.py:207-211) is never used afterwards and is not modelled.
- BatchRunAgent.BatchMain: `(dir', calls)` is the state after the sequential run; which agent run sees which directory under concurrency is not modelled.
- AnalysisCsv.StepCells: states the corrected rule of the Findings row (ids `F01`..`F15` only). Every row the script as written gets into the CSV is that rule's row (`AnalysisCsv.ParsedWritable`, `AnalysisCsv.CompileWritten`); the as-written cells are `AnalysisCsv.AsWrittenCell`.
- AnalysisCsv.FactorCell: states the corrected rule of the Findings row (ids `F01`..`F15` only). Every row the script as written gets into the CSV is that rule's row (`AnalysisCsv.ParsedWritable`, `AnalysisCsv.CompileWritten`); the as-written cells are `AnalysisCsv.AsWrittenCell`.
- AnalysisCsv.OtherCells: states the corrected rule of the Findings row (ids `F01`..`F15` only). Every row the script as written gets into the CSV is that rule's row (`AnalysisCsv.ParsedWritable`, `AnalysisCsv.CompileWritten`); the as-written cells are `AnalysisCsv.AsWrittenCell`.
- AnalysisCsv.ParsedFixedCells: states the corrected rule of the Findings row (ids `F01`..`F15` only). Every row the script as written gets into the CSV is that rule's row (`AnalysisCsv.ParsedWritable`, `AnalysisCsv.CompileWritten`); the as-written cells are `AnalysisCsv.AsWrittenCell`.
- AnalysisCsv.ParsedFactorCells: states the corrected rule of the Findings row (ids `F01`..`F15` only). Every row the script as written gets into the CSV is that rule's row (`AnalysisCsv.ParsedWritable`, `AnalysisCsv.CompileWritten`); the as-written cells are `AnalysisCsv.AsWrittenCell`.
- AnalysisCsv.DirRowsCited: states the corrected rule of the Findings row (ids `F01`..`F15` only). Every row the script as written gets into the CSV is that rule's row (`AnalysisCsv.ParsedWritable`, `AnalysisCsv.CompileWritten`); the as-written cells are `AnalysisCsv.AsWrittenCell`.
- ConversationUrls.ClassifyFile: the cited set is a set of JSON values, so items with `"url": true` and `"url": 1` (or `false` and `0`) give two cited rows, where Python's set, for which `True == 1`, keeps only the first of them.
- ConversationUrls.ClassifyFolder: inherits from `ConversationUrls.ClassifyFile` the two cited rows for `true` and `1` (and `false` and `0`) in one transcript.
- SafeUrls.FileGroup: the URL set is a set of JSON values, so `true` and `1` (and `false` and `0`) are two items, where Python's set keeps only the first of them. With both present, `SafeUrls.SortsUrls` leaves their order open.
- SafeUrls.CsvRows: a row holds the URL as a JSON value; how `csv.writer` renders a number, a `bool` or `null` is not modelled.
- ConversationUrls.EmitRows: the order in which Python iterates a set is not modelled, so rows are stated as a multiset.

## Findings

| source | as written | input that shows it | evidently intended | confidence | as-written member | corrected member |
|---|---|---|---|---|---|---|
| compile_analysis_csv.py:36-38 | `if fid in row` admits any key of the row, including the fixed columns `url`, `is_cited`, `fetch_status` and `language` and the score columns | a factor entry `{"id": "url", "present": true}` replaces the page URL by `True` and adds a `url_score` column; that column is not among the 34 header fields, so `DictWriter.writerow` raises `ValueError`, which the `except` at lines 101-102 catches, leaving the CSV cut short (with that file alone, the header only) | only the factors `F01`..`F15` are applied (as the comment at lines 34-35 says) | not executed | AnalysisCsv.UrlIdStopsWriter | AnalysisCsv.ParsedColumns |
