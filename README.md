# Function-call extraction from an upstream model reply

This project models `extract_function_calls`, the one piece of decision logic in
the chat-completion proxy. The proxy forwards requests to an upstream language model.
The function post-processes the model's free-text reply:

1. It finds brace-delimited candidates with the lazy regular expression `\{.*?\}`, left to right and without overlaps (`find_iter`).
2. It tries to parse each candidate as JSON.
3. It returns the re-serialised JSON of the first candidate that parses to a value with a top-level `function_call` or `name` key.
4. If no candidate qualifies, it returns the reply unchanged.

The model is in four files:

- `json.dfy` (modules `Wrappers` and `Json`): the `Option` type, JSON values, the `get(key)` lookup, and the `function_call`/`name` marker test.
- `brace_match.dfy` (module `BraceMatch`): the regular expression and `find_iter`, defined directly.
  - `PatternMatch`, `LazyMatch` and `MatchStartsAt` are the reference semantics: what the pattern matches, the shortest match the lazy `.*?` picks, and leftmost-first search.
  - `NextCandidate` is the recursive search from a resume position.
  - `Matches` is the full sequence of matches.
  - `NextMatch` is an imperative single-pass scanner proved equal to `NextCandidate`.
- `function_extractor.dfy` (module `FunctionExtractor`): the extraction.
  - `Scan` is the loop as a recursive function, and `Extraction` is the returned string.
  - `ExtractFunctionCalls` is the imperative loop with its early return, proved equal to `Extraction`.
  - The lemmas state passthrough, first-match-wins, skipping and independence from later text.
- `function_extractor_tests.dfy` (module `FunctionExtractorTests`): the three unit tests of the source and further scenarios, as lemmas.

The JSON parser (`serde_json::from_str`) and serialiser (`serde_json::to_string`) are parameters, `parse: string -> Option<Json>` and `serialize: Json -> string`. `parse` answers `None` where the parser reports an error. Where a test depends on the parser rejecting a particular malformed candidate, that rejection is a hypothesis of the lemma.

What the extractor's code does, where one might expect otherwise:

- The code does no bracket balancing. A candidate ends at the first `}` after its `{` on the same line, so a nested object such as `{"function_call": {"name": "f"}}` yields only the candidate `{"function_call": {"name": "f"}`. `NestedCallNotBalanced` shows this.
- There is no separate strict `function_call` matcher and no provenance tag.
- A candidate that fails to parse does not end the search. The next candidate is tried.
- What is returned is the re-serialisation of the parsed value, not the slice of the reply.
- The unit test `test_extract_valid_function_call` uses a raw string, so its `\"` are a backslash followed by a quote. Its only candidate is not JSON, and the test's `contains` assertions hold because the reply is passed through unchanged, not because anything is extracted. `ExtractValidFunctionCall` states exactly this.

## Model

| member | source | states |
|---|---|---|
| `Json.Get` | src/function_extractor.rs:14 | `get(key)` finds the field of an object, and nothing for any value that is not an object or lacks the key |
| `Json.FunctionCallIsObject` | src/function_extractor.rs:14 | the marker (a `function_call` or `name` key) holds only of objects, and of an object exactly when it has one of the two keys |
| `BraceMatch.LazyMatchUnique` | src/function_extractor.rs:7 | at a given `{` the lazy pattern selects at most one end |
| `BraceMatch.LazyMatchShape` | src/function_extractor.rs:7 | every candidate starts with `{`, ends with `}`, and has no other `}` and no line feed inside (further `{` allowed) |
| `BraceMatch.FindClose` | src/function_extractor.rs:7 | finds the first `}` reached before any line feed; when it finds none, every later `}` has a line feed before it |
| `BraceMatch.NextCandidate` | src/function_extractor.rs:7-9 | a found span is the shortest match at its start, at or after the resume point, and no match starts between the resume point and it; when nothing is found, no match starts anywhere after the resume point |
| `BraceMatch.NextCandidateIsLeftmost` | src/function_extractor.rs:7-9 | conversely, the leftmost lazy match after the resume point is exactly what the search returns |
| `BraceMatch.NextCandidateOfText` | src/function_extractor.rs:7-9 | no `{` before position `st`, then `{`, then no `}` or line feed, then `}`: the search returns that span |
| `BraceMatch.NextCandidatePrefix` | src/function_extractor.rs:7-9 | the next match depends only on the text up to its end |
| `BraceMatch.NoOpenBraceNoCandidate` | src/function_extractor.rs:7-9 | without a `{` there is no candidate |
| `BraceMatch.FindCloseBeforeFeed` | src/function_extractor.rs:7 | with no `}` before the next line feed or the end of the text, a `{` finds no closer |
| `BraceMatch.FindCloseSkip` | src/function_extractor.rs:7 | characters other than `}` and line feed do not change where a closer search ends |
| `BraceMatch.LineWithoutClose` | src/function_extractor.rs:7 | a `{` whose line has no `}` after it is skipped: the search resumes after the line feed with the same result |
| `BraceMatch.Matches` | src/function_extractor.rs:9 | `find_iter` yields lazy matches at or after the start, left to right and never overlapping |
| `BraceMatch.MatchesExhaustive` | src/function_extractor.rs:9 | `find_iter` misses no match: none starts before the first, between two consecutive ones (each search resumes just after the previous `}`), or after the last |
| `BraceMatch.NextMatch` | src/function_extractor.rs:7-9 | the single-pass scan that forgets a pending `{` at a line feed returns exactly the next match |
| `FunctionExtractor.Scan` | src/function_extractor.rs:9-20 | a scan that stops does so at a lazy match whose text parses to a value carrying the marker |
| `FunctionExtractor.CandidateText` | src/function_extractor.rs:10 | each candidate string has at least two characters, opens with `{`, closes with `}`, and has no other `}` and no line feed inside |
| `FunctionExtractor.CandidateTextShift` | src/function_extractor.rs:9 | after the first match, the remaining candidates are those found from just after its `}` |
| `FunctionExtractor.ScanNotFound` | src/function_extractor.rs:9-23 | the scan finds nothing if and only if no candidate both parses and carries the marker |
| `FunctionExtractor.ScanFirstQualifying` | src/function_extractor.rs:9-18 | if the k-th candidate qualifies and none before it does, the scan stops at the k-th match with its parsed value |
| `FunctionExtractor.PassthroughWhenNoneQualifies` | src/function_extractor.rs:22-23 | when no candidate qualifies, the output is the input exactly |
| `FunctionExtractor.FirstQualifyingWins` | src/function_extractor.rs:14-17 | when candidate k is the first to qualify, the output is `serialize` of its parse, not its raw text |
| `FunctionExtractor.NonQualifyingCandidateSkipped` | src/function_extractor.rs:12-14 | a candidate that fails to parse, or parses without either key, is passed over and the search resumes after its `}` |
| `FunctionExtractor.ScanIgnoresLaterText` | src/function_extractor.rs:9-17 | text agreeing with the reply up to the end of the qualifying candidate scans to the same verdict |
| `FunctionExtractor.ResultIgnoresLaterText` | src/function_extractor.rs:9-17 | because of the early return, nothing after the first qualifying candidate affects the output |
| `FunctionExtractor.NoOpenBracePassthrough` | src/function_extractor.rs:7-23 | a reply with no `{` comes back unchanged, whatever the parser does |
| `FunctionExtractor.NoCandidatePassthrough` | src/function_extractor.rs:7-23 | a reply with no `{…}` on one line comes back unchanged |
| `FunctionExtractor.ExtractFunctionCalls` | src/function_extractor.rs:4-24 | the loop over the matches with its early return computes exactly `Extraction` |
| `FunctionExtractorTests.ContainsSelf` | src/function_extractor.rs:34-35 | every string contains itself, the base case for the `contains` assertions |
| `FunctionExtractorTests.ContainsGrows` | src/function_extractor.rs:34-35 | containment survives adding text on either side |
| `FunctionExtractorTests.SingleBracePair` | src/function_extractor.rs:7-10 | no `{` before a `{`, no `}` or line feed until the next `}`, and no `{` after it: that span is the only match, and its text is the only candidate |
| `FunctionExtractorTests.OneCandidate` | src/function_extractor.rs:7-10 | text without `{`, then one single-line `{…}`, then text without `{` yields exactly that one candidate |
| `FunctionExtractorTests.RejectedOnlyCandidate` | src/function_extractor.rs:9-23 | such a reply whose one candidate does not qualify comes back unchanged |
| `FunctionExtractorTests.NoFunctionCallReturnsOriginal` | src/function_extractor.rs:38-43 | "No json here at all" comes back unchanged, for every parser |
| `FunctionExtractorTests.MalformedJsonIgnored` | src/function_extractor.rs:45-51 | the truncated call's only candidate runs to the final `}`; if the parser rejects it, the input comes back unchanged |
| `FunctionExtractorTests.RawCallInputMentions` | src/function_extractor.rs:32-35 | the raw-string test input contains `my_func` and `arg1` |
| `FunctionExtractorTests.RawCallBodyOnOneLine` | src/function_extractor.rs:32 | the first candidate of the raw-string input has no inner `}` and no line feed |
| `FunctionExtractorTests.ExtractValidFunctionCall` | src/function_extractor.rs:30-36 | with its only candidate rejected, the raw-string input is passed through, and so the output contains `my_func` and `arg1` |
| `FunctionExtractorTests.KeyValueOnlyCandidate` | src/function_extractor.rs:7-10 | in `Some text {"key": "value"} more text` the only candidate is exactly `{"key": "value"}`, at characters 10 to 26 |
| `FunctionExtractorTests.KeyValueObjectSkipped` | src/function_extractor.rs:9-23 | that candidate parses to an object without either key, so it is skipped and the input comes back unchanged |
| `FunctionExtractorTests.NamedCallExtractedWhateverFollows` | src/function_extractor.rs:14-17 | a first candidate parsing to an object with `name` gives `serialize` of that object, whatever text follows it |
| `FunctionExtractorTests.NestedCallNotBalanced` | src/function_extractor.rs:5-7 | in `{"function_call": {"name": "f"}}` the only candidate stops at the inner `}`; once it is rejected, the call is not extracted |
| `FunctionExtractorTests.LineFeedSkipsBrace` | src/function_extractor.rs:7 | a `{` followed by a line feed starts no match; the only candidate is the `{}` after it |

## Left out

- JSON parsing and serialisation (`serde_json`) are foreign code. They are parameters, so the model says nothing about which strings parse or how values print. Consequently, re-extracting from the function's own output (idempotence) is not stated: it depends on how the serialiser orders keys and escapes strings.
- The `regex` crate is not used. Its semantics for the one fixed pattern are defined directly.
- Positions are character indices. The source's match offsets are UTF-8 byte offsets; the candidate strings are the same.
- `ExtractFunctionCalls`: returns the `Ok` value only. The `Err` paths of `Regex::new` (src/function_extractor.rs:7) and of `serde_json::to_string` (:16) are left out, because neither can fire for a fixed valid pattern and an already parsed value.
- JSON objects are maps from keys to values, so key order is not kept. This matches `serde_json` built without its `preserve_order` feature, where an object is a sorted `BTreeMap`; with that feature the serialiser keeps insertion order, which the model does not capture.
- JSON numbers are integers. Floating point is not modelled; it does not affect the key test.
- Server start-up, routing, request handlers and the upstream HTTP client are I/O plumbing and are not part of this model (src/main.rs, src/routes.rs, src/routes/mod.rs, src/handlers.rs, src/llm_client.rs). So are configuration loading (src/config.rs) and the plain data records (src/models.rs).
- my_rust_project/src/main.rs holds OpenAPI glue, placeholder functions, clock timestamps and a dummy upstream response, with no decision logic. It is not part of this model.
- Balanced-bracket scanning, a strict `function_call` pattern matcher and provenance tagging do not appear in the extractor's code, so they are not modelled.
