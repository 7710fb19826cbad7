/**
 * The unit tests of `extract_function_calls`, and a few further scenarios,
 * stated as lemmas about the model. Where a test relies on the JSON parser
 * rejecting a particular candidate, that rejection is a hypothesis.
 * Inputs are written as concatenations of pieces cut at word seams, each
 * short enough for the verifier to read character by character; the pieces
 * joined give the test's text character for character.
 */
module FunctionExtractorTests {
  import opened Wrappers
  import opened Json
  import opened BraceMatch
  import opened FunctionExtractor

  /** `t` occurs in `s`, as `str::contains` asks. */
  ghost predicate Contains(s: string, t: string) {
    exists i :: 0 <= i <= |s| && t <= s[i..]
  }

  /** No character of `t` is `c`. */
  ghost predicate Lacks(t: string, c: char) {
    forall k :: 0 <= k < |t| ==> t[k] != c
  }

  lemma ContainsSelf(t: string)
    ensures Contains(t, t)
  {
    assert t <= t[0..];
  }

  lemma ContainsGrows(x: string, s: string, y: string, t: string)
    requires Contains(s, t)
    ensures Contains(x + s, t) && Contains(s + y, t)
  {
    var i :| 0 <= i <= |s| && t <= s[i..];
    assert t <= (x + s)[|x| + i..];
    assert t <= (s + y)[i..];
  }

  lemma LacksConcat(a: string, b: string, c: char)
    requires Lacks(a, c) && Lacks(b, c)
    ensures Lacks(a + b, c)
  {
  }

  /**
   * `s` has no `{` before `p`, a `{` at `p`, no `}` or line feed up to the
   * `}` at `en - 1`, and no `{` from `en` on.
   */
  ghost predicate SinglePairAt(s: string, p: int, en: int) {
    && 0 <= p && p + 2 <= en <= |s|
    && (forall k :: 0 <= k < p ==> s[k] != '{')
    && s[p] == '{' && s[en - 1] == '}'
    && (forall k :: p < k < en - 1 ==> s[k] != '}' && s[k] != '\n')
    && (forall k :: en <= k < |s| ==> s[k] != '{')
  }

  /** In such a text, `s[p..en]` is the one and only candidate. */
  lemma SingleBracePair(s: string, p: nat, en: nat)
    requires SinglePairAt(s, p, en)
    ensures Matches(s, 0) == [(p, en)]
    ensures CandidateText(s, 0, 0) == s[p..en]
  {
    NextCandidateOfText(s, 0, p, en);
    NoOpenBraceNoCandidate(s, en);
    assert Matches(s, 0) == [(p, en)] + Matches(s, en);
  }

  /** Text without `{`, a single-line `{ ... }`, and text without `{` make such a text. */
  lemma PiecesLayout(prefix: string, body: string, suffix: string)
    requires Lacks(prefix, '{') && Lacks(body, '}') && Lacks(body, '\n') && Lacks(suffix, '{')
    ensures SinglePairAt(prefix + "{" + body + "}" + suffix, |prefix|, |prefix| + |body| + 2)
    ensures (prefix + "{" + body + "}" + suffix)[|prefix|..|prefix| + |body| + 2] == "{" + body + "}"
  {
    var s, p, en := prefix + "{" + body + "}" + suffix, |prefix|, |prefix| + |body| + 2;
    assert forall k :: 0 <= k < p ==> s[k] == prefix[k];
    assert forall k :: p < k < en - 1 ==> s[k] == body[k - p - 1];
    assert forall k :: en <= k < |s| ==> s[k] == suffix[k - en];
  }

  /**
   * A reply made of text without `{`, one `{ ... }` on a single line, and
   * text without `{`: the brace pair is the one and only candidate.
   */
  lemma OneCandidate(prefix: string, body: string, suffix: string)
    requires Lacks(prefix, '{') && Lacks(body, '}') && Lacks(body, '\n') && Lacks(suffix, '{')
    ensures Matches(prefix + "{" + body + "}" + suffix, 0) == [(|prefix|, |prefix| + |body| + 2)]
    ensures CandidateText(prefix + "{" + body + "}" + suffix, 0, 0) == "{" + body + "}"
  {
    var s := prefix + "{" + body + "}" + suffix;
    PiecesLayout(prefix, body, suffix);
    SingleBracePair(s, |prefix|, |prefix| + |body| + 2);
    assert Matches(s, 0) == [(|prefix|, |prefix| + |body| + 2)];
  }

  /** With a single candidate the parser rejects, the reply comes back as it was. */
  lemma RejectedOnlyCandidate(prefix: string, body: string, suffix: string,
                              parse: string -> Option<Json>, serialize: Json -> string)
    requires Lacks(prefix, '{') && Lacks(body, '}') && Lacks(body, '\n') && Lacks(suffix, '{')
    requires !Qualifies(parse("{" + body + "}"))
    ensures Extraction(prefix + "{" + body + "}" + suffix, parse, serialize) == prefix + "{" + body + "}" + suffix
  {
    OneCandidate(prefix, body, suffix);
    PassthroughWhenNoneQualifies(prefix + "{" + body + "}" + suffix, parse, serialize);
  }

  /** `test_no_function_call_returns_original`: a reply without braces comes back as it was. */
  lemma NoFunctionCallReturnsOriginal(parse: string -> Option<Json>, serialize: Json -> string)
    ensures Extraction("No json here at all", parse, serialize) == "No json here at all"
  {
    var s := "No json here at all";
    assert forall k :: 0 <= k < |s| ==> s[k] != '{';
    NoOpenBracePassthrough(s, parse, serialize);
  }

  /** Between the braces of the malformed test's only candidate. */
  const BrokenBody := "\"function_call\": {" + "\"name\": \"my_func\", " + "some broken json "

  /**
   * `test_malformed_json_ignored`: the one candidate runs from the first `{`
   * to the final `}` (the inner `{` does not start another); once the parser
   * rejects it, the reply comes back as it was.
   */
  lemma MalformedJsonIgnored(parse: string -> Option<Json>, serialize: Json -> string)
    requires parse("{" + BrokenBody + "}").None?
    ensures Extraction("Some text " + "{" + BrokenBody + "}", parse, serialize) == "Some text " + "{" + BrokenBody + "}"
  {
    assert "Some text " + "{" + BrokenBody + "}" == "Some text " + "{" + BrokenBody + "}" + "";
    RejectedOnlyCandidate("Some text ", BrokenBody, "", parse, serialize);
  }

  /**
   * The text between the braces of the first candidate of
   * `test_extract_valid_function_call`. Its input is a raw string, so every
   * `\"` in it is a backslash followed by a quote: the candidate ends at
   * the `}` after `value1\\\"`, and it is not JSON.
   */
  const RawCallBody := RawCallLead + "my_func" + RawCallMid + "arg1" + RawCallEnd
  const RawCallLead := @"\""function_call\"": {" + @"\""name\"": \"""
  const RawCallMid := @"\"", " + @"\""arguments\"": " + @"\""{\\\"""
  const RawCallEnd := @"\\\"": \\\""" + @"value1\\\"""

  /** What follows that candidate: no further `{`. */
  const RawCallTail := @"\""}} " + @"some more text"

  /** The whole input of `test_extract_valid_function_call`. */
  const RawCallInput := "Some text " + "{" + RawCallBody + "}" + RawCallTail

  /** The input still holds `my_func` and `arg1`. */
  lemma RawCallInputMentions(t: string)
    requires t == "my_func" || t == "arg1"
    ensures Contains(RawCallInput, t)
  {
    ContainsSelf(t);
    if t == "my_func" {
      ContainsGrows(RawCallLead, t, "", t);
      ContainsGrows("", RawCallLead + t, RawCallMid, t);
      ContainsGrows("", RawCallLead + t + RawCallMid, "arg1", t);
    } else {
      ContainsGrows(RawCallLead + "my_func" + RawCallMid, t, "", t);
    }
    ContainsGrows("", RawCallLead + "my_func" + RawCallMid + "arg1", RawCallEnd, t);
    ContainsGrows("Some text " + "{", RawCallBody, "", t);
    ContainsGrows("", "Some text " + "{" + RawCallBody, "}", t);
    ContainsGrows("", "Some text " + "{" + RawCallBody + "}", RawCallTail, t);
  }

  /** The body of that candidate holds neither `}` nor a line feed. */
  lemma RawCallBodyOnOneLine(c: char)
    requires c == '}' || c == '\n'
    ensures Lacks(RawCallBody, c)
  {
    assert Lacks(RawCallLead, c) && Lacks("my_func", c) && Lacks(RawCallMid, c);
    assert Lacks("arg1", c) && Lacks(RawCallEnd, c);
    LacksConcat(RawCallLead, "my_func", c);
    LacksConcat(RawCallLead + "my_func", RawCallMid, c);
    LacksConcat(RawCallLead + "my_func" + RawCallMid, "arg1", c);
    LacksConcat(RawCallLead + "my_func" + RawCallMid + "arg1", RawCallEnd, c);
  }

  /**
   * `test_extract_valid_function_call`: once the parser rejects the only
   * candidate, the reply comes back unchanged, and it still contains
   * `my_func` and `arg1`. The test's assertions hold by passthrough.
   */
  lemma ExtractValidFunctionCall(parse: string -> Option<Json>, serialize: Json -> string)
    requires parse("{" + RawCallBody + "}").None?
    ensures Extraction(RawCallInput, parse, serialize) == RawCallInput
    ensures Contains(Extraction(RawCallInput, parse, serialize), "my_func")
    ensures Contains(Extraction(RawCallInput, parse, serialize), "arg1")
  {
    RawCallBodyOnOneLine('}');
    RawCallBodyOnOneLine('\n');
    RejectedOnlyCandidate("Some text ", RawCallBody, RawCallTail, parse, serialize);
    RawCallInputMentions("my_func");
    RawCallInputMentions("arg1");
  }

  /** Between the braces of the candidate of a plain key-value object. */
  const KeyValueBody := "\"key\": " + "\"value\""

  /** In `Some text {"key": "value"} more text` the only candidate is exactly `{"key": "value"}`. */
  lemma KeyValueOnlyCandidate()
    ensures Matches("Some text " + "{" + KeyValueBody + "}" + " more text", 0) == [(10, 26)]
    ensures CandidateText("Some text " + "{" + KeyValueBody + "}" + " more text", 0, 0) == "{" + KeyValueBody + "}"
  {
    assert Lacks("Some text ", '{') && Lacks(" more text", '{');
    assert Lacks(KeyValueBody, '}') && Lacks(KeyValueBody, '\n');
    OneCandidate("Some text ", KeyValueBody, " more text");
  }

  /**
   * That candidate parses to an object without either key, so it is skipped
   * and the reply comes back as it was.
   */
  lemma KeyValueObjectSkipped(parse: string -> Option<Json>, serialize: Json -> string)
    requires parse("{" + KeyValueBody + "}") == Some(Object(map["key" := Str("value")]))
    ensures Extraction("Some text " + "{" + KeyValueBody + "}" + " more text", parse, serialize)
         == "Some text " + "{" + KeyValueBody + "}" + " more text"
  {
    assert Lacks("Some text ", '{') && Lacks(" more text", '{');
    assert Lacks(KeyValueBody, '}') && Lacks(KeyValueBody, '\n');
    RejectedOnlyCandidate("Some text ", KeyValueBody, " more text", parse, serialize);
  }

  /**
   * A qualifying candidate is replaced by the serialisation of its parse,
   * and whatever text follows it, however many further candidates it holds,
   * makes no difference.
   */
  lemma NamedCallExtractedWhateverFollows(parse: string -> Option<Json>, serialize: Json -> string, rest: string)
    requires parse("{" + "\"name\": \"get_weather\"" + "}") == Some(Object(map["name" := Str("get_weather")]))
    ensures Extraction("Call: " + "{" + "\"name\": \"get_weather\"" + "}" + rest, parse, serialize)
         == serialize(Object(map["name" := Str("get_weather")]))
  {
    var body := "\"name\": \"get_weather\"";
    var j := Object(map["name" := Str("get_weather")]);
    var s := "Call: " + "{" + body + "}";
    var u := s + rest;
    assert s == s + "";
    OneCandidate("Call: ", body, "");
    FunctionCallIsObject(j);
    assert Qualifies(parse(CandidateText(s, 0, 0)));
    FirstQualifyingWins(s, parse, serialize, 0);
    assert u[..|s|] == s[..|s|];
    ResultIgnoresLaterText(s, u, parse, serialize);
  }

  /** Between the braces of the only candidate of a nested call object. */
  const NestedBody := "\"function_call\": {" + "\"name\": \"f\""

  /**
   * No bracket balancing: in `{"function_call": {"name": "f"}}` the only
   * candidate stops at the inner `}`, so it is not JSON and, as the parser
   * rejects it, the call is not extracted.
   */
  lemma NestedCallNotBalanced(parse: string -> Option<Json>, serialize: Json -> string)
    requires parse("{" + NestedBody + "}").None?
    ensures Matches("{" + NestedBody + "}" + "}", 0) == [(0, 31)]
    ensures Extraction("{" + NestedBody + "}" + "}", parse, serialize) == "{" + NestedBody + "}" + "}"
  {
    assert "{" + NestedBody + "}" + "}" == "" + "{" + NestedBody + "}" + "}";
    OneCandidate("", NestedBody, "}");
    RejectedOnlyCandidate("", NestedBody, "}", parse, serialize);
  }

  /**
   * The `.` of the pattern does not match a line feed: in `{` line feed
   * `{}` the first `{` starts no match, and the only candidate is `{}`.
   */
  lemma LineFeedSkipsBrace()
    ensures Matches("{\n{}", 0) == [(2, 4)]
  {
    var s := "{\n{}";
    LineWithoutClose(s, 0, 1);
    NextCandidateOfText(s, 2, 2, 4);
    NoOpenBraceNoCandidate(s, 4);
    assert Matches(s, 0) == [(2, 4)] + Matches(s, 4);
  }
}
