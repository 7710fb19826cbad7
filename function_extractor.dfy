/**
 * `extract_function_calls`: scan an upstream model reply for brace-delimited
 * candidates, and return the re-serialised JSON of the first candidate that
 * parses to a value with a top-level `function_call` or `name` key; when no
 * candidate does, return the reply unchanged.
 *
 * The JSON parser (`serde_json::from_str`) and serialiser
 * (`serde_json::to_string`) are parameters: `parse` answers `None` where the
 * parser reports an error.
 */
module FunctionExtractor {
  import opened Wrappers
  import opened Json
  import opened BraceMatch

  /** The parser's answer makes a candidate the one to return: it parsed and carries the marker. */
  predicate Qualifies(parsed: Option<Json>) {
    parsed.Some? && IsFunctionCall(parsed.value)
  }

  /** Where the scan stopped: at a qualifying candidate `s[start..end]` parsed to `value`, or nowhere. */
  datatype Verdict = Found(start: nat, end: nat, value: Json) | NotFound

  /** The `for` loop over `find_iter`, resumed at `from`: the first qualifying candidate. */
  function Scan(s: string, from: nat, parse: string -> Option<Json>): (v: Verdict)
    decreases |s| - from
    ensures v.Found? ==> from <= v.start && LazyMatch(s, v.start, v.end)
    ensures v.Found? ==> parse(s[v.start..v.end]) == Some(v.value) && IsFunctionCall(v.value)
  {
    match NextCandidate(s, from)
    case None => NotFound
    case Some((start, end)) =>
      var parsed := parse(s[start..end]);
      if parsed.Some? && IsFunctionCall(parsed.value) then Found(start, end, parsed.value)
      else Scan(s, end, parse)
  }

  /** What `extract_function_calls` returns (its `Ok` value): the serialised first hit, or the input. */
  function Extraction(s: string, parse: string -> Option<Json>, serialize: Json -> string): string {
    match Scan(s, 0, parse)
    case NotFound => s
    case Found(_, _, value) => serialize(value)
  }

  /** The text of the `k`-th candidate `find_iter` yields from `from`. */
  function CandidateText(s: string, from: nat, k: nat): (c: string)
    requires k < |Matches(s, from)|
    ensures |c| >= 2 && c[0] == '{' && c[|c| - 1] == '}'
    ensures forall j :: 0 < j < |c| - 1 ==> c[j] != '}' && c[j] != '\n'
  {
    var (start, end) := Matches(s, from)[k];
    LazyMatchShape(s, start, end);
    s[start..end]
  }

  /** Dropping the first match shifts the candidates by one. */
  lemma CandidateTextShift(s: string, from: nat)
    requires NextCandidate(s, from).Some?
    ensures |Matches(s, from)| == |Matches(s, NextCandidate(s, from).value.1)| + 1
    ensures CandidateText(s, from, 0) == s[NextCandidate(s, from).value.0..NextCandidate(s, from).value.1]
    ensures forall k :: 0 <= k < |Matches(s, NextCandidate(s, from).value.1)| ==>
              CandidateText(s, from, k + 1) == CandidateText(s, NextCandidate(s, from).value.1, k)
  {
    var (start, end) := NextCandidate(s, from).value;
    assert Matches(s, from) == [(start, end)] + Matches(s, end);
  }

  /** No candidate from `from` on both parses and carries the marker. */
  ghost predicate NoneQualifies(s: string, from: nat, parse: string -> Option<Json>) {
    forall k :: 0 <= k < |Matches(s, from)| ==> !Qualifies(parse(CandidateText(s, from, k)))
  }

  /** None qualifies from `from` exactly when the first does not and none after it does. */
  lemma NoneQualifiesShift(s: string, from: nat, parse: string -> Option<Json>)
    requires NextCandidate(s, from).Some?
    ensures NoneQualifies(s, from, parse) <==>
            !Qualifies(parse(s[NextCandidate(s, from).value.0..NextCandidate(s, from).value.1])) &&
            NoneQualifies(s, NextCandidate(s, from).value.1, parse)
  {
    var (start, end) := NextCandidate(s, from).value;
    CandidateTextShift(s, from);
    var n := |Matches(s, end)|;
    assert forall k :: 0 <= k < n + 1 ==>
      CandidateText(s, from, k) == if k == 0 then s[start..end] else CandidateText(s, end, k - 1);
  }

  /**
   * The scan finds nothing exactly when no candidate from `from` on
   * qualifies.
   */
  lemma {:induction false} ScanNotFound(s: string, from: nat, parse: string -> Option<Json>)
    ensures Scan(s, from, parse).NotFound? <==> NoneQualifies(s, from, parse)
    decreases |s| - from
  {
    match NextCandidate(s, from)
    case None =>
    case Some((start, end)) =>
      ScanNotFound(s, end, parse);
      NoneQualifiesShift(s, from, parse);
  }

  /**
   * The first qualifying candidate decides the scan: if the `k`-th candidate
   * qualifies and none before it does, the scan stops at the `k`-th match.
   */
  lemma {:induction false} ScanFirstQualifying(s: string, from: nat, parse: string -> Option<Json>, k: nat)
    requires k < |Matches(s, from)|
    requires Qualifies(parse(CandidateText(s, from, k)))
    requires forall j :: 0 <= j < k ==> !Qualifies(parse(CandidateText(s, from, j)))
    ensures Scan(s, from, parse) ==
            Found(Matches(s, from)[k].0, Matches(s, from)[k].1, parse(CandidateText(s, from, k)).value)
    decreases |s| - from
  {
    var (start, end) := NextCandidate(s, from).value;
    CandidateTextShift(s, from);
    assert Matches(s, from) == [(start, end)] + Matches(s, end);
    if k > 0 {
      ScanFirstQualifying(s, end, parse, k - 1);
    }
  }

  /**
   * Passthrough: when no candidate both parses and carries a `function_call`
   * or `name` key, the reply comes back exactly as it was given.
   */
  lemma PassthroughWhenNoneQualifies(s: string, parse: string -> Option<Json>, serialize: Json -> string)
    requires NoneQualifies(s, 0, parse)
    ensures Extraction(s, parse, serialize) == s
  {
    ScanNotFound(s, 0, parse);
  }

  /**
   * First match wins: the result is the re-serialised parse of the first
   * qualifying candidate, not the slice of the reply it came from.
   */
  lemma FirstQualifyingWins(s: string, parse: string -> Option<Json>, serialize: Json -> string, k: nat)
    requires k < |Matches(s, 0)|
    requires Qualifies(parse(CandidateText(s, 0, k)))
    requires forall j :: 0 <= j < k ==> !Qualifies(parse(CandidateText(s, 0, j)))
    ensures Extraction(s, parse, serialize) == serialize(parse(CandidateText(s, 0, k)).value)
  {
    ScanFirstQualifying(s, 0, parse, k);
  }

  /**
   * A candidate that fails to parse, or parses to a value without either
   * key (a non-object included), is passed over: the scan goes on just
   * after its closing `}`.
   */
  lemma NonQualifyingCandidateSkipped(s: string, from: nat, parse: string -> Option<Json>)
    requires NextCandidate(s, from).Some?
    requires !Qualifies(parse(s[NextCandidate(s, from).value.0..NextCandidate(s, from).value.1]))
    ensures Scan(s, from, parse) == Scan(s, NextCandidate(s, from).value.1, parse)
  {
  }

  /**
   * The scan result depends only on the text up to the end of the
   * qualifying candidate: text that agrees with `s` up to there ends the
   * same way, whatever follows.
   */
  lemma {:induction false} ScanIgnoresLaterText(s: string, u: string, from: nat, parse: string -> Option<Json>)
    requires Scan(s, from, parse).Found?
    requires Scan(s, from, parse).end <= |u|
    requires s[..Scan(s, from, parse).end] == u[..Scan(s, from, parse).end]
    ensures Scan(u, from, parse) == Scan(s, from, parse)
    decreases |s| - from
  {
    var v := Scan(s, from, parse);
    var (start, end) := NextCandidate(s, from).value;
    var parsed := parse(s[start..end]);
    assert end <= v.end by {
      if !(parsed.Some? && IsFunctionCall(parsed.value)) {
        assert v == Scan(s, end, parse);
      }
    }
    assert s[..end] == u[..end] by {
      assert s[..end] == s[..v.end][..end];
      assert u[..end] == u[..v.end][..end];
    }
    NextCandidatePrefix(s, u, from);
    assert s[start..end] == u[start..end] by {
      assert s[start..end] == s[..end][start..];
      assert u[start..end] == u[..end][start..];
    }
    if !(parsed.Some? && IsFunctionCall(parsed.value)) {
      ScanIgnoresLaterText(s, u, end, parse);
    }
  }

  /**
   * Because of the early return, nothing after the first qualifying
   * candidate can change the result.
   */
  lemma ResultIgnoresLaterText(s: string, u: string, parse: string -> Option<Json>, serialize: Json -> string)
    requires Scan(s, 0, parse).Found?
    requires Scan(s, 0, parse).end <= |u|
    requires s[..Scan(s, 0, parse).end] == u[..Scan(s, 0, parse).end]
    ensures Extraction(u, parse, serialize) == Extraction(s, parse, serialize)
  {
    ScanIgnoresLaterText(s, u, 0, parse);
  }

  /** A reply with no `{` at all comes back unchanged, whatever the parser would say. */
  lemma NoOpenBracePassthrough(s: string, parse: string -> Option<Json>, serialize: Json -> string)
    requires forall k :: 0 <= k < |s| ==> s[k] != '{'
    ensures Extraction(s, parse, serialize) == s
  {
    NoOpenBraceNoCandidate(s, 0);
  }

  /** A reply with no `{ ... }` on a single line comes back unchanged. */
  lemma NoCandidatePassthrough(s: string, parse: string -> Option<Json>, serialize: Json -> string)
    requires NoMatchStartIn(s, 0, |s|)
    ensures Extraction(s, parse, serialize) == s
  {
    var n := NextCandidate(s, 0);
    assert n.Some? ==> PatternMatch(s, n.value.0, n.value.1) && MatchStartsAt(s, n.value.0);
  }

  /**
   * The loop of `extract_function_calls`: walk the matches left to right,
   * try to parse each, return the serialised value of the first with either
   * key, and fall back to the reply itself.
   */
  method ExtractFunctionCalls(llmResponse: string, parse: string -> Option<Json>, serialize: Json -> string)
    returns (r: string)
    ensures r == Extraction(llmResponse, parse, serialize)
  {
    var pos := 0;
    var mat := NextMatch(llmResponse, pos);
    while mat.Some?
      invariant pos <= |llmResponse|
      invariant mat == NextCandidate(llmResponse, pos)
      invariant Scan(llmResponse, pos, parse) == Scan(llmResponse, 0, parse)
      decreases |llmResponse| - pos
    {
      var (start, end) := mat.value;
      var candidate := llmResponse[start..end];
      var jsonVal := parse(candidate);
      if jsonVal.Some? && IsFunctionCall(jsonVal.value) {
        return serialize(jsonVal.value);
      }
      pos := end;
      mat := NextMatch(llmResponse, pos);
    }
    return llmResponse;
  }
}
