/**
 * The candidate finder of the extractor: `Regex::new(r"\{.*?\}")` and its
 * `find_iter`, defined directly rather than through a regex engine.
 *
 * A pattern match is a `{`, then any characters other than a line feed
 * (the `.` of the pattern), then a `}`. The lazy `.*?` makes a match end at
 * the first `}` after its `{`, and `find_iter` yields the leftmost match,
 * then searches again from just after the end of that match.
 * Positions are indices into the character sequence.
 */
module BraceMatch {
  import opened Wrappers

  /** `s[i..e]` is in the language of `\{.*\}`: laziness is not yet taken into account. */
  ghost predicate PatternMatch(s: string, i: int, e: int) {
    0 <= i && i + 2 <= e <= |s| && s[i] == '{' && s[e - 1] == '}' &&
    forall k :: i < k < e - 1 ==> s[k] != '\n'
  }

  /** `s[i..e]` is the match that the lazy `.*?` selects at `i`: the shortest one. */
  ghost predicate LazyMatch(s: string, i: int, e: int) {
    PatternMatch(s, i, e) && forall e' :: i < e' < e ==> !PatternMatch(s, i, e')
  }

  /** Some match of the pattern begins at `i`. */
  ghost predicate MatchStartsAt(s: string, i: int) {
    exists e :: PatternMatch(s, i, e)
  }

  /** No match of the pattern begins anywhere in `[a, b)`. */
  ghost predicate NoMatchStartIn(s: string, a: int, b: int) {
    forall i :: a <= i < b ==> !MatchStartsAt(s, i)
  }

  /** The shortest match at `i` is unique. */
  lemma LazyMatchUnique(s: string, i: int, e1: int, e2: int)
    requires LazyMatch(s, i, e1) && LazyMatch(s, i, e2)
    ensures e1 == e2
  {
  }

  /** Between the `{` and the `}` of a lazy match there is no other `}` and no line feed. */
  lemma LazyMatchBody(s: string, i: int, e: int)
    requires LazyMatch(s, i, e)
    ensures forall k :: i < k < e - 1 ==> s[k] != '}' && s[k] != '\n'
  {
    forall k | i < k < e - 1
      ensures s[k] != '}'
    {
      assert !PatternMatch(s, i, k + 1);
    }
  }

  /**
   * What a lazy match looks like: it opens with `{`, closes with `}`, and has
   * neither another `}` nor a line feed in between (a further `{` is allowed).
   */
  lemma {:induction false} LazyMatchShape(s: string, i: int, e: int)
    requires LazyMatch(s, i, e)
    ensures 0 <= i < e <= |s|
    ensures s[i..e][0] == '{' && s[i..e][e - i - 1] == '}'
    ensures forall k :: 0 < k < e - i - 1 ==> s[i..e][k] != '}' && s[i..e][k] != '\n'
  {
    LazyMatchBody(s, i, e);
    assert forall k :: 0 < k < e - i - 1 ==> s[i..e][k] == s[i + k];
  }

  /**
   * The first `}` at or after `k` that is reached before any line feed:
   * this is where the `.*?` of a match whose body starts at `k` stops.
   */
  function FindClose(s: string, k: nat): (r: Option<nat>)
    decreases |s| - k
    ensures r.Some? ==> k <= r.value < |s| && s[r.value] == '}'
    ensures r.Some? ==> forall m :: k <= m < r.value ==> s[m] != '}' && s[m] != '\n'
    ensures r.None? ==> forall j :: k <= j < |s| && s[j] == '}' ==> exists m :: k <= m < j && s[m] == '\n'
  {
    if k >= |s| then None
    else if s[k] == '}' then Some(k)
    else if s[k] == '\n' then None
    else FindClose(s, k + 1)
  }

  /**
   * The next match `find_iter` yields when its search resumes at `from`:
   * the leftmost `{` that has a `}` after it on the same line, paired with
   * the first such `}`; the result is the half-open span `(start, end)`.
   */
  function NextCandidate(s: string, from: nat): (r: Option<(nat, nat)>)
    decreases |s| - from
    ensures r.Some? ==> from <= r.value.0 && LazyMatch(s, r.value.0, r.value.1)
    ensures r.Some? ==> NoMatchStartIn(s, from, r.value.0)
    ensures r.None? ==> NoMatchStartIn(s, from, |s|)
  {
    if from >= |s| then None
    else if s[from] == '{' && FindClose(s, from + 1).Some? then
      Some((from, FindClose(s, from + 1).value + 1))
    else
      NoMatchAtSkipped(s, from);
      NextCandidate(s, from + 1)
  }

  /** A position the scan steps over without a match does not start one. */
  lemma NoMatchAtSkipped(s: string, from: nat)
    requires from < |s|
    requires !(s[from] == '{' && FindClose(s, from + 1).Some?)
    ensures !MatchStartsAt(s, from)
  {
    forall e | from + 2 <= e <= |s| && s[from] == '{' && s[e - 1] == '}'
      ensures !PatternMatch(s, from, e)
    {
      var m :| from + 1 <= m < e - 1 && s[m] == '\n';
    }
  }

  /** The matches `find_iter` yields, in order, when it starts at `from`. */
  function Matches(s: string, from: nat): (ms: seq<(nat, nat)>)
    decreases |s| - from
    ensures forall k :: 0 <= k < |ms| ==> from <= ms[k].0 && LazyMatch(s, ms[k].0, ms[k].1)
    ensures forall k :: 0 < k < |ms| ==> ms[k - 1].1 <= ms[k].0
  {
    match NextCandidate(s, from)
    case None => []
    case Some((start, end)) => [(start, end)] + Matches(s, end)
  }

  /**
   * The matches leave nothing out: no match starts before the first one,
   * between the end of one and the start of the next, or after the last.
   */
  lemma {:induction false} MatchesExhaustive(s: string, from: nat)
    ensures |Matches(s, from)| == 0 ==> NoMatchStartIn(s, from, |s|)
    ensures |Matches(s, from)| > 0 ==> NoMatchStartIn(s, from, Matches(s, from)[0].0)
    ensures |Matches(s, from)| > 0 ==> NoMatchStartIn(s, Matches(s, from)[|Matches(s, from)| - 1].1, |s|)
    ensures forall k :: 0 < k < |Matches(s, from)| ==>
              NoMatchStartIn(s, Matches(s, from)[k - 1].1, Matches(s, from)[k].0)
    decreases |s| - from
  {
    match NextCandidate(s, from)
    case None =>
    case Some((start, end)) =>
      MatchesExhaustive(s, end);
      var ms := Matches(s, from);
      assert ms == [(start, end)] + Matches(s, end);
  }

  /** Absent a `{`, no match starts anywhere from `from` on. */
  lemma {:induction false} NoOpenBraceNoCandidate(s: string, from: nat)
    requires forall k :: from <= k < |s| ==> s[k] != '{'
    ensures NextCandidate(s, from).None?
    decreases |s| - from
  {
    if from < |s| {
      NoOpenBraceNoCandidate(s, from + 1);
    }
  }

  /**
   * The next match from `from` is the leftmost lazy match: a lazy match at
   * `st` with no match starting in `[from, st)` is what the search returns.
   */
  lemma {:induction false} NextCandidateIsLeftmost(s: string, from: nat, st: nat, en: nat)
    requires from <= st && LazyMatch(s, st, en)
    requires NoMatchStartIn(s, from, st)
    ensures NextCandidate(s, from) == Some((st, en))
    decreases st - from
  {
    if from == st {
      LazyMatchBody(s, st, en);
      FindCloseSkip(s, st, en - 1);
    } else {
      assert !MatchStartsAt(s, from);
      var c := FindClose(s, from + 1);
      assert s[from] == '{' && c.Some? ==> PatternMatch(s, from, c.value + 1);
      NextCandidateIsLeftmost(s, from + 1, st, en);
    }
  }

  /**
   * Reading the next match off the characters: when no `{` occurs in
   * `[from, st)`, and `s[st..en]` is a `{`, then neither `}` nor line feed,
   * then a `}`, the search from `from` stops exactly there.
   */
  lemma NextCandidateOfText(s: string, from: nat, st: nat, en: nat)
    requires from <= st && st + 2 <= en <= |s|
    requires forall k :: from <= k < st ==> s[k] != '{'
    requires s[st] == '{' && s[en - 1] == '}'
    requires forall k :: st < k < en - 1 ==> s[k] != '}' && s[k] != '\n'
    ensures NextCandidate(s, from) == Some((st, en))
  {
    assert LazyMatch(s, st, en) by {
      forall e' | st < e' < en ensures !PatternMatch(s, st, e') {
        assert s[e' - 1] != '}' || e' < st + 2;
      }
    }
    NextCandidateIsLeftmost(s, from, st, en);
  }

  /** `s` and `u` have the same characters below `n`. */
  ghost predicate AgreeBelow(s: string, u: string, n: int) {
    0 <= n <= |s| && n <= |u| && forall k :: 0 <= k < n ==> s[k] == u[k]
  }

  /** Whether `[i, e)` matches depends on nothing beyond `e`. */
  lemma PatternMatchTransfer(s: string, u: string, i: int, e: int, n: int)
    requires AgreeBelow(s, u, n) && e <= n
    ensures PatternMatch(s, i, e) <==> PatternMatch(u, i, e)
  {
  }

  /** A match at `i` in `u` that runs past `en` shows one in `s` ending at its `}` at `en - 1`. */
  lemma NoStartTransfer(s: string, u: string, i: int, en: int)
    requires AgreeBelow(s, u, en) && 0 <= i && i + 2 <= en && s[en - 1] == '}'
    requires !MatchStartsAt(s, i)
    ensures !MatchStartsAt(u, i)
  {
    forall e ensures !PatternMatch(u, i, e) {
      if e <= en {
        PatternMatchTransfer(s, u, i, e, en);
      } else {
        assert PatternMatch(u, i, e) ==> PatternMatch(s, i, en);
      }
    }
  }

  /**
   * The next match is determined by the text up to its end: any text that
   * agrees with `s` on `[0, end)` yields the same next match from `from`.
   */
  lemma NextCandidatePrefix(s: string, u: string, from: nat)
    requires NextCandidate(s, from).Some?
    requires NextCandidate(s, from).value.1 <= |u|
    requires s[..NextCandidate(s, from).value.1] == u[..NextCandidate(s, from).value.1]
    ensures NextCandidate(u, from) == NextCandidate(s, from)
  {
    var (st, en) := NextCandidate(s, from).value;
    assert AgreeBelow(s, u, en) by {
      forall k | 0 <= k < en ensures s[k] == u[k] {
        assert s[..en][k] == u[..en][k];
      }
    }
    assert LazyMatch(u, st, en) by {
      PatternMatchTransfer(s, u, st, en, en);
      forall e' | st < e' < en ensures !PatternMatch(u, st, e') {
        PatternMatchTransfer(s, u, st, e', en);
      }
    }
    forall i | from <= i < st ensures !MatchStartsAt(u, i) {
      NoStartTransfer(s, u, i, en);
    }
    NextCandidateIsLeftmost(u, from, st, en);
  }

  /**
   * Once a `{` at `open` has been seen with neither `}` nor line feed after
   * it up to `i`, the search for its closer may resume at `i`.
   */
  lemma {:induction false} FindCloseSkip(s: string, open: nat, i: nat)
    requires open < i <= |s|
    requires forall k :: open < k < i ==> s[k] != '}' && s[k] != '\n'
    ensures FindClose(s, open + 1) == FindClose(s, i)
    decreases i - open
  {
    if open + 1 < i {
      FindCloseSkip(s, open + 1, i);
    }
  }

  /** With no `}` before the next line feed (or the end), the closer search fails. */
  lemma {:induction false} FindCloseBeforeFeed(s: string, k: nat, b: nat)
    requires k <= b <= |s|
    requires b == |s| || s[b] == '\n'
    requires forall m :: k <= m < b ==> s[m] != '}'
    ensures FindClose(s, k).None?
    decreases b - k
  {
    if k < b {
      FindCloseBeforeFeed(s, k + 1, b);
    }
  }

  /**
   * If no `}` occurs in `[a, b)` and `b` is the end of the text or a line
   * feed, every `{` in `[a, b)` fails to match, so the search from `a`
   * finds what the search from `b` finds.
   */
  lemma {:induction false} LineWithoutClose(s: string, a: nat, b: nat)
    requires a <= b <= |s|
    requires b == |s| || s[b] == '\n'
    requires forall k :: a <= k < b ==> s[k] != '}'
    ensures NextCandidate(s, a) == NextCandidate(s, b)
    decreases b - a
  {
    if a < b {
      FindCloseBeforeFeed(s, a + 1, b);
      LineWithoutClose(s, a + 1, b);
    }
  }

  /**
   * The regex search as a single left-to-right pass: `open` remembers the
   * leftmost `{` of the current line that still waits for its `}`; a line
   * feed forgets it, and the first `}` while one waits ends the match.
   */
  method NextMatch(s: string, from: nat) returns (m: Option<(nat, nat)>)
    ensures m == NextCandidate(s, from)
  {
    var i := from;
    var open: Option<nat> := None;
    while i < |s|
      invariant from <= i
      invariant open.None? ==> NextCandidate(s, from) == NextCandidate(s, i)
      invariant open.Some? ==> from <= open.value < i <= |s| && s[open.value] == '{'
      invariant open.Some? ==> forall k :: open.value < k < i ==> s[k] != '}' && s[k] != '\n'
      invariant open.Some? ==> NextCandidate(s, from) == NextCandidate(s, open.value)
      decreases |s| - i
    {
      if s[i] == '}' && open.Some? {
        FindCloseSkip(s, open.value, i);
        return Some((open.value, i + 1));
      } else if s[i] == '\n' && open.Some? {
        LineWithoutClose(s, open.value, i);
        open := None;
      } else if s[i] == '{' && open.None? {
        open := Some(i);
      }
      i := i + 1;
    }
    if open.Some? {
      LineWithoutClose(s, open.value, |s|);
    }
    m := None;
  }
}
