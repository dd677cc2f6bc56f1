/** Regular-expression hints (src/detection/RegexMatcher.ts): a pattern
    is validated, compiled, run over the content with a guard against
    zero-width matches and a cap on the number of matches, and the matches
    are sorted and labelled.

    The regular expression engine is not modelled: compiling a pattern yields
    an `exec` function, of which only the guarantees of
    `RegExp.prototype.exec` on a global pattern are required (`ExecContract`).
    Validation and `adjustIndexForFormatting` are parameters too. */
module RegexMatcher {
  import opened Text
  import opened Links
  import opened Labelling
  import HintGenerator

  /** `MAX_MATCHES` */
  const MaxMatches: nat := 10000

  /** What `exec` returns: the match start, the matched text (`result[0]`) and
      capture group 1 (`result[1]`), which is `undefined` when the pattern has
      no group or the group did not take part. */
  datatype ExecResult = ExecResult(index: nat, whole: string, group1: Option<string>)

  /** `exec` on a global pattern, as a function of the content and `lastIndex`. */
  type Exec = (string, nat) -> Option<ExecResult>

  /** Where a match leaves `lastIndex`. */
  function End(m: ExecResult): nat
  {
    m.index + |m.whole|
  }

  /** What `RegExp.prototype.exec` guarantees on `s`: a match starts at or after
      `lastIndex` and lies inside `s`, and from a `lastIndex` past the end of
      `s` there is none. */
  ghost predicate ExecContract(exec: Exec, s: string)
  {
    forall from: nat :: match exec(s, from)
      case None => true
      case Some(m) => from <= m.index && End(m) <= |s|
  }

  ghost predicate ExecStopsPastEnd(exec: Exec, s: string)
  {
    forall from: nat :: from > |s| ==> exec(s, from).None?
  }

  /** The validator reported an error: a non-empty message (a null or empty
      result is falsy). */
  predicate IsValidationError(e: Option<string>)
  {
    e.Some? && e.value != ""
  }

  /** `regExResult[1] ?? regExResult[0]`: an empty group 1 is kept. */
  function MatchText(m: ExecResult): string
  {
    if m.group1.Some? then m.group1.value else m.whole
  }

  // ---------------------------------------------------------------------------
  // The loop as a function

  /** The matches the loop pushes, from `lastIndex == cursor` with `recorded`
      the `lastIndex` kept by the previous accepted match and `count` matches
      accepted so far. A match that leaves `lastIndex` where the previous one
      did is skipped and the search resumes one position later; the match
      after `MaxMatches` accepted ones ends the loop. */
  function Collect(exec: Exec, s: string, cursor: nat, recorded: int, count: nat): (ms: seq<ExecResult>)
    requires ExecContract(exec, s) && ExecStopsPastEnd(exec, s) && cursor <= |s| + 1
    decreases |s| + 1 - cursor, if recorded == cursor then 0 else 1
  {
    match exec(s, cursor)
    case None => []
    case Some(m) =>
      if End(m) == recorded then Collect(exec, s, End(m) + 1, recorded, count)
      else if count + 1 > MaxMatches then []
      else [m] + Collect(exec, s, End(m), End(m), count + 1)
  }

  /** The matches the loop would push without the cap: the same guard, but
      every match it lets through is kept. */
  function Uncapped(exec: Exec, s: string, cursor: nat, recorded: int): (ms: seq<ExecResult>)
    requires ExecContract(exec, s) && ExecStopsPastEnd(exec, s) && cursor <= |s| + 1
    decreases |s| + 1 - cursor, if recorded == cursor then 0 else 1
  {
    match exec(s, cursor)
    case None => []
    case Some(m) =>
      if End(m) == recorded then Uncapped(exec, s, End(m) + 1, recorded)
      else [m] + Uncapped(exec, s, End(m), End(m))
  }

  /** The matches as `{ index, type: 'regex', linkText }` records. */
  function ToRegexLinks(s: string, ms: seq<ExecResult>, offset: int, adjust: (string, nat, string) -> int)
    : (r: seq<DetectedLink>)
    ensures |r| == |ms|
    ensures forall i :: 0 <= i < |ms| ==>
              r[i] == DetectedLink(adjust(s, ms[i].index, MatchText(ms[i])) + offset, Regex, MatchText(ms[i]))
  {
    if ms == [] then []
    else [DetectedLink(adjust(s, ms[0].index, MatchText(ms[0])) + offset, Regex, MatchText(ms[0]))]
         + ToRegexLinks(s, ms[1..], offset, adjust)
  }

  /** What `findRegexMatches` returns. */
  function RegexHints(content: string, offset: int, pattern: string, alphabet: string, caseSensitive: bool,
                      validate: string -> Option<string>, compile: (string, bool) -> Exec,
                      adjust: (string, nat, string) -> int): seq<Labelled<DetectedLink>>
    requires ExecContract(compile(pattern, caseSensitive), content)
    requires ExecStopsPastEnd(compile(pattern, caseSensitive), content)
  {
    if IsValidationError(validate(pattern)) then []
    else
      var ms := Collect(compile(pattern, caseSensitive), content, 0, -1, 0);
      var links := ToRegexLinks(content, ms, offset, adjust);
      AssignLabels(SortByIndex(links), HintGenerator.HintLabels(alphabet, |links|, {}))
  }

  // ---------------------------------------------------------------------------
  // The imperative matcher

  /** `findRegexMatches`. */
  method FindRegexMatches(content: string, offset: int, pattern: string, alphabet: string, caseSensitive: bool,
                          validate: string -> Option<string>, compile: (string, bool) -> Exec,
                          adjust: (string, nat, string) -> int)
    returns (hints: seq<Labelled<DetectedLink>>)
    requires ExecContract(compile(pattern, caseSensitive), content)
    requires ExecStopsPastEnd(compile(pattern, caseSensitive), content)
    ensures hints == RegexHints(content, offset, pattern, alphabet, caseSensitive, validate, compile, adjust)
    ensures IsValidationError(validate(pattern)) ==> hints == []
    ensures |hints| <= MaxMatches
  {
    var validationError := validate(pattern);
    if IsValidationError(validationError) {
      return [];
    }
    var exec := compile(pattern, caseSensitive);
    var matches := CollectMatches(exec, content, offset, adjust);
    var labels := HintGenerator.GenerateHintLabels(alphabet, |matches|, {});
    hints := AssignLabels(SortByIndex(matches), labels);
    CollectBound(exec, content, 0, -1, 0);
    assert |hints| <= |matches|;
  }

  /** The `while (regExResult = regex.exec(content))` loop. */
  method CollectMatches(exec: Exec, content: string, offset: int, adjust: (string, nat, string) -> int)
    returns (matches: seq<DetectedLink>)
    requires ExecContract(exec, content) && ExecStopsPastEnd(exec, content)
    ensures matches == ToRegexLinks(content, Collect(exec, content, 0, -1, 0), offset, adjust)
    ensures matches == ToRegexLinks(content, Take(Uncapped(exec, content, 0, -1), MaxMatches), offset, adjust)
  {
    ghost var all := Collect(exec, content, 0, -1, 0);
    ghost var done: seq<ExecResult> := [];
    matches := [];
    var cursor: nat := 0;
    var lastIndex: int := -1;
    var matchCount: nat := 0;
    while true
      invariant Resumes(exec, content, done, cursor, lastIndex, matchCount, all)
      invariant Reports(matches, content, done, offset, adjust)
      decreases |content| + 1 - cursor, if lastIndex == cursor then 0 else 1
    {
      var result := exec(content, cursor);
      if result.None? {
        StopStep(exec, content, done, all, cursor, lastIndex, matchCount);
        break;
      }
      var m := result.value;
      ghost var from, prev, count := cursor, lastIndex, matchCount;
      CollectStep(exec, content, from, prev, count);
      cursor := End(m);
      if cursor == lastIndex {
        SkipStep(exec, content, done, all, from, prev, count);
        cursor := cursor + 1;
        continue;
      }
      lastIndex := cursor;
      matchCount := matchCount + 1;
      if matchCount > MaxMatches {
        StopStep(exec, content, done, all, from, prev, count);
        break;
      }
      AcceptStep(exec, content, done, all, from, prev, count);
      var linkText := if m.group1.Some? then m.group1.value else m.whole;
      var adjustedIndex := adjust(content, m.index, linkText);
      ReportStep(matches, content, done, m, linkText, adjustedIndex, offset, adjust);
      matches := matches + [DetectedLink(adjustedIndex + offset, Regex, linkText)];
      done := done + [m];
    }
    CollectTruncates(exec, content, 0, -1, 0);
  }

  /** The links reported so far are those of the matches recorded so far. */
  ghost predicate Reports(matches: seq<DetectedLink>, s: string, done: seq<ExecResult>, offset: int,
                          adjust: (string, nat, string) -> int)
  {
    matches == ToRegexLinks(s, done, offset, adjust)
  }

  /** Recording one more match reports its link at the end. */
  lemma ReportStep(matches: seq<DetectedLink>, s: string, done: seq<ExecResult>, m: ExecResult,
                   text: string, adjusted: int, offset: int, adjust: (string, nat, string) -> int)
    requires Reports(matches, s, done, offset, adjust)
    requires text == MatchText(m) && adjusted == adjust(s, m.index, text)
    ensures Reports(matches + [DetectedLink(adjusted + offset, Regex, text)], s, done + [m], offset, adjust)
  {
    ToRegexLinksSnoc(s, done, m, offset, adjust);
  }

  /** The loop invariant: the matches recorded so far, followed by those the
      loop will still record from this state, are all of them. */
  ghost predicate Resumes(exec: Exec, s: string, done: seq<ExecResult>, cursor: nat, recorded: int, count: nat,
                          all: seq<ExecResult>)
  {
    && ExecContract(exec, s) && ExecStopsPastEnd(exec, s) && cursor <= |s| + 1 && count == |done|
    && done + Collect(exec, s, cursor, recorded, count) == all
  }

  /** A match that ends where the previous one did is skipped. */
  lemma SkipStep(exec: Exec, s: string, done: seq<ExecResult>, all: seq<ExecResult>,
                 cursor: nat, recorded: int, count: nat)
    requires Resumes(exec, s, done, cursor, recorded, count, all)
    requires exec(s, cursor).Some? && End(exec(s, cursor).value) == recorded
    ensures Resumes(exec, s, done, End(exec(s, cursor).value) + 1, recorded, count, all)
  {
    CollectStep(exec, s, cursor, recorded, count);
  }

  /** A match below the cap is recorded. */
  lemma AcceptStep(exec: Exec, s: string, done: seq<ExecResult>, all: seq<ExecResult>,
                   cursor: nat, recorded: int, count: nat)
    requires Resumes(exec, s, done, cursor, recorded, count, all)
    requires exec(s, cursor).Some? && End(exec(s, cursor).value) != recorded && count + 1 <= MaxMatches
    ensures var m := exec(s, cursor).value;
            Resumes(exec, s, done + [m], End(m), End(m), count + 1, all)
  {
    var m := exec(s, cursor).value;
    CollectStep(exec, s, cursor, recorded, count);
    var later := Collect(exec, s, End(m), End(m), count + 1);
    assert done + ([m] + later) == (done + [m]) + later;
  }

  /** The loop stops when no match is left or the cap is passed: by then
      every match has been recorded. */
  lemma StopStep(exec: Exec, s: string, done: seq<ExecResult>, all: seq<ExecResult>,
                 cursor: nat, recorded: int, count: nat)
    requires Resumes(exec, s, done, cursor, recorded, count, all)
    requires || exec(s, cursor).None?
             || (End(exec(s, cursor).value) != recorded && count + 1 > MaxMatches)
    ensures done == all
  {
    if exec(s, cursor).Some? {
      CollectStep(exec, s, cursor, recorded, count);
    }
    assert done + [] == done;
  }

  /** One turn of the loop, read off `Collect`. */
  lemma CollectStep(exec: Exec, s: string, cursor: nat, recorded: int, count: nat)
    requires ExecContract(exec, s) && ExecStopsPastEnd(exec, s) && cursor <= |s| + 1
    requires exec(s, cursor).Some?
    ensures var m := exec(s, cursor).value;
            && cursor <= m.index && End(m) <= |s|
            && Collect(exec, s, cursor, recorded, count)
               == if End(m) == recorded then Collect(exec, s, End(m) + 1, recorded, count)
                  else if count + 1 > MaxMatches then []
                  else [m] + Collect(exec, s, End(m), End(m), count + 1)
  {
    var m := exec(s, cursor).value;
    assert match exec(s, cursor) case None => true case Some(m) => cursor <= m.index && End(m) <= |s|;
  }

  lemma {:induction false} ToRegexLinksSnoc(s: string, ms: seq<ExecResult>, m: ExecResult, offset: int,
                                            adjust: (string, nat, string) -> int)
    ensures ToRegexLinks(s, ms + [m], offset, adjust)
            == ToRegexLinks(s, ms, offset, adjust)
               + [DetectedLink(adjust(s, m.index, MatchText(m)) + offset, Regex, MatchText(m))]
  {
    if ms != [] {
      ToRegexLinksSnoc(s, ms[1..], m, offset, adjust);
      assert (ms + [m])[1..] == ms[1..] + [m];
    }
  }

  // ---------------------------------------------------------------------------
  // Properties

  /** No more than `MaxMatches` matches are ever collected. */
  lemma {:induction false} CollectBound(exec: Exec, s: string, cursor: nat, recorded: int, count: nat)
    requires ExecContract(exec, s) && ExecStopsPastEnd(exec, s) && cursor <= |s| + 1 && count <= MaxMatches
    ensures |Collect(exec, s, cursor, recorded, count)| <= MaxMatches - count
    decreases |s| + 1 - cursor, if recorded == cursor then 0 else 1
  {
    match exec(s, cursor)
    case None =>
    case Some(m) =>
      if End(m) == recorded {
        CollectBound(exec, s, End(m) + 1, recorded, count);
      } else if count + 1 <= MaxMatches {
        CollectBound(exec, s, End(m), End(m), count + 1);
      }
  }

  /** The cap truncates and does nothing else: the loop keeps exactly the
      first `MaxMatches - count` matches the guard lets through, and stops at
      the next one. */
  lemma {:induction false} CollectTruncates(exec: Exec, s: string, cursor: nat, recorded: int, count: nat)
    requires ExecContract(exec, s) && ExecStopsPastEnd(exec, s) && cursor <= |s| + 1 && count <= MaxMatches
    ensures Collect(exec, s, cursor, recorded, count) == Take(Uncapped(exec, s, cursor, recorded), MaxMatches - count)
    decreases |s| + 1 - cursor, if recorded == cursor then 0 else 1
  {
    match exec(s, cursor)
    case None =>
    case Some(m) =>
      CollectStep(exec, s, cursor, recorded, count);
      if End(m) == recorded {
        CollectTruncates(exec, s, End(m) + 1, recorded, count);
      } else if count + 1 <= MaxMatches {
        CollectTruncates(exec, s, End(m), End(m), count + 1);
        TakeCons(m, Uncapped(exec, s, End(m), End(m)), MaxMatches - count - 1);
      }
  }

  lemma TakeCons<T>(x: T, s: seq<T>, n: nat)
    ensures Take([x] + s, n + 1) == [x] + Take(s, n)
  {
    if n < |s| {
      assert ([x] + s)[..n + 1] == [x] + s[..n];
    }
  }

  /** So when the guard lets more than `MaxMatches` matches through, exactly
      `MaxMatches` are pushed; otherwise all of them are. */
  lemma CollectCap(exec: Exec, s: string)
    requires ExecContract(exec, s) && ExecStopsPastEnd(exec, s)
    ensures var all := Uncapped(exec, s, 0, -1);
            var ms := Collect(exec, s, 0, -1, 0);
            && (|all| <= MaxMatches ==> ms == all)
            && (|all| > MaxMatches ==> ms == all[..MaxMatches])
  {
    CollectTruncates(exec, s, 0, -1, 0);
  }

  /** Every accepted match moves `lastIndex` to a position no earlier match
      left it at: the ends of the accepted matches strictly increase, each
      beyond the previously recorded one. */
  lemma {:induction false} CollectEnds(exec: Exec, s: string, cursor: nat, recorded: int, count: nat)
    requires ExecContract(exec, s) && ExecStopsPastEnd(exec, s) && cursor <= |s| + 1 && recorded <= cursor
    ensures var ms := Collect(exec, s, cursor, recorded, count);
            && (forall i :: 0 <= i < |ms| ==> cursor <= ms[i].index && recorded < End(ms[i]) <= |s|)
            && (forall i, j :: 0 <= i < j < |ms| ==> End(ms[i]) < End(ms[j]))
    decreases |s| + 1 - cursor, if recorded == cursor then 0 else 1
  {
    match exec(s, cursor)
    case None =>
    case Some(m) =>
      CollectStep(exec, s, cursor, recorded, count);
      if End(m) == recorded {
        CollectEnds(exec, s, End(m) + 1, recorded, count);
      } else if count + 1 <= MaxMatches {
        CollectEnds(exec, s, End(m), End(m), count + 1);
      }
  }

  /** Hence the loop accepts at most one match per position 0..|s|, whatever
      the pattern: |s| + 1 matches at most. */
  lemma {:induction false} CollectPositions(exec: Exec, s: string, cursor: nat, recorded: int, count: nat)
    requires ExecContract(exec, s) && ExecStopsPastEnd(exec, s) && cursor <= |s| + 1
    requires -1 <= recorded <= cursor && recorded <= |s|
    ensures |Collect(exec, s, cursor, recorded, count)| <= |s| - recorded
    decreases |s| + 1 - cursor, if recorded == cursor then 0 else 1
  {
    match exec(s, cursor)
    case None =>
    case Some(m) =>
      CollectStep(exec, s, cursor, recorded, count);
      if End(m) == recorded {
        CollectPositions(exec, s, End(m) + 1, recorded, count);
      } else if count + 1 <= MaxMatches {
        CollectPositions(exec, s, End(m), End(m), count + 1);
      }
  }

  /** A pattern that matches the empty string everywhere: the guard skips the
      repeated empty match at each position, so the loop accepts exactly one
      match per position 0..|s| and stops. */
  lemma {:induction false} ZeroWidthEverywhere(exec: Exec, s: string, k: nat)
    requires forall from: nat :: exec(s, from) == if from <= |s| then Some(ExecResult(from, "", None)) else None
    requires k <= |s| + 1 && |s| < MaxMatches
    ensures ExecContract(exec, s) && ExecStopsPastEnd(exec, s)
    ensures Collect(exec, s, k, k - 1, k) == EmptyMatches(k, |s| + 1)
    decreases |s| + 1 - k
  {
    ZeroWidthContract(exec, s);
    if k <= |s| {
      assert exec(s, k) == Some(ExecResult(k, "", None));
      ZeroWidthStep(exec, s, k);
      ZeroWidthEverywhere(exec, s, k + 1);
      EmptyMatchesFrom(k, |s| + 1);
    } else {
      assert exec(s, k) == None;
    }
  }

  /** Without the cap, the same pattern yields one empty match per position
      0..|s|, however long `s` is. */
  lemma {:induction false} ZeroWidthUncapped(exec: Exec, s: string, k: nat)
    requires forall from: nat :: exec(s, from) == if from <= |s| then Some(ExecResult(from, "", None)) else None
    requires k <= |s| + 1
    ensures ExecContract(exec, s) && ExecStopsPastEnd(exec, s)
    ensures Uncapped(exec, s, k, k - 1) == EmptyMatches(k, |s| + 1)
    decreases |s| + 1 - k
  {
    ZeroWidthContract(exec, s);
    if k <= |s| {
      assert exec(s, k) == Some(ExecResult(k, "", None));
      assert Uncapped(exec, s, k, k) == Uncapped(exec, s, k + 1, k);
      ZeroWidthUncapped(exec, s, k + 1);
      EmptyMatchesFrom(k, |s| + 1);
    } else {
      assert exec(s, k) == None;
    }
  }

  /** With the cap, a content of `MaxMatches` characters or more yields the
      empty matches at positions 0..MaxMatches - 1 only. */
  lemma ZeroWidthCapped(exec: Exec, s: string)
    requires forall from: nat :: exec(s, from) == if from <= |s| then Some(ExecResult(from, "", None)) else None
    ensures ExecContract(exec, s) && ExecStopsPastEnd(exec, s)
    ensures Collect(exec, s, 0, -1, 0) == EmptyMatches(0, Min(|s| + 1, MaxMatches))
  {
    ZeroWidthUncapped(exec, s, 0);
    CollectTruncates(exec, s, 0, -1, 0);
    var all := EmptyMatches(0, |s| + 1);
    var n := Min(|s| + 1, MaxMatches);
    assert Take(all, MaxMatches) == EmptyMatches(0, n) by {
      forall i | 0 <= i < n ensures Take(all, MaxMatches)[i] == EmptyMatches(0, n)[i] {
      }
    }
  }

  /** The empty matches at `k` onwards: the one at `k`, then the rest. */
  function EmptyMatches(k: nat, n: nat): seq<ExecResult>
    requires k <= n
  {
    seq(n - k, i requires 0 <= i < n - k => ExecResult(k + i, "", None))
  }

  lemma EmptyMatchesFrom(k: nat, n: nat)
    requires k < n
    ensures EmptyMatches(k, n) == [ExecResult(k, "", None)] + EmptyMatches(k + 1, n)
  {
    var want := EmptyMatches(k, n);
    var rest := EmptyMatches(k + 1, n);
    forall i | 0 <= i < |want| ensures want[i] == ([ExecResult(k, "", None)] + rest)[i] {
      if i > 0 {
        assert rest[i - 1] == ExecResult(k + 1 + (i - 1), "", None);
      }
    }
  }

  /** At position `k` the loop accepts the empty match and then skips its
      repetition. */
  lemma ZeroWidthStep(exec: Exec, s: string, k: nat)
    requires exec(s, k) == Some(ExecResult(k, "", None))
    requires ExecContract(exec, s) && ExecStopsPastEnd(exec, s)
    requires k <= |s| && |s| < MaxMatches
    ensures Collect(exec, s, k, k - 1, k) == [ExecResult(k, "", None)] + Collect(exec, s, k + 1, k, k + 1)
  {
    CollectStep(exec, s, k, k - 1, k);
    CollectStep(exec, s, k, k, k + 1);
  }

  lemma ZeroWidthContract(exec: Exec, s: string)
    requires forall from: nat :: exec(s, from) == if from <= |s| then Some(ExecResult(from, "", None)) else None
    ensures ExecContract(exec, s) && ExecStopsPastEnd(exec, s)
  {
    forall from: nat ensures match exec(s, from) case None => true case Some(m) => from <= m.index && End(m) <= |s| {
    }
  }

  /** The hints are the matches sorted by index, the first `|labels|` of
      them, match `i` carrying label `i`; every hint is of type 'regex'. */
  lemma RegexHintsLayout(content: string, offset: int, pattern: string, alphabet: string, caseSensitive: bool,
                         validate: string -> Option<string>, compile: (string, bool) -> Exec,
                         adjust: (string, nat, string) -> int)
    requires ExecContract(compile(pattern, caseSensitive), content)
    requires ExecStopsPastEnd(compile(pattern, caseSensitive), content)
    requires !IsValidationError(validate(pattern))
    ensures var ms := Collect(compile(pattern, caseSensitive), content, 0, -1, 0);
            var sorted := SortByIndex(ToRegexLinks(content, ms, offset, adjust));
            var labels := HintGenerator.HintLabels(alphabet, |ms|, {});
            var r := RegexHints(content, offset, pattern, alphabet, caseSensitive, validate, compile, adjust);
            && |r| == |labels| <= |ms| <= |content| + 1
            && (forall i :: 0 <= i < |r| ==> r[i] == Labelled(labels[i], sorted[i]) && r[i].item.kind == Regex)
            && (forall i, j :: 0 <= i < j < |r| ==> r[i].item.index <= r[j].item.index)
  {
    var exec := compile(pattern, caseSensitive);
    var ms := Collect(exec, content, 0, -1, 0);
    var links := ToRegexLinks(content, ms, offset, adjust);
    var labels := HintGenerator.HintLabels(alphabet, |ms|, {});
    HintGenerator.LabelsNonEmpty(alphabet, |ms|, {});
    HintGenerator.LabelCount(alphabet, |ms|, {});
    CollectPositions(exec, content, 0, -1, 0);
    SortedRegex(links);
    LabelSorted(SortByIndex(links), labels);
    assert RegexHints(content, offset, pattern, alphabet, caseSensitive, validate, compile, adjust)
           == AssignLabels(SortByIndex(links), labels);
  }

  /** Sorting keeps every link of type 'regex'. */
  lemma SortedRegex(links: seq<DetectedLink>)
    requires forall i :: 0 <= i < |links| ==> links[i].kind == Regex
    ensures forall i :: 0 <= i < |SortByIndex(links)| ==> SortByIndex(links)[i].kind == Regex
  {
    var sorted := SortByIndex(links);
    forall i | 0 <= i < |sorted| ensures sorted[i].kind == Regex {
      assert sorted[i] in multiset(links);
    }
  }

  /** Labelling a sorted list with at most as many non-empty labels keeps one
      link per label, in order. */
  lemma LabelSorted(sorted: seq<DetectedLink>, labels: seq<string>)
    requires SortedByIndex(sorted) && |labels| <= |sorted|
    requires forall i :: 0 <= i < |labels| ==> 1 <= |labels[i]| <= 2
    ensures var r := AssignLabels(sorted, labels);
            && |r| == |labels|
            && (forall i :: 0 <= i < |r| ==> r[i] == Labelled(labels[i], sorted[i]))
            && (forall i, j :: 0 <= i < j < |r| ==> r[i].item.index <= r[j].item.index)
  {
    AssignAll(sorted, labels);
  }
}
