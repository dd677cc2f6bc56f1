/** Flash mode: find every occurrence of the typed search string in the
    visible text, keep those on screen, and label them with letters that
    cannot be confused with the next character of the search. */
module FlashMatchDetector {
  import opened Text
  import HintGenerator

  /** A `FlashMatch`. Its `type` is always 'flash' and is not carried. */
  datatype FlashMatch = FlashMatch(index: int, matchLength: nat, linkText: string, letter: string)

  /** One of the editor's `visibleRanges`, half-open: `from <= pos < to`. */
  datatype Range = Range(from: int, to: int)

  /** How the escaped search string compares one code unit: exactly, or
      ignoring ASCII case under the `i` flag. */
  predicate SameChar(a: char, b: char, caseSensitive: bool)
  {
    if caseSensitive then a == b else Lower(a) == Lower(b)
  }

  /** Code units `i..` of the literal `t` match `s` from `p + i` on. */
  predicate AgreesFrom(s: string, t: string, p: nat, i: nat, caseSensitive: bool)
    requires p + |t| <= |s|
    decreases |t| - i
  {
    i >= |t| || (SameChar(s[p + i], t[i], caseSensitive) && AgreesFrom(s, t, p, i + 1, caseSensitive))
  }

  /** The escaped literal `t` matches `s` at `p`. */
  predicate OccursAt(s: string, t: string, p: nat, caseSensitive: bool)
  {
    p + |t| <= |s| && AgreesFrom(s, t, p, 0, caseSensitive)
  }

  /** `t` matches at `p` exactly when each of its code units matches the one
      of `s` it lies over. */
  lemma OccursAtMeans(s: string, t: string, p: nat, caseSensitive: bool)
    requires p + |t| <= |s|
    ensures OccursAt(s, t, p, caseSensitive) <==>
            forall i :: 0 <= i < |t| ==> SameChar(s[p + i], t[i], caseSensitive)
  {
    AgreesFromMeans(s, t, p, 0, caseSensitive);
  }

  lemma {:induction false} AgreesFromMeans(s: string, t: string, p: nat, i: nat, caseSensitive: bool)
    requires p + |t| <= |s| && i <= |t|
    ensures AgreesFrom(s, t, p, i, caseSensitive) <==>
            forall k :: i <= k < |t| ==> SameChar(s[p + k], t[k], caseSensitive)
    decreases |t| - i
  {
    if i < |t| {
      AgreesFromMeans(s, t, p, i + 1, caseSensitive);
    }
  }

  /** `regex.exec(s)` with `lastIndex == from` for the escaped literal `t`:
      the first position at or after `from` where `t` occurs. */
  function FindFrom(s: string, t: string, from: nat, caseSensitive: bool): (r: Option<nat>)
    ensures r.Some? ==> from <= r.value && r.value + |t| <= |s|
    decreases |s| - from
  {
    if from + |t| > |s| then None
    else if OccursAt(s, t, from, caseSensitive) then Some(from)
    else FindFrom(s, t, from + 1, caseSensitive)
  }

  /** What the search finds is an occurrence. */
  lemma {:induction false} FindFromHit(s: string, t: string, from: nat, caseSensitive: bool)
    ensures var r := FindFrom(s, t, from, caseSensitive);
            r.Some? ==> OccursAt(s, t, r.value, caseSensitive)
    decreases |s| - from
  {
    if from + |t| <= |s| && !OccursAt(s, t, from, caseSensitive) {
      FindFromHit(s, t, from + 1, caseSensitive);
    }
  }

  /** No occurrence at or after `from` comes before the one found. */
  lemma {:induction false} FindFromFirst(s: string, t: string, from: nat, caseSensitive: bool, q: nat)
    requires from <= q && OccursAt(s, t, q, caseSensitive)
    ensures FindFrom(s, t, from, caseSensitive).Some? && FindFrom(s, t, from, caseSensitive).value <= q
    decreases |s| - from
  {
    if from + |t| <= |s| && !OccursAt(s, t, from, caseSensitive) {
      FindFromFirst(s, t, from + 1, caseSensitive, q);
    }
  }

  /** The positions the `while (match = regex.exec(content))` loop visits from
      `from` on: each search resumes where the previous match ended. */
  function Occurrences(s: string, t: string, from: nat, caseSensitive: bool): (ps: seq<nat>)
    requires |t| > 0
    decreases |s| - from
  {
    match FindFrom(s, t, from, caseSensitive)
    case None => []
    case Some(p) => [p] + Occurrences(s, t, p + |t|, caseSensitive)
  }

  /** The positions visited lie at or after `from`, each with room for `t`. */
  lemma {:induction false} OccurrencesBounds(s: string, t: string, from: nat, caseSensitive: bool)
    requires |t| > 0
    ensures forall k :: 0 <= k < |Occurrences(s, t, from, caseSensitive)| ==>
              from <= Occurrences(s, t, from, caseSensitive)[k] && Occurrences(s, t, from, caseSensitive)[k] + |t| <= |s|
    decreases |s| - from
  {
    match FindFrom(s, t, from, caseSensitive)
    case None =>
    case Some(p) =>
      OccurrencesBounds(s, t, p + |t|, caseSensitive);
      OccurrencesStep(s, t, from, caseSensitive);
  }

  /** Every position the loop visits is an occurrence of the search string. */
  lemma {:induction false} OccurrencesHit(s: string, t: string, from: nat, caseSensitive: bool)
    requires |t| > 0
    ensures forall k :: 0 <= k < |Occurrences(s, t, from, caseSensitive)| ==>
              OccursAt(s, t, Occurrences(s, t, from, caseSensitive)[k], caseSensitive)
    decreases |s| - from
  {
    match FindFrom(s, t, from, caseSensitive)
    case None =>
    case Some(p) =>
      FindFromHit(s, t, from, caseSensitive);
      OccurrencesHit(s, t, p + |t|, caseSensitive);
      OccurrencesStep(s, t, from, caseSensitive);
  }

  /** Matches never overlap: each search resumes at the end of the last match. */
  lemma {:induction false} OccurrencesSpaced(s: string, t: string, from: nat, caseSensitive: bool)
    requires |t| > 0
    ensures forall i, j :: 0 <= i < j < |Occurrences(s, t, from, caseSensitive)| ==>
              Occurrences(s, t, from, caseSensitive)[i] + |t| <= Occurrences(s, t, from, caseSensitive)[j]
    decreases |s| - from
  {
    match FindFrom(s, t, from, caseSensitive)
    case None =>
    case Some(p) =>
      OccurrencesStep(s, t, from, caseSensitive);
      OccurrencesBounds(s, t, p + |t|, caseSensitive);
      OccurrencesSpaced(s, t, p + |t|, caseSensitive);
  }

  /** The lowercased code unit right after a match ending at `end`, when there
      is one and it is not whitespace. */
  function NextChar(s: string, end: nat): Option<char>
  {
    if end < |s| && !IsWhitespace(Lower(s[end])) then Some(Lower(s[end])) else None
  }

  /** What one match adds to `nextChars`. */
  function NextCharSet(s: string, end: nat): set<char>
  {
    match NextChar(s, end)
    case None => {}
    case Some(c) => {c}
  }

  /** The record pushed for the match at `p`, before any letter is assigned. */
  function ToMatch(s: string, t: string, start: int, p: nat): FlashMatch
    requires p + |t| <= |s|
  {
    FlashMatch(p + start, |t|, s[p..p + |t|], "")
  }

  /** The records pushed for the matches at `ps`, in order. */
  function ToMatches(s: string, t: string, start: int, ps: seq<nat>): (ms: seq<FlashMatch>)
    requires forall k :: 0 <= k < |ps| ==> ps[k] + |t| <= |s|
    ensures |ms| == |ps|
  {
    if ps == [] then [] else ToMatches(s, t, start, ps[..|ps| - 1]) + [ToMatch(s, t, start, ps[|ps| - 1])]
  }

  /** Record `k` is the one pushed for the match at `ps[k]`. */
  lemma {:induction false} ToMatchesAt(s: string, t: string, start: int, ps: seq<nat>)
    requires forall k :: 0 <= k < |ps| ==> ps[k] + |t| <= |s|
    ensures forall k :: 0 <= k < |ps| ==> ToMatches(s, t, start, ps)[k] == ToMatch(s, t, start, ps[k])
  {
    if ps != [] {
      var init := ps[..|ps| - 1];
      ToMatchesAt(s, t, start, init);
      var ms := ToMatches(s, t, start, ps);
      forall k | 0 <= k < |ps| ensures ms[k] == ToMatch(s, t, start, ps[k]) {
        if k < |init| {
          assert ps[k] == init[k];
        }
      }
    }
  }

  /** The characters following the matches at `ps`. */
  function NextChars(s: string, t: string, ps: seq<nat>): set<char>
  {
    if ps == [] then {} else NextChars(s, t, ps[..|ps| - 1]) + NextCharSet(s, ps[|ps| - 1] + |t|)
  }

  /** The `matches` the search loop gathers: one record per occurrence. */
  function Found(s: string, t: string, start: int, caseSensitive: bool): seq<FlashMatch>
    requires |t| > 0
  {
    var ps := Occurrences(s, t, 0, caseSensitive);
    OccurrencesBounds(s, t, 0, caseSensitive);
    ToMatches(s, t, start, ps)
  }

  /** The `nextChars` the search loop gathers. */
  function Following(s: string, t: string, caseSensitive: bool): set<char>
    requires |t| > 0
  {
    NextChars(s, t, Occurrences(s, t, 0, caseSensitive))
  }

  lemma {:induction false} NextCharsHas(s: string, t: string, ps: seq<nat>, q: nat)
    requires q in ps
    ensures NextCharSet(s, q + |t|) <= NextChars(s, t, ps)
  {
    var init := ps[..|ps| - 1];
    if q != ps[|ps| - 1] {
      assert ps == init + [ps[|ps| - 1]];
      assert q in init;
      NextCharsHas(s, t, init, q);
    }
  }

  lemma {:induction false} NextCharsFrom(s: string, t: string, ps: seq<nat>, c: char) returns (q: nat)
    requires c in NextChars(s, t, ps)
    ensures q in ps && NextChar(s, q + |t|) == Some(c)
  {
    if c in NextCharSet(s, ps[|ps| - 1] + |t|) {
      q := ps[|ps| - 1];
    } else {
      q := NextCharsFrom(s, t, ps[..|ps| - 1], c);
      assert q in ps;
    }
  }

  /** `visibleRanges.some(range => index >= range.from && index < range.to)` */
  predicate Visible(index: int, ranges: seq<Range>)
  {
    exists r :: r in ranges && r.from <= index < r.to
  }

  /** The source's `index` order, with room for a whole match between two
      neighbours. */
  ghost predicate Spaced(ms: seq<FlashMatch>, len: nat)
  {
    forall i, j :: 0 <= i < j < |ms| ==> ms[i].index + len <= ms[j].index
  }

  /** `matches.filter(m => visibleRanges.some(...))` */
  function FilterVisible(ms: seq<FlashMatch>, ranges: seq<Range>): (r: seq<FlashMatch>)
    ensures forall m :: m in r <==> m in ms && Visible(m.index, ranges)
  {
    if ms == [] then []
    else
      var init := ms[..|ms| - 1];
      var last := ms[|ms| - 1];
      assert ms == init + [last];
      FilterVisible(init, ranges) + (if Visible(last.index, ranges) then [last] else [])
  }

  /** Filtering keeps the matches in order and apart. */
  lemma {:induction false} FilterVisibleSpaced(ms: seq<FlashMatch>, ranges: seq<Range>, len: nat)
    requires Spaced(ms, len)
    ensures Spaced(FilterVisible(ms, ranges), len)
  {
    if ms != [] {
      var init := ms[..|ms| - 1];
      var last := ms[|ms| - 1];
      assert ms == init + [last];
      FilterVisibleSpaced(init, ranges, len);
      SpacedSnoc(init, last, FilterVisible(init, ranges), FilterVisible(ms, ranges), len);
    }
  }

  lemma SpacedSnoc(init: seq<FlashMatch>, last: FlashMatch, r0: seq<FlashMatch>, r: seq<FlashMatch>, len: nat)
    requires Spaced(init + [last], len) && Spaced(r0, len)
    requires forall m :: m in r0 ==> m in init
    requires r == r0 || r == r0 + [last]
    ensures Spaced(r, len)
  {
    var ms := init + [last];
    forall i, j | 0 <= i < j < |r| ensures r[i].index + len <= r[j].index {
      if j < |r0| {
      } else {
        assert r[i] in init;
        var k :| 0 <= k < |init| && init[k] == r[i];
        assert ms[k] == r[i] && ms[|init|] == last;
      }
    }
  }

  /** The visible matches after the `for` loop: match `k` carries `labels[k]`
      when there is one, and keeps its empty letter otherwise. */
  function Lettered(visible: seq<FlashMatch>, labels: seq<string>): (r: seq<FlashMatch>)
    ensures |r| == |visible|
  {
    seq(|visible|, k requires 0 <= k < |visible| =>
      if k < |labels| then visible[k].(letter := labels[k]) else visible[k])
  }

  /** `visibleMatches.filter(m => m.letter)` */
  function KeepLettered(ms: seq<FlashMatch>): seq<FlashMatch>
  {
    if ms == [] then [] else KeepLettered(ms[..|ms| - 1]) + (if ms[|ms| - 1].letter != "" then [ms[|ms| - 1]] else [])
  }

  /** The filter keeps exactly the matches with a letter. */
  lemma {:induction false} KeepLetteredMembers(ms: seq<FlashMatch>)
    ensures forall m :: m in KeepLettered(ms) <==> m in ms && m.letter != ""
  {
    if ms != [] {
      var init := ms[..|ms| - 1];
      KeepLetteredMembers(init);
      assert ms == init + [ms[|ms| - 1]];
    }
  }

  /** What `findMatches(searchString)` returns, the editor's visible text being
      `content` starting at document offset `start`. */
  function FlashMatches(searchString: string, content: string, start: int, ranges: seq<Range>,
                        letters: string, caseSensitive: bool): seq<FlashMatch>
  {
    if searchString == [] || content == [] then []
    else
      var visible := FilterVisible(Found(content, searchString, start, caseSensitive), ranges);
      var labels := HintGenerator.HintLabels(letters, |visible|, Following(content, searchString, caseSensitive));
      KeepLettered(Lettered(visible, labels))
  }

  /** `findMatches`: search, collect next characters, keep visible matches,
      label them in place and drop the unlabelled ones. */
  method FindMatches(searchString: string, content: string, start: int, visibleRanges: seq<Range>,
                     letters: string, caseSensitive: bool) returns (result: seq<FlashMatch>)
    ensures result == FlashMatches(searchString, content, start, visibleRanges, letters, caseSensitive)
  {
    if searchString == [] {
      return [];
    }
    if content == [] {
      return [];
    }
    var matches, nextChars := SearchAll(searchString, content, start, caseSensitive);
    var visibleMatches := FilterVisible(matches, visibleRanges);
    var labels := HintGenerator.GenerateHintLabels(letters, |visibleMatches|, nextChars);
    var lettered := AssignLetters(visibleMatches, labels);
    result := KeepLettered(lettered);
  }

  /** The `while (match = regex.exec(content))` loop: record every match and
      the character that follows it. */
  method SearchAll(searchString: string, content: string, start: int, caseSensitive: bool)
      returns (matches: seq<FlashMatch>, nextChars: set<char>)
    requires |searchString| > 0
    ensures matches == Found(content, searchString, start, caseSensitive)
    ensures nextChars == Following(content, searchString, caseSensitive)
  {
    ghost var done: seq<nat> := [];
    matches, nextChars := [], {};
    var lastIndex: nat := 0;
    while true
      invariant lastIndex <= |content|
      invariant Scanning(content, searchString, caseSensitive, done, lastIndex)
      invariant Gathered(matches, nextChars, content, searchString, start, done)
      decreases |content| - lastIndex
    {
      var hit := FindFrom(content, searchString, lastIndex, caseSensitive);
      if hit.None? {
        Finish(content, searchString, caseSensitive, start, done, lastIndex, matches, nextChars);
        break;
      }
      var p: nat := hit.value;
      ghost var from, before, matched, noted := lastIndex, done, matches, nextChars;
      matches := matches + [ToMatch(content, searchString, start, p)];
      nextChars := NoteNextChar(content, p + |searchString|, nextChars);
      lastIndex := p + |searchString|;
      done := done + [p];
      Step(content, searchString, caseSensitive, start, from, p, before, matched, noted, matches, nextChars);
    }
  }

  /** The search has visited `done` and resumes at `lastIndex`: what is left
      to find completes `done` to every occurrence. */
  ghost predicate Scanning(s: string, t: string, caseSensitive: bool, done: seq<nat>, lastIndex: nat)
  {
    |t| > 0 && Occurrences(s, t, 0, caseSensitive) == done + Occurrences(s, t, lastIndex, caseSensitive)
  }

  /** `matches` and `nextChars` hold what the occurrences at `done` add. */
  ghost predicate Gathered(matches: seq<FlashMatch>, nextChars: set<char>, s: string, t: string, start: int, done: seq<nat>)
  {
    && (forall k :: 0 <= k < |done| ==> done[k] + |t| <= |s|)
    && matches == ToMatches(s, t, start, done)
    && nextChars == NextChars(s, t, done)
  }

  /** One turn of the search loop, finding `p` from `from`. */
  lemma Step(s: string, t: string, caseSensitive: bool, start: int, from: nat, p: nat, before: seq<nat>,
             matches: seq<FlashMatch>, nextChars: set<char>, matches': seq<FlashMatch>, nextChars': set<char>)
    requires Scanning(s, t, caseSensitive, before, from) && Gathered(matches, nextChars, s, t, start, before)
    requires FindFrom(s, t, from, caseSensitive) == Some(p)
    requires matches' == matches + [ToMatch(s, t, start, p)]
    requires nextChars' == nextChars + NextCharSet(s, p + |t|)
    ensures Scanning(s, t, caseSensitive, before + [p], p + |t|)
    ensures Gathered(matches', nextChars', s, t, start, before + [p])
  {
    Advance(s, t, caseSensitive, from, p, before);
    Gather(s, t, start, before, p, matches, nextChars, matches', nextChars');
  }

  /** The occurrence at `p` moves from those still to find to those found,
      and the search resumes where it ends. */
  lemma Advance(s: string, t: string, caseSensitive: bool, from: nat, p: nat, before: seq<nat>)
    requires Scanning(s, t, caseSensitive, before, from)
    requires FindFrom(s, t, from, caseSensitive) == Some(p)
    ensures Scanning(s, t, caseSensitive, before + [p], p + |t|)
  {
    OccurrencesStep(s, t, from, caseSensitive);
    var rest := Occurrences(s, t, p + |t|, caseSensitive);
    assert before + ([p] + rest) == (before + [p]) + rest;
  }

  /** Recording the occurrence at `p` appends its record and its next
      character. */
  lemma Gather(s: string, t: string, start: int, before: seq<nat>, p: nat,
               matches: seq<FlashMatch>, nextChars: set<char>, matches': seq<FlashMatch>, nextChars': set<char>)
    requires Gathered(matches, nextChars, s, t, start, before) && p + |t| <= |s|
    requires matches' == matches + [ToMatch(s, t, start, p)]
    requires nextChars' == nextChars + NextCharSet(s, p + |t|)
    ensures Gathered(matches', nextChars', s, t, start, before + [p])
  {
    assert (before + [p])[..|before|] == before;
  }

  /** When the search finds nothing more, everything has been gathered. */
  lemma Finish(s: string, t: string, caseSensitive: bool, start: int, done: seq<nat>, lastIndex: nat,
               matches: seq<FlashMatch>, nextChars: set<char>)
    requires Scanning(s, t, caseSensitive, done, lastIndex) && Gathered(matches, nextChars, s, t, start, done)
    requires FindFrom(s, t, lastIndex, caseSensitive).None?
    ensures matches == Found(s, t, start, caseSensitive)
    ensures nextChars == Following(s, t, caseSensitive)
  {
    OccurrencesStep(s, t, lastIndex, caseSensitive);
    assert done + [] == done;
  }

  /** Add the lowercased character after a match ending at `nextCharIndex`
      to `nextChars`, unless the match ends the text or the character is
      whitespace. */
  method NoteNextChar(content: string, nextCharIndex: nat, nextChars: set<char>) returns (r: set<char>)
    ensures r == nextChars + NextCharSet(content, nextCharIndex)
  {
    r := nextChars;
    if nextCharIndex < |content| {
      var nextChar := Lower(content[nextCharIndex]);
      if !IsWhitespace(nextChar) {
        r := r + {nextChar};
      }
    }
  }

  /** The `for` loop over `visibleMatches`: match `i` takes `labels[i]` in
      place while both last. */
  method AssignLetters(visibleMatches: seq<FlashMatch>, labels: seq<string>) returns (lettered: seq<FlashMatch>)
    ensures lettered == Lettered(visibleMatches, labels)
  {
    var slots := new FlashMatch[|visibleMatches|](k requires 0 <= k < |visibleMatches| => visibleMatches[k]);
    var i := 0;
    while i < slots.Length && i < |labels|
      invariant 0 <= i <= slots.Length && i <= |labels|
      invariant slots[..] == Lettered(visibleMatches, labels[..i])
    {
      slots[i] := slots[i].(letter := labels[i]);
      i := i + 1;
    }
    lettered := slots[..];
  }

  lemma OccurrencesStep(s: string, t: string, from: nat, caseSensitive: bool)
    requires |t| > 0
    ensures FindFrom(s, t, from, caseSensitive).None? ==> Occurrences(s, t, from, caseSensitive) == []
    ensures FindFrom(s, t, from, caseSensitive).Some? ==>
              var p := FindFrom(s, t, from, caseSensitive).value;
              Occurrences(s, t, from, caseSensitive) == [p] + Occurrences(s, t, p + |t|, caseSensitive)
  {
  }

  /** Dropping the unlabelled matches keeps exactly the labelled front part. */
  lemma {:induction false} KeepLetteredPrefix(ms: seq<FlashMatch>, n: nat)
    requires n <= |ms|
    requires forall k :: 0 <= k < n ==> ms[k].letter != ""
    requires forall k :: n <= k < |ms| ==> ms[k].letter == ""
    ensures KeepLettered(ms) == ms[..n]
  {
    if ms != [] {
      var init := ms[..|ms| - 1];
      if n == |ms| {
        KeepLetteredPrefix(init, n - 1);
        assert init[..n - 1] + [ms[|ms| - 1]] == ms[..n];
      } else {
        KeepLetteredPrefix(init, n);
        assert init[..n] == ms[..n];
      }
    }
  }

  /** `m` records an occurrence of `t` in `s`: its index, less `start`, is a
      position where `t` occurs; its text is the matched slice and its length
      the search string's. */
  ghost predicate IsHit(s: string, t: string, start: int, caseSensitive: bool, m: FlashMatch)
  {
    var p := m.index - start;
    && 0 <= p && OccursAt(s, t, p, caseSensitive)
    && m.linkText == s[p..p + |t|]
    && m.matchLength == |t|
  }

  /** Every recorded match is a hit and carries an empty letter. */
  lemma MatchesRecorded(s: string, t: string, start: int, caseSensitive: bool)
    requires |t| > 0
    ensures forall m :: m in Found(s, t, start, caseSensitive) ==>
              m.letter == "" && IsHit(s, t, start, caseSensitive, m)
  {
    var ps := Occurrences(s, t, 0, caseSensitive);
    var ms := Found(s, t, start, caseSensitive);
    OccurrencesHit(s, t, 0, caseSensitive);
    OccurrencesBounds(s, t, 0, caseSensitive);
    ToMatchesAt(s, t, start, ps);
    forall m | m in ms ensures m.letter == "" && IsHit(s, t, start, caseSensitive, m) {
      var k :| 0 <= k < |ms| && ms[k] == m;
      ToMatchIsHit(s, t, start, caseSensitive, ps[k]);
    }
  }

  /** The record pushed for an occurrence is a hit with an empty letter. */
  lemma ToMatchIsHit(s: string, t: string, start: int, caseSensitive: bool, p: nat)
    requires OccursAt(s, t, p, caseSensitive)
    ensures var m := ToMatch(s, t, start, p);
            m.letter == "" && IsHit(s, t, start, caseSensitive, m)
  {
  }

  /** Letters assigned to the first `|labels|` of `visible`, none of them
      empty, then the unlabelled rest dropped: the labelled front part. */
  lemma LetteredKept(visible: seq<FlashMatch>, labels: seq<string>)
    requires |labels| <= |visible|
    requires forall k :: 0 <= k < |labels| ==> labels[k] != ""
    requires forall m :: m in visible ==> m.letter == ""
    ensures var r := KeepLettered(Lettered(visible, labels));
            |r| == |labels| && forall k :: 0 <= k < |r| ==> r[k] == visible[k].(letter := labels[k])
  {
    var lettered := Lettered(visible, labels);
    forall k | |labels| <= k < |lettered| ensures lettered[k].letter == "" {
      assert visible[k] in visible;
    }
    KeepLetteredPrefix(lettered, |labels|);
  }

  /** The result is the visible matches in order, the first `|labels|` of
      them, match `k` carrying `labels[k]`; all visible matches are labelled
      when the filtered alphabet has A >= 2 distinct letters and there are at
      most A * A of them. */
  lemma FlashLayout(searchString: string, content: string, start: int, ranges: seq<Range>,
                    letters: string, caseSensitive: bool)
    requires searchString != [] && content != []
    ensures var next := Following(content, searchString, caseSensitive);
            var visible := FilterVisible(Found(content, searchString, start, caseSensitive), ranges);
            var labels := HintGenerator.HintLabels(letters, |visible|, next);
            var alphabet := HintGenerator.FilteredAlphabet(letters, next);
            var r := FlashMatches(searchString, content, start, ranges, letters, caseSensitive);
            && |r| == |labels| <= |visible|
            && (forall k :: 0 <= k < |r| ==> r[k] == visible[k].(letter := labels[k]))
            && (Distinct(alphabet) && |alphabet| >= 2 ==> |r| == Min(|visible|, |alphabet| * |alphabet|))
  {
    var next := Following(content, searchString, caseSensitive);
    var visible := FilterVisible(Found(content, searchString, start, caseSensitive), ranges);
    HintGenerator.LabelsNonEmpty(letters, |visible|, next);
    HintGenerator.LabelCount(letters, |visible|, next);
    MatchesRecorded(content, searchString, start, caseSensitive);
    LetteredKept(visible, HintGenerator.HintLabels(letters, |visible|, next));
  }

  /** Every result is an occurrence of the search string, on screen, with
      the search string's length, the matched text and a label. */
  lemma FlashSound(searchString: string, content: string, start: int, ranges: seq<Range>,
                   letters: string, caseSensitive: bool)
    ensures var r := FlashMatches(searchString, content, start, ranges, letters, caseSensitive);
            forall k :: 0 <= k < |r| ==>
              IsHit(content, searchString, start, caseSensitive, r[k]) && Visible(r[k].index, ranges) && r[k].letter != ""
  {
    if searchString != [] && content != [] {
      var next := Following(content, searchString, caseSensitive);
      var visible := FilterVisible(Found(content, searchString, start, caseSensitive), ranges);
      var r := FlashMatches(searchString, content, start, ranges, letters, caseSensitive);
      var labels := HintGenerator.HintLabels(letters, |visible|, next);
      FlashLayout(searchString, content, start, ranges, letters, caseSensitive);
      MatchesRecorded(content, searchString, start, caseSensitive);
      HintGenerator.LabelsNonEmpty(letters, |visible|, next);
      forall k | 0 <= k < |r|
        ensures IsHit(content, searchString, start, caseSensitive, r[k]) && Visible(r[k].index, ranges) && r[k].letter != ""
      {
        assert visible[k] in visible;
        assert r[k] == visible[k].(letter := labels[k]);
        Relabel(content, searchString, start, caseSensitive, visible[k], labels[k]);
      }
    }
  }

  lemma Relabel(s: string, t: string, start: int, caseSensitive: bool, m: FlashMatch, letter: string)
    requires IsHit(s, t, start, caseSensitive, m)
    ensures IsHit(s, t, start, caseSensitive, m.(letter := letter))
  {
  }

  /** The results are in text order and never overlap. */
  lemma FlashOrdered(searchString: string, content: string, start: int, ranges: seq<Range>,
                     letters: string, caseSensitive: bool)
    ensures var r := FlashMatches(searchString, content, start, ranges, letters, caseSensitive);
            forall i, j :: 0 <= i < j < |r| ==> r[i].index + |searchString| <= r[j].index
  {
    if searchString != [] && content != [] {
      var found := Found(content, searchString, start, caseSensitive);
      var visible := FilterVisible(found, ranges);
      var r := FlashMatches(searchString, content, start, ranges, letters, caseSensitive);
      FoundSpaced(content, searchString, start, caseSensitive);
      FilterVisibleSpaced(found, ranges, |searchString|);
      FlashLayout(searchString, content, start, ranges, letters, caseSensitive);
      SameIndexSpaced(visible, r, |searchString|);
    }
  }

  /** The recorded matches are in text order and do not overlap. */
  lemma FoundSpaced(s: string, t: string, start: int, caseSensitive: bool)
    requires |t| > 0
    ensures Spaced(Found(s, t, start, caseSensitive), |t|)
  {
    var ps := Occurrences(s, t, 0, caseSensitive);
    var ms := Found(s, t, start, caseSensitive);
    OccurrencesSpaced(s, t, 0, caseSensitive);
    OccurrencesBounds(s, t, 0, caseSensitive);
    ToMatchesAt(s, t, start, ps);
    assert ms == ToMatches(s, t, start, ps);
    forall i, j | 0 <= i < j < |ms| ensures ms[i].index + |t| <= ms[j].index {
      assert ms[i] == ToMatch(s, t, start, ps[i]) && ms[j] == ToMatch(s, t, start, ps[j]);
    }
  }

  /** Relabelling a front part keeps the spacing. */
  lemma SameIndexSpaced(ms: seq<FlashMatch>, r: seq<FlashMatch>, len: nat)
    requires Spaced(ms, len) && |r| <= |ms|
    requires forall k :: 0 <= k < |r| ==> r[k].index == ms[k].index
    ensures Spaced(r, len)
  {
  }

  /** `c` follows none of the matches at `ps` (lowercased and skipping
      whitespace, as `nextChars` records them). */
  ghost predicate FollowsNone(s: string, t: string, ps: seq<nat>, c: char)
  {
    forall q :: q in ps ==> NextChar(s, q + |t|) != Some(c)
  }

  /** Labels never use a character that follows a match (lowercased), so
      typing it always extends the search, unless every letter of the
      alphabet follows some match; then labelling ignores the exclusions. */
  lemma LabelsAvoidNextChars(searchString: string, content: string, start: int, ranges: seq<Range>,
                             letters: string, caseSensitive: bool)
    requires searchString != [] && content != []
    ensures var ps := Occurrences(content, searchString, 0, caseSensitive);
            var r := FlashMatches(searchString, content, start, ranges, letters, caseSensitive);
            (exists a :: a in LowerAll(letters) && FollowsNone(content, searchString, ps, a)) ==>
              forall k, i :: 0 <= k < |r| && 0 <= i < |r[k].letter| ==> FollowsNone(content, searchString, ps, r[k].letter[i])
  {
    var ps := Occurrences(content, searchString, 0, caseSensitive);
    var next := Following(content, searchString, caseSensitive);
    var visible := FilterVisible(Found(content, searchString, start, caseSensitive), ranges);
    var labels := HintGenerator.HintLabels(letters, |visible|, next);
    var r := FlashMatches(searchString, content, start, ranges, letters, caseSensitive);
    if a :| a in LowerAll(letters) && FollowsNone(content, searchString, ps, a) {
      NextCharsFollow(content, searchString, ps, a);
      assert a in HintGenerator.Without(LowerAll(letters), next);
      assert HintGenerator.Without(LowerAll(letters), next) != [];
      HintGenerator.ExclusionRespected(letters, |visible|, next);
      FlashLayout(searchString, content, start, ranges, letters, caseSensitive);
      forall k, i | 0 <= k < |r| && 0 <= i < |r[k].letter|
        ensures FollowsNone(content, searchString, ps, r[k].letter[i])
      {
        var c := r[k].letter[i];
        assert labels[k] in labels && r[k].letter == labels[k];
        assert c in labels[k];
        assert c !in next;
        NextCharsFollow(content, searchString, ps, c);
      }
    }
  }

  /** `nextChars` holds exactly the characters that follow some match. */
  lemma NextCharsFollow(s: string, t: string, ps: seq<nat>, c: char)
    ensures c !in NextChars(s, t, ps) <==> FollowsNone(s, t, ps, c)
  {
    if c in NextChars(s, t, ps) {
      var q := NextCharsFrom(s, t, ps, c);
    } else {
      forall q | q in ps ensures NextChar(s, q + |t|) != Some(c) {
        NextCharsHas(s, t, ps, q);
      }
    }
  }

  /** No occurrence is missed: every place the search string occurs overlaps
      a recorded match. */
  lemma {:induction false} OccurrencesCover(s: string, t: string, from: nat, caseSensitive: bool, q: nat)
    requires |t| > 0 && from <= q && OccursAt(s, t, q, caseSensitive)
    ensures exists p :: p in Occurrences(s, t, from, caseSensitive) && p <= q < p + |t|
    decreases |s| - from
  {
    FindFromFirst(s, t, from, caseSensitive, q);
    OccurrencesStep(s, t, from, caseSensitive);
    var p := FindFrom(s, t, from, caseSensitive).value;
    if q >= p + |t| {
      OccurrencesCover(s, t, p + |t|, caseSensitive, q);
      var p' :| p' in Occurrences(s, t, p + |t|, caseSensitive) && p' <= q < p' + |t|;
      assert p' in Occurrences(s, t, from, caseSensitive);
    } else {
      assert p in Occurrences(s, t, from, caseSensitive);
    }
  }
}
