/** Markdown link detection (src/detection/LinkDetector.ts): four passes over
    the content in a fixed order, a start index claimed by one pass is never
    reported again, and the survivors are sorted by position and labelled. */
module LinkDetector {
  import opened Text
  import opened Links
  import opened LinkPatterns
  import opened Labelling
  import HintGenerator

  /** The link a pass reports for one match. Bare URLs are reported one past
      the match start whatever the match started with. */
  function ToLink(pattern: Pattern, s: string, m: RawMatch, offset: int): DetectedLink
    requires Fits(s, m)
  {
    match pattern
    case WikiLink => DetectedLink(m.index + offset, Internal, Trim(Group(s, m)))
    case ExternalLink => DetectedLink(m.index + offset, External, Group(s, m))
    case MarkdownInternal => DetectedLink(m.index + offset, Internal, Group(s, m))
    case BareUrl => DetectedLink(m.index + offset + 1, External, Group(s, m))
  }

  function ToLinks(pattern: Pattern, s: string, ms: seq<RawMatch>, offset: int): (r: seq<DetectedLink>)
    requires forall i :: 0 <= i < |ms| ==> Fits(s, ms[i])
    ensures |r| == |ms|
  {
    if ms == [] then [] else [ToLink(pattern, s, ms[0], offset)] + ToLinks(pattern, s, ms[1..], offset)
  }

  /** Link `i` is the one reported for match `i`. */
  lemma {:induction false} ToLinksAt(pattern: Pattern, s: string, ms: seq<RawMatch>, offset: int)
    requires forall i :: 0 <= i < |ms| ==> Fits(s, ms[i])
    ensures forall i :: 0 <= i < |ms| ==> ToLinks(pattern, s, ms, offset)[i] == ToLink(pattern, s, ms[i], offset)
  {
    if ms != [] {
      ToLinksAt(pattern, s, ms[1..], offset);
    }
  }

  /** The matches still to come when `exec` has just returned `m`. */
  function Remaining(pattern: Pattern, s: string, m: Option<RawMatch>): (ms: seq<RawMatch>)
    requires m.Some? ==> Fits(s, m.value)
    ensures forall i :: 0 <= i < |ms| ==> Fits(s, ms[i])
  {
    if m.None? then [] else [m.value] + AllMatches(pattern, s, m.value.end)
  }

  /** Everything one pass offers to `addLink`, in order. */
  function Candidates(pattern: Pattern, s: string, offset: int): seq<DetectedLink>
  {
    ToLinks(pattern, s, AllMatches(pattern, s, 0), offset)
  }

  /** Everything the four passes offer to `addLink`, in pass order. */
  function AllCandidates(s: string, offset: int): seq<DetectedLink>
  {
    Candidates(WikiLink, s, offset) + Candidates(ExternalLink, s, offset)
    + Candidates(MarkdownInternal, s, offset) + Candidates(BareUrl, s, offset)
  }

  function Indices(c: seq<DetectedLink>): set<int>
  {
    set x | x in c :: x.index
  }

  /** What `addLink` keeps of `c`: each link whose index no earlier link had. */
  function Dedup(c: seq<DetectedLink>): (r: seq<DetectedLink>)
    ensures Indices(r) == Indices(c)
    ensures DistinctIndices(r)
  {
    if c == [] then []
    else
      var init := c[..|c| - 1];
      var x := c[|c| - 1];
      var kept := Dedup(init);
      assert Indices(c) == Indices(init) + {x.index} by {
        assert c == init + [x];
      }
      var r := kept + (if x.index in Indices(init) then [] else [x]);
      assert forall k :: 0 <= k < |kept| ==> kept[k].index in Indices(init) by {
        assert forall k :: 0 <= k < |kept| ==> kept[k] in kept;
      }
      r
  }

  /** What `detectLinks(content, offset)` returns. */
  function DetectedLinks(s: string, offset: int): seq<DetectedLink>
  {
    SortByIndex(Dedup(AllCandidates(s, offset)))
  }

  // ---------------------------------------------------------------------------
  // The imperative detector

  /** `detectLinks`: a set of claimed indexes and a list of links, filled by
      `addLink` over the four passes, then sorted by index. */
  method DetectLinks(content: string, offset: int) returns (links: seq<DetectedLink>)
    ensures links == DetectedLinks(content, offset)
  {
    var indexes: set<int> := {};
    var found: seq<DetectedLink> := [];
    ghost var c1 := Candidates(WikiLink, content, offset);
    ghost var c2 := c1 + Candidates(ExternalLink, content, offset);
    ghost var c3 := c2 + Candidates(MarkdownInternal, content, offset);
    assert [] + c1 == c1;
    found, indexes := RunPass(WikiLink, content, offset, found, indexes, []);
    found, indexes := RunPass(ExternalLink, content, offset, found, indexes, c1);
    found, indexes := RunPass(MarkdownInternal, content, offset, found, indexes, c2);
    found, indexes := RunPass(BareUrl, content, offset, found, indexes, c3);
    links := SortByIndex(found);
  }

  /** `links` and `indexes` are what `addLink` has made of the links `seen`:
      the first link for each index, and the indexes claimed. */
  ghost predicate Claimed(links: seq<DetectedLink>, indexes: set<int>, seen: seq<DetectedLink>)
  {
    links == Dedup(seen) && indexes == Indices(seen)
  }

  /** One `while (regExResult = pattern.exec(content))` loop feeding `addLink`. */
  method RunPass(pattern: Pattern, content: string, offset: int, links0: seq<DetectedLink>, indexes0: set<int>,
                 ghost before: seq<DetectedLink>) returns (links: seq<DetectedLink>, indexes: set<int>)
    requires Claimed(links0, indexes0, before)
    ensures Claimed(links, indexes, before + Candidates(pattern, content, offset))
  {
    links, indexes := links0, indexes0;
    var m := Exec(pattern, content, 0);
    ghost var total := before + Candidates(pattern, content, offset);
    ghost var seen := before;
    ghost var rest := Candidates(pattern, content, offset);
    while m.Some?
      invariant m.Some? ==> Fits(content, m.value)
      invariant rest == ToLinks(pattern, content, Remaining(pattern, content, m), offset)
      invariant seen + rest == total
      invariant Claimed(links, indexes, seen)
      decreases |Remaining(pattern, content, m)|
    {
      var link := ToLink(pattern, content, m.value, offset);
      var next := Exec(pattern, content, m.value.end);
      RemainingStep(pattern, content, m.value, next, offset);
      ghost var later := ToLinks(pattern, content, Remaining(pattern, content, next), offset);
      ShiftOne(seen, link, later, total);
      links, indexes := AddLink(link, links, indexes, seen);
      seen, rest := seen + [link], later;
      m := next;
    }
    assert seen + [] == seen;
  }

  /** Moving the head of what is left onto what has been seen keeps the whole. */
  lemma ShiftOne<T>(seen: seq<T>, x: T, later: seq<T>, total: seq<T>)
    requires seen + ([x] + later) == total
    ensures (seen + [x]) + later == total
  {
    assert seen + ([x] + later) == (seen + [x]) + later;
  }

  /** `addLink`: a link whose index is already claimed is ignored; otherwise
      its index is claimed and the link appended. */
  method AddLink(link: DetectedLink, links0: seq<DetectedLink>, indexes0: set<int>, ghost seen: seq<DetectedLink>)
    returns (links: seq<DetectedLink>, indexes: set<int>)
    requires Claimed(links0, indexes0, seen)
    ensures Claimed(links, indexes, seen + [link])
  {
    DedupSnoc(seen, link);
    links, indexes := links0, indexes0;
    if link.index in indexes {
      return;
    }
    indexes := indexes + {link.index};
    links := links + [link];
  }

  lemma DedupSnoc(seen: seq<DetectedLink>, link: DetectedLink)
    ensures Dedup(seen + [link]) == Dedup(seen) + (if link.index in Indices(seen) then [] else [link])
    ensures Indices(seen + [link]) == Indices(seen) + {link.index}
  {
    assert (seen + [link])[..|seen|] == seen;
  }

  lemma RemainingStep(pattern: Pattern, s: string, m: RawMatch, next: Option<RawMatch>, offset: int)
    requires Fits(s, m) && next == Exec(pattern, s, m.end)
    ensures next.Some? ==> Fits(s, next.value)
    ensures |Remaining(pattern, s, next)| < |Remaining(pattern, s, Some(m))|
    ensures ToLinks(pattern, s, Remaining(pattern, s, Some(m)), offset)
            == [ToLink(pattern, s, m, offset)] + ToLinks(pattern, s, Remaining(pattern, s, next), offset)
  {
    var rest := Remaining(pattern, s, Some(m));
    assert rest[1..] == AllMatches(pattern, s, m.end) == Remaining(pattern, s, next);
  }

  // ---------------------------------------------------------------------------
  // Properties

  predicate FirstWithIndex(c: seq<DetectedLink>, i: nat)
    requires i < |c|
  {
    forall j :: 0 <= j < i ==> c[j].index != c[i].index
  }

  /** First writer wins: a candidate is kept exactly when no earlier candidate
      claimed its index. */
  lemma FirstWriterWins(c: seq<DetectedLink>)
    ensures forall i :: 0 <= i < |c| && FirstWithIndex(c, i) ==> c[i] in Dedup(c)
    ensures forall x :: x in Dedup(c) ==> exists i :: 0 <= i < |c| && c[i] == x && FirstWithIndex(c, i)
  {
    FirstIsKept(c);
    KeptIsFirst(c);
  }

  lemma {:induction false} FirstIsKept(c: seq<DetectedLink>)
    ensures forall i :: 0 <= i < |c| && FirstWithIndex(c, i) ==> c[i] in Dedup(c)
  {
    if c != [] {
      var n := |c| - 1;
      var init := c[..n];
      FirstIsKept(init);
      forall i | 0 <= i < |c| && FirstWithIndex(c, i) ensures c[i] in Dedup(c) {
        FirstIsKeptStep(c, init, i);
      }
    }
  }

  lemma FirstIsKeptStep(c: seq<DetectedLink>, init: seq<DetectedLink>, i: nat)
    requires c != [] && init == c[..|c| - 1] && i < |c| && FirstWithIndex(c, i)
    requires forall i :: 0 <= i < |init| && FirstWithIndex(init, i) ==> init[i] in Dedup(init)
    ensures c[i] in Dedup(c)
  {
    var n := |c| - 1;
    assert c == init + [c[n]];
    if i == n {
      forall x | x in init ensures x.index != c[n].index {
        var j :| 0 <= j < n && init[j] == x;
        assert c[j] == x;
      }
      assert c[n].index !in Indices(init);
      assert Dedup(c) == Dedup(init) + [c[n]];
    } else {
      assert init[i] == c[i];
      forall j | 0 <= j < i ensures init[j].index != init[i].index {
        assert init[j] == c[j];
      }
      assert FirstWithIndex(init, i);
      assert c[i] in Dedup(init);
    }
  }

  ghost predicate KeptFromFirst(c: seq<DetectedLink>, x: DetectedLink)
  {
    exists i :: 0 <= i < |c| && c[i] == x && FirstWithIndex(c, i)
  }

  lemma {:induction false} KeptIsFirst(c: seq<DetectedLink>)
    ensures forall x :: x in Dedup(c) ==> KeptFromFirst(c, x)
  {
    if c != [] {
      var init := c[..|c| - 1];
      KeptIsFirst(init);
      forall x | x in Dedup(c) ensures KeptFromFirst(c, x) {
        KeptStep(c, init, x);
      }
    }
  }

  lemma KeptStep(c: seq<DetectedLink>, init: seq<DetectedLink>, x: DetectedLink)
    requires c != [] && init == c[..|c| - 1] && x in Dedup(c)
    requires forall y :: y in Dedup(init) ==> KeptFromFirst(init, y)
    ensures KeptFromFirst(c, x)
  {
    var n := |c| - 1;
    if x in Dedup(init) {
      var i :| 0 <= i < n && init[i] == x && FirstWithIndex(init, i);
      forall j | 0 <= j < i ensures c[j].index != c[i].index {
        assert init[j] == c[j] && init[i] == c[i];
      }
      assert c[i] == x && FirstWithIndex(c, i);
    } else {
      assert x == c[n] && c[n].index !in Indices(init);
      forall j | 0 <= j < n ensures c[j].index != c[n].index {
        assert init[j] in init;
      }
      assert FirstWithIndex(c, n);
    }
  }

  /** The indices `detectLinks` returns strictly increase. */
  lemma DetectedStrictlyIncreasing(s: string, offset: int)
    ensures StrictlyIncreasing(DetectedLinks(s, offset))
  {
    SortStrict(Dedup(AllCandidates(s, offset)));
  }

  /** Every detected link is one of the candidates, and the detected links
      cover the same indices as all candidates together. */
  lemma DetectedAreCandidates(s: string, offset: int)
    ensures forall x :: x in DetectedLinks(s, offset) ==> x in AllCandidates(s, offset)
    ensures Indices(DetectedLinks(s, offset)) == Indices(AllCandidates(s, offset))
  {
    var c := AllCandidates(s, offset);
    FirstWriterWins(c);
    SortKeepsElements(Dedup(c));
  }

  lemma SortKeepsElements(d: seq<DetectedLink>)
    ensures forall x :: x in SortByIndex(d) <==> x in d
    ensures Indices(SortByIndex(d)) == Indices(d)
  {
    var r := SortByIndex(d);
    assert forall x :: x in r <==> x in multiset(r);
    assert forall x :: x in d <==> x in multiset(d);
  }

  // ---------------------------------------------------------------------------
  // What each pass reports

  /** Every candidate of a pass comes from a match of its pattern. */
  lemma CandidateOf(pattern: Pattern, s: string, offset: int, x: DetectedLink) returns (m: RawMatch)
    requires x in Candidates(pattern, s, offset)
    ensures MatchAt(pattern, s, m.index) == Some(m) && Fits(s, m) && x == ToLink(pattern, s, m, offset)
  {
    var ms := AllMatches(pattern, s, 0);
    AllMatchesFound(pattern, s, 0);
    assert AllFound(pattern, s, ms);
    var c := Candidates(pattern, s, offset);
    ToLinksAt(pattern, s, ms, offset);
    var i :| 0 <= i < |c| && c[i] == x;
    m := ms[i];
    assert MatchAt(pattern, s, m.index) == Some(m);
  }

  /** Wiki links are internal, start at `[[`, and their text is trimmed. */
  ghost predicate WikiShaped(s: string, at: int, x: DetectedLink)
  {
    && x.kind == Internal && 0 <= at && HasAt(s, at, "[[")
    && (x.linkText == [] || (!IsWhitespace(x.linkText[0]) && !IsWhitespace(x.linkText[|x.linkText| - 1])))
  }

  /** External links are external, start at `[`, and carry the whole
      target, which holds `://`. */
  ghost predicate ExternalShaped(s: string, at: int, x: DetectedLink)
  {
    x.kind == External && 0 <= at < |s| && s[at] == '[' && Contains(x.linkText, "://")
  }

  /** Markdown internal links are internal, start at `[`, and their target
      starts with `..`, a word character or a digit. */
  ghost predicate MarkdownShaped(s: string, at: int, x: DetectedLink)
  {
    && x.kind == Internal && 0 <= at < |s| && s[at] == '['
    && x.linkText != []
    && (HasAt(x.linkText, 0, "..") || IsWordChar(x.linkText[0]) || IsDigit(x.linkText[0]))
  }

  /** Bare URLs are external, their text is an `http://` or `https://` URL
      running up to the next space or newline, and the reported index is one
      past the match start: the URL's own start when a space or newline
      precedes it, one past the URL's start when it opens the content. */
  ghost predicate UrlShaped(s: string, at: int, x: DetectedLink)
  {
    && x.kind == External && 1 <= at <= |s|
    && (HasAt(x.linkText, 0, "http://") || HasAt(x.linkText, 0, "https://"))
    && (forall c :: c in x.linkText ==> c != ' ' && c != '\n')
    && (if s[at - 1] == ' ' || s[at - 1] == '\n' then HasAt(s, at, x.linkText)
        else at == 1 && HasAt(s, 0, x.linkText))
  }

  /** Every link the wiki pass offers has the wiki shape. */
  lemma WikiCandidates(s: string, offset: int)
    ensures forall x :: x in Candidates(WikiLink, s, offset) ==> WikiShaped(s, x.index - offset, x)
  {
    forall x | x in Candidates(WikiLink, s, offset) ensures WikiShaped(s, x.index - offset, x) {
      var m := CandidateOf(WikiLink, s, offset, x);
      WikiShape(s, m, offset, x);
    }
  }

  /** Every link the external pass offers has the external shape. */
  lemma ExternalCandidates(s: string, offset: int)
    ensures forall x :: x in Candidates(ExternalLink, s, offset) ==> ExternalShaped(s, x.index - offset, x)
  {
    forall x | x in Candidates(ExternalLink, s, offset) ensures ExternalShaped(s, x.index - offset, x) {
      var m := CandidateOf(ExternalLink, s, offset, x);
      ExternalShape(s, m, offset, x);
    }
  }

  /** Every link the markdown internal pass offers has its shape. */
  lemma MarkdownCandidates(s: string, offset: int)
    ensures forall x :: x in Candidates(MarkdownInternal, s, offset) ==> MarkdownShaped(s, x.index - offset, x)
  {
    forall x | x in Candidates(MarkdownInternal, s, offset) ensures MarkdownShaped(s, x.index - offset, x) {
      var m := CandidateOf(MarkdownInternal, s, offset, x);
      MarkdownShape(s, m, offset, x);
    }
  }

  /** Every link the URL pass offers has the URL shape. */
  lemma UrlCandidates(s: string, offset: int)
    ensures forall x :: x in Candidates(BareUrl, s, offset) ==> UrlShaped(s, x.index - offset, x)
  {
    forall x | x in Candidates(BareUrl, s, offset) ensures UrlShaped(s, x.index - offset, x) {
      var m := CandidateOf(BareUrl, s, offset, x);
      UrlShape(s, m, offset, x);
    }
  }

  lemma WikiShape(s: string, m: RawMatch, offset: int, x: DetectedLink)
    requires WikiMatch(s, m.index, m) && x == ToLink(WikiLink, s, m, offset)
    ensures WikiShaped(s, x.index - offset, x)
  {
  }

  lemma ExternalShape(s: string, m: RawMatch, offset: int, x: DetectedLink)
    requires ExternalMatch(s, m.index, m) && x == ToLink(ExternalLink, s, m, offset)
    ensures ExternalShaped(s, x.index - offset, x)
  {
    var k :| m.groupStart < k && k + 3 < m.groupEnd && HasAt(s, k, "://");
    SliceContains(s, m.groupStart, m.groupEnd, k, "://");
  }

  /** A literal found inside `s[lo..hi]` is contained in that slice. */
  lemma SliceContains(s: string, lo: nat, hi: nat, k: nat, lit: string)
    requires lo <= k && k + |lit| <= hi <= |s| && HasAt(s, k, lit)
    ensures Contains(s[lo..hi], lit)
  {
    var t := s[lo..hi];
    var j := k - lo;
    forall i | 0 <= i < |lit|
      ensures t[j..j + |lit|][i] == lit[i]
    {
      assert t[j + i] == s[k + i] == s[k..k + |lit|][i];
    }
    assert t[j..j + |lit|] == lit;
    assert HasAt(t, j, lit);
  }

  /** A slice that starts with a literal begins with it. */
  lemma SlicePrefix(s: string, lo: nat, hi: nat, lit: string)
    requires HasAt(s, lo, lit) && lo + |lit| <= hi <= |s|
    ensures HasAt(s[lo..hi], 0, lit)
  {
    assert s[lo..hi][..|lit|] == s[lo..lo + |lit|];
  }

  /** A slice of characters other than space and newline holds none. */
  lemma SliceAvoids(s: string, lo: nat, hi: nat)
    requires lo <= hi <= |s| && forall i :: lo <= i < hi ==> s[i] != ' ' && s[i] != '\n'
    ensures forall c :: c in s[lo..hi] ==> c != ' ' && c != '\n'
  {
    forall c | c in s[lo..hi] ensures c != ' ' && c != '\n' {
      var i :| 0 <= i < hi - lo && s[lo..hi][i] == c;
      assert s[lo + i] == c;
    }
  }

  lemma MarkdownShape(s: string, m: RawMatch, offset: int, x: DetectedLink)
    requires MarkdownMatch(s, m.index, m) && x == ToLink(MarkdownInternal, s, m, offset)
    ensures MarkdownShaped(s, x.index - offset, x)
  {
    assert x.linkText == s[m.groupStart..m.groupEnd];
    if HasAt(s, m.groupStart, "..") && m.groupStart + 2 < m.groupEnd {
      SlicePrefix(s, m.groupStart, m.groupEnd, "..");
    } else {
      assert x.linkText[0] == s[m.groupStart];
    }
  }

  lemma UrlShape(s: string, m: RawMatch, offset: int, x: DetectedLink)
    requires UrlMatch(s, m.index, m) && x == ToLink(BareUrl, s, m, offset)
    ensures UrlShaped(s, x.index - offset, x)
  {
    var p, lo, hi := m.index, m.groupStart, m.groupEnd;
    if HasAt(s, lo, "http://") {
      SlicePrefix(s, lo, hi, "http://");
    } else {
      SlicePrefix(s, lo, hi, "https://");
    }
    SliceAvoids(s, lo, hi);
    assert HasAt(s, lo, s[lo..hi]);
    if p < |s| && (s[p] == ' ' || s[p] == '\n') {
      assert lo == p + 1;
    } else {
      assert lo == p && p == 0;
    }
  }

  /** A URL that opens the content is reported one past its start: the `+ 1`
      meant to skip the space or newline before a URL is also applied when
      `^` matched, which consumed nothing. No other pass can claim that
      index, so the link is among the detected ones. */
  lemma UrlOpeningContent(s: string, offset: int, scheme: string)
    requires scheme == "http://" || scheme == "https://"
    requires HasAt(s, 0, scheme) && |scheme| < |s| && s[|scheme|] != ' ' && s[|scheme|] != '\n'
    ensures DetectedLink(offset + 1, External, s[..NextOf(s, |scheme|, ' ', '\n')]) in DetectedLinks(s, offset)
  {
    var link := DetectedLink(offset + 1, External, s[..NextOf(s, |scheme|, ' ', '\n')]);
    var c4 := Candidates(BareUrl, s, offset);
    FirstUrlCandidate(s, offset, scheme);
    var before := Candidates(WikiLink, s, offset) + Candidates(ExternalLink, s, offset)
                  + Candidates(MarkdownInternal, s, offset);
    OpensWithoutBracket(s, scheme);
    NoBracketNoClaim(s, offset, 1);
    var c := AllCandidates(s, offset);
    KeptAfter(before, c4, c, link);
    FirstIsKept(c);
    SortKeepsElements(Dedup(c));
  }

  /** Content that opens with `http://` or `https://` has no `[` at position 1. */
  lemma OpensWithoutBracket(s: string, scheme: string)
    requires scheme == "http://" || scheme == "https://"
    requires HasAt(s, 0, scheme)
    ensures 1 < |s| && s[1] != '['
  {
    LiteralAt(s, 0, scheme, 1);
  }

  lemma FirstUrlCandidate(s: string, offset: int, scheme: string)
    requires scheme == "http://" || scheme == "https://"
    requires HasAt(s, 0, scheme) && |scheme| < |s| && s[|scheme|] != ' ' && s[|scheme|] != '\n'
    ensures var c4 := Candidates(BareUrl, s, offset);
            c4 != [] && c4[0] == DetectedLink(offset + 1, External, s[..NextOf(s, |scheme|, ' ', '\n')])
  {
    UrlFound(s, 0, 0, scheme);
    assert Exec(BareUrl, s, 0) == UrlAt(s, 0);
  }

  /** A link heading the later part of `c`, whose index nothing before it
      claims, is the first with its index. */
  lemma KeptAfter(before: seq<DetectedLink>, later: seq<DetectedLink>, c: seq<DetectedLink>, link: DetectedLink)
    requires c == before + later && later != [] && later[0] == link
    requires forall x :: x in before ==> x.index != link.index
    ensures |before| < |c| && c[|before|] == link && FirstWithIndex(c, |before|)
  {
    forall j | 0 <= j < |before| ensures c[j].index != link.index {
      assert c[j] == before[j] && before[j] in before;
    }
  }

  /** The first three passes only report indices at a `[`. */
  lemma NoBracketNoClaim(s: string, offset: int, at: nat)
    requires at < |s| && s[at] != '['
    ensures var before := Candidates(WikiLink, s, offset) + Candidates(ExternalLink, s, offset)
                          + Candidates(MarkdownInternal, s, offset);
            forall x :: x in before ==> x.index != offset + at
  {
    WikiCandidates(s, offset);
    ExternalCandidates(s, offset);
    MarkdownCandidates(s, offset);
    NoBracketIn(s, offset, at, Candidates(WikiLink, s, offset), Candidates(ExternalLink, s, offset),
                Candidates(MarkdownInternal, s, offset));
  }

  /** Links shaped like those of the first three passes sit at a `[`. */
  lemma NoBracketIn(s: string, offset: int, at: nat, c1: seq<DetectedLink>, c2: seq<DetectedLink>, c3: seq<DetectedLink>)
    requires at < |s| && s[at] != '['
    requires forall x :: x in c1 ==> WikiShaped(s, x.index - offset, x)
    requires forall x :: x in c2 ==> ExternalShaped(s, x.index - offset, x)
    requires forall x :: x in c3 ==> MarkdownShaped(s, x.index - offset, x)
    ensures forall x :: x in c1 + c2 + c3 ==> x.index != offset + at
  {
    forall x: DetectedLink | x in c1 + c2 + c3 ensures x.index != offset + at {
      if x in c1 {
        OpensWithBracket(s, x.index - offset);
      }
    }
  }

  lemma OpensWithBracket(s: string, at: int)
    requires 0 <= at && HasAt(s, at, "[[")
    ensures at < |s| && s[at] == '['
  {
    assert s[at..at + 2][0] == s[at];
  }

  // ---------------------------------------------------------------------------
  // detectMarkdownLinks

  /** What `detectMarkdownLinks(content, offset, alphabet)` returns. */
  function MarkdownLinkHints(s: string, offset: int, alphabet: string): seq<Labelled<DetectedLink>>
  {
    var links := DetectedLinks(s, offset);
    AssignLabels(links, HintGenerator.HintLabels(alphabet, |links|, {}))
  }

  /** `detectMarkdownLinks`: detect, ask for one label per link, attach them. */
  method DetectMarkdownLinks(content: string, offset: int, alphabet: string) returns (hints: seq<Labelled<DetectedLink>>)
    ensures hints == MarkdownLinkHints(content, offset, alphabet)
  {
    var links := DetectLinks(content, offset);
    var labels := HintGenerator.GenerateHintLabels(alphabet, |links|, {});
    hints := AssignLabels(links, labels);
  }

  /** The hints are the first links in position order, link `i` carrying
      label `i`; only links beyond the labels' capacity are dropped. */
  lemma MarkdownHintsLayout(s: string, offset: int, alphabet: string)
    ensures var links := DetectedLinks(s, offset);
            var labels := HintGenerator.HintLabels(alphabet, |links|, {});
            var r := MarkdownLinkHints(s, offset, alphabet);
            && |r| == |labels| <= |links|
            && (forall i :: 0 <= i < |r| ==> r[i] == Labelled(labels[i], links[i]))
            && (forall i, j :: 0 <= i < j < |r| ==> r[i].item.index < r[j].item.index)
  {
    var links := DetectedLinks(s, offset);
    var labels := HintGenerator.HintLabels(alphabet, |links|, {});
    HintGenerator.LabelsNonEmpty(alphabet, |links|, {});
    HintGenerator.LabelCount(alphabet, |links|, {});
    AssignAll(links, labels);
    DetectedStrictlyIncreasing(s, offset);
  }
}
