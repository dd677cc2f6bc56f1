/** The four `LINK_PATTERNS` of src/detection/LinkDetector.ts as hand-written
    matchers that try the alternatives in the order a backtracking regular
    expression engine does:

      internal   /\[\[(.+?)(\|.+?)?]]/g
      mdInternal /\[[^\[\]]+?\]\(((\.\.|\w|\d).+?)\)/g
      external   /\[[^\[\]]+?\]\((.+?:\/\/.+?)\)/g
      url        /( |\n|^)(https?:\/\/[^ \n]+)/g

    `.` stops at line terminators, `[^\[\]]` does not, and `^` (no `m` flag)
    only holds at position 0. `Exec` is `RegExp.prototype.exec` on a global
    pattern: the first match at or after `lastIndex`. */
module LinkPatterns {
  import opened Text

  datatype Pattern = WikiLink | ExternalLink | MarkdownInternal | BareUrl

  /** One match: where it starts, where it ends (the `lastIndex` it leaves
      behind), and the bounds of the capture group the detector reports. */
  datatype RawMatch = RawMatch(index: nat, end: nat, groupStart: nat, groupEnd: nat)

  /** A match that lies inside `s`, its group inside the match. */
  predicate Fits(s: string, m: RawMatch)
  {
    m.index <= m.groupStart <= m.groupEnd <= m.end <= |s| && m.index < m.end
  }

  predicate NoLineTerminator(s: string, from: nat, to: nat)
    requires from <= to <= |s|
  {
    forall k :: from <= k < to ==> !IsLineTerminator(s[k])
  }

  /** `t` holds `lit` somewhere. */
  ghost predicate Contains(t: string, lit: string)
  {
    exists k: nat :: HasAt(t, k, lit)
  }

  // ---------------------------------------------------------------------------
  // `.+?` followed by a literal

  function LazyScan(s: string, from: nat, e: nat, lit: string): (r: Option<nat>)
    requires from < e <= |s| && NoLineTerminator(s, from, e)
    decreases |s| - e
    ensures r.Some? ==> e <= r.value <= |s| && HasAt(s, r.value, lit) && NoLineTerminator(s, from, r.value)
    ensures r.Some? ==> forall k :: e <= k < r.value ==> !HasAt(s, k, lit)
    ensures r.None? ==> forall k :: e <= k <= |s| && NoLineTerminator(s, from, k) ==> !HasAt(s, k, lit)
  {
    if HasAt(s, e, lit) then Some(e)
    else if e < |s| && !IsLineTerminator(s[e]) then LazyScan(s, from, e + 1, lit)
    else None
  }

  /** `.+?` starting at `from` and then `lit`: where `lit` starts after the
      shortest non-empty run of non-line-terminators that it follows. */
  function LazyDotsThen(s: string, from: nat, lit: string): (r: Option<nat>)
    ensures r.Some? ==> from < r.value <= |s| && HasAt(s, r.value, lit) && NoLineTerminator(s, from, r.value)
    ensures r.Some? ==> forall k :: from < k < r.value ==> !HasAt(s, k, lit)
    ensures r.None? ==> forall k :: from < k <= |s| && NoLineTerminator(s, from, k) ==> !HasAt(s, k, lit)
  {
    if from < |s| && !IsLineTerminator(s[from]) then LazyScan(s, from, from + 1, lit) else None
  }

  /** A `lit` after a non-empty run on one line is found, there or earlier. */
  lemma LazyDotsFinds(s: string, from: nat, c: nat, lit: string)
    requires from < c <= |s| && HasAt(s, c, lit) && NoLineTerminator(s, from, c)
    ensures LazyDotsThen(s, from, lit).Some? && LazyDotsThen(s, from, lit).value <= c
  {
  }

  // ---------------------------------------------------------------------------
  // internal: \[\[(.+?)(\|.+?)?]]

  /** What follows group 1 when it ends at `q`: the optional `|title` (tried
      first, being greedy) and then `]]`. The end of the match, if any. */
  function WikiTail(s: string, q: nat): (r: Option<nat>)
    ensures r.Some? ==> q + 2 <= r.value <= |s| && HasAt(s, r.value - 2, "]]")
  {
    var title := if q < |s| && s[q] == '|' then LazyDotsThen(s, q + 1, "]]") else None;
    if title.Some? then Some(title.value + 2)
    else if HasAt(s, q, "]]") then Some(q + 2)
    else None
  }

  function WikiScan(s: string, p: nat, q: nat): (r: Option<RawMatch>)
    requires p + 2 < q <= |s| && NoLineTerminator(s, p + 2, q)
    decreases |s| - q
    ensures r.Some? ==> var m := r.value;
              && m.index == p && m.groupStart == p + 2 && q <= m.groupEnd < m.end <= |s|
              && NoLineTerminator(s, m.groupStart, m.groupEnd) && m.groupEnd + 2 <= m.end
  {
    match WikiTail(s, q)
    case Some(end) => Some(RawMatch(p, end, p + 2, q))
    case None => if q < |s| && !IsLineTerminator(s[q]) then WikiScan(s, p, q + 1) else None
  }

  /** What a wiki-link match at `p` looks like: `[[`, then a group of at
      least one character on one line, then more before the match ends. */
  predicate WikiMatch(s: string, p: nat, m: RawMatch)
  {
    && m.index == p && HasAt(s, p, "[[") && m.groupStart == p + 2 && m.groupStart < m.groupEnd < m.end <= |s|
    && NoLineTerminator(s, m.groupStart, m.groupEnd)
  }

  function WikiAt(s: string, p: nat): (r: Option<RawMatch>)
    ensures r.Some? ==> WikiMatch(s, p, r.value)
  {
    if HasAt(s, p, "[[") && p + 2 < |s| && !IsLineTerminator(s[p + 2]) then WikiScan(s, p, p + 3) else None
  }

  /** `]]` right where group 1 ends completes the match. */
  lemma WikiTailAt(s: string, g: nat)
    requires HasAt(s, g, "]]")
    ensures WikiTail(s, g).Some?
  {
  }

  /** A match whose group ends at `g` or earlier. */
  predicate EndsBy(r: Option<RawMatch>, g: nat)
  {
    r.Some? && r.value.groupEnd <= g
  }

  /** Scanning group 1 on from `q`, a `]]` at `g` on the same line is found:
      the group ends there or earlier. */
  lemma {:induction false} WikiScanReaches(s: string, p: nat, q: nat, g: nat)
    requires p + 2 < q <= g && HasAt(s, g, "]]") && NoLineTerminator(s, p + 2, g)
    ensures EndsBy(WikiScan(s, p, q), g)
    decreases g - q
  {
    if q == g {
      WikiTailAt(s, g);
      WikiScanHit(s, p, q);
    } else if WikiTail(s, q).Some? {
      WikiScanHit(s, p, q);
    } else {
      assert !IsLineTerminator(s[q]);
      WikiScanStep(s, p, q);
      WikiScanReaches(s, p, q + 1, g);
    }
  }

  /** Where the rest of the match succeeds, group 1 ends. */
  lemma WikiScanHit(s: string, p: nat, q: nat)
    requires p + 2 < q <= |s| && NoLineTerminator(s, p + 2, q) && WikiTail(s, q).Some?
    ensures WikiScan(s, p, q) == Some(RawMatch(p, WikiTail(s, q).value, p + 2, q))
  {
  }

  /** Where it fails on a character of the line, group 1 takes that
      character and the scan goes on. */
  lemma WikiScanStep(s: string, p: nat, q: nat)
    requires p + 2 < q < |s| && NoLineTerminator(s, p + 2, q + 1) && WikiTail(s, q).None?
    ensures WikiScan(s, p, q) == WikiScan(s, p, q + 1)
  {
  }

  /** `[[`, at least one character on one line and `]]` make a wiki-link
      match at `p`, whose group ends at that `]]` or earlier. */
  lemma WikiFound(s: string, p: nat, g: nat)
    requires HasAt(s, p, "[[") && p + 2 < g && HasAt(s, g, "]]") && NoLineTerminator(s, p + 2, g)
    ensures WikiAt(s, p).Some? && WikiAt(s, p).value.groupEnd <= g
  {
    WikiScanReaches(s, p, p + 3, g);
    assert EndsBy(WikiScan(s, p, p + 3), g);
  }

  // ---------------------------------------------------------------------------
  // \[[^\[\]]+?\]\( : the title part shared by external and mdInternal

  /** The first position from `k` on that holds `a` or `b`, or `|s|`: how far
      a negated class of two characters reaches (`[^\[\]]` in a title,
      `[^ \n]` in a URL). */
  function NextOf(s: string, k: nat, a: char, b: char): (r: nat)
    requires k <= |s|
    decreases |s| - k
    ensures k <= r <= |s|
    ensures forall i :: k <= i < r ==> s[i] != a && s[i] != b
    ensures r < |s| ==> s[r] == a || s[r] == b
  {
    if k == |s| || s[k] == a || s[k] == b then k else NextOf(s, k + 1, a, b)
  }

  /** Where the link target starts when `[title](` opens at `p`. Title
      characters cannot be brackets, so the only `]` the lazy title can stop at
      is the first bracket after `[`. */
  function TitleAt(s: string, p: nat): (u: Option<nat>)
    ensures u.Some? ==> p + 4 <= u.value <= |s| && s[p] == '[' && HasAt(s, u.value - 2, "](")
    ensures u.Some? ==> forall i :: p < i < u.value - 2 ==> s[i] != '[' && s[i] != ']'
  {
    if p < |s| && s[p] == '[' then
      var t := NextOf(s, p + 1, '[', ']');
      if p + 2 <= t && HasAt(s, t, "](") then Some(t + 2) else None
    else None
  }

  /** `[`, a title of at least one character that holds no bracket, then
      `](`: the target starts right after the `(`. */
  lemma TitleFound(s: string, p: nat, t: nat)
    requires p + 2 <= t && HasAt(s, t, "](") && s[p] == '['
    requires forall i :: p < i < t ==> s[i] != '[' && s[i] != ']'
    ensures TitleAt(s, p) == Some(t + 2)
  {
    assert s[t..t + 2] == "](";
    assert s[t] == ']';
    assert NextOf(s, p + 1, '[', ']') == t;
  }

  // ---------------------------------------------------------------------------
  // external target: (.+?:\/\/.+?)\)

  /** `://` holds no line terminator. */
  lemma SeparatorOnOneLine(s: string, a: nat)
    requires HasAt(s, a, "://")
    ensures NoLineTerminator(s, a, a + 3)
  {
    forall i | a <= i < a + 3
      ensures !IsLineTerminator(s[i])
    {
      LiteralAt(s, a, "://", i - a);
    }
  }

  function ExternalScan(s: string, u: nat, a: nat): (c: Option<nat>)
    requires u < a <= |s| && NoLineTerminator(s, u, a)
    decreases |s| - a
    ensures c.Some? ==> a + 3 < c.value < |s| && s[c.value] == ')' && NoLineTerminator(s, u, c.value)
    ensures c.Some? ==> exists k :: a <= k && k + 3 < c.value && HasAt(s, k, "://")
  {
    var rest := if HasAt(s, a, "://") then LazyDotsThen(s, a + 3, ")") else None;
    if rest.Some? then
      assert HasAt(s, a, "://") && a + 3 < rest.value;
      SeparatorOnOneLine(s, a);
      rest
    else if a < |s| && !IsLineTerminator(s[a]) then ExternalScan(s, u, a + 1)
    else None
  }

  /** The position of the closing `)` of an external target starting at `u`. */
  function ExternalTarget(s: string, u: nat): (c: Option<nat>)
    ensures c.Some? ==> u + 4 < c.value < |s| && s[c.value] == ')' && NoLineTerminator(s, u, c.value)
    ensures c.Some? ==> exists k :: u < k && k + 3 < c.value && HasAt(s, k, "://")
  {
    if u < |s| && !IsLineTerminator(s[u]) then ExternalScan(s, u, u + 1) else None
  }

  /** A `://` at `a` and then a `)` at `c`, all on one line: the target
      closes at `c` or earlier. */
  lemma ExternalScanHit(s: string, u: nat, a: nat, c: nat)
    requires u < a && a + 3 < c < |s| && s[c] == ')' && HasAt(s, a, "://") && NoLineTerminator(s, u, c)
    ensures ExternalScan(s, u, a).Some? && ExternalScan(s, u, a).value <= c
  {
    assert HasAt(s, c, ")") by {
      assert s[c..c + 1] == [s[c]];
    }
    LazyDotsFinds(s, a + 3, c, ")");
  }

  /** Scanning the target on from `a`, a `://` at `k` and then a `)` at `c`,
      all on one line, are found: the target closes at `c` or earlier. */
  lemma {:induction false} ExternalScanReaches(s: string, u: nat, a: nat, k: nat, c: nat)
    requires u < a <= k && k + 3 < c < |s| && s[c] == ')' && HasAt(s, k, "://") && NoLineTerminator(s, u, c)
    ensures ExternalScan(s, u, a).Some? && ExternalScan(s, u, a).value <= c
    decreases k - a
  {
    if HasAt(s, a, "://") {
      ExternalScanHit(s, u, a, c);
    } else {
      assert !IsLineTerminator(s[a]);
      ExternalScanReaches(s, u, a + 1, k, c);
    }
  }

  /** `[title](`, then a target on one line holding `://` with at least one
      character on each side, then `)`: an external-link match at `p` whose
      group starts after the `(` and ends at that `)` or earlier. */
  lemma ExternalFound(s: string, p: nat, t: nat, k: nat, c: nat)
    requires p + 2 <= t && HasAt(s, t, "](") && s[p] == '['
    requires forall i :: p < i < t ==> s[i] != '[' && s[i] != ']'
    requires t + 2 < k && k + 3 < c < |s| && s[c] == ')' && HasAt(s, k, "://") && NoLineTerminator(s, t + 2, c)
    ensures ExternalAt(s, p).Some?
    ensures ExternalAt(s, p).value.groupStart == t + 2 && ExternalAt(s, p).value.groupEnd <= c
  {
    TitleFound(s, p, t);
    ExternalTargetFound(s, t + 2, k, c);
    ExternalAtFrom(s, p, t + 2);
  }

  /** A title ending at `u` and a target from `u` on make the match. */
  lemma ExternalAtFrom(s: string, p: nat, u: nat)
    requires TitleAt(s, p) == Some(u) && ExternalTarget(s, u).Some?
    ensures ExternalAt(s, p) == Some(RawMatch(p, ExternalTarget(s, u).value + 1, u, ExternalTarget(s, u).value))
  {
  }

  /** A target on one line holding `://` with at least one character on each
      side, then `)`: it closes at that `)` or earlier. */
  lemma ExternalTargetFound(s: string, u: nat, k: nat, c: nat)
    requires u < k && k + 3 < c < |s| && s[c] == ')' && HasAt(s, k, "://") && NoLineTerminator(s, u, c)
    ensures ExternalTarget(s, u).Some? && ExternalTarget(s, u).value <= c
  {
    assert !IsLineTerminator(s[u]);
    ExternalScanReaches(s, u, u + 1, k, c);
  }

  /** What an external-link match at `p` looks like: `[` at `p`, a group
      holding `://` and closed by the `)` that ends the match. */
  predicate ExternalMatch(s: string, p: nat, m: RawMatch)
  {
    && m.index == p && p < m.groupStart < m.groupEnd < m.end <= |s| && m.end == m.groupEnd + 1 && s[p] == '['
    && exists k :: m.groupStart < k && k + 3 < m.groupEnd && HasAt(s, k, "://")
  }

  function ExternalAt(s: string, p: nat): (r: Option<RawMatch>)
    ensures r.Some? ==> ExternalMatch(s, p, r.value)
  {
    match TitleAt(s, p)
    case None => None
    case Some(u) =>
      match ExternalTarget(s, u)
      case None => None
      case Some(c) => Some(RawMatch(p, c + 1, u, c))
  }

  // ---------------------------------------------------------------------------
  // mdInternal target: ((\.\.|\w|\d).+?)\)

  /** The position of the closing `)` of a markdown target starting at `u`:
      the `..` alternative first, then a word character, then a digit. */
  function MarkdownTarget(s: string, u: nat): (c: Option<nat>)
    ensures c.Some? ==> u + 1 < c.value < |s| && s[c.value] == ')'
    ensures c.Some? ==> (HasAt(s, u, "..") && u + 2 < c.value) || IsWordChar(s[u]) || IsDigit(s[u])
  {
    var dots := if HasAt(s, u, "..") then LazyDotsThen(s, u + 2, ")") else None;
    var word := if u < |s| && IsWordChar(s[u]) then LazyDotsThen(s, u + 1, ")") else None;
    var digit := if u < |s| && IsDigit(s[u]) then LazyDotsThen(s, u + 1, ")") else None;
    if dots.Some? then dots
    else if word.Some? then word
    else digit
  }

  /** What a markdown internal match at `p` looks like: `[` at `p`, a group
      opening with `..` and more, a word character or a digit, closed by the
      `)` that ends the match. */
  predicate MarkdownMatch(s: string, p: nat, m: RawMatch)
  {
    && m.index == p && p < m.groupStart < m.groupEnd < m.end <= |s| && m.end == m.groupEnd + 1 && s[p] == '['
    && ((HasAt(s, m.groupStart, "..") && m.groupStart + 2 < m.groupEnd)
        || IsWordChar(s[m.groupStart]) || IsDigit(s[m.groupStart]))
  }

  function MarkdownAt(s: string, p: nat): (r: Option<RawMatch>)
    ensures r.Some? ==> MarkdownMatch(s, p, r.value)
  {
    match TitleAt(s, p)
    case None => None
    case Some(u) =>
      match MarkdownTarget(s, u)
      case None => None
      case Some(c) => Some(RawMatch(p, c + 1, u, c))
  }

  /** `[title](`, then a target on one line that opens with `..` and at least
      one more character, or with a word character or a digit and at least
      one more, then `)`: a markdown internal match at `p` whose group starts
      after the `(` and ends at that `)` or earlier. */
  lemma MarkdownFound(s: string, p: nat, t: nat, c: nat)
    requires p + 2 <= t && HasAt(s, t, "](") && s[p] == '['
    requires forall i :: p < i < t ==> s[i] != '[' && s[i] != ']'
    requires t + 2 < c < |s| && s[c] == ')' && NoLineTerminator(s, t + 2, c)
    requires (HasAt(s, t + 2, "..") && t + 4 < c) || ((IsWordChar(s[t + 2]) || IsDigit(s[t + 2])) && t + 3 < c)
    ensures MarkdownAt(s, p).Some?
    ensures MarkdownAt(s, p).value.groupStart == t + 2 && MarkdownAt(s, p).value.groupEnd <= c
  {
    TitleFound(s, p, t);
    var u := t + 2;
    assert HasAt(s, c, ")") by {
      assert s[c..c + 1] == [s[c]];
    }
    if HasAt(s, u, "..") {
      assert s[u..u + 2] == "..";
      assert s[u] == '.';
      LazyDotsFinds(s, u + 2, c, ")");
    } else {
      LazyDotsFinds(s, u + 1, c, ")");
    }
  }

  // ---------------------------------------------------------------------------
  // url: ( |\n|^)(https?:\/\/[^ \n]+)

  /** The scheme of a URL holds no space or newline. */
  lemma SchemeChars(s: string, q: nat, scheme: string)
    requires scheme == "https://" || scheme == "http://"
    requires HasAt(s, q, scheme)
    ensures forall i :: q <= i < q + |scheme| ==> s[i] != ' ' && s[i] != '\n'
  {
    forall i | q <= i < q + |scheme| ensures s[i] != ' ' && s[i] != '\n' {
      assert s[i] == s[q..q + |scheme|][i - q] == scheme[i - q];
    }
  }

  /** The end of `https?:\/\/[^ \n]+` starting at `q`; `s?` is greedy, and the
      run takes every character up to the next space or newline. */
  function UrlFrom(s: string, q: nat): (e: Option<nat>)
    ensures e.Some? ==> e.value <= |s|
    ensures e.Some? ==> (HasAt(s, q, "https://") && q + 8 < e.value) || (HasAt(s, q, "http://") && q + 7 < e.value)
    ensures e.Some? ==> e.value == |s| || s[e.value] == ' ' || s[e.value] == '\n'
    ensures e.Some? ==> forall i :: q <= i < e.value ==> s[i] != ' ' && s[i] != '\n'
  {
    var scheme := if HasAt(s, q, "https://") then 8 else if HasAt(s, q, "http://") then 7 else 0;
    if scheme == 0 then None
    else
      SchemeChars(s, q, if scheme == 8 then "https://" else "http://");
      var e := NextOf(s, q + scheme, ' ', '\n');
      if e > q + scheme then Some(e) else None
  }

  /** What a URL match at `p` looks like: a space or newline at `p`, or the
      start of the content, then a group that is the whole rest of the match:
      `http://` or `https://` and a run of characters other than space and
      newline. */
  predicate UrlMatch(s: string, p: nat, m: RawMatch)
  {
    && m.index == p && p <= m.groupStart <= p + 1 && m.groupStart < m.groupEnd == m.end <= |s|
    && ((HasAt(s, m.groupStart, "https://") && m.groupStart + 8 < m.groupEnd)
        || (HasAt(s, m.groupStart, "http://") && m.groupStart + 7 < m.groupEnd))
    && (m.groupStart == p + 1 <==> p < |s| && (s[p] == ' ' || s[p] == '\n'))
    && (m.groupStart == p ==> p == 0)
    && forall i :: m.groupStart <= i < m.groupEnd ==> s[i] != ' ' && s[i] != '\n'
  }

  function UrlAt(s: string, p: nat): (r: Option<RawMatch>)
    ensures r.Some? ==> UrlMatch(s, p, r.value)
  {
    var lead := p < |s| && (s[p] == ' ' || s[p] == '\n');
    var afterLead := if lead then UrlFrom(s, p + 1) else None;
    var atStart := if p == 0 then UrlFrom(s, 0) else None;
    if afterLead.Some? then Some(RawMatch(p, afterLead.value, p + 1, afterLead.value))
    else if atStart.Some? then
      Some(RawMatch(0, atStart.value, 0, atStart.value))
    else None
  }

  /** A space or newline at `p` (or `p` the start of the content), then
      `http://` or `https://` and at least one character other than space and
      newline: a URL match whose group runs from the scheme to the next space
      or newline. */
  lemma UrlFound(s: string, p: nat, q: nat, scheme: string)
    requires scheme == "http://" || scheme == "https://"
    requires (p < |s| && (s[p] == ' ' || s[p] == '\n') && q == p + 1) || (p == 0 && q == 0)
    requires HasAt(s, q, scheme) && q + |scheme| < |s| && s[q + |scheme|] != ' ' && s[q + |scheme|] != '\n'
    ensures UrlAt(s, p) == Some(RawMatch(p, NextOf(s, q + |scheme|, ' ', '\n'), q, NextOf(s, q + |scheme|, ' ', '\n')))
  {
    SchemeRun(s, q, scheme);
    if q == 0 {
      LiteralAt(s, 0, scheme, 0);
    }
  }

  /** `http://` or `https://` at `q` and then at least one character other
      than space and newline: the URL runs to the next space or newline. */
  lemma SchemeRun(s: string, q: nat, scheme: string)
    requires scheme == "http://" || scheme == "https://"
    requires HasAt(s, q, scheme) && q + |scheme| < |s| && s[q + |scheme|] != ' ' && s[q + |scheme|] != '\n'
    ensures UrlFrom(s, q) == Some(NextOf(s, q + |scheme|, ' ', '\n'))
  {
    if scheme == "http://" {
      LiteralAt(s, q, scheme, 4);
      assert q + 8 > |s| || s[q..q + 8][4] != "https://"[4];
    }
  }

  // ---------------------------------------------------------------------------
  // exec

  function MatchAt(pattern: Pattern, s: string, p: nat): (r: Option<RawMatch>)
    ensures r.Some? ==> r.value.index == p && Fits(s, r.value)
  {
    match pattern
    case WikiLink => WikiAt(s, p)
    case ExternalLink => ExternalAt(s, p)
    case MarkdownInternal => MarkdownAt(s, p)
    case BareUrl => UrlAt(s, p)
  }

  /** `pattern.exec(s)` with `lastIndex == from`: the match at the first
      position from `from` on where there is one. */
  function Exec(pattern: Pattern, s: string, from: nat): (r: Option<RawMatch>)
    decreases |s| - from
    ensures r.Some? ==> from <= r.value.index && Fits(s, r.value)
  {
    if from > |s| then None
    else
      match MatchAt(pattern, s, from)
      case Some(m) => Some(m)
      case None => Exec(pattern, s, from + 1)
  }

  /** What `Exec` returns is the match at the position it reports. */
  lemma {:induction false} ExecFound(pattern: Pattern, s: string, from: nat)
    requires Exec(pattern, s, from).Some?
    ensures MatchAt(pattern, s, Exec(pattern, s, from).value.index) == Exec(pattern, s, from)
    decreases |s| - from
  {
    if MatchAt(pattern, s, from).None? {
      ExecFound(pattern, s, from + 1);
    }
  }

  /** One step of the search: a match at `from` is the answer, otherwise the
      search goes on from the next position. */
  lemma ExecUnfold(pattern: Pattern, s: string, from: nat)
    requires from <= |s|
    ensures MatchAt(pattern, s, from).Some? ==> Exec(pattern, s, from) == MatchAt(pattern, s, from)
    ensures MatchAt(pattern, s, from).None? ==> Exec(pattern, s, from) == Exec(pattern, s, from + 1)
    ensures Exec(pattern, s, from).Some? && Exec(pattern, s, from).value.index > from ==>
              MatchAt(pattern, s, from).None? && Exec(pattern, s, from) == Exec(pattern, s, from + 1)
  {
  }

  /** Searching from any position up to the match `Exec` returns gives the
      same answer. */
  lemma {:induction false} ExecFrom(pattern: Pattern, s: string, from: nat, p: nat)
    requires Exec(pattern, s, from).Some? && from <= p <= Exec(pattern, s, from).value.index
    ensures Exec(pattern, s, p) == Exec(pattern, s, from)
    decreases p - from
  {
    if from < p {
      ExecUnfold(pattern, s, from);
      ExecFrom(pattern, s, from + 1, p);
    }
  }

  /** `Exec` finds the first match: there is none between `from` and the one
      it returns. */
  lemma ExecFirst(pattern: Pattern, s: string, from: nat, p: nat)
    requires Exec(pattern, s, from).Some? && from <= p < Exec(pattern, s, from).value.index
    ensures MatchAt(pattern, s, p).None?
  {
    ExecFrom(pattern, s, from, p);
    ExecUnfold(pattern, s, p);
  }

  /** When `Exec` finds nothing, nothing matches from `from` on. */
  lemma {:induction false} ExecNone(pattern: Pattern, s: string, from: nat, p: nat)
    requires Exec(pattern, s, from).None? && from <= p <= |s|
    ensures MatchAt(pattern, s, p).None?
    decreases |s| - from
  {
    ExecUnfold(pattern, s, from);
    if from < p {
      ExecNone(pattern, s, from + 1, p);
    }
  }

  /** The matches the loop `while (m = pattern.exec(s))` visits when
      `lastIndex` starts at `from`: each search resumes where the previous
      match ended. */
  function AllMatches(pattern: Pattern, s: string, from: nat): (ms: seq<RawMatch>)
    decreases |s| + 1 - from
    ensures forall i :: 0 <= i < |ms| ==> from <= ms[i].index && Fits(s, ms[i])
  {
    match Exec(pattern, s, from)
    case None => []
    case Some(m) => [m] + AllMatches(pattern, s, m.end)
  }

  /** The matches the loop visits do not overlap: each starts where or after
      the previous one ended. */
  lemma {:induction false} AllMatchesApart(pattern: Pattern, s: string, from: nat)
    ensures forall i, j :: 0 <= i < j < |AllMatches(pattern, s, from)| ==>
              AllMatches(pattern, s, from)[i].end <= AllMatches(pattern, s, from)[j].index
    decreases |s| + 1 - from
  {
    var r := Exec(pattern, s, from);
    if r.Some? {
      var m := r.value;
      AllMatchesApart(pattern, s, m.end);
      var rest := AllMatches(pattern, s, m.end);
      assert AllMatches(pattern, s, from) == [m] + rest;
    }
  }

  /** Each match in `ms` is the match at its own position. */
  ghost predicate AllFound(pattern: Pattern, s: string, ms: seq<RawMatch>)
  {
    forall i :: 0 <= i < |ms| ==> MatchAt(pattern, s, ms[i].index) == Some(ms[i])
  }

  /** Every match the loop visits is the match at its own position. */
  lemma {:induction false} AllMatchesFound(pattern: Pattern, s: string, from: nat)
    ensures AllFound(pattern, s, AllMatches(pattern, s, from))
    decreases |s| + 1 - from
  {
    var r := Exec(pattern, s, from);
    if r.Some? {
      var m := r.value;
      ExecFound(pattern, s, from);
      AllMatchesFound(pattern, s, m.end);
      var rest := AllMatches(pattern, s, m.end);
      assert AllMatches(pattern, s, from) == [m] + rest;
    }
  }

  /** The text of the capture group. */
  function Group(s: string, m: RawMatch): string
    requires m.groupStart <= m.groupEnd <= |s|
  {
    s[m.groupStart..m.groupEnd]
  }
}
