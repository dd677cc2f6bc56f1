/** The links and matches that the detectors report, and the ascending sort
    by index that `detectLinks` and `findRegexMatches` finish with. */
module Links {

  /** `LinkType` ('internal' | 'external') together with the 'regex' type of
      regular-expression matches. */
  datatype LinkType = Internal | External | Regex

  /** `DetectedLink`: where the link starts in the document, its type and the
      text it targets. */
  datatype DetectedLink = DetectedLink(index: int, kind: LinkType, linkText: string)

  predicate SortedByIndex(s: seq<DetectedLink>)
  {
    forall i, j :: 0 <= i < j < |s| ==> s[i].index <= s[j].index
  }

  predicate StrictlyIncreasing(s: seq<DetectedLink>)
  {
    forall i, j :: 0 <= i < j < |s| ==> s[i].index < s[j].index
  }

  /** No two links share an index. */
  predicate DistinctIndices(s: seq<DetectedLink>)
  {
    forall i, j :: 0 <= i < j < |s| ==> s[i].index != s[j].index
  }

  /** `x` placed into sorted `s` behind every element whose index is not larger. */
  function Insert(x: DetectedLink, s: seq<DetectedLink>): (r: seq<DetectedLink>)
    requires SortedByIndex(s)
    ensures SortedByIndex(r)
    ensures multiset(r) == multiset(s) + multiset{x}
    ensures |r| == |s| + 1
  {
    if s == [] then [x]
    else if x.index < s[0].index then
      SortedCons(x, s);
      [x] + s
    else
      var rest := Insert(x, s[1..]);
      assert s == [s[0]] + s[1..];
      InsertAbove(x, s[1..], rest, s[0].index);
      SortedCons(s[0], rest);
      [s[0]] + rest
  }

  /** A link at or below the whole of a sorted list can head it. */
  lemma SortedCons(h: DetectedLink, s: seq<DetectedLink>)
    requires SortedByIndex(s) && (s == [] || h.index <= s[0].index)
    ensures SortedByIndex([h] + s)
  {
    var r := [h] + s;
    forall i, j | 0 <= i < j < |r| ensures r[i].index <= r[j].index {
      if i == 0 {
        assert r[j] == s[j - 1];
      } else {
        assert r[i] == s[i - 1] && r[j] == s[j - 1];
      }
    }
  }

  /** Everything in `rest` is at or above `floor` when `x` and `t` are. */
  lemma InsertAbove(x: DetectedLink, t: seq<DetectedLink>, rest: seq<DetectedLink>, floor: int)
    requires multiset(rest) == multiset(t) + multiset{x}
    requires floor <= x.index && forall y :: y in t ==> floor <= y.index
    ensures forall k :: 0 <= k < |rest| ==> floor <= rest[k].index
  {
    forall k | 0 <= k < |rest| ensures floor <= rest[k].index {
      assert rest[k] in multiset(rest);
    }
  }

  /** `links.sort((a, b) => a.index - b.index)`: a stable sort by index,
      written as an insertion sort. */
  function SortByIndex(s: seq<DetectedLink>): (r: seq<DetectedLink>)
    ensures SortedByIndex(r)
    ensures multiset(r) == multiset(s)
    ensures |r| == |s|
  {
    if s == [] then []
    else
      var init := s[..|s| - 1];
      assert s == init + [s[|s| - 1]];
      Insert(s[|s| - 1], SortByIndex(init))
  }

  /** Sorting never merges two links: a list without repeated indices sorts
      into strictly increasing indices. */
  lemma SortStrict(s: seq<DetectedLink>)
    requires DistinctIndices(s)
    ensures StrictlyIncreasing(SortByIndex(s))
  {
    var r := SortByIndex(s);
    forall i, j | 0 <= i < j < |r| ensures r[i].index < r[j].index {
      assert r[i] in multiset(s) && r[j] in multiset(s);
      var a :| 0 <= a < |s| && s[a] == r[i];
      var b :| 0 <= b < |s| && s[b] == r[j];
      if a == b {
        RepeatedElement(r, i, j);
        assert multiset(s)[s[a]] >= 2;
        SingleOccurrence(s, a);
        assert false;
      }
    }
  }

  lemma RepeatedElement(r: seq<DetectedLink>, i: nat, j: nat)
    requires i < j < |r| && r[i] == r[j]
    ensures multiset(r)[r[i]] >= 2
  {
    assert r == r[..i] + [r[i]] + r[i + 1..j] + [r[j]] + r[j + 1..];
  }

  /** In a list without repeated indices, every element occurs once. */
  lemma {:induction false} SingleOccurrence(s: seq<DetectedLink>, a: nat)
    requires DistinctIndices(s) && a < |s|
    ensures multiset(s)[s[a]] == 1
  {
    assert s == s[..a] + [s[a]] + s[a + 1..];
    assert s[a] !in s[..a] && s[a] !in s[a + 1..];
  }
}
