/** Characters and strings. A Dafny `char` is a Unicode scalar value, while a
    JavaScript string is a sequence of UTF-16 code units; the two agree, one
    `char` per code unit, on text of the Basic Multilingual Plane without
    surrogates, which is the text this model describes. Only the ASCII part
    of `toLowerCase` is modelled. */
module Text {

  datatype Option<T> = None | Some(value: T)

  /** `c.toLowerCase()` for one character, restricted to ASCII letters. */
  function Lower(c: char): (r: char)
    ensures 'A' <= c <= 'Z' ==> 'a' <= r <= 'z' && r as int == c as int + 32
    ensures !('A' <= c <= 'Z') ==> r == c
    ensures !('A' <= r <= 'Z')
  {
    if 'A' <= c <= 'Z' then (c as int + 32) as char else c
  }

  /** `s.toLowerCase()`, character by character. */
  function LowerAll(s: string): (r: string)
    ensures |r| == |s|
    ensures forall i :: 0 <= i < |s| ==> r[i] == Lower(s[i])
  {
    seq(|s|, i requires 0 <= i < |s| => Lower(s[i]))
  }

  /** The line terminators that `.` in a regular expression does not match. */
  predicate IsLineTerminator(c: char)
  {
    c == '\n' || c == '\r' || c == '\U{2028}' || c == '\U{2029}'
  }

  /** The characters of `\s` in a regular expression, which are also the ones
      `String.prototype.trim` removes: WhiteSpace and LineTerminator. */
  predicate IsWhitespace(c: char)
  {
    || c == '\t' || c == '\U{000B}' || c == '\U{000C}' || c == ' '
    || c == '\U{00A0}' || c == '\U{FEFF}' || c == '\U{1680}'
    || ('\U{2000}' <= c <= '\U{200A}') || c == '\U{202F}' || c == '\U{205F}' || c == '\U{3000}'
    || IsLineTerminator(c)
  }

  /** `\d` */
  predicate IsDigit(c: char)
  {
    '0' <= c <= '9'
  }

  /** `\w` */
  predicate IsWordChar(c: char)
  {
    ('a' <= c <= 'z') || ('A' <= c <= 'Z') || IsDigit(c) || c == '_'
  }

  /** `s` holds `lit` at position `at`. */
  predicate HasAt(s: string, at: nat, lit: string)
  {
    at + |lit| <= |s| && s[at..at + |lit|] == lit
  }

  /** Leading whitespace removed. */
  function TrimStart(s: string): (r: string)
    ensures |r| <= |s| && r == s[|s| - |r|..]
    ensures r == [] || !IsWhitespace(r[0])
    ensures forall i :: 0 <= i < |s| - |r| ==> IsWhitespace(s[i])
  {
    if s == [] || !IsWhitespace(s[0]) then s else TrimStart(s[1..])
  }

  /** Trailing whitespace removed. */
  function TrimEnd(s: string): (r: string)
    ensures |r| <= |s| && r == s[..|r|]
    ensures r == [] || !IsWhitespace(r[|r| - 1])
    ensures forall i :: |r| <= i < |s| ==> IsWhitespace(s[i])
  {
    if s == [] || !IsWhitespace(s[|s| - 1]) then s else TrimEnd(s[..|s| - 1])
  }

  /** `r` is `s[a..b]`, and everything cut off on either side is whitespace. */
  ghost predicate CutDown(s: string, r: string, a: nat, b: nat)
  {
    && a <= b <= |s| && r == s[a..b]
    && (forall i :: 0 <= i < a ==> IsWhitespace(s[i]))
    && (forall i :: b <= i < |s| ==> IsWhitespace(s[i]))
  }

  /** `s.trim()`: the result is a slice of `s` that neither starts nor ends with
      whitespace, and everything cut off on either side is whitespace. */
  function Trim(s: string): (r: string)
    ensures |r| <= |s|
    ensures r == [] || (!IsWhitespace(r[0]) && !IsWhitespace(r[|r| - 1]))
    ensures exists a: nat, b: nat :: CutDown(s, r, a, b)
  {
    var t := TrimStart(s);
    var r := TrimEnd(t);
    TrimCut(s, t, r);
    r
  }

  /** Cutting whitespace off the front and then off the back cuts `s` down to
      a slice. */
  lemma TrimCut(s: string, t: string, r: string)
    requires |t| <= |s| && t == s[|s| - |t|..] && forall i :: 0 <= i < |s| - |t| ==> IsWhitespace(s[i])
    requires |r| <= |t| && r == t[..|r|] && forall i :: |r| <= i < |t| ==> IsWhitespace(t[i])
    ensures CutDown(s, r, |s| - |t|, |s| - |t| + |r|)
  {
    var a := |s| - |t|;
    forall i | a + |r| <= i < |s|
      ensures IsWhitespace(s[i])
    {
      assert s[i] == t[i - a];
    }
    forall i | 0 <= i < |r|
      ensures r[i] == s[a..a + |r|][i]
    {
      assert r[i] == t[i] == s[a + i];
    }
    assert r == s[a..a + |r|];
  }

  /** The characters of a literal found at `at` are the ones of `s` there. */
  lemma LiteralAt(s: string, at: nat, lit: string, i: nat)
    requires HasAt(s, at, lit) && i < |lit|
    ensures s[at + i] == lit[i]
  {
    assert s[at + i] == s[at..at + |lit|][i];
  }

  /** The first `n` elements of `s`, or all of `s` when it is shorter. */
  function Take<T>(s: seq<T>, n: nat): (r: seq<T>)
    ensures |r| == if |s| <= n then |s| else n
    ensures r == s[..|r|]
  {
    if |s| <= n then s else s[..n]
  }

  /** `labels[k..]`, or nothing when there are fewer than `k`: what an index
      shifted by `k` reads from `labels`. */
  function Drop<T>(s: seq<T>, k: nat): (r: seq<T>)
    ensures |r| == if |s| <= k then 0 else |s| - k
    ensures forall i :: 0 <= i < |r| ==> r[i] == s[i + k]
  {
    if |s| <= k then [] else s[k..]
  }

  ghost predicate Distinct<T>(s: seq<T>)
  {
    forall i, j :: 0 <= i < j < |s| ==> s[i] != s[j]
  }

  function Min(a: int, b: int): int
  {
    if a <= b then a else b
  }

  /** Appending to a prefix that is still short grows it; once it has `n`
      elements, nothing appended later shows. */
  lemma TakeAppend<T>(s: seq<T>, t: seq<T>, n: nat)
    ensures |Take(s, n)| < n ==> Take(s + t, n) == Take(s, n) + Take(t, n - |Take(s, n)|)
    ensures |Take(s, n)| == n ==> Take(s + t, n) == Take(s, n)
  {
    if |s| < n {
      assert Take(s, n) == s;
      var k := n - |s|;
      if |t| <= k {
        assert Take(s + t, n) == s + t;
      } else {
        assert (s + t)[..n] == s + t[..k];
      }
    } else {
      assert (s + t)[..n] == s[..n];
    }
  }
}
