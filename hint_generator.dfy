/** Hint label allocation (src/hints/HintGenerator.ts): single letters first,
    then two-letter labels behind reserved prefix letters. */
module HintGenerator {
  import opened Text

  /** `Math.ceil(n / d)` for a positive divisor. */
  function CeilDiv(n: int, d: nat): int
    requires d > 0
  {
    -((-n) / d)
  }

  /** The quotient rounded up: the least `r` with `d * r >= n`. */
  lemma CeilDivBounds(n: int, d: nat)
    requires d > 0
    ensures d * CeilDiv(n, d) >= n && d * (CeilDiv(n, d) - 1) < n
  {
  }

  /** `prefixCount`: `Math.ceil((count - A) / (A - 1))` clamped into [0, A],
      evaluated with JavaScript's number semantics. For A = 0 the quotient is
      `-count`; for A = 1 it divides by zero and is NaN (count 1, which
      `Math.max`/`Math.min` keep and `slice` reads as 0), -Infinity (count 0)
      or +Infinity (count >= 2, clamped to 1).
      For A >= 2 it is the least number of prefixes that makes room for
      `count` labels, when there is one: A singles plus A - 1 more per prefix. */
  function PrefixCount(alphabetLength: nat, count: nat): (pc: nat)
    ensures pc <= alphabetLength
  {
    if alphabetLength == 0 then 0
    else if alphabetLength == 1 then (if count >= 2 then 1 else 0)
    else
      var raw := CeilDiv(count - alphabetLength, alphabetLength - 1);
      var atLeastZero := if raw > 0 then raw else 0;
      if atLeastZero < alphabetLength then atLeastZero else alphabetLength
  }

  /** With A >= 2 letters the prefixes make room for `count` labels unless
      every letter is a prefix, and one prefix fewer would not. */
  lemma PrefixCountRoom(alphabetLength: nat, count: nat)
    ensures var pc := PrefixCount(alphabetLength, count);
            && (alphabetLength >= 2 && pc < alphabetLength ==> count <= alphabetLength + pc * (alphabetLength - 1))
            && (alphabetLength >= 2 && pc > 0 ==> alphabetLength + (pc - 1) * (alphabetLength - 1) < count)
  {
    if alphabetLength >= 2 {
      CeilDivBounds(count - alphabetLength, alphabetLength - 1);
    }
  }

  /** `Array.from(s).filter(c => !excluded.has(c)).join('')` */
  function Without(s: string, excluded: set<char>): (r: string)
    ensures |r| <= |s|
    ensures forall c :: c in r <==> c in s && c !in excluded
  {
    if s == [] then []
    else
      var last := s[|s| - 1];
      assert s == s[..|s| - 1] + [last];
      Without(s[..|s| - 1], excluded) + (if last in excluded then [] else [last])
  }

  /** `alphabetLowercase`: the lowercased alphabet without the excluded
      characters, or the whole lowercased alphabet when that leaves nothing. */
  function FilteredAlphabet(alphabet: string, excluded: set<char>): string
  {
    var lower := LowerAll(alphabet);
    var filtered := if |excluded| > 0 then Without(lower, excluded) else lower;
    if |filtered| == 0 then lower else filtered
  }

  /** `prefixes = ['', ...alphabet.slice(0, prefixCount)]` */
  function Prefixes(letters: string, prefixCount: nat): (ps: seq<string>)
    requires prefixCount <= |letters|
    ensures |ps| == prefixCount + 1 && ps[0] == ""
    ensures forall k :: 1 <= k < |ps| ==> ps[k] == [letters[k - 1]]
  {
    [""] + seq(prefixCount, k requires 0 <= k < prefixCount => [letters[k]])
  }

  /** What the inner loop pushes for one prefix and one letter, ignoring `count`:
      under the empty prefix the bare letter unless it is itself a prefix,
      under any other prefix the prefix followed by the letter. */
  function Cell(prefix: string, letter: char, prefixes: seq<string>): seq<string>
  {
    if prefix == "" then (if [letter] in prefixes then [] else [[letter]])
    else [prefix + [letter]]
  }

  /** The cells of one prefix over `letters`, in order. */
  function RowOf(prefix: string, letters: string, prefixes: seq<string>): seq<string>
  {
    if letters == [] then []
    else RowOf(prefix, letters[..|letters| - 1], prefixes) + Cell(prefix, letters[|letters| - 1], prefixes)
  }

  /** The rows of the prefixes `ps`, in order. */
  function AllRows(ps: seq<string>, letters: string, prefixes: seq<string>): seq<string>
  {
    if ps == [] then []
    else AllRows(ps[..|ps| - 1], letters, prefixes) + RowOf(ps[|ps| - 1], letters, prefixes)
  }

  /** Every label the nested loop would emit with no bound on `count`. */
  function Enumeration(letters: string, prefixCount: nat): seq<string>
    requires prefixCount <= |letters|
  {
    var ps := Prefixes(letters, prefixCount);
    AllRows(ps, letters, ps)
  }

  /** What `generateHintLabels(alphabet, count, excluded)` returns: the first
      `count` labels of the enumeration over the filtered alphabet. */
  function HintLabels(alphabet: string, count: nat, excluded: set<char>): seq<string>
  {
    var letters := FilteredAlphabet(alphabet, excluded);
    Take(Enumeration(letters, PrefixCount(|letters|, count)), count)
  }

  /** `generateHintLabels`: filter the alphabet, reserve prefix letters, and push
      labels in the nested loop until `count` of them are there. */
  method GenerateHintLabels(alphabet: string, count: nat, excludedChars: set<char>) returns (labels: seq<string>)
    ensures labels == HintLabels(alphabet, count, excludedChars)
  {
    var filteredAlphabet := LowerAll(alphabet);
    if |excludedChars| > 0 {
      filteredAlphabet := Without(filteredAlphabet, excludedChars);
    }
    if |filteredAlphabet| == 0 {
      filteredAlphabet := LowerAll(alphabet);
    }
    labels := EmitLabels(filteredAlphabet, count);
  }

  /** The rest of `generateHintLabels` once `alphabetLowercase` is fixed:
      compute `prefixCount` and `prefixes`, then run the nested loop. */
  method EmitLabels(letters: string, count: nat) returns (labels: seq<string>)
    ensures labels == Take(Enumeration(letters, PrefixCount(|letters|, count)), count)
  {
    var prefixCount := PrefixCount(|letters|, count);
    var prefixes := Prefixes(letters, prefixCount);
    labels := [];
    var i := 0;
    assert prefixes[..0] == [] && AllRows([], letters, prefixes) == [];
    while i < |prefixes|
      invariant 0 <= i <= |prefixes|
      invariant labels == Take(AllRows(prefixes[..i], letters, prefixes), count)
    {
      labels := PushRow(prefixes[i], letters, prefixes, count, labels, AllRows(prefixes[..i], letters, prefixes));
      AllRowsStep(prefixes, i, letters);
      i := i + 1;
    }
    assert prefixes[..|prefixes|] == prefixes;
  }

  /** The inner loop of `generateHintLabels` for one prefix: push its cells
      while fewer than `count` labels are there, and stop at `count`. */
  method PushRow(prefix: string, letters: string, prefixes: seq<string>, count: nat,
                 labels0: seq<string>, ghost done: seq<string>) returns (labels: seq<string>)
    requires labels0 == Take(done, count)
    ensures labels == Take(done + RowOf(prefix, letters, prefixes), count)
  {
    labels := labels0;
    var j := 0;
    assert letters[..0] == [] && RowOf(prefix, [], prefixes) == [];
    assert done + RowOf(prefix, letters[..0], prefixes) == done;
    while j < |letters|
      invariant 0 <= j <= |letters|
      invariant labels == Take(done + RowOf(prefix, letters[..j], prefixes), count)
    {
      ghost var row := RowOf(prefix, letters[..j], prefixes);
      ghost var cell := Cell(prefix, letters[j], prefixes);
      RowStep(prefix, letters, j, prefixes);
      assert done + (row + cell) == (done + row) + cell;
      if |labels| < count {
        TakeGrow(done + row, cell, count);
        var letter := letters[j];
        if prefix == "" {
          var hasPrefix := [letter] in prefixes;
          if !hasPrefix {
            labels := labels + [[letter]];
          }
        } else {
          labels := labels + [prefix + [letter]];
        }
      } else {
        ghost var rest := RowOf(prefix, letters[j..], prefixes);
        RowRest(prefix, letters, j, prefixes);
        TakeFull(done + row, rest, count);
        assert done + (row + rest) == (done + row) + rest;
        return;
      }
      j := j + 1;
    }
    assert letters[..j] == letters;
  }

  lemma RowStep(prefix: string, letters: string, j: nat, prefixes: seq<string>)
    requires j < |letters|
    ensures RowOf(prefix, letters[..j + 1], prefixes)
            == RowOf(prefix, letters[..j], prefixes) + Cell(prefix, letters[j], prefixes)
  {
    assert letters[..j + 1][..j] == letters[..j];
  }

  lemma RowRest(prefix: string, letters: string, j: nat, prefixes: seq<string>)
    requires j <= |letters|
    ensures RowOf(prefix, letters, prefixes)
            == RowOf(prefix, letters[..j], prefixes) + RowOf(prefix, letters[j..], prefixes)
  {
    RowOfAppend(prefix, letters[..j], letters[j..], prefixes);
    assert letters[..j] + letters[j..] == letters;
  }

  lemma AllRowsStep(prefixes: seq<string>, i: nat, letters: string)
    requires i < |prefixes|
    ensures AllRows(prefixes[..i + 1], letters, prefixes)
            == AllRows(prefixes[..i], letters, prefixes) + RowOf(prefixes[i], letters, prefixes)
  {
    assert prefixes[..i + 1][..i] == prefixes[..i];
  }

  lemma TakeGrow<T>(s: seq<T>, cell: seq<T>, n: nat)
    requires |cell| <= 1 && |Take(s, n)| < n
    ensures Take(s + cell, n) == Take(s, n) + cell
  {
    assert Take(s, n) == s;
  }

  lemma TakeFull<T>(s: seq<T>, t: seq<T>, n: nat)
    requires |Take(s, n)| >= n
    ensures Take(s + t, n) == Take(s, n)
  {
    assert (s + t)[..n] == s[..n];
  }

  lemma {:induction false} RowOfAppend(prefix: string, xs: string, ys: string, prefixes: seq<string>)
    ensures RowOf(prefix, xs + ys, prefixes) == RowOf(prefix, xs, prefixes) + RowOf(prefix, ys, prefixes)
  {
    if ys == [] {
      assert xs + ys == xs;
    } else {
      var init := ys[..|ys| - 1];
      assert (xs + ys)[..|xs + ys| - 1] == xs + init;
      RowOfAppend(prefix, xs, init, prefixes);
    }
  }

  // ---------------------------------------------------------------------------
  // The shape of the labels, for any alphabet.

  /** A label is a single letter that is not reserved as a prefix, or a
      reserved prefix letter followed by any letter. */
  ghost predicate WellFormed(hint: string, letters: string, prefixCount: nat)
    requires prefixCount <= |letters|
  {
    || (|hint| == 1 && hint[0] in letters && hint[0] !in letters[..prefixCount])
    || (|hint| == 2 && hint[0] in letters[..prefixCount] && hint[1] in letters)
  }

  lemma InPrefixes(letters: string, prefixCount: nat, c: char)
    requires prefixCount <= |letters|
    ensures [c] in Prefixes(letters, prefixCount) <==> c in letters[..prefixCount]
  {
    var ps := Prefixes(letters, prefixCount);
    if c in letters[..prefixCount] {
      var k :| 0 <= k < prefixCount && letters[k] == c;
      assert ps[k + 1] == [c];
    }
    if [c] in ps {
      var k :| 0 <= k < |ps| && ps[k] == [c];
      assert k != 0;
      assert letters[..prefixCount][k - 1] == c;
    }
  }

  lemma {:induction false} SinglesShape(prefix: string, part: string, letters: string, prefixCount: nat)
    requires prefixCount <= |letters| && prefix == ""
    requires forall c :: c in part ==> c in letters
    ensures forall l :: l in RowOf(prefix, part, Prefixes(letters, prefixCount)) ==>
              |l| == 1 && l[0] in letters && l[0] !in letters[..prefixCount]
  {
    if part != [] {
      var last := part[|part| - 1];
      SinglesShape(prefix, part[..|part| - 1], letters, prefixCount);
      InPrefixes(letters, prefixCount, last);
    }
  }

  /** The row of a non-empty prefix is that prefix followed by each letter. */
  lemma {:induction false} DoublesRow(prefix: string, part: string, prefixes: seq<string>)
    requires prefix != ""
    ensures RowOf(prefix, part, prefixes) == seq(|part|, j requires 0 <= j < |part| => prefix + [part[j]])
  {
    if part != [] {
      DoublesRow(prefix, part[..|part| - 1], prefixes);
    }
  }

  lemma {:induction false} AllRowsShape(m: nat, letters: string, prefixCount: nat)
    requires prefixCount <= |letters| && m <= prefixCount + 1
    ensures var ps := Prefixes(letters, prefixCount);
            forall l :: l in AllRows(ps[..m], letters, ps) ==> WellFormed(l, letters, prefixCount)
  {
    var ps := Prefixes(letters, prefixCount);
    if m > 0 {
      AllRowsShape(m - 1, letters, prefixCount);
      AllRowsStep(ps, m - 1, letters);
      if m == 1 {
        SinglesShape(ps[0], letters, letters, prefixCount);
      } else {
        var p := ps[m - 1];
        DoublesRow(p, letters, ps);
        assert p == [letters[m - 2]] && letters[m - 2] in letters[..prefixCount];
        forall l | l in RowOf(p, letters, ps) ensures WellFormed(l, letters, prefixCount) {
          var j :| 0 <= j < |letters| && l == p + [letters[j]];
        }
      }
    }
  }

  /** Every label is a letter of the filtered alphabet that is not a prefix, or
      one of the first `prefixCount` letters followed by a letter. */
  lemma LabelsWellFormed(alphabet: string, count: nat, excluded: set<char>)
    ensures var letters := FilteredAlphabet(alphabet, excluded);
            var pc := PrefixCount(|letters|, count);
            forall l :: l in HintLabels(alphabet, count, excluded) ==> WellFormed(l, letters, pc)
  {
    var letters := FilteredAlphabet(alphabet, excluded);
    var pc := PrefixCount(|letters|, count);
    var ps := Prefixes(letters, pc);
    AllRowsShape(pc + 1, letters, pc);
    assert ps[..pc + 1] == ps;
  }

  /** No label is empty, so none of them is dropped by a truthiness filter. */
  lemma LabelsNonEmpty(alphabet: string, count: nat, excluded: set<char>)
    ensures var r := HintLabels(alphabet, count, excluded);
            forall i :: 0 <= i < |r| ==> 1 <= |r[i]| <= 2
  {
    var r := HintLabels(alphabet, count, excluded);
    LabelsWellFormed(alphabet, count, excluded);
    assert forall i :: 0 <= i < |r| ==> r[i] in r;
  }

  /** No single-letter label is the first letter of a two-letter label. */
  lemma SingleNeverPrefix(alphabet: string, count: nat, excluded: set<char>)
    ensures var r := HintLabels(alphabet, count, excluded);
            forall i, j :: 0 <= i < |r| && 0 <= j < |r| && |r[i]| == 1 && |r[j]| == 2 ==> r[i][0] != r[j][0]
  {
    var r := HintLabels(alphabet, count, excluded);
    var letters := FilteredAlphabet(alphabet, excluded);
    var pc := PrefixCount(|letters|, count);
    LabelsWellFormed(alphabet, count, excluded);
    forall i, j | 0 <= i < |r| && 0 <= j < |r| && |r[i]| == 1 && |r[j]| == 2
      ensures r[i][0] != r[j][0]
    {
      assert r[i] in r && r[j] in r;
      assert WellFormed(r[i], letters, pc) && WellFormed(r[j], letters, pc);
    }
  }

  /** Exclusion is honoured whenever it leaves a letter: no label then holds an
      excluded character. When it would leave none, the call behaves exactly
      as a call without exclusions. */
  lemma ExclusionRespected(alphabet: string, count: nat, excluded: set<char>)
    ensures Without(LowerAll(alphabet), excluded) != [] ==>
              forall l, c :: l in HintLabels(alphabet, count, excluded) && c in l ==> c !in excluded
    ensures Without(LowerAll(alphabet), excluded) == [] ==>
              HintLabels(alphabet, count, excluded) == HintLabels(alphabet, count, {})
  {
    LabelCharsInAlphabet(alphabet, count, excluded);
    FilterFallback(alphabet, excluded);
  }

  lemma LabelCharsInAlphabet(alphabet: string, count: nat, excluded: set<char>)
    ensures forall l, c :: l in HintLabels(alphabet, count, excluded) && c in l ==>
              c in FilteredAlphabet(alphabet, excluded)
  {
    var letters := FilteredAlphabet(alphabet, excluded);
    var pc := PrefixCount(|letters|, count);
    LabelsWellFormed(alphabet, count, excluded);
    forall l, c | l in HintLabels(alphabet, count, excluded) && c in l
      ensures c in letters
    {
      assert WellFormed(l, letters, pc);
      assert c == l[0] || c == l[1];
      assert forall x :: x in letters[..pc] ==> x in letters;
    }
  }

  lemma FilterFallback(alphabet: string, excluded: set<char>)
    ensures Without(LowerAll(alphabet), excluded) != [] ==>
              forall c :: c in FilteredAlphabet(alphabet, excluded) ==> c !in excluded
    ensures Without(LowerAll(alphabet), excluded) == [] ==>
              FilteredAlphabet(alphabet, excluded) == FilteredAlphabet(alphabet, {})
  {
  }

  /** The degenerate alphabets: an empty one gives no labels at all, and a
      single letter x gives [] for count 0, [x] for count 1 and only [xx] for
      any larger count, since the division by A - 1 = 0 makes x a prefix. */
  lemma DegenerateAlphabets(alphabet: string, count: nat, excluded: set<char>)
    ensures alphabet == [] ==> HintLabels(alphabet, count, excluded) == []
    ensures |FilteredAlphabet(alphabet, excluded)| == 1 ==>
              var x := FilteredAlphabet(alphabet, excluded)[0];
              HintLabels(alphabet, count, excluded) == if count == 0 then [] else if count == 1 then [[x]] else [[x, x]]
  {
    var letters := FilteredAlphabet(alphabet, excluded);
    if alphabet == [] {
      assert LowerAll(alphabet) == [];
      assert letters == [];
      assert Enumeration(letters, 0) == RowOf("", [], [""]);
    }
    if |letters| == 1 {
      var x := letters[0];
      assert letters == [x];
      var pc := PrefixCount(1, count);
      if pc == 0 {
        SingleLetterNoPrefix(x);
      } else {
        SingleLetterPrefix(x);
      }
    }
  }

  /** With one letter and no prefix, the enumeration is that letter. */
  lemma SingleLetterNoPrefix(x: char)
    ensures Enumeration([x], 0) == [[x]]
  {
    var letters := [x];
    var ps := Prefixes(letters, 0);
    assert ps == [""];
    assert letters[..0] == [];
    assert RowOf("", letters, ps) == RowOf("", [], ps) + Cell("", x, ps);
    AllRowsStep(ps, 0, letters);
    assert ps[..1] == ps && ps[..0] == [];
    assert Cell("", x, ps) == [[x]];
  }

  /** With one letter that is also the one prefix, the enumeration is the
      letter doubled. */
  lemma SingleLetterPrefix(x: char)
    ensures Enumeration([x], 1) == [[x, x]]
  {
    var letters := [x];
    var ps := Prefixes(letters, 1);
    assert ps == ["", [x]];
    assert letters[..0] == [];
    assert RowOf("", letters, ps) == RowOf("", [], ps) + Cell("", x, ps);
    AllRowsStep(ps, 0, letters);
    AllRowsStep(ps, 1, letters);
    assert ps[..2] == ps && ps[..0] == [];
    assert Cell("", x, ps) == [];
    assert [x] + [x] == [x, x];
    assert RowOf([x], letters, ps) == RowOf([x], [], ps) + Cell([x], x, ps) == [[x, x]];
    assert AllRows(ps[..1], letters, ps) == [];
  }

  // ---------------------------------------------------------------------------
  // The exact layout, for an alphabet without repeated letters.

  lemma DivModOf(q: nat, j: nat, n: nat)
    requires j < n
    ensures (q * n + j) / n == q && (q * n + j) % n == j
  {
    var x := q * n + j;
    var d := x / n - q;
    assert n * d == j - x % n;
    assert -(n as int) < n * d < n;
  }

  lemma DivBelow(d: nat, m: nat, n: nat)
    requires d < m * n
    ensures n > 0 && d / n < m
  {
  }

  lemma MulMono(a: nat, b: nat, n: nat)
    requires a <= b
    ensures a * n <= b * n
  {
  }

  /** Label number `k`: the first A - prefixCount labels are the letters after
      the prefixes, in alphabet order; then, prefix by prefix in alphabet order,
      each prefix followed by every letter in alphabet order. */
  function LabelAt(letters: string, prefixCount: nat, k: nat): string
    requires prefixCount <= |letters| && k < |letters| - prefixCount + prefixCount * |letters|
  {
    var singles := |letters| - prefixCount;
    if k < singles then [letters[prefixCount + k]]
    else
      var d := k - singles;
      DivBelow(d, prefixCount, |letters|);
      [letters[d / |letters|], letters[d % |letters|]]
  }

  lemma {:induction false} SinglesExact(part: nat, letters: string, prefixCount: nat)
    requires Distinct(letters) && prefixCount <= |letters| && part <= |letters|
    ensures RowOf("", letters[..part], Prefixes(letters, prefixCount))
            == seq(if part <= prefixCount then 0 else part - prefixCount,
                   k requires 0 <= k < part - prefixCount => [letters[prefixCount + k]])
  {
    var ps := Prefixes(letters, prefixCount);
    if part > 0 {
      SinglesExact(part - 1, letters, prefixCount);
      RowStep("", letters, part - 1, ps);
      InPrefixes(letters, prefixCount, letters[part - 1]);
      if part - 1 < prefixCount {
        assert letters[part - 1] == letters[..prefixCount][part - 1];
      } else {
        assert letters[part - 1] !in letters[..prefixCount];
      }
    } else {
      assert letters[..0] == [];
    }
  }

  /** Label number A - prefixCount + (m - 1) * A + j is prefix m followed by letter j. */
  lemma DoubleAt(letters: string, prefixCount: nat, m: nat, j: nat)
    requires prefixCount <= |letters| && 1 <= m <= prefixCount && j < |letters|
    ensures |letters| - prefixCount + (m - 1) * |letters| + j < |letters| - prefixCount + prefixCount * |letters|
    ensures LabelAt(letters, prefixCount, |letters| - prefixCount + (m - 1) * |letters| + j)
            == [letters[m - 1], letters[j]]
  {
    var n := |letters|;
    DivModOf(m - 1, j, n);
    MulMono(m, prefixCount, n);
    assert (m - 1) * n + n == m * n;
  }

  /** `done` is the start of the layout that `LabelAt` describes. */
  ghost predicate LaidOut(done: seq<string>, letters: string, prefixCount: nat)
    requires prefixCount <= |letters|
  {
    && |done| <= |letters| - prefixCount + prefixCount * |letters|
    && forall k :: 0 <= k < |done| ==> done[k] == LabelAt(letters, prefixCount, k)
  }

  lemma {:induction false} LayoutUpTo(letters: string, prefixCount: nat, m: nat)
    requires Distinct(letters) && prefixCount <= |letters| && m <= prefixCount
    ensures var ps := Prefixes(letters, prefixCount);
            var done := AllRows(ps[..m + 1], letters, ps);
            |done| == |letters| - prefixCount + m * |letters| && LaidOut(done, letters, prefixCount)
  {
    var ps := Prefixes(letters, prefixCount);
    var n := |letters|;
    MulMono(m, prefixCount, n);
    if m == 0 {
      AllRowsStep(ps, 0, letters);
      assert ps[..0] == [];
      SinglesExact(n, letters, prefixCount);
      assert letters[..n] == letters;
    } else {
      LayoutUpTo(letters, prefixCount, m - 1);
      LayoutStep(letters, prefixCount, m);
    }
  }

  lemma LayoutStep(letters: string, prefixCount: nat, m: nat)
    requires Distinct(letters) && prefixCount <= |letters| && 1 <= m <= prefixCount
    requires var ps := Prefixes(letters, prefixCount);
             var before := AllRows(ps[..m], letters, ps);
             |before| == |letters| - prefixCount + (m - 1) * |letters| && LaidOut(before, letters, prefixCount)
    ensures var ps := Prefixes(letters, prefixCount);
            var done := AllRows(ps[..m + 1], letters, ps);
            |done| == |letters| - prefixCount + m * |letters| && LaidOut(done, letters, prefixCount)
  {
    var ps := Prefixes(letters, prefixCount);
    AllRowsStep(ps, m, letters);
    var before := AllRows(ps[..m], letters, ps);
    var p := ps[m];
    assert p == [letters[m - 1]];
    DoublesRow(p, letters, ps);
    var row := RowOf(p, letters, ps);
    forall j | 0 <= j < |row| ensures row[j] == [letters[m - 1], letters[j]] {
      assert row[j] == p + [letters[j]];
    }
    LaidOutRow(letters, prefixCount, m, before, row);
  }

  /** Appending the row of prefix number m to the rows before it keeps the
      layout. */
  lemma LaidOutRow(letters: string, prefixCount: nat, m: nat, before: seq<string>, row: seq<string>)
    requires prefixCount <= |letters| && 1 <= m <= prefixCount
    requires |before| == |letters| - prefixCount + (m - 1) * |letters| && LaidOut(before, letters, prefixCount)
    requires |row| == |letters| && forall j :: 0 <= j < |row| ==> row[j] == [letters[m - 1], letters[j]]
    ensures |before + row| == |letters| - prefixCount + m * |letters| && LaidOut(before + row, letters, prefixCount)
  {
    var n := |letters|;
    var done := before + row;
    MulMono(m, prefixCount, n);
    assert (m - 1) * n + n == m * n;
    forall k | 0 <= k < |done| ensures done[k] == LabelAt(letters, prefixCount, k) {
      if k >= |before| {
        DoubleAt(letters, prefixCount, m, k - |before|);
      }
    }
  }

  /** The whole enumeration, label by label. */
  lemma EnumerationLayout(letters: string, prefixCount: nat)
    requires Distinct(letters) && prefixCount <= |letters|
    ensures |Enumeration(letters, prefixCount)| == |letters| - prefixCount + prefixCount * |letters|
    ensures forall k :: 0 <= k < |Enumeration(letters, prefixCount)| ==>
              Enumeration(letters, prefixCount)[k] == LabelAt(letters, prefixCount, k)
  {
    var ps := Prefixes(letters, prefixCount);
    LayoutUpTo(letters, prefixCount, prefixCount);
    assert ps[..prefixCount + 1] == ps;
    assert LaidOut(Enumeration(letters, prefixCount), letters, prefixCount);
  }

  /** The order of the labels: single letters first, in alphabet order, then
      the two-letter labels grouped by prefix in alphabet order, each group in
      alphabet order. */
  lemma HintLabelsLayout(alphabet: string, count: nat, excluded: set<char>)
    requires Distinct(FilteredAlphabet(alphabet, excluded))
    ensures var letters := FilteredAlphabet(alphabet, excluded);
            var pc := PrefixCount(|letters|, count);
            var r := HintLabels(alphabet, count, excluded);
            && |r| == Min(count, |letters| - pc + pc * |letters|)
            && forall k :: 0 <= k < |r| ==> r[k] == LabelAt(letters, pc, k)
  {
    var letters := FilteredAlphabet(alphabet, excluded);
    EnumerationLayout(letters, PrefixCount(|letters|, count));
  }

  /** A two-letter label, read as prefix number `q` and letter number `r`. */
  lemma LabelAtDouble(letters: string, prefixCount: nat, k: nat) returns (q: nat, r: nat)
    requires prefixCount <= |letters|
    requires |letters| - prefixCount <= k < |letters| - prefixCount + prefixCount * |letters|
    ensures q < prefixCount && r < |letters|
    ensures k - (|letters| - prefixCount) == q * |letters| + r
    ensures LabelAt(letters, prefixCount, k) == [letters[q], letters[r]]
  {
    var d := k - (|letters| - prefixCount);
    DivBelow(d, prefixCount, |letters|);
    q, r := d / |letters|, d % |letters|;
  }

  lemma LabelAtInjective(letters: string, prefixCount: nat, k1: nat, k2: nat)
    requires Distinct(letters) && prefixCount <= |letters|
    requires k1 < k2 < |letters| - prefixCount + prefixCount * |letters|
    ensures LabelAt(letters, prefixCount, k1) != LabelAt(letters, prefixCount, k2)
  {
    var n := |letters|;
    var singles := n - prefixCount;
    if k2 < singles {
      assert letters[prefixCount + k1] != letters[prefixCount + k2];
    } else if k1 >= singles {
      var q1, r1 := LabelAtDouble(letters, prefixCount, k1);
      var q2, r2 := LabelAtDouble(letters, prefixCount, k2);
      assert q1 != q2 || r1 != r2;
    } else {
      var q2, r2 := LabelAtDouble(letters, prefixCount, k2);
    }
  }

  /** With no repeated letter in the filtered alphabet, no label repeats. */
  lemma LabelsDistinct(alphabet: string, count: nat, excluded: set<char>)
    requires Distinct(FilteredAlphabet(alphabet, excluded))
    ensures Distinct(HintLabels(alphabet, count, excluded))
  {
    var letters := FilteredAlphabet(alphabet, excluded);
    var pc := PrefixCount(|letters|, count);
    var r := HintLabels(alphabet, count, excluded);
    HintLabelsLayout(alphabet, count, excluded);
    forall i, j | 0 <= i < j < |r| ensures r[i] != r[j] {
      LabelAtInjective(letters, pc, i, j);
    }
  }

  /** Never more than `count` labels; with A >= 2 distinct letters exactly
      min(count, A * A) of them. */
  lemma LabelCount(alphabet: string, count: nat, excluded: set<char>)
    ensures |HintLabels(alphabet, count, excluded)| <= count
    ensures var letters := FilteredAlphabet(alphabet, excluded);
            Distinct(letters) && |letters| >= 2 ==>
              |HintLabels(alphabet, count, excluded)| == Min(count, |letters| * |letters|)
  {
    var letters := FilteredAlphabet(alphabet, excluded);
    var n := |letters|;
    if Distinct(letters) && n >= 2 {
      var pc := PrefixCount(n, count);
      PrefixCountRoom(n, count);
      HintLabelsLayout(alphabet, count, excluded);
      CapacityBound(n, pc, count);
    }
  }

  /** The room made by `pc` prefixes, A - pc + pc * A, never exceeds A * A and
      covers `count` unless all A letters are prefixes. */
  lemma CapacityBound(n: nat, pc: nat, count: nat)
    requires n >= 2 && pc <= n
    requires pc < n ==> count <= n + pc * (n - 1)
    ensures Min(count, n - pc + pc * n) == Min(count, n * n)
  {
    var total := n - pc + pc * n;
    assert total == n + pc * (n - 1);
    if pc < n {
      MulMono(pc, n - 1, n - 1);
      assert pc * (n - 1) <= (n - 1) * (n - 1);
      assert n + (n - 1) * (n - 1) <= n * n;
    }
  }

  lemma {:induction false} WithoutDistinct(s: string, excluded: set<char>)
    requires Distinct(s)
    ensures Distinct(Without(s, excluded))
  {
    if s != [] {
      var init := s[..|s| - 1];
      WithoutDistinct(init, excluded);
      assert s[|s| - 1] !in init;
    }
  }

  /** A lowercased alphabet without repeats stays so once filtered. */
  lemma FilteredDistinct(alphabet: string, excluded: set<char>)
    requires Distinct(LowerAll(alphabet))
    ensures Distinct(FilteredAlphabet(alphabet, excluded))
  {
    WithoutDistinct(LowerAll(alphabet), excluded);
  }
}
