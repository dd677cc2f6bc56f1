# Hint labelling and match detection, in Dafny

This project models the core of a keyboard-navigation plugin for a markdown
editor. The plugin shows short letter labels ("hints") next to links and
search matches so that the user can jump to one by typing its label. The
model covers five parts:

- **Label allocation** (`HintGenerator`). `generateHintLabels` lowercases
  the alphabet and removes the excluded characters; when that leaves
  nothing, it falls back to the whole alphabet. It then reserves the first
  `prefixCount` letters as prefixes and emits labels in a nested loop:
  first the single letters that are not prefixes, then each prefix followed
  by every letter. It stops once `count` labels exist. `prefixCount` is
  computed as JavaScript computes it, including the division by zero for a
  one-letter alphabet.
- **Link detection** (`LinkPatterns`, `LinkDetector`). The four
  `LINK_PATTERNS` are hand-written matchers. Each tries its alternatives in
  the order a backtracking engine does, with lazy `.+?`, the `[^\[\]]` title
  class and `^` holding only at position 0. `detectLinks` runs the passes in
  the order wiki, external, markdown-internal, bare URL. Its `addLink`
  closure keeps the first link for each start index. The survivors are
  sorted by index. `detectMarkdownLinks` attaches labels and drops the links
  left without one. Bare URLs are reported at the match index + 1, whatever
  the match started with; this behaviour is modelled as written.
- **Regular-expression hints** (`RegexMatcher`). `findRegexMatches` has a
  validation gate, a guard against zero-width matches and a cap of 10000
  matches. It then sorts the matches and labels them. The regular-expression
  engine is a function parameter; only the guarantees of
  `RegExp.prototype.exec` on a global pattern are required of it.
- **Flash search** (`FlashMatchDetector`). `findMatches` searches the visible
  text for the literal search string, left to right and without overlap. It
  records the lowercased character after each match and keeps only the
  matches inside a visible range. It labels those with an alphabet that
  excludes the recorded characters, assigning the letters in place in an
  array.
- **Live preview** (`LivePreview`). Lines 35-46 of `init` share one run of
  labels between the preview hints and the source hints, preview hints
  first.

Shared pieces live in `Text`, `Labelling` and `Links`:

- `Text` holds characters, `trim`, lowercasing and `Take`/`Drop`.
- `Labelling` holds the `.map((x, i) => ({letter: labels[i], ...x})).filter(x => x.letter)` idiom.
- `Links` holds the link records and the ascending sort by index.

The imperative parts are methods proved against specification functions:

- `GenerateHintLabels`, `EmitLabels` and `PushRow` run the nested loop with
  its early `break`.
- `DetectLinks`, `RunPass` and `AddLink` thread the claimed-index set and the
  link list through the four `while (exec)` loops.
- `CollectMatches` runs the guarded `exec` loop.
- `SearchAll` and `AssignLetters` are the flash loops; `AssignLetters` works
  on an array.

The properties are proved as lemmas about those functions.

## Model

| member | source | states |
|---|---|---|
| Text.Lower | src/flash/FlashMatchDetector.ts:77 | `toLowerCase` on one character: an ASCII capital maps to its small letter (code + 32), anything else is unchanged, and the result is never an ASCII capital |
| Text.LowerAll | src/hints/HintGenerator.ts:18 | lowercasing keeps the length and lowers each character in place |
| Text.TrimStart | src/detection/LinkDetector.ts:57 | the result is a suffix of the input that does not start with whitespace, and everything cut off is whitespace |
| Text.TrimEnd | src/detection/LinkDetector.ts:57 | the result is a prefix of the input that does not end with whitespace, and everything cut off is whitespace |
| Text.Trim | src/detection/LinkDetector.ts:57 | `trim()` gives a slice of the input that neither starts nor ends with whitespace, with only whitespace cut off on either side |
| Text.TrimCut | src/detection/LinkDetector.ts:57 | cutting leading and then trailing whitespace leaves the slice between the two cuts |
| Text.Take | src/hints/HintGenerator.ts:44 | the first `n` elements of `s`, or all of `s` when it is shorter |
| Text.Drop | src/processors/LivePreviewProcessor.ts:45 | element `i` of the result is `labels[i + k]`, and the result is empty when there are at most `k` labels |
| Text.TakeAppend | src/hints/HintGenerator.ts:44 | while fewer than `n` elements have been kept, appending grows the kept prefix; once `n` are kept, nothing appended later shows |
| HintGenerator.CeilDivBounds | src/hints/HintGenerator.ts:32 | `Math.ceil(n / d)` is the least `r` with `d * r >= n` |
| HintGenerator.PrefixCount | src/hints/HintGenerator.ts:32-36 | the clamped prefix count never exceeds the alphabet length |
| HintGenerator.PrefixCountRoom | src/hints/HintGenerator.ts:32-36 | with A >= 2 letters, `prefixCount` prefixes make room for `count` labels unless every letter is a prefix, and one prefix fewer would not |
| HintGenerator.Without | src/hints/HintGenerator.ts:19-23 | the filtered alphabet holds exactly the characters of the input that are not excluded |
| HintGenerator.Prefixes | src/hints/HintGenerator.ts:38 | `prefixes` is `''` followed by the first `prefixCount` letters, one per entry |
| HintGenerator.GenerateHintLabels | src/hints/HintGenerator.ts:16-63 | the imperative allocator returns the first `count` labels of the enumeration over the filtered alphabet |
| HintGenerator.EmitLabels | src/hints/HintGenerator.ts:30-62 | the outer loop over the prefixes yields the first `count` labels of all rows in prefix order |
| HintGenerator.PushRow | src/hints/HintGenerator.ts:43-59 | the inner loop adds one prefix's row to the labels so far, cut at `count`, and stops at the `break` |
| HintGenerator.InPrefixes | src/hints/HintGenerator.ts:38-49 | a one-letter string is among `prefixes` exactly when its letter is among the first `prefixCount` letters |
| HintGenerator.SinglesShape | src/hints/HintGenerator.ts:46-52 | every label of the empty prefix's row is a single letter of the alphabet that is not reserved as a prefix |
| HintGenerator.DoublesRow | src/hints/HintGenerator.ts:53-55 | the row of a non-empty prefix is that prefix followed by each letter, in alphabet order |
| HintGenerator.AllRowsShape | src/hints/HintGenerator.ts:40-60 | every label of any leading group of rows is a non-prefix single letter or a prefix letter followed by a letter |
| HintGenerator.LabelsWellFormed | src/hints/HintGenerator.ts:18-60 | every label is a letter of the filtered alphabet that is not a prefix, or one of the first `prefixCount` letters followed by a letter |
| HintGenerator.LabelsNonEmpty | src/hints/HintGenerator.ts:44-55 | every label has one or two characters, so no label is dropped by a truthiness filter |
| HintGenerator.SingleNeverPrefix | src/hints/HintGenerator.ts:38-51 | no single-letter label is the first letter of a two-letter label |
| HintGenerator.ExclusionRespected | src/hints/HintGenerator.ts:19-28 | if some letter survives the exclusion, no label holds an excluded character; otherwise the result equals the call without exclusions |
| HintGenerator.LabelCharsInAlphabet | src/hints/HintGenerator.ts:18-28 | every character of every label comes from the filtered, lowercased alphabet |
| HintGenerator.FilterFallback | src/hints/HintGenerator.ts:19-28 | the filtered alphabet avoids the excluded characters when the filter leaves any letter, and is the whole lowercased alphabet otherwise |
| HintGenerator.DegenerateAlphabets | src/hints/HintGenerator.ts:26-36 | an empty alphabet gives `[]`; a one-letter alphabet `x` gives `[]` for count 0, `[x]` for count 1 and `[xx]` for any larger count |
| HintGenerator.SingleLetterNoPrefix | src/hints/HintGenerator.ts:32-38 | one letter with no prefix enumerates just that letter |
| HintGenerator.SingleLetterPrefix | src/hints/HintGenerator.ts:32-38 | one letter that is also the only prefix enumerates just the doubled letter |
| HintGenerator.SinglesExact | src/hints/HintGenerator.ts:46-52 | with distinct letters, the single-letter labels are exactly the letters after the prefixes, in alphabet order |
| HintGenerator.DoubleAt | src/hints/HintGenerator.ts:53-55 | label number `A - pc + (m - 1) * A + j` is prefix `m` followed by letter `j` |
| HintGenerator.LayoutUpTo | src/hints/HintGenerator.ts:40-60 | the singles row and the first `m` prefix rows are label for label the layout `LabelAt`, `A - pc + m * A` labels long |
| HintGenerator.LayoutStep | src/hints/HintGenerator.ts:40-60 | appending prefix row `m` extends the layout by `A` labels |
| HintGenerator.LaidOutRow | src/hints/HintGenerator.ts:53-55 | a row holding prefix `m` followed by each letter continues the layout |
| HintGenerator.EnumerationLayout | src/hints/HintGenerator.ts:38-60 | the unbounded enumeration has `A - pc + pc * A` labels, label `k` being `LabelAt(k)` |
| HintGenerator.HintLabelsLayout | src/hints/HintGenerator.ts:38-60 | single letters come first in alphabet order, then the two-letter labels grouped by prefix in alphabet order; `min(count, capacity)` of them |
| HintGenerator.LabelAtDouble | src/hints/HintGenerator.ts:53-55 | every position past the singles reads as a prefix number and a letter number |
| HintGenerator.LabelAtInjective | src/hints/HintGenerator.ts:38-55 | with distinct letters, two positions of the layout never hold the same label |
| HintGenerator.LabelsDistinct | src/hints/HintGenerator.ts:38-55 | with a duplicate-free filtered alphabet, all returned labels are pairwise distinct |
| HintGenerator.LabelCount | src/hints/HintGenerator.ts:32-60 | never more than `count` labels; with A >= 2 distinct letters exactly `min(count, A * A)` |
| HintGenerator.CapacityBound | src/hints/HintGenerator.ts:32-36 | the room made by the chosen prefixes equals `A * A` as far as `count` can tell |
| HintGenerator.WithoutDistinct | src/hints/HintGenerator.ts:19-23 | filtering out characters keeps an alphabet free of repeats |
| HintGenerator.FilteredDistinct | src/hints/HintGenerator.ts:18-28 | a lowercased alphabet without repeats stays so after filtering or fallback |
| Labelling.AssignLabels | src/detection/LinkDetector.ts:97-102 | label zip then truthiness filter: at most as many results as items, and every kept label is non-empty |
| Labelling.Slots | src/detection/LinkDetector.ts:97-102 | the labelled positions, strictly increasing, are exactly the positions whose label is non-empty |
| Labelling.AssignBySlots | src/detection/LinkDetector.ts:97-102 | the kept items keep their order: result `k` is the item at the `k`-th labelled position, with its label |
| Labelling.AssignAll | src/detection/LinkDetector.ts:97-102 | with no empty label, the result is the first `min(items, labels)` items, item `i` carrying `labels[i]` |
| Links.Insert | src/detection/LinkDetector.ts:82 | inserting into a sorted list keeps it sorted and adds exactly that element |
| Links.SortByIndex | src/detection/LinkDetector.ts:82 | `sort((a, b) => a.index - b.index)` returns a permutation of its input sorted by index |
| Links.SortStrict | src/detection/LinkDetector.ts:82 | a list without repeated indices sorts into strictly increasing indices |
| LinkPatterns.LazyScan | src/detection/LinkDetector.ts:28 | lazy `.+?` then a literal: the first position where the literal occurs before any line terminator, or none exists |
| LinkPatterns.LazyDotsThen | src/detection/LinkDetector.ts:28-32 | `.+?` then a literal: the shortest non-empty run without line terminators followed by the literal, or none exists |
| LinkPatterns.LazyDotsFinds | src/detection/LinkDetector.ts:28-32 | a literal after a non-empty run on one line is found, there or earlier |
| LinkPatterns.WikiTail | src/detection/LinkDetector.ts:28 | `(\|.+?)?]]` after group 1 ends with `]]` |
| LinkPatterns.WikiScan | src/detection/LinkDetector.ts:28 | a wiki match at `p` has group 1 starting after `[[`, on one line, and `]]` before the match end |
| LinkPatterns.WikiAt | src/detection/LinkDetector.ts:28 | a wiki match at `p` starts with `[[` and has a non-empty group 1 on one line |
| LinkPatterns.WikiScanReaches | src/detection/LinkDetector.ts:28 | the lazy group 1, scanning on, finds a `]]` that lies ahead on the same line: it ends there or earlier |
| LinkPatterns.WikiFound | src/detection/LinkDetector.ts:28 | conversely, `[[`, at least one character on one line and `]]` make a wiki match at `p` whose group ends at that `]]` or earlier |
| LinkPatterns.NextOf | src/detection/LinkDetector.ts:30-34 | a run of a two-character negated class (`[^\[\]]`, `[^ \n]`) from `k` reaches the first of the two stop characters, or the end of the content |
| LinkPatterns.TitleAt | src/detection/LinkDetector.ts:30-32 | `\[[^\[\]]+?\]\(` at `p`: a bracket-free, non-empty title closed by `](` |
| LinkPatterns.TitleFound | src/detection/LinkDetector.ts:30-32 | conversely, `[`, a non-empty title without brackets and `](` give exactly the target start after the `(` |
| LinkPatterns.ExternalScan | src/detection/LinkDetector.ts:32 | the closing `)` of an external target holds `://` before it on one line |
| LinkPatterns.ExternalTarget | src/detection/LinkDetector.ts:32 | `(.+?:\/\/.+?)\)`: a single-line target containing `://` with text on both sides, closed by `)` |
| LinkPatterns.ExternalAt | src/detection/LinkDetector.ts:32 | an external match at `p` starts with `[` and ends right after the `)` that closes a group containing `://` |
| LinkPatterns.ExternalScanHit | src/detection/LinkDetector.ts:32 | a `://` at the scan position and a `)` ahead on the same line: the target closes at that `)` or earlier |
| LinkPatterns.ExternalScanReaches | src/detection/LinkDetector.ts:32 | scanning on towards a `://` ahead, followed by a `)` on the same line, the target is found and closes at that `)` or earlier |
| LinkPatterns.ExternalTargetFound | src/detection/LinkDetector.ts:32 | conversely, a one-line target holding `://` with text on both sides and then `)` is recognised, closing at that `)` or earlier |
| LinkPatterns.ExternalFound | src/detection/LinkDetector.ts:32 | conversely, `[title](`, a one-line target holding `://` with text on both sides, and `)` make an external match at `p` whose group starts after the `(` and ends at that `)` or earlier |
| LinkPatterns.MarkdownTarget | src/detection/LinkDetector.ts:30 | a markdown target starts with `..` followed by more text, a word character or a digit, and is closed by `)` |
| LinkPatterns.MarkdownAt | src/detection/LinkDetector.ts:30 | a markdown-internal match at `p` starts with `[` and its group has the markdown target's shape |
| LinkPatterns.MarkdownFound | src/detection/LinkDetector.ts:30 | conversely, `[title](`, a one-line target opening with `..` or a word character or digit and longer than that opening, and `)` make a markdown-internal match at `p` whose group starts after the `(` and ends at that `)` or earlier |
| LinkPatterns.UrlFrom | src/detection/LinkDetector.ts:34 | `https?:\/\/[^ \n]+`: a scheme followed by a non-empty run, ending at a space, a newline or the end, with neither inside |
| LinkPatterns.UrlAt | src/detection/LinkDetector.ts:34 | a URL match at `p` has a space or newline at `p` or starts the content, and its group is the URL |
| LinkPatterns.UrlFound | src/detection/LinkDetector.ts:34 | conversely, a space or newline at `p` (or `p` the start of the content) followed by `http://` or `https://` and a non-empty run without space or newline is a URL match whose group runs from the scheme to the end of the run |
| LinkPatterns.SchemeRun | src/detection/LinkDetector.ts:34 | `https?:\/\/[^ \n]+` at `q`: the scheme read (the greedy `s?` takes `https://` when it is there) and the run up to the next space or newline |
| LinkPatterns.MatchAt | src/detection/LinkDetector.ts:26-35 | a match of any pattern at `p` starts at `p` and lies inside the content |
| LinkPatterns.Exec | src/detection/LinkDetector.ts:56 | `exec` from `lastIndex` returns a match at or after it, inside the content |
| LinkPatterns.ExecFound | src/detection/LinkDetector.ts:56 | what `exec` returns is the match at the position it reports |
| LinkPatterns.ExecUnfold | src/detection/LinkDetector.ts:56 | a match at `lastIndex` is the answer; otherwise the search goes on one position later |
| LinkPatterns.ExecFrom | src/detection/LinkDetector.ts:56 | searching from any position between `lastIndex` and the match `exec` returns gives that same match |
| LinkPatterns.ExecFirst | src/detection/LinkDetector.ts:56 | no match starts between `lastIndex` and the match `exec` returns |
| LinkPatterns.ExecNone | src/detection/LinkDetector.ts:56 | when `exec` returns null, no match starts at or after `lastIndex` |
| LinkPatterns.AllMatches | src/detection/LinkDetector.ts:56-59 | the matches one `while (exec)` loop visits lie at or after the start and inside the content |
| LinkPatterns.AllMatchesApart | src/detection/LinkDetector.ts:56-59 | the visited matches do not overlap: each starts at or after the end of the one before |
| LinkPatterns.AllMatchesFound | src/detection/LinkDetector.ts:56-59 | every visited match is the match of its pattern at its own position |
| LinkDetector.ToLinks | src/detection/LinkDetector.ts:57-58 | one link per match |
| LinkDetector.ToLinksAt | src/detection/LinkDetector.ts:57-76 | link `i` is the one built from match `i` |
| LinkDetector.Remaining | src/detection/LinkDetector.ts:56 | the matches still to come all lie inside the content |
| LinkDetector.Dedup | src/detection/LinkDetector.ts:49-53 | what `addLink` keeps covers the same indices as its input and repeats none |
| LinkDetector.DetectLinks | src/detection/LinkDetector.ts:44-83 | the four passes, claimed-index set and final sort return exactly the sorted first-writer-wins links of all passes in order |
| LinkDetector.RunPass | src/detection/LinkDetector.ts:56-77 | one `while (exec)` loop leaves the links and claimed indexes that `addLink` makes of everything seen so far plus this pass's links |
| LinkDetector.AddLink | src/detection/LinkDetector.ts:49-53 | `addLink` keeps the invariant: the links are the first link per index among those seen, and the claimed indexes are all indexes seen |
| LinkDetector.DedupSnoc | src/detection/LinkDetector.ts:49-53 | a new link is kept exactly when its index has not been claimed, and its index is then claimed |
| LinkDetector.RemainingStep | src/detection/LinkDetector.ts:56 | each turn of a pass loop reports the current match and strictly shrinks what is left |
| LinkDetector.FirstWriterWins | src/detection/LinkDetector.ts:49-77 | a candidate is kept if and only if no earlier candidate, in pass order, claimed its index |
| LinkDetector.FirstIsKept | src/detection/LinkDetector.ts:49-53 | the first candidate with a given index is kept |
| LinkDetector.KeptIsFirst | src/detection/LinkDetector.ts:49-53 | every kept link is the first candidate with its index |
| LinkDetector.DetectedStrictlyIncreasing | src/detection/LinkDetector.ts:45-82 | the indices `detectLinks` returns strictly increase |
| LinkDetector.DetectedAreCandidates | src/detection/LinkDetector.ts:44-82 | every detected link comes from some pass, and every index any pass reports is detected |
| LinkDetector.SortKeepsElements | src/detection/LinkDetector.ts:82 | sorting neither adds nor loses a link |
| LinkDetector.CandidateOf | src/detection/LinkDetector.ts:56-77 | every link a pass offers comes from a match of its pattern |
| LinkDetector.WikiCandidates | src/detection/LinkDetector.ts:56-59 | wiki links are internal, sit at `[[` and carry trimmed text |
| LinkDetector.ExternalCandidates | src/detection/LinkDetector.ts:62-65 | external links are external, sit at `[` and carry the whole target, which contains `://` |
| LinkDetector.MarkdownCandidates | src/detection/LinkDetector.ts:68-71 | markdown-internal links are internal, sit at `[` and have a target starting with `..`, a word character or a digit |
| LinkDetector.UrlCandidates | src/detection/LinkDetector.ts:74-77 | bare URLs are external, run up to a space or newline, and are reported one past the match start: at the URL after a space or newline, one past the URL when it opens the content |
| LinkDetector.WikiShape | src/detection/LinkDetector.ts:57-58 | the link built from a wiki match has the wiki shape |
| LinkDetector.ExternalShape | src/detection/LinkDetector.ts:63-64 | the link built from an external match has the external shape |
| LinkDetector.MarkdownShape | src/detection/LinkDetector.ts:69-70 | the link built from a markdown-internal match has its shape |
| LinkDetector.UrlShape | src/detection/LinkDetector.ts:75-76 | the link built from a URL match has the URL shape |
| LinkDetector.UrlOpeningContent | src/detection/LinkDetector.ts:74-77 | content that opens with an `http://` or `https://` URL yields a detected external link at `offset + 1`, one past the URL's start |
| LinkDetector.FirstUrlCandidate | src/detection/LinkDetector.ts:74-76 | the URL pass first offers that opening URL, of either scheme, at `offset + 1`, running up to the first space or newline |
| LinkDetector.KeptAfter | src/detection/LinkDetector.ts:49-53 | a link whose index no earlier pass claims is the first with its index |
| LinkDetector.NoBracketNoClaim | src/detection/LinkDetector.ts:56-71 | the first three passes never report a position that does not hold `[` |
| LinkDetector.NoBracketIn | src/detection/LinkDetector.ts:28-32 | links shaped like wiki, external or markdown-internal links sit at a `[` |
| LinkDetector.DetectMarkdownLinks | src/detection/LinkDetector.ts:93-103 | detect, request one label per link and attach the labels, as `detectMarkdownLinks` does |
| LinkDetector.MarkdownHintsLayout | src/detection/LinkDetector.ts:93-102 | the hints are the first `min(n, capacity)` links in position order, link `i` carrying `labels[i]`, with strictly increasing indices |
| RegexMatcher.ToRegexLinks | src/detection/RegexMatcher.ts:70-77 | each match becomes a 'regex' record at `adjust(content, index, text) + offset`, with text group 1 when present and the whole match otherwise |
| RegexMatcher.FindRegexMatches | src/detection/RegexMatcher.ts:28-89 | the result is `RegexHints`; it is empty when validation reports an error, and never longer than 10000; through `CollectMatches` its matches are the first 10000 the guard lets through |
| RegexMatcher.CollectMatches | src/detection/RegexMatcher.ts:51-78 | the guarded `exec` loop terminates and pushes exactly the records of the matches `Collect` accepts, which are the first 10000 of the uncapped guarded matches |
| RegexMatcher.ReportStep | src/detection/RegexMatcher.ts:70-77 | pushing a match's record extends the records by the one for that match |
| RegexMatcher.SkipStep | src/detection/RegexMatcher.ts:58-61 | a match that leaves `lastIndex` where the previous one did is skipped and the search resumes one position later |
| RegexMatcher.AcceptStep | src/detection/RegexMatcher.ts:62-77 | a match below the cap is recorded and its end becomes the recorded `lastIndex` |
| RegexMatcher.StopStep | src/detection/RegexMatcher.ts:56-68 | when `exec` returns null or the cap is passed, every match has been recorded |
| RegexMatcher.CollectStep | src/detection/RegexMatcher.ts:56-78 | one turn of the loop: skip, stop at the cap, or record and resume at the match end |
| RegexMatcher.ToRegexLinksSnoc | src/detection/RegexMatcher.ts:73-77 | the records of the matches plus one more are the old records plus its record |
| RegexMatcher.CollectBound | src/detection/RegexMatcher.ts:64-68 | at most `MAX_MATCHES` (10000) matches are collected |
| RegexMatcher.CollectTruncates | src/detection/RegexMatcher.ts:56-68 | the cap only truncates: the loop keeps exactly the first `MAX_MATCHES - count` matches of `Uncapped`, the same guarded loop without a cap, and the next one ends it |
| RegexMatcher.CollectCap | src/detection/RegexMatcher.ts:64-68 | from the start, all guarded matches are kept when there are at most 10000 of them, and exactly the first 10000 otherwise |
| RegexMatcher.TakeCons | src/detection/RegexMatcher.ts:64-72 | keeping `n + 1` of a match followed by the rest keeps that match and `n` of the rest |
| RegexMatcher.CollectEnds | src/detection/RegexMatcher.ts:56-62 | every accepted match moves `lastIndex` past the previously recorded one, so the ends of accepted matches strictly increase |
| RegexMatcher.CollectPositions | src/detection/RegexMatcher.ts:56-68 | whatever the pattern, at most one match is accepted per position from 0 to the content length |
| RegexMatcher.ZeroWidthEverywhere | src/detection/RegexMatcher.ts:56-62 | a pattern that matches the empty string everywhere on content shorter than 10000 characters yields exactly one empty match per position, after which the loop stops |
| RegexMatcher.ZeroWidthUncapped | src/detection/RegexMatcher.ts:56-62 | without the cap, an everywhere-empty pattern yields one empty match per position 0..length, whatever the length |
| RegexMatcher.ZeroWidthCapped | src/detection/RegexMatcher.ts:56-68 | with the cap, an everywhere-empty pattern yields the empty matches at positions 0 to `min(length + 1, 10000) - 1`: on content of 10000 characters or more the cap cuts the list |
| RegexMatcher.ZeroWidthStep | src/detection/RegexMatcher.ts:58-62 | at each position the empty match is accepted once and its repetition skipped |
| RegexMatcher.ZeroWidthContract | src/detection/RegexMatcher.ts:56 | an everywhere-empty `exec` meets the `exec` contract |
| RegexMatcher.RegexHintsLayout | src/detection/RegexMatcher.ts:80-88 | the hints are the matches sorted ascending by index, the first `min(n, capacity)` of them, match `i` carrying `labels[i]`, all of type 'regex', at most one more than the content length of them |
| RegexMatcher.SortedRegex | src/detection/RegexMatcher.ts:75-83 | sorting keeps every record of type 'regex' |
| RegexMatcher.LabelSorted | src/detection/RegexMatcher.ts:84-88 | labelling a sorted list keeps one record per label, in order |
| FlashMatchDetector.OccursAtMeans | src/flash/FlashMatchDetector.ts:40-50 | the escaped literal matches at `p` if and only if each character agrees, exactly or ignoring case |
| FlashMatchDetector.AgreesFromMeans | src/flash/FlashMatchDetector.ts:40-50 | the literal agrees from unit `i` on if and only if every later unit agrees |
| FlashMatchDetector.FindFrom | src/flash/FlashMatchDetector.ts:64 | `exec` from `lastIndex` returns a position at or after it with room for the search string |
| FlashMatchDetector.FindFromHit | src/flash/FlashMatchDetector.ts:64 | what `exec` finds is an occurrence |
| FlashMatchDetector.FindFromFirst | src/flash/FlashMatchDetector.ts:64 | `exec` finds an occurrence no later than any occurrence at or after `lastIndex` |
| FlashMatchDetector.OccurrencesBounds | src/flash/FlashMatchDetector.ts:64-88 | the positions the loop visits lie inside the content |
| FlashMatchDetector.OccurrencesHit | src/flash/FlashMatchDetector.ts:64-88 | every visited position is an occurrence of the search string |
| FlashMatchDetector.OccurrencesSpaced | src/flash/FlashMatchDetector.ts:64-88 | the visited occurrences go left to right and do not overlap |
| FlashMatchDetector.OccurrencesCover | src/flash/FlashMatchDetector.ts:64-88 | no occurrence is missed: every place the search string occurs overlaps a recorded match |
| FlashMatchDetector.OccurrencesStep | src/flash/FlashMatchDetector.ts:64 | the loop resumes where the last match ended and stops when `exec` returns null |
| FlashMatchDetector.ToMatches | src/flash/FlashMatchDetector.ts:65-71 | one record per visited position |
| FlashMatchDetector.ToMatchesAt | src/flash/FlashMatchDetector.ts:65-71 | record `k` is the one pushed for the `k`-th visited position |
| FlashMatchDetector.NextCharsHas | src/flash/FlashMatchDetector.ts:73-82 | the character after every match is in `nextChars` |
| FlashMatchDetector.NextCharsFrom | src/flash/FlashMatchDetector.ts:73-82 | every character in `nextChars` follows some match |
| FlashMatchDetector.NextCharsFollow | src/flash/FlashMatchDetector.ts:73-82 | a character is outside `nextChars` if and only if it follows no match |
| FlashMatchDetector.FilterVisible | src/flash/FlashMatchDetector.ts:93-98 | a match is kept if and only if its index lies in some half-open visible range |
| FlashMatchDetector.FilterVisibleSpaced | src/flash/FlashMatchDetector.ts:93-98 | filtering keeps the matches in order and apart |
| FlashMatchDetector.SpacedSnoc | src/flash/FlashMatchDetector.ts:93-98 | keeping or dropping the last match keeps the filtered matches apart |
| FlashMatchDetector.Lettered | src/flash/FlashMatchDetector.ts:105-107 | the `for` loop keeps one entry per visible match |
| FlashMatchDetector.KeepLetteredMembers | src/flash/FlashMatchDetector.ts:110 | `filter(m => m.letter)` keeps exactly the matches with a letter |
| FlashMatchDetector.KeepLetteredPrefix | src/flash/FlashMatchDetector.ts:110 | when only a front part is labelled, the filter returns exactly that part |
| FlashMatchDetector.FindMatches | src/flash/FlashMatchDetector.ts:25-111 | the imperative `findMatches` returns `FlashMatches`; an empty search string or empty content gives `[]` |
| FlashMatchDetector.SearchAll | src/flash/FlashMatchDetector.ts:59-88 | the search loop records one match per visited occurrence and exactly the characters that follow them |
| FlashMatchDetector.Step | src/flash/FlashMatchDetector.ts:64-82 | one turn of the search loop keeps its invariants |
| FlashMatchDetector.Advance | src/flash/FlashMatchDetector.ts:64 | the found occurrence moves from the ones still to find to the ones found |
| FlashMatchDetector.Gather | src/flash/FlashMatchDetector.ts:65-82 | recording an occurrence appends its record and its next character |
| FlashMatchDetector.Finish | src/flash/FlashMatchDetector.ts:64 | when `exec` returns null, every match and next character has been gathered |
| FlashMatchDetector.NoteNextChar | src/flash/FlashMatchDetector.ts:75-82 | the lowercased character after the match is added unless the match ends the content or the character is whitespace |
| FlashMatchDetector.AssignLetters | src/flash/FlashMatchDetector.ts:105-107 | visible match `i` takes `labels[i]` in place while both last |
| FlashMatchDetector.MatchesRecorded | src/flash/FlashMatchDetector.ts:65-71 | every record has index = position + content start, the matched text, the search length and an empty letter |
| FlashMatchDetector.ToMatchIsHit | src/flash/FlashMatchDetector.ts:65-71 | the record pushed for an occurrence is a hit with an empty letter |
| FlashMatchDetector.LetteredKept | src/flash/FlashMatchDetector.ts:105-110 | labelling the front of the visible matches and dropping the rest returns that front part, in order |
| FlashMatchDetector.FlashLayout | src/flash/FlashMatchDetector.ts:102-110 | the result is the visible matches in order, match `k` carrying `labels[k]`; all are labelled when A >= 2 distinct letters cover them |
| FlashMatchDetector.FlashSound | src/flash/FlashMatchDetector.ts:64-110 | every result is an on-screen occurrence with the search length, the matched text and a label |
| FlashMatchDetector.Relabel | src/flash/FlashMatchDetector.ts:106 | setting the letter keeps a record an occurrence |
| FlashMatchDetector.FlashOrdered | src/flash/FlashMatchDetector.ts:64-110 | the results go left to right and never overlap, so their indices strictly increase |
| FlashMatchDetector.FoundSpaced | src/flash/FlashMatchDetector.ts:64-88 | the recorded matches go left to right and do not overlap |
| FlashMatchDetector.SameIndexSpaced | src/flash/FlashMatchDetector.ts:105-110 | relabelling a front part keeps the spacing |
| FlashMatchDetector.LabelsAvoidNextChars | src/flash/FlashMatchDetector.ts:73-102 | if some letter of the alphabet follows no match, no label contains a character that follows a match |
| LivePreview.RemapLayout | src/processors/LivePreviewProcessor.ts:35-46 | preview hint `i` carries `labels[i]` and source hint `j` carries `labels[j + previewHints.length]`; each list keeps its order and loses only hints past the labels |
| LivePreview.LayoutWith | src/processors/LivePreviewProcessor.ts:40-46 | the same layout for any run of non-empty labels |
| LivePreview.SourceLosesFirst | src/processors/LivePreviewProcessor.ts:40-46 | if any preview hint is left without a label, no source hint has one |
| LivePreview.LabelsUnique | src/processors/LivePreviewProcessor.ts:36-46 | with an alphabet of distinct letters, no label is shared by two hints, within or across the two lists |
| LivePreview.UsableLabels | src/processors/LivePreviewProcessor.ts:37 | the shared run of labels is duplicate-free and has no empty label |
| LivePreview.UniqueWith | src/processors/LivePreviewProcessor.ts:40-46 | two lists labelled from the front and the rest of one run of distinct labels share no label |
| LivePreview.AllLabelled | src/processors/LivePreviewProcessor.ts:36-46 | with A >= 2 distinct letters and at most A * A hints, every preview and source hint is labelled |

## Left out

- Strings are modelled as sequences of Dafny `char`, which are Unicode scalar values, one per JavaScript UTF-16 code unit. Positions, lengths and slices agree with the plugin's only on text of the Basic Multilingual Plane without surrogates. Characters outside it (emoji, for example) take two code units in the plugin and one `char` here, and lone surrogates cannot be represented.
- Only the ASCII part of `toLowerCase` and of the `i` flag's case folding is modelled. Other scripts' case mappings, and lowercasings that change length, are not.
- The regular-expression engine behind `findRegexMatches` is not modelled. The compiled pattern is a parameter, and only `exec`'s contract on a global pattern is required: the match starts at or after `lastIndex`, ends inside the content, and there is none past the end.
- The `u` flag and the fallback compile without it (src/detection/RegexMatcher.ts:44-49, src/flash/FlashMatchDetector.ts:46-57) are left out: they are host regex-engine behaviour. The flash search treats the escaped search string as a literal compared character by character, so `escapeRegex` is the identity on the literal it yields.
- `validateRegex` and `adjustIndexForFormatting` (src/utils/regexp.ts) are not part of this model; they are parameters of `FindRegexMatches`.
- `console.warn` diagnostics are left out; they are a logging side channel.
- The editor and DOM queries are inputs: the visible text, its document offset and the visible ranges for flash search, and the two hint lists for live preview (`getVisibleLinesCM6`, `editor.visibleRanges`, `getPreviewLinkHints`, `detectSourceLinks`). Popover display, rendering, the widget and panel files, and src/detection/VisibleContent.ts are left out.
- The flash zero-length guard (src/flash/FlashMatchDetector.ts:85-87) is not written out. The search string is non-empty, so each match ends past its start and `lastIndex` never equals `match.index`; the guard cannot fire.
- The `type: 'flash'` field of a flash match is left out; it is the same constant for every match.
- The module-level `lastIndex` of `LINK_PATTERNS` and its reset (src/detection/LinkDetector.ts:80) are left out. Each pass starts from position 0, which is what the reset achieves between calls.
- The Obsidian `contains` duck typing at src/hints/HintGenerator.ts:49 is left out: it is plain sequence membership.
- Links.SortByIndex: stability of `Array.prototype.sort` is not stated, only sortedness and permutation. Detected links never share an index, so order among equal indices only matters for regular-expression hints that `adjustIndexForFormatting` maps to the same index.
