/**
 * The lexical scan `re.findall(ip_pattern, text)` for the one pattern
 * `\d{1,3}(?:\.\d{1,3}){3}`.
 *
 * The backtracking matcher is deterministic on this pattern: each of the
 * first three groups must be the whole digit run at its start followed by a
 * dot (taking fewer digits would leave a digit, not a dot, next), and the
 * last group greedily takes up to three digits. `findall` tries each start
 * from left to right and resumes at the end of every match.
 */
module Scanner {
  import opened Optional
  import opened Text

  /** A match: the half-open range [start, end) of the scanned text. */
  datatype Span = Span(start: nat, end: nat)

  /** The length of the run of digits that starts at i. */
  function DigitRun(s: string, i: nat): (n: nat)
    requires i <= |s|
    ensures i + n <= |s|
    decreases |s| - i
  {
    if i < |s| && IsDigit(s[i]) then 1 + DigitRun(s, i + 1) else 0
  }

  /** The run is made of digits and ends at the end of the text or at a non-digit. */
  lemma {:induction false} DigitRunBounds(s: string, i: nat)
    requires i <= |s|
    ensures forall k :: i <= k < i + DigitRun(s, i) ==> IsDigit(s[k])
    ensures i + DigitRun(s, i) == |s| || !IsDigit(s[i + DigitRun(s, i)])
    decreases |s| - i
  {
    if i < |s| && IsDigit(s[i]) {
      DigitRunBounds(s, i + 1);
    }
  }

  /** One of the groups `\d{1,3}\.` at i: the position after its dot. */
  function DottedGroup(s: string, i: nat): (r: Option<nat>)
    requires i <= |s|
    ensures r.Some? ==> i + 2 <= r.value <= i + 4 && r.value <= |s|
  {
    var n := DigitRun(s, i);
    if 1 <= n <= 3 && i + n < |s| && s[i + n] == '.' then Some(i + n + 1) else None
  }

  /** The last group `\d{1,3}` at i, greedy: the position after its digits. */
  function FinalGroup(s: string, i: nat): (r: Option<nat>)
    requires i <= |s|
    ensures r.Some? ==> i + 1 <= r.value <= i + 3 && r.value <= |s|
  {
    var n := DigitRun(s, i);
    if n == 0 then None else Some(i + (if n < 3 then n else 3))
  }

  /**
   * A digit group followed by `count` more groups, each after a dot, anchored
   * at i: the end of the match, if there is one. Every group but the last is
   * read by `DottedGroup` together with the dot after it.
   */
  function MatchGroups(s: string, i: nat, count: nat): (r: Option<nat>)
    requires i <= |s|
    ensures r.Some? ==> i + 2 * count + 1 <= r.value <= i + 4 * count + 3 && r.value <= |s|
    decreases count
  {
    if count == 0 then FinalGroup(s, i)
    else
      match DottedGroup(s, i)
      case None => None
      case Some(j) => MatchGroups(s, j, count - 1)
  }

  /** The `{3}` of the pattern: three dotted groups follow the first. */
  const DottedGroups: nat := 3

  /** The pattern `\d{1,3}(?:\.\d{1,3}){3}` anchored at i: a match is 7 to 15 characters long. */
  function MatchAt(s: string, i: nat): (r: Option<nat>)
    requires i <= |s|
    ensures r.Some? ==> i + 7 <= r.value <= i + 15 && r.value <= |s|
  {
    MatchGroups(s, i, DottedGroups)
  }

  /**
   * The matches `findall` reports when it starts looking at i: each is a
   * match at its own start, they lie left to right and do not overlap.
   */
  function ScanFrom(s: string, i: nat): (spans: seq<Span>)
    requires i <= |s|
    ensures forall k :: 0 <= k < |spans| ==>
      i <= spans[k].start < spans[k].end <= |s| && MatchAt(s, spans[k].start) == Some(spans[k].end)
    ensures forall k :: 0 < k < |spans| ==> spans[k - 1].end <= spans[k].start
    decreases |s| - i
  {
    if i == |s| then []
    else
      match MatchAt(s, i)
      case Some(e) =>
        var rest := ScanFrom(s, e);
        assert forall k :: 0 <= k < |rest| ==> e <= rest[k].start;
        [Span(i, e)] + rest
      case None => ScanFrom(s, i + 1)
  }

  /** The text of each span. */
  function Tokens(s: string, spans: seq<Span>): (tokens: seq<string>)
    requires forall k :: 0 <= k < |spans| ==> spans[k].start <= spans[k].end <= |s|
    ensures |tokens| == |spans|
    ensures forall k :: 0 <= k < |spans| ==> tokens[k] == s[spans[k].start..spans[k].end]
  {
    if spans == [] then []
    else [s[spans[0].start..spans[0].end]] + Tokens(s, spans[1..])
  }

  /** `re.findall` from position i on: the matched substrings, left to right. */
  function FindAllFrom(s: string, i: nat): seq<string>
    requires i <= |s|
    decreases |s| - i
  {
    if i == |s| then []
    else
      match MatchAt(s, i)
      case Some(e) => [s[i..e]] + FindAllFrom(s, e)
      case None => FindAllFrom(s, i + 1)
  }

  /**
   * `re.findall(ip_pattern, s)`. Each token is 7 to 15 characters long and
   * they do not overlap, so there are at most a seventh as many as characters.
   */
  function FindAll(s: string): (tokens: seq<string>)
    ensures forall k :: 0 <= k < |tokens| ==> 7 <= |tokens[k]| <= 15
    ensures 7 * |tokens| <= |s|
  {
    FindAllFromBounds(s, 0);
    FindAllFrom(s, 0)
  }

  /** The scan from i on reports tokens of 7 to 15 characters, one per seven characters at most. */
  lemma {:induction false} FindAllFromBounds(s: string, i: nat)
    requires i <= |s|
    ensures forall k :: 0 <= k < |FindAllFrom(s, i)| ==> 7 <= |FindAllFrom(s, i)[k]| <= 15
    ensures 7 * |FindAllFrom(s, i)| <= |s| - i
    decreases |s| - i
  {
    if i < |s| {
      match MatchAt(s, i)
      case Some(e) =>
        FindAllFromBounds(s, e);
      case None =>
        FindAllFromBounds(s, i + 1);
    }
  }

  /** The tokens `findall` returns are the texts of the spans the scan reports. */
  lemma {:induction false} FindAllFromSpans(s: string, i: nat)
    requires i <= |s|
    ensures FindAllFrom(s, i) == Tokens(s, ScanFrom(s, i))
    decreases |s| - i
  {
    if i < |s| {
      match MatchAt(s, i)
      case Some(e) =>
        FindAllFromSpans(s, e);
        var spans := ScanFrom(s, i);
        assert spans[1..] == ScanFrom(s, e);
      case None =>
        FindAllFromSpans(s, i + 1);
    }
  }

  // ---------------------------------------------------------------------
  // What a match is, independently of how the matcher finds it.

  /** Every group has one to three digits. */
  predicate ShortDigitGroups(groups: seq<string>) {
    forall k :: 0 <= k < |groups| ==> |groups[k]| <= 3 && IsDigits(groups[k])
  }

  /** Four groups of one to three digits joined by single dots. */
  predicate IsQuad(t: string) {
    |Split(t, '.')| == 4 && ShortDigitGroups(Split(t, '.'))
  }

  /** The last group of s[i..e] could not have taken one more digit. */
  predicate GreedyEnd(s: string, i: nat, e: nat)
    requires i <= e <= |s|
  {
    var groups := Split(s[i..e], '.');
    e == |s| || !IsDigit(s[e]) || |groups[|groups| - 1]| == 3
  }

  /** s[i..e] has the pattern's shape and its last group is as long as greed allows. */
  predicate MatchesAt(s: string, i: nat, e: nat)
    requires i <= e <= |s|
  {
    IsQuad(s[i..e]) && GreedyEnd(s, i, e)
  }

  /** The digit run is determined by its two boundary conditions. */
  lemma {:induction false} DigitRunIs(s: string, i: nat, n: nat)
    requires i + n <= |s|
    requires forall k :: i <= k < i + n ==> IsDigit(s[k])
    requires i + n == |s| || !IsDigit(s[i + n])
    ensures DigitRun(s, i) == n
    decreases n
  {
    if n > 0 {
      DigitRunIs(s, i + 1, n - 1);
    }
  }

  /** A dotted group contributes its digits as one piece of the split. */
  lemma SplitAtGroup(s: string, x: nat, e: nat)
    requires x <= e <= |s|
    requires DottedGroup(s, x).Some? && DottedGroup(s, x).value <= e
    ensures var y := DottedGroup(s, x).value;
      && IsDigits(s[x..y - 1]) && |s[x..y - 1]| <= 3
      && Split(s[x..e], '.') == [s[x..y - 1]] + Split(s[y..e], '.')
  {
    DigitRunBounds(s, x);
    var y := DottedGroup(s, x).value;
    var g := s[x..y - 1];
    assert forall k :: 0 <= k < |g| ==> g[k] == s[x + k];
    assert '.' !in g by {
      forall k | 0 <= k < |g| ensures g[k] != '.' {
        assert IsDigit(s[x + k]);
      }
    }
    assert s[x..e] == g + ['.'] + s[y..e];
    SplitAfterSeparator(g, s[y..e], '.');
  }

  /** The final group is the last piece of the split. */
  lemma SplitAtFinal(s: string, x: nat)
    requires x <= |s| && FinalGroup(s, x).Some?
    ensures var e := FinalGroup(s, x).value;
      && IsDigits(s[x..e]) && |s[x..e]| <= 3
      && Split(s[x..e], '.') == [s[x..e]]
  {
    DigitRunBounds(s, x);
    var e := FinalGroup(s, x).value;
    var g := s[x..e];
    assert forall k :: 0 <= k < |g| ==> g[k] == s[x + k];
    assert '.' !in g by {
      forall k | 0 <= k < |g| ensures g[k] != '.' {
        assert IsDigit(s[x + k]);
      }
    }
    SplitNoSeparator(g, '.');
  }

  /** Reading a dotted group back from the split of a well-shaped text. */
  lemma PeelGroup(s: string, x: nat, e: nat)
    requires x <= e <= |s|
    requires |Split(s[x..e], '.')| >= 2
    requires IsDigits(Split(s[x..e], '.')[0]) && |Split(s[x..e], '.')[0]| <= 3
    ensures var parts := Split(s[x..e], '.');
      && DottedGroup(s, x) == Some(x + |parts[0]| + 1)
      && x + |parts[0]| + 1 <= e
      && Split(s[x + |parts[0]| + 1..e], '.') == parts[1..]
  {
    var parts := Split(s[x..e], '.');
    SplitFirst(s[x..e], '.');
    SliceAround(s, x, e, parts[0], Join(parts[1..], '.'));
    DigitRunIs(s, x, |parts[0]|);
  }

  /** Where a text `p . r` lies inside s, character by character. */
  lemma SliceAround(s: string, x: nat, e: nat, p: string, r: string)
    requires x <= e <= |s| && s[x..e] == p + ['.'] + r
    ensures x + |p| + 1 <= e
    ensures forall k :: x <= k < x + |p| ==> s[k] == p[k - x]
    ensures s[x + |p|] == '.'
    ensures s[x + |p| + 1..e] == r
  {
    assert forall k :: x <= k < x + |p| ==> s[k] == s[x..e][k - x];
    assert s[x + |p|] == s[x..e][|p|];
  }

  /** Reading the final group back from a single digit piece. */
  lemma PeelFinal(s: string, x: nat, e: nat)
    requires x <= e <= |s|
    requires |Split(s[x..e], '.')| == 1
    requires IsDigits(Split(s[x..e], '.')[0]) && |Split(s[x..e], '.')[0]| <= 3
    requires e == |s| || !IsDigit(s[e]) || |Split(s[x..e], '.')[0]| == 3
    ensures FinalGroup(s, x) == Some(e)
  {
    var t := s[x..e];
    JoinSplit(t, '.');
    var g := Split(t, '.')[0];
    assert g == t;
    var n := DigitRun(s, x);
    DigitRunBounds(s, x);
    assert forall k :: x <= k < e ==> IsDigit(s[k]) by {
      forall k | x <= k < e ensures IsDigit(s[k]) {
        assert s[k] == g[k - x];
      }
    }
    if |g| < 3 {
      DigitRunIs(s, x, |g|);
    }
  }

  /** A match of `count + 1` groups splits into that many short digit groups and is greedy. */
  lemma {:induction false} MatchGroupsSound(s: string, i: nat, count: nat)
    requires i <= |s| && MatchGroups(s, i, count).Some?
    ensures var e := MatchGroups(s, i, count).value;
      && |Split(s[i..e], '.')| == count + 1
      && ShortDigitGroups(Split(s[i..e], '.'))
      && GreedyEnd(s, i, e)
    decreases count
  {
    var e := MatchGroups(s, i, count).value;
    if count == 0 {
      SplitAtFinal(s, i);
      DigitRunBounds(s, i);
    } else {
      MatchGroupsSound(s, DottedGroup(s, i).value, count - 1);
      GroupStepSound(s, i, e, count);
    }
  }

  /** A dotted group in front of `count` well-shaped groups makes `count + 1` of them. */
  lemma GroupStepSound(s: string, i: nat, e: nat, count: nat)
    requires i <= e <= |s| && DottedGroup(s, i).Some? && DottedGroup(s, i).value <= e
    requires var j := DottedGroup(s, i).value;
      && |Split(s[j..e], '.')| == count
      && ShortDigitGroups(Split(s[j..e], '.'))
      && (count >= 1 && GreedyEnd(s, j, e))
    ensures |Split(s[i..e], '.')| == count + 1
    ensures ShortDigitGroups(Split(s[i..e], '.'))
    ensures GreedyEnd(s, i, e)
  {
    var j := DottedGroup(s, i).value;
    SplitAtGroup(s, i, e);
    GroupsCons(s[i..j - 1], Split(s[j..e], '.'));
  }

  /** A short digit group in front of short digit groups, and the last group stays last. */
  lemma GroupsCons(g: string, rest: seq<string>)
    requires IsDigits(g) && |g| <= 3 && ShortDigitGroups(rest) && |rest| >= 1
    ensures ShortDigitGroups([g] + rest)
    ensures ([g] + rest)[|rest|] == rest[|rest| - 1]
  {
    var groups := [g] + rest;
    forall k | 0 <= k < |groups| ensures |groups[k]| <= 3 && IsDigits(groups[k]) {
      if k > 0 {
        assert groups[k] == rest[k - 1];
      }
    }
  }

  /** Dropping the first group keeps the groups short and the last group last. */
  lemma GroupsTail(groups: seq<string>)
    requires |groups| >= 2 && ShortDigitGroups(groups)
    ensures ShortDigitGroups(groups[1..])
    ensures groups[1..][|groups| - 2] == groups[|groups| - 1]
  {
    var rest := groups[1..];
    forall k | 0 <= k < |rest| ensures |rest[k]| <= 3 && IsDigits(rest[k]) {
      assert rest[k] == groups[k + 1];
    }
  }

  /** Short digit groups ending greedily are what the matcher reads. */
  lemma {:induction false} MatchGroupsComplete(s: string, i: nat, e: nat, count: nat)
    requires i <= e <= |s|
    requires |Split(s[i..e], '.')| == count + 1 && ShortDigitGroups(Split(s[i..e], '.'))
    requires GreedyEnd(s, i, e)
    ensures MatchGroups(s, i, count) == Some(e)
    decreases count
  {
    if count == 0 {
      PeelFinal(s, i, e);
    } else {
      var j := GroupStepComplete(s, i, e, count);
      MatchGroupsComplete(s, j, e, count - 1);
    }
  }

  /** The first of `count + 1` well-shaped groups is a dotted group, and `count` well-shaped groups follow it. */
  lemma GroupStepComplete(s: string, i: nat, e: nat, count: nat) returns (j: nat)
    requires i <= e <= |s| && count >= 1
    requires |Split(s[i..e], '.')| == count + 1 && ShortDigitGroups(Split(s[i..e], '.'))
    requires GreedyEnd(s, i, e)
    ensures DottedGroup(s, i) == Some(j) && j <= e
    ensures |Split(s[j..e], '.')| == count && ShortDigitGroups(Split(s[j..e], '.'))
    ensures GreedyEnd(s, j, e)
  {
    var groups := Split(s[i..e], '.');
    PeelGroup(s, i, e);
    j := i + |groups[0]| + 1;
    GroupsTail(groups);
  }

  /** A match found by the matcher has the pattern's shape and is greedy. */
  lemma MatchAtSound(s: string, i: nat)
    requires i <= |s| && MatchAt(s, i).Some?
    ensures MatchesAt(s, i, MatchAt(s, i).value)
  {
    MatchGroupsSound(s, i, DottedGroups);
  }

  /** A greedy well-shaped text at i is what the matcher finds there. */
  lemma MatchAtComplete(s: string, i: nat, e: nat)
    requires i <= e <= |s| && MatchesAt(s, i, e)
    ensures MatchAt(s, i) == Some(e)
  {
    MatchGroupsComplete(s, i, e, DottedGroups);
  }

  /**
   * The matcher is exactly the pattern: it matches s[i..e] at i if and only
   * if s[i..e] is four dot-joined groups of one to three digits whose last
   * group is as long as greed allows.
   */
  lemma MatchAtIff(s: string, i: nat, e: nat)
    requires i <= e <= |s|
    ensures MatchAt(s, i) == Some(e) <==> MatchesAt(s, i, e)
  {
    if MatchAt(s, i) == Some(e) {
      MatchAtSound(s, i);
    }
    if MatchesAt(s, i, e) {
      MatchAtComplete(s, i, e);
    }
  }

  /** The text of a match holds digits and dots only. */
  lemma {:induction false} MatchChars(s: string, i: nat, count: nat)
    requires i <= |s| && MatchGroups(s, i, count).Some?
    ensures forall k :: i <= k < MatchGroups(s, i, count).value ==> IsDigit(s[k]) || s[k] == '.'
    decreases count
  {
    DigitRunBounds(s, i);
    if count > 0 {
      MatchChars(s, DottedGroup(s, i).value, count - 1);
    }
  }

  /** The text of a match has the pattern's shape and no line break. */
  lemma MatchedText(s: string, i: nat)
    requires i <= |s| && MatchAt(s, i).Some?
    ensures IsQuad(s[i..MatchAt(s, i).value]) && '\n' !in s[i..MatchAt(s, i).value]
  {
    MatchAtSound(s, i);
    MatchChars(s, i, DottedGroups);
    var t := s[i..MatchAt(s, i).value];
    assert forall m :: 0 <= m < |t| ==> t[m] == s[i + m];
  }

  /** Every token the scan reports has the pattern's shape and no line break. */
  lemma FindAllTokensAreQuads(s: string)
    ensures forall k :: 0 <= k < |FindAll(s)| ==> IsQuad(FindAll(s)[k]) && '\n' !in FindAll(s)[k]
  {
    var spans := ScanFrom(s, 0);
    var tokens := FindAll(s);
    FindAllFromSpans(s, 0);
    forall k | 0 <= k < |tokens| ensures IsQuad(tokens[k]) && '\n' !in tokens[k] {
      MatchedText(s, spans[k].start);
    }
  }

  /**
   * The scan misses no match: every position where the pattern matches lies
   * inside one of the reported spans (the match there is either reported or
   * overlaps an earlier reported one).
   */
  lemma {:induction false} ScanComplete(s: string, i: nat, p: nat)
    requires i <= p < |s| && MatchAt(s, p).Some?
    ensures exists k :: 0 <= k < |ScanFrom(s, i)| && ScanFrom(s, i)[k].start <= p < ScanFrom(s, i)[k].end
    decreases |s| - i
  {
    var spans := ScanFrom(s, i);
    match MatchAt(s, i)
    case Some(e) =>
      assert spans[0] == Span(i, e);
      if e <= p {
        ScanComplete(s, e, p);
        var k :| 0 <= k < |ScanFrom(s, e)| && ScanFrom(s, e)[k].start <= p < ScanFrom(s, e)[k].end;
        assert spans[k + 1] == ScanFrom(s, e)[k];
      }
    case None =>
      ScanComplete(s, i + 1, p);
  }

  // ---------------------------------------------------------------------
  // The scan is local: a character that is neither a digit nor a dot
  // separates the text into parts that are scanned independently.

  /** A character no match can contain. */
  predicate Separator(c: char) {
    !IsDigit(c) && c != '.'
  }

  /** `z` occurs in `x` at offset d and is followed there by the end or a separator. */
  predicate Isolated(x: string, d: nat, z: string) {
    && d + |z| <= |x|
    && (forall k :: 0 <= k < |z| ==> x[d + k] == z[k])
    && (d + |z| == |x| || Separator(x[d + |z|]))
  }

  /** A position moved right by d. */
  function Shift(o: Option<nat>, d: nat): Option<nat> {
    match o
    case None => None
    case Some(v) => Some(v + d)
  }

  lemma DigitRunIsolated(x: string, d: nat, z: string, q: nat)
    requires Isolated(x, d, z) && q <= |z|
    ensures DigitRun(x, d + q) == DigitRun(z, q)
  {
    var n := DigitRun(z, q);
    DigitRunBounds(z, q);
    assert forall k :: d + q <= k < d + q + n ==> x[k] == z[k - d];
    if q + n < |z| {
      assert x[d + q + n] == z[q + n];
    }
    DigitRunIs(x, d + q, n);
  }

  lemma GroupIsolated(x: string, d: nat, z: string, q: nat)
    requires Isolated(x, d, z) && q <= |z|
    ensures DottedGroup(x, d + q) == Shift(DottedGroup(z, q), d)
    ensures FinalGroup(x, d + q) == Shift(FinalGroup(z, q), d)
  {
    DigitRunIsolated(x, d, z, q);
    var n := DigitRun(z, q);
    if q + n < |z| {
      assert x[d + q + n] == z[q + n];
    }
  }

  /** Inside an isolated part, matching in the whole text is matching in the part, moved right. */
  lemma {:induction false} MatchGroupsIsolated(x: string, d: nat, z: string, q: nat, count: nat)
    requires Isolated(x, d, z) && q <= |z|
    ensures MatchGroups(x, d + q, count) == Shift(MatchGroups(z, q, count), d)
    decreases count
  {
    GroupIsolated(x, d, z, q);
    if count > 0 && DottedGroup(z, q).Some? {
      MatchGroupsIsolated(x, d, z, DottedGroup(z, q).value, count - 1);
    }
  }

  /** A match inside an isolated part is the part's match, moved right, with the same text. */
  lemma MatchAtIsolated(x: string, d: nat, z: string, q: nat)
    requires Isolated(x, d, z) && q < |z|
    ensures MatchAt(x, d + q) == Shift(MatchAt(z, q), d)
    ensures MatchAt(z, q).Some? ==> x[d + q..d + MatchAt(z, q).value] == z[q..MatchAt(z, q).value]
  {
    MatchGroupsIsolated(x, d, z, q, DottedGroups);
    if MatchAt(z, q).Some? {
      var e := MatchAt(z, q).value;
      assert forall k :: 0 <= k < e - q ==> x[d + q..d + e][k] == z[q..e][k];
    }
  }

  /** The tokens one step of the scan reports at i: the match there, if any. */
  function StepTokens(s: string, i: nat): seq<string>
    requires i < |s|
  {
    match MatchAt(s, i)
    case Some(e) => [s[i..e]]
    case None => []
  }

  /** Where the scan resumes after i: the end of the match there, or the next position. */
  function StepNext(s: string, i: nat): nat
    requires i < |s|
  {
    match MatchAt(s, i)
    case Some(e) => e
    case None => i + 1
  }

  /** One step of the scan. */
  lemma Step(s: string, i: nat)
    requires i < |s|
    ensures i < StepNext(s, i) <= |s|
    ensures FindAllFrom(s, i) == StepTokens(s, i) + FindAllFrom(s, StepNext(s, i))
  {
  }

  /** A step inside an isolated part reports the part's tokens and resumes at the same place. */
  lemma StepIsolated(x: string, d: nat, z: string, q: nat)
    requires Isolated(x, d, z) && q < |z|
    ensures StepTokens(x, d + q) == StepTokens(z, q)
    ensures StepNext(x, d + q) == d + StepNext(z, q)
  {
    MatchAtIsolated(x, d, z, q);
  }

  /** One step of the scan inside an isolated part and in the whole text: the same tokens, then corresponding places. */
  lemma AdvanceAligned(x: string, d: nat, z: string, q: nat) returns (head: seq<string>, next: nat)
    requires Isolated(x, d, z) && q < |z|
    ensures q < next <= |z|
    ensures FindAllFrom(x, d + q) == head + FindAllFrom(x, d + next)
    ensures FindAllFrom(z, q) == head + FindAllFrom(z, next)
  {
    StepIsolated(x, d, z, q);
    head, next := StepTokens(z, q), StepNext(z, q);
    StepAt(x, d + q, head, d + next);
    StepAt(z, q, head, next);
  }

  /** One step of the scan, with its tokens and resume position named. */
  lemma StepAt(s: string, i: nat, tokens: seq<string>, j: nat)
    requires i < |s| && StepTokens(s, i) == tokens && StepNext(s, i) == j
    ensures i < j <= |s|
    ensures FindAllFrom(s, i) == tokens + FindAllFrom(s, j)
  {
    Step(s, i);
  }

  /** Scanning an isolated part of a text finds the part's own tokens, then the scan goes on after it. */
  lemma {:induction false} ScanIsolated(x: string, d: nat, z: string, q: nat)
    requires Isolated(x, d, z) && q <= |z|
    ensures FindAllFrom(x, d + q) == FindAllFrom(z, q) + FindAllFrom(x, d + |z|)
    decreases |z| - q
  {
    if q < |z| {
      var head, next := AdvanceAligned(x, d, z, q);
      ScanIsolated(x, d, z, next);
      Regroup(FindAllFrom(x, d + q), head, FindAllFrom(z, next), FindAllFrom(x, d + |z|), FindAllFrom(z, q));
    } else {
      assert FindAllFrom(z, q) == [];
    }
  }

  /** Moving the first tokens of a scan into the part they came from. */
  lemma Regroup(whole: seq<string>, head: seq<string>, part: seq<string>, rest: seq<string>, partAll: seq<string>)
    requires whole == head + (part + rest) && partAll == head + part
    ensures whole == partAll + rest
  {
  }

  /**
   * No token spans a character that is neither a digit nor a dot (a line
   * break, say): scanning the whole text finds the tokens of the part before
   * it followed by the tokens of the part after it.
   */
  lemma ScanSplitsAtSeparator(a: string, c: char, b: string)
    requires Separator(c)
    ensures FindAll(a + [c] + b) == FindAll(a) + FindAll(b)
  {
    var x := a + [c] + b;
    assert Isolated(x, 0, a) && Isolated(x, |a| + 1, b);
    ScanIsolated(x, 0, a, 0);
    ScanIsolated(x, |a| + 1, b, 0);
    SkipSeparator(x, |a|);
    Chain(FindAllFrom(x, 0), FindAllFrom(a, 0), FindAllFrom(x, |a|), FindAllFrom(x, |a| + 1),
          FindAllFrom(b, 0), FindAllFrom(x, |x|));
  }

  /** Putting the scans of the two parts together. */
  lemma Chain(whole: seq<string>, left: seq<string>, fromSep: seq<string>, afterSep: seq<string>,
              right: seq<string>, atEnd: seq<string>)
    requires whole == left + fromSep && fromSep == afterSep
    requires afterSep == right + atEnd && atEnd == []
    ensures whole == left + right
  {
  }

  /** No match starts at a separator. */
  lemma SkipSeparator(s: string, i: nat)
    requires i < |s| && Separator(s[i])
    ensures FindAllFrom(s, i) == FindAllFrom(s, i + 1)
  {
    assert DigitRun(s, i) == 0;
  }
  // ---------------------------------------------------------------------
  // The guarantees of `re.findall` on this pattern, put together.

  /**
   * `findall` returns substrings of the text, left to right and not
   * overlapping, each of which the pattern matches (greedily) at its start.
   */
  lemma FindAllSound(s: string) returns (spans: seq<Span>)
    ensures |spans| == |FindAll(s)|
    ensures forall k :: 0 <= k < |spans| ==>
      spans[k].start < spans[k].end <= |s| && FindAll(s)[k] == s[spans[k].start..spans[k].end]
    ensures forall k :: 0 <= k < |spans| ==> MatchesAt(s, spans[k].start, spans[k].end)
    ensures forall k :: 0 < k < |spans| ==> spans[k - 1].end <= spans[k].start
  {
    spans := ScanFrom(s, 0);
    FindAllFromSpans(s, 0);
    forall k | 0 <= k < |spans| ensures MatchesAt(s, spans[k].start, spans[k].end) {
      MatchAtIff(s, spans[k].start, spans[k].end);
    }
  }

  /**
   * An address between two words, separated from each by a character that
   * is neither a digit nor a dot, is the only token of the text.
   */
  lemma TokenAmongWords(u: string, c: char, q: string, d: char, v: string)
    requires forall k :: 0 <= k < |u| ==> !IsDigit(u[k])
    requires forall k :: 0 <= k < |v| ==> !IsDigit(v[k])
    requires Separator(c) && Separator(d) && FindAll(q) == [q]
    ensures FindAll(u + [c] + q + [d] + v) == [q]
  {
    assert u + [c] + q + [d] + v == u + [c] + (q + [d] + v);
    ScanSplitsAtSeparator(u, c, q + [d] + v);
    ScanSplitsAtSeparator(q, d, v);
    NoDigitsNoTokens(u, 0);
    NoDigitsNoTokens(v, 0);
  }

  /** A text that is one address is one token. */
  lemma QuadAlone()
    ensures FindAll("1.2.3.4") == ["1.2.3.4"]
  {
    var s := "1.2.3.4";
    assert DigitRun(s, 6) == 1 && DigitRun(s, 4) == 1 && DigitRun(s, 2) == 1 && DigitRun(s, 0) == 1;
    assert MatchAt(s, 0) == Some(7);
    assert s[0..7] == s;
  }

  /** The addresses of the textarea example are each their own single token. */
  lemma LineQuadsAlone()
    ensures FindAll("5.6.7.8") == ["5.6.7.8"]
    ensures FindAll("999.1.1.1") == ["999.1.1.1"]
  {
    var s := "5.6.7.8";
    assert DigitRun(s, 6) == 1 && DigitRun(s, 4) == 1 && DigitRun(s, 2) == 1 && DigitRun(s, 0) == 1;
    assert MatchAt(s, 0) == Some(7);
    assert s[0..7] == s;
    var t := "999.1.1.1";
    assert DigitRun(t, 8) == 1 && DigitRun(t, 6) == 1 && DigitRun(t, 4) == 1;
    assert DigitRun(t, 2) == 1 && DigitRun(t, 1) == 2 && DigitRun(t, 0) == 3;
    assert MatchAt(t, 0) == Some(9);
    assert t[0..9] == t;
  }

  /** A table row with one address among words: the address is its only token. */
  lemma RowExample()
    ensures FindAll("Server:" + [' '] + "1.2.3.4" + [' '] + "online") == ["1.2.3.4"]
  {
    RowWords();
    QuadAlone();
    TokenAmongWords("Server:", ' ', "1.2.3.4", ' ', "online");
  }

  /** The words around the address of the row example hold no digit. */
  lemma RowWords()
    ensures forall k :: 0 <= k < |"Server:"| ==> !IsDigit("Server:"[k])
    ensures forall k :: 0 <= k < |"online"| ==> !IsDigit("online"[k])
  {
  }

  /**
   * A textarea of two lines, an address and a line of words ending in an
   * address: both addresses are tokens, the out-of-range one included.
   */
  lemma TextareaExample()
    ensures FindAll("5.6.7.8" + ['\n'] + ("bad" + [' '] + ("line" + [' '] + "999.1.1.1"))) == ["5.6.7.8", "999.1.1.1"]
  {
    WordsNoTokens();
    LineQuadsAlone();
    ScanSplitsAtSeparator("line", ' ', "999.1.1.1");
    ScanSplitsAtSeparator("bad", ' ', "line" + [' '] + "999.1.1.1");
    ScanSplitsAtSeparator("5.6.7.8", '\n', "bad" + [' '] + ("line" + [' '] + "999.1.1.1"));
  }

  /** The words of the textarea example have no tokens. */
  lemma WordsNoTokens()
    ensures FindAll("bad") == [] && FindAll("line") == []
  {
    NoDigitsNoTokens("bad", 0);
    NoDigitsNoTokens("line", 0);
  }

  /** A text without digits has no tokens. */
  lemma {:induction false} NoDigitsNoTokens(s: string, i: nat)
    requires i <= |s|
    requires forall k :: 0 <= k < |s| ==> !IsDigit(s[k])
    ensures FindAllFrom(s, i) == []
    decreases |s| - i
  {
    if i < |s| {
      assert DigitRun(s, i) == 0;
      NoDigitsNoTokens(s, i + 1);
    }
  }
}
