/** The week2 rule-based action-item extractor: bullet, keyword and checkbox
    lines of a note, or, when no line qualifies, the sentences that start
    with an imperative verb; duplicates removed ignoring case. */
module Week2Extract {
  import opened Common
  import opened Dedup

  // ---------------------------------------------------------------------------
  // The bullet prefix `^\s*([-*•]|\d+\.)\s+`
  // ---------------------------------------------------------------------------

  /** One of the single-character bullets `-`, `*`, `•`. */
  predicate IsBulletChar(c: char) {
    c == '-' || c == '*' || c == '•'
  }

  /** The `\s+` after a bullet starting at `m`: the end of a non-empty run of
      whitespace, or nothing. */
  function SpaceRunAfter(s: string, m: nat): (r: Option<nat>)
    requires m <= |s|
    ensures r.Some? ==> m < r.value <= |s| && IsSpace(s[r.value - 1])
  {
    if m < |s| && IsSpace(s[m]) then
      RunEndAll(s, m, IsSpace);
      Some(RunEnd(s, m, IsSpace))
    else None
  }

  /** `BULLET_PREFIX_PATTERN.match(s)`: the length of the matched prefix, if
      any. Every part of the pattern is greedy and none can give characters
      back to the next, so the match is determined by scanning. */
  function BulletMatch(s: string): (r: Option<nat>)
    ensures r.Some? ==> 0 < r.value <= |s| && IsSpace(s[r.value - 1])
    ensures r.Some? && r.value < |s| ==> !IsSpace(s[r.value])
  {
    var a := RunEnd(s, 0, IsSpace);
    if a < |s| && IsBulletChar(s[a]) then SpaceRunAfter(s, a + 1)
    else if a < |s| && IsDigit(s[a]) then NumberMatch(s, a)
    else None
  }

  /** The alternative `\d+\.` at `a`, then `\s+`. */
  function NumberMatch(s: string, a: nat): (r: Option<nat>)
    requires a <= |s|
    ensures r.Some? ==> a < r.value <= |s| && IsSpace(s[r.value - 1])
  {
    var d := RunEnd(s, a, IsDigit);
    if d < |s| && s[d] == '.' then SpaceRunAfter(s, d + 1) else None
  }

  /** The marker group `[-*•]|\d+\.` of the pattern. */
  predicate IsMarker(t: string) {
    || (|t| == 1 && IsBulletChar(t[0]))
    || (|t| >= 2 && t[|t| - 1] == '.' && forall k :: 0 <= k < |t| - 1 ==> IsDigit(t[k]))
  }

  predicate AllSpace(t: string) {
    forall k :: 0 <= k < |t| ==> IsSpace(t[k])
  }

  /** The pattern read as a language: `s[..n]` is whitespace, a marker and
      at least one more whitespace character. */
  ghost predicate BulletShape(s: string, n: nat) {
    exists a, m :: 0 <= a < m < n <= |s| && AllSpace(s[..a]) && IsMarker(s[a..m]) && AllSpace(s[m..n])
  }

  /** `BulletMatch` finds a prefix exactly when the pattern matches one, and
      the prefix it finds is the longest: the final `\s+` takes the whole
      run of whitespace. */
  lemma BulletMatchShape(s: string)
    ensures BulletMatch(s).Some? ==> BulletShape(s, BulletMatch(s).value)
    ensures forall n: nat :: BulletShape(s, n) ==> BulletMatch(s).Some? && n <= BulletMatch(s).value
  {
    BulletMatchSound(s);
    forall n: nat | BulletShape(s, n)
      ensures BulletMatch(s).Some? && n <= BulletMatch(s).value
    {
      BulletMatchLongest(s, n);
    }
  }

  lemma BulletMatchSound(s: string)
    ensures BulletMatch(s).Some? ==> BulletShape(s, BulletMatch(s).value)
  {
    var a := RunEnd(s, 0, IsSpace);
    if BulletMatch(s).Some? {
      var n := BulletMatch(s).value;
      RunEndAll(s, 0, IsSpace);
      if IsBulletChar(s[a]) {
        assert SpaceRunAfter(s, a + 1) == Some(n);
        RunEndAll(s, a + 1, IsSpace);
        ShapeFromRuns(s, a, a + 1, n);
      } else {
        var d := RunEnd(s, a, IsDigit);
        assert NumberMatch(s, a) == Some(n) && SpaceRunAfter(s, d + 1) == Some(n);
        RunEndAll(s, a, IsDigit);
        RunEndAll(s, d + 1, IsSpace);
        ShapeFromRuns(s, a, d + 1, n);
      }
    }
  }

  /** Whitespace up to `a`, a marker from `a` to `m` and whitespace from `m`
      to `n`, stated position by position, is the shape of the pattern. */
  lemma ShapeFromRuns(s: string, a: nat, m: nat, n: nat)
    requires a < m < n <= |s|
    requires forall k :: 0 <= k < a ==> IsSpace(s[k])
    requires forall k :: m <= k < n ==> IsSpace(s[k])
    requires || (m == a + 1 && IsBulletChar(s[a]))
             || (m >= a + 2 && s[m - 1] == '.' && forall k :: a <= k < m - 1 ==> IsDigit(s[k]))
    ensures BulletShape(s, n)
  {
    assert AllSpace(s[..a]) by {
      forall k | 0 <= k < a
        ensures IsSpace(s[..a][k])
      {
        assert s[..a][k] == s[k];
      }
    }
    assert AllSpace(s[m..n]) by {
      forall k | 0 <= k < n - m
        ensures IsSpace(s[m..n][k])
      {
        assert s[m..n][k] == s[m + k];
      }
    }
    assert IsMarker(s[a..m]) by {
      if !(m == a + 1 && IsBulletChar(s[a])) {
        forall k | 0 <= k < m - 1 - a
          ensures IsDigit(s[a..m][k])
        {
          assert s[a..m][k] == s[a + k];
        }
        assert s[a..m][m - 1 - a] == s[m - 1];
      } else {
        assert s[a..m][0] == s[a];
      }
    }
  }

  lemma BulletMatchLongest(s: string, n: nat)
    requires BulletShape(s, n)
    ensures BulletMatch(s).Some? && n <= BulletMatch(s).value
  {
    var a, m :| 0 <= a < m < n <= |s| && AllSpace(s[..a]) && IsMarker(s[a..m]) && AllSpace(s[m..n]);
    MarkerAt(s, a, m);
    LeadingSpace(s, a);
    forall k | m <= k < n
      ensures IsSpace(s[k])
    {
      assert s[k] == s[m..n][k - m];
    }
    assert m < |s| && IsSpace(s[m]);
    assert SpaceRunAfter(s, m) == Some(RunEnd(s, m, IsSpace));
  }

  /** A marker at `a..m` is a bullet character, or digits up to the `.` at
      `m - 1`. */
  lemma MarkerAt(s: string, a: nat, m: nat)
    requires a < m <= |s| && IsMarker(s[a..m])
    ensures !IsSpace(s[a])
    ensures IsBulletChar(s[a]) ==> m == a + 1
    ensures !IsBulletChar(s[a]) ==> IsDigit(s[a]) && s[m - 1] == '.' && RunEnd(s, a, IsDigit) == m - 1
  {
    var t := s[a..m];
    assert t[0] == s[a];
    RunEndAll(s, a, IsDigit);
    if !IsBulletChar(s[a]) {
      assert |t| >= 2;
      forall k | a <= k < m - 1
        ensures IsDigit(s[k])
      {
        assert s[k] == t[k - a];
      }
      assert s[m - 1] == t[|t| - 1];
    }
  }

  /** Whitespace up to a character that is not whitespace is the run
      `\s*` takes. */
  lemma LeadingSpace(s: string, a: nat)
    requires a < |s| && AllSpace(s[..a]) && !IsSpace(s[a])
    ensures RunEnd(s, 0, IsSpace) == a
  {
    RunEndAll(s, 0, IsSpace);
    forall k | 0 <= k < a
      ensures IsSpace(s[k])
    {
      assert s[..a][k] == s[k];
    }
  }

  /** `BULLET_PREFIX_PATTERN.sub("", s)`: the pattern is anchored at the start
      of the string, so at most the one prefix goes. */
  function RemoveBullet(s: string): string {
    match BulletMatch(s)
    case Some(n) => s[n..]
    case None => s
  }

  /** What `RemoveBullet` removes is a prefix the pattern matches, and the
      longest one; a line the pattern does not match is left unchanged. */
  lemma RemoveBulletContract(s: string)
    ensures var r := RemoveBullet(s);
      && (BulletMatch(s).Some? ==> |r| < |s| && s == s[..|s| - |r|] + r && BulletShape(s, |s| - |r|))
      && (BulletMatch(s).Some? ==> forall n: nat :: BulletShape(s, n) ==> n <= |s| - |r|)
      && (BulletMatch(s).None? ==> r == s && forall n: nat :: !BulletShape(s, n))
  {
    BulletMatchShape(s);
    if BulletMatch(s).Some? {
      var n := BulletMatch(s).value;
      assert s == s[..n] + s[n..];
    }
  }

  // ---------------------------------------------------------------------------
  // Lines
  // ---------------------------------------------------------------------------

  /** `KEYWORD_PREFIXES`. */
  const KeywordPrefixes: seq<string> := ["todo:", "action:", "next:"]

  /** `_is_action_line(line)`. */
  predicate IsActionLine(line: string) {
    var stripped := Lower(Strip(line));
    && stripped != []
    && (|| BulletMatch(stripped).Some?
        || (exists p :: p in KeywordPrefixes && StartsWith(stripped, p))
        || Contains(stripped, "[ ]")
        || Contains(stripped, "[todo]"))
  }

  /** What is appended for an action line: the bullet removed, then a
      leading `[ ]`, then a leading `[todo]` (compared as written, not
      lowered), each followed by a strip. */
  function CleanLine(line: string): string {
    var unbulleted := Strip(RemoveBullet(line));
    var unchecked := Strip(RemovePrefix(unbulleted, "[ ]"));
    Strip(RemovePrefix(unchecked, "[todo]"))
  }

  /** What one line of `text.splitlines()` contributes to `extracted`. */
  function LineItem(rawLine: string): Option<string> {
    var line := Strip(rawLine);
    if line == [] then None
    else if IsActionLine(line) then Some(CleanLine(line))
    else None
  }

  /** The line pass over the lines of the note. */
  function LineItems(lines: seq<string>): seq<string> {
    FilterMap(lines, LineItem)
  }

  // ---------------------------------------------------------------------------
  // Sentences
  // ---------------------------------------------------------------------------

  predicate IsSentenceEnd(c: char) {
    c == '.' || c == '!' || c == '?'
  }

  /** A split point of `(?<=[.!?])\s+` starts at `i`. */
  predicate SplitsAt(s: string, i: nat) {
    0 < i < |s| && IsSentenceEnd(s[i - 1]) && IsSpace(s[i])
  }

  /** `re.split(r"(?<=[.!?])\s+", s)`, the current piece starting at `start`
      and the scan at `i`. A split point is always the start of a run of
      whitespace, and the whole run is the separator. */
  function SentencesFrom(s: string, start: nat, i: nat): (pieces: seq<string>)
    requires start <= i <= |s|
    ensures |pieces| >= 1
    decreases |s| - i
  {
    if i == |s| then [s[start..]]
    else if SplitsAt(s, i) then
      var j := RunEnd(s, i, IsSpace);
      [s[start..i]] + SentencesFrom(s, j, j)
    else SentencesFrom(s, start, i + 1)
  }

  function SplitSentences(s: string): seq<string> {
    SentencesFrom(s, 0, 0)
  }

  /** No split point inside `t`. */
  predicate NoSplitPoint(t: string) {
    forall k :: 0 <= k < |t| ==> !SplitsAt(t, k)
  }

  /** A non-empty piece that ends with `.`, `!` or `?`. */
  predicate IsSentenceEnding(t: string) {
    t != [] && IsSentenceEnd(t[|t| - 1])
  }

  /** Every piece is free of split points, and every piece but the last is a
      non-empty sentence ending with `.`, `!` or `?`. */
  lemma {:induction false} SentencesFromShape(s: string, start: nat, i: nat)
    requires start <= i <= |s|
    requires start == 0 || IsSpace(s[start - 1])
    requires forall k :: start < k < i ==> !SplitsAt(s, k)
    ensures forall k :: 0 <= k < |SentencesFrom(s, start, i)| ==> NoSplitPoint(SentencesFrom(s, start, i)[k])
    ensures forall k :: 0 <= k < |SentencesFrom(s, start, i)| - 1 ==> IsSentenceEnding(SentencesFrom(s, start, i)[k])
    decreases |s| - i
  {
    var pieces := SentencesFrom(s, start, i);
    if i == |s| {
      SliceNoSplit(s, start, |s|);
      assert s[start..|s|] == s[start..];
    } else if SplitsAt(s, i) {
      var j := RunEnd(s, i, IsSpace);
      RunEndAll(s, i, IsSpace);
      assert !SplitsAt(s, start);
      SliceNoSplit(s, start, i);
      SentencesFromShape(s, j, j);
      var rest := SentencesFrom(s, j, j);
      assert pieces == [s[start..i]] + rest;
      assert s[start..i][|s[start..i]| - 1] == s[i - 1];
      forall k | 1 <= k < |pieces|
        ensures NoSplitPoint(pieces[k])
        ensures k < |pieces| - 1 ==> IsSentenceEnding(pieces[k])
      {
        assert pieces[k] == rest[k - 1];
      }
    } else {
      assert i > start ==> !SplitsAt(s, i);
      SentencesFromShape(s, start, i + 1);
      assert pieces == SentencesFrom(s, start, i + 1);
    }
  }

  /** A slice `s[a..b]` with no split point of `s` strictly inside it, and none
      at `a` either, has none of its own. */
  lemma SliceNoSplit(s: string, a: nat, b: nat)
    requires a <= b <= |s|
    requires forall k :: a < k < b ==> !SplitsAt(s, k)
    ensures NoSplitPoint(s[a..b])
  {
    var t := s[a..b];
    forall k | 0 <= k < |t|
      ensures !SplitsAt(t, k)
    {
      if 0 < k {
        assert t[k - 1] == s[a + k - 1] && t[k] == s[a + k];
        assert !SplitsAt(s, a + k);
      }
    }
  }

  /** `pieces` with the separator `gaps[k]` between `pieces[k]` and
      `pieces[k + 1]`. */
  function Rejoin(pieces: seq<string>, gaps: seq<string>): string
    requires |gaps| + 1 == |pieces|
  {
    if gaps == [] then pieces[0] else pieces[0] + gaps[0] + Rejoin(pieces[1..], gaps[1..])
  }

  /** A separator: a non-empty run of whitespace. */
  predicate IsSeparator(g: string) {
    g != [] && forall c :: c in g ==> IsSpace(c)
  }

  /** Putting back a first piece and its separator. */
  lemma RejoinCons(p: string, g: string, rest: seq<string>, gaps: seq<string>)
    requires |gaps| + 1 == |rest| && IsSeparator(g)
    requires forall k :: 0 <= k < |gaps| ==> IsSeparator(gaps[k])
    ensures var all := [g] + gaps;
      && Rejoin([p] + rest, all) == p + g + Rejoin(rest, gaps)
      && forall k :: 0 <= k < |all| ==> IsSeparator(all[k])
  {
    assert ([p] + rest)[1..] == rest && ([g] + gaps)[1..] == gaps;
  }

  /** The whitespace run starting at a split point is a separator. */
  lemma SeparatorRun(s: string, i: nat)
    requires i < |s| && IsSpace(s[i])
    ensures IsSeparator(s[i..RunEnd(s, i, IsSpace)])
  {
    var j := RunEnd(s, i, IsSpace);
    RunEndAll(s, i, IsSpace);
    assert s[i..j][0] == s[i];
    forall c | c in s[i..j] ensures IsSpace(c) {
      var k :| 0 <= k < j - i && s[i..j][k] == c;
      assert c == s[i + k];
    }
  }

  /** The pieces from `start` on, put back together with the separators
      `gaps`, are the text from `start` on. */
  lemma {:induction false} SentencesFromRejoin(s: string, start: nat, i: nat) returns (gaps: seq<string>)
    requires start <= i <= |s|
    ensures |gaps| + 1 == |SentencesFrom(s, start, i)|
    ensures Rejoin(SentencesFrom(s, start, i), gaps) == s[start..]
    ensures forall k :: 0 <= k < |gaps| ==> IsSeparator(gaps[k])
    decreases |s| - i
  {
    var pieces := SentencesFrom(s, start, i);
    if i == |s| {
      gaps := [];
    } else if SplitsAt(s, i) {
      var j := RunEnd(s, i, IsSpace);
      var rest := SentencesFrom(s, j, j);
      assert pieces == [s[start..i]] + rest;
      assert s[start..] == s[start..i] + s[i..j] + s[j..];
      SeparatorRun(s, i);
      var restGaps := SentencesFromRejoin(s, j, j);
      RejoinCons(s[start..i], s[i..j], rest, restGaps);
      gaps := [s[i..j]] + restGaps;
    } else {
      assert pieces == SentencesFrom(s, start, i + 1);
      gaps := SentencesFromRejoin(s, start, i + 1);
    }
  }

  /** The first piece from `start` on is a slice of `s` starting at `start`. */
  lemma {:induction false} FirstPieceSlice(s: string, start: nat, i: nat) returns (m: nat)
    requires start <= i <= |s|
    ensures start <= m <= |s| && SentencesFrom(s, start, i)[0] == s[start..m]
    decreases |s| - i
  {
    if i == |s| {
      m := |s|;
    } else if SplitsAt(s, i) {
      m := i;
    } else {
      m := FirstPieceSlice(s, start, i + 1);
    }
  }

  /** A piece that does not start with whitespace. */
  predicate NoLeadingSpace(t: string) {
    t == [] || !IsSpace(t[0])
  }

  /** The separator is the whole whitespace run, so no piece after the
      first starts with whitespace. */
  lemma {:induction false} SentencesFromStarts(s: string, start: nat, i: nat)
    requires start <= i <= |s|
    ensures forall k :: 1 <= k < |SentencesFrom(s, start, i)| ==> NoLeadingSpace(SentencesFrom(s, start, i)[k])
    decreases |s| - i
  {
    var pieces := SentencesFrom(s, start, i);
    if i == |s| {
    } else if SplitsAt(s, i) {
      var j := RunEnd(s, i, IsSpace);
      var rest := SentencesFrom(s, j, j);
      assert pieces == [s[start..i]] + rest;
      SentencesFromStarts(s, j, j);
      var m := FirstPieceSlice(s, j, j);
      assert NoLeadingSpace(rest[0]) by {
        if rest[0] != [] {
          assert rest[0][0] == s[j];
        }
      }
      forall k | 1 <= k < |pieces|
        ensures NoLeadingSpace(pieces[k])
      {
        assert pieces[k] == rest[k - 1];
      }
    } else {
      assert pieces == SentencesFrom(s, start, i + 1);
      SentencesFromStarts(s, start, i + 1);
    }
  }

  /** `re.split(r"(?<=[.!?])\s+", s)` cuts `s` into pieces: put back
      together with non-empty whitespace separators they give `s` again;
      no piece holds a split point, every piece but the last ends a
      sentence, so every separator follows `.`, `!` or `?`, and no piece
      after the first starts with whitespace, so every separator is a
      whole whitespace run. */
  lemma SplitSentencesShape(s: string)
    ensures var pieces := SplitSentences(s);
      && |pieces| >= 1
      && (forall k :: 0 <= k < |pieces| ==> NoSplitPoint(pieces[k]))
      && (forall k :: 0 <= k < |pieces| - 1 ==> IsSentenceEnding(pieces[k]))
      && (forall k :: 1 <= k < |pieces| ==> NoLeadingSpace(pieces[k]))
      && exists gaps :: |gaps| + 1 == |pieces| && Rejoin(pieces, gaps) == s
           && forall k :: 0 <= k < |gaps| ==> IsSeparator(gaps[k])
  {
    SentencesFromShape(s, 0, 0);
    SentencesFromStarts(s, 0, 0);
    var gaps := SentencesFromRejoin(s, 0, 0);
    assert s[0..] == s;
    assert SplitSentences(s) == SentencesFrom(s, 0, 0);
  }

  /** `re.split` takes the whole whitespace run after a sentence end as one
      separator: `a.` then two spaces then `b` splits into `a.` and `b`. */
  lemma SplitRunExample(s: string)
    requires s == "a." + "  " + "b"
    ensures SplitSentences(s) == ["a.", "b"]
  {
    assert |s| == 5 && s[1] == '.' && s[2] == ' ' && s[3] == ' ' && s[4] == 'b';
    assert !SplitsAt(s, 0) && !SplitsAt(s, 1) && SplitsAt(s, 2) && !SplitsAt(s, 4);
    RunEndAt(s, 2, 4, IsSpace);
    assert SentencesFrom(s, 4, 4) == SentencesFrom(s, 4, 5) == [s[4..]];
    assert SentencesFrom(s, 0, 0) == SentencesFrom(s, 0, 1) == SentencesFrom(s, 0, 2);
    assert SentencesFrom(s, 0, 2) == [s[0..2]] + SentencesFrom(s, 4, 4);
    assert s[0..2] == "a." && s[4..] == "b";
  }

  /** The characters of `[A-Za-z']`. */
  predicate IsWordLetter(c: char) {
    IsAsciiLetter(c) || c == '\''
  }

  /** `re.findall(r"[A-Za-z']+", s)[0]` scanning from `i`, if there is a word:
      the first maximal run of word letters. */
  function FirstWordFrom(s: string, i: nat): (w: Option<string>)
    requires i <= |s|
    ensures w.None? <==> forall k :: i <= k < |s| ==> !IsWordLetter(s[k])
    ensures w.Some? ==>
      exists a, b ::
        && i <= a < b <= |s| && w.value == s[a..b]
        && (forall k :: i <= k < a ==> !IsWordLetter(s[k]))
        && (forall k :: a <= k < b ==> IsWordLetter(s[k]))
        && (b == |s| || !IsWordLetter(s[b]))
    decreases |s| - i
  {
    if i == |s| then None
    else if IsWordLetter(s[i]) then
      RunEndAll(s, i, IsWordLetter);
      Some(s[i..RunEnd(s, i, IsWordLetter)])
    else FirstWordFrom(s, i + 1)
  }

  /** The twelve verbs of `imperative_starters`. */
  const ImperativeStarters: set<string> := {
    "add", "create", "implement", "fix", "update", "write",
    "check", "verify", "refactor", "document", "design", "investigate"
  }

  /** `_looks_imperative(sentence)`. The first word is ASCII, so lowering it
      is exact here. */
  predicate LooksImperative(sentence: string) {
    var w := FirstWordFrom(sentence, 0);
    w.Some? && Lower(w.value) in ImperativeStarters
  }

  /** What one sentence contributes to `extracted` in the fallback. */
  function SentenceItem(sentence: string): Option<string> {
    var s := Strip(sentence);
    if s == [] then None
    else if LooksImperative(s) then Some(s)
    else None
  }

  /** The fallback pass over the stripped note. */
  function SentenceItems(text: string): seq<string> {
    FilterMap(SplitSentences(Strip(text)), SentenceItem)
  }

  // ---------------------------------------------------------------------------
  // The extractor
  // ---------------------------------------------------------------------------

  /** The list `extracted` before deduplication. */
  function Candidates(text: string): seq<string> {
    var lineItems := LineItems(SplitLines(text));
    if lineItems != [] then lineItems else SentenceItems(text)
  }

  /** The result of `extract_action_items`, as a function of the note. */
  function ActionItems(text: string): seq<string> {
    DedupBy(Candidates(text), Lower)
  }

  /** `extract_action_items(text)`: the line loop, the sentence loop when the
      first found nothing, and the case-insensitive deduplication loop. */
  method ExtractActionItems(text: string) returns (unique: seq<string>)
    ensures unique == ActionItems(text)
  {
    var lines := SplitLines(text);
    var extracted: seq<string> := [];
    for i := 0 to |lines|
      invariant extracted == FilterMap(lines[..i], LineItem)
    {
      FilterMapSnoc(lines, i, LineItem);
      var line := Strip(lines[i]);
      if line == [] {
        continue;
      }
      if IsActionLine(line) {
        var cleaned := CleanLine(line);
        extracted := extracted + [cleaned];
      }
    }
    assert lines[..|lines|] == lines;
    if extracted == [] {
      extracted := ImperativeSentences(Strip(text));
    }
    unique := DedupIgnoringCase(extracted);
  }

  /** The fallback loop over `re.split(r"(?<=[.!?])\s+", stripped)`. */
  method ImperativeSentences(stripped: string) returns (extracted: seq<string>)
    ensures extracted == FilterMap(SplitSentences(stripped), SentenceItem)
  {
    var sentences := SplitSentences(stripped);
    extracted := [];
    for i := 0 to |sentences|
      invariant extracted == FilterMap(sentences[..i], SentenceItem)
    {
      FilterMapSnoc(sentences, i, SentenceItem);
      var s := Strip(sentences[i]);
      if s == [] {
        continue;
      }
      if LooksImperative(s) {
        extracted := extracted + [s];
      }
    }
    assert sentences[..|sentences|] == sentences;
  }

  /** The deduplication loop: an item is kept unless an earlier kept item is
      equal to it ignoring case. */
  method DedupIgnoringCase(extracted: seq<string>) returns (unique: seq<string>)
    ensures unique == DedupBy(extracted, Lower)
  {
    var seen: set<string> := {};
    unique := [];
    for i := 0 to |extracted|
      invariant unique == DedupBy(extracted[..i], Lower)
      invariant seen == KeySet(unique, Lower)
    {
      var item := extracted[i];
      assert extracted[..i + 1] == extracted[..i] + [item];
      DedupBySnoc(extracted[..i], item, Lower);
      var lowered := Lower(item);
      if lowered in seen {
        continue;
      }
      KeySetSnoc(unique, item, Lower);
      seen := seen + {lowered};
      unique := unique + [item];
    }
    assert extracted[..|extracted|] == extracted;
  }

  /** No two items are equal ignoring case; each is a candidate; every
      candidate is represented by an item equal to it ignoring case; each
      item is the first candidate with its lowered text, and the items keep
      the order in which their lowered texts first appear. */
  lemma ActionItemsContract(text: string)
    ensures var items, cands := ActionItems(text), Candidates(text);
      && KeysDistinct(items, Lower)
      && (forall x :: x in items ==> x in cands)
      && KeySet(items, Lower) == KeySet(cands, Lower)
      && (forall i :: 0 <= i < |items| ==>
            Lower(items[i]) in KeySet(cands, Lower) &&
            items[i] == cands[FirstIndex(cands, Lower, Lower(items[i]))])
      && (forall i, j :: 0 <= i < j < |items| ==>
            Lower(items[i]) in KeySet(cands, Lower) && Lower(items[j]) in KeySet(cands, Lower) &&
            FirstIndex(cands, Lower, Lower(items[i])) < FirstIndex(cands, Lower, Lower(items[j])))
  {
    DedupByDistinct(Candidates(text), Lower);
    DedupByKeys(Candidates(text), Lower);
    DedupByFirstSeen(Candidates(text), Lower);
  }

  /** The line items are exactly what the lines yield. */
  lemma LineItemsMembers(lines: seq<string>)
    ensures forall x :: x in LineItems(lines) <==> exists i :: 0 <= i < |lines| && LineItem(lines[i]) == Some(x)
  {
    FilterMapIff(lines, LineItem);
  }

  /** There are no line items, so that the sentence fallback runs, exactly
      when no line yields one. */
  lemma LineItemsEmpty(lines: seq<string>)
    ensures LineItems(lines) == [] <==> forall i :: 0 <= i < |lines| ==> LineItem(lines[i]).None?
  {
    FilterMapEmpty(lines, LineItem);
  }

  /** The sentence items are exactly what the sentences of the stripped note
      yield. */
  lemma SentenceItemsMembers(text: string)
    ensures var sentences := SplitSentences(Strip(text));
      forall x :: x in SentenceItems(text) <==> exists i :: 0 <= i < |sentences| && SentenceItem(sentences[i]) == Some(x)
  {
    FilterMapIff(SplitSentences(Strip(text)), SentenceItem);
  }

  /** A line yields an item exactly when it is non-blank and an action line;
      the item has no whitespace at either end. */
  lemma LineItemContract(rawLine: string)
    ensures LineItem(rawLine).Some? <==> Strip(rawLine) != [] && IsActionLine(Strip(rawLine))
    ensures var item := LineItem(rawLine);
      item.Some? && item.value != [] ==> !IsSpace(item.value[0]) && !IsSpace(item.value[|item.value| - 1])
  {
    var line := Strip(rawLine);
    if line != [] && IsActionLine(line) {
      var unbulleted := Strip(RemoveBullet(line));
      var unchecked := Strip(RemovePrefix(unbulleted, "[ ]"));
      TrimSlice(RemovePrefix(unchecked, "[todo]"), IsSpace);
    }
  }

  /** The first word of a text that is non-letters `p`, the word `w` and a
      rest `r` that does not continue the word, is `w`. */
  lemma FirstWordOf(p: string, w: string, r: string)
    requires forall c :: c in p ==> !IsWordLetter(c)
    requires w != [] && forall c :: c in w ==> IsWordLetter(c)
    requires r == [] || !IsWordLetter(r[0])
    ensures FirstWordFrom(p + w + r, 0) == Some(w)
  {
    var s := p + w + r;
    var e := |p| + |w|;
    assert forall k :: 0 <= k < |p| ==> !IsWordLetter(s[k]) by {
      forall k | 0 <= k < |p| ensures !IsWordLetter(s[k]) {
        assert s[k] == p[k] && p[k] in p;
      }
    }
    assert forall k :: |p| <= k < e ==> IsWordLetter(s[k]) by {
      forall k | |p| <= k < e ensures IsWordLetter(s[k]) {
        assert s[k] == w[k - |p|] && w[k - |p|] in w;
      }
    }
    assert e < |s| ==> s[e] == r[0];
    FirstWordAt(s, 0, |p|, e);
    assert s[|p|..e] == w;
  }

  /** Scanning from `i`, the first word is the run of letters `s[a0..e]`
      when no letter comes before it and it cannot be extended. */
  lemma {:induction false} FirstWordAt(s: string, i: nat, a0: nat, e: nat)
    requires i <= a0 < e <= |s|
    requires forall k :: i <= k < a0 ==> !IsWordLetter(s[k])
    requires forall k :: a0 <= k < e ==> IsWordLetter(s[k])
    requires e == |s| || !IsWordLetter(s[e])
    ensures FirstWordFrom(s, i) == Some(s[a0..e])
    decreases a0 - i
  {
    if i < a0 {
      assert FirstWordFrom(s, i) == FirstWordFrom(s, i + 1) by {
        assert !IsWordLetter(s[i]);
      }
      FirstWordAt(s, i + 1, a0, e);
    } else {
      assert FirstWordFrom(s, i) == Some(s[i..RunEnd(s, i, IsWordLetter)]) by {
        assert IsWordLetter(s[i]);
      }
      RunEndAt(s, a0, e, IsWordLetter);
    }
  }

  /** A sentence whose stripped text is non-letters, then a word, then a rest
      that does not continue the word, yields the stripped text exactly
      when the word, lowered, is an imperative starter. */
  lemma SentenceItemFirstWord(sentence: string, p: string, w: string, r: string)
    requires Strip(sentence) == p + w + r
    requires forall c :: c in p ==> !IsWordLetter(c)
    requires w != [] && forall c :: c in w ==> IsWordLetter(c)
    requires r == [] || !IsWordLetter(r[0])
    ensures SentenceItem(sentence) == if Lower(w) in ImperativeStarters then Some(p + w + r) else None
  {
    FirstWordOf(p, w, r);
  }

  /** A sentence without any letter yields nothing. */
  lemma SentenceItemNoWord(sentence: string)
    requires forall c :: c in Strip(sentence) ==> !IsWordLetter(c)
    ensures SentenceItem(sentence) == None
  {
    var s := Strip(sentence);
    assert forall k :: 0 <= k < |s| ==> !IsWordLetter(s[k]) by {
      forall k | 0 <= k < |s| ensures !IsWordLetter(s[k]) {
        assert s[k] in s;
      }
    }
  }

  // ---------------------------------------------------------------------------
  // Examples
  // ---------------------------------------------------------------------------

  /** Lowering changes no character the bullet pattern looks at, so matching
      the lowered line, as `_is_action_line` does, and removing the match
      from the line as written agree. */
  lemma BulletMatchLower(s: string)
    ensures BulletMatch(Lower(s)) == BulletMatch(s)
  {
    var l := Lower(s);
    forall k | 0 <= k < |s|
      ensures IsSpace(s[k]) == IsSpace(l[k]) && IsBulletChar(s[k]) == IsBulletChar(l[k])
      ensures IsDigit(s[k]) == IsDigit(l[k]) && (s[k] == '.') == (l[k] == '.')
    {
      LowerCharAt(s, k);
    }
    BulletMatchSameClasses(s, l);
  }

  /** Two strings of the same length that agree, position by position, on
      every character class the bullet pattern uses. */
  predicate SameClasses(s: string, t: string) {
    && |s| == |t|
    && forall k :: 0 <= k < |s| ==>
         && IsSpace(s[k]) == IsSpace(t[k]) && IsBulletChar(s[k]) == IsBulletChar(t[k])
         && IsDigit(s[k]) == IsDigit(t[k]) && (s[k] == '.') == (t[k] == '.')
  }

  /** The bullet match sees only character classes. */
  lemma BulletMatchSameClasses(s: string, t: string)
    requires SameClasses(s, t)
    ensures BulletMatch(s) == BulletMatch(t)
  {
    RunEndSame(s, t, 0, IsSpace);
    var a := RunEnd(s, 0, IsSpace);
    if a < |s| {
      if IsBulletChar(s[a]) {
        SpaceRunAfterSame(s, t, a + 1);
      } else if IsDigit(s[a]) {
        NumberMatchSame(s, t, a);
      }
    }
  }

  lemma NumberMatchSame(s: string, t: string, a: nat)
    requires a <= |s| && SameClasses(s, t)
    ensures NumberMatch(s, a) == NumberMatch(t, a)
  {
    RunEndSame(s, t, a, IsDigit);
    var d := RunEnd(s, a, IsDigit);
    if d < |s| {
      SpaceRunAfterSame(s, t, d + 1);
    }
  }

  lemma SpaceRunAfterSame(s: string, t: string, m: nat)
    requires m <= |s| && SameClasses(s, t)
    ensures SpaceRunAfter(s, m) == SpaceRunAfter(t, m)
  {
    RunEndSame(s, t, m, IsSpace);
  }

  /** A run ends at the same place in two strings that agree on its class. */
  lemma {:induction false} RunEndSame(s: string, t: string, i: nat, p: char -> bool)
    requires i <= |s| == |t|
    requires forall k :: i <= k < |s| ==> p(s[k]) == p(t[k])
    ensures RunEnd(s, i, p) == RunEnd(t, i, p)
    decreases |s| - i
  {
    if i < |s| {
      RunEndSame(s, t, i + 1, p);
    }
  }

  /** The character at `i` of the lowered string, and what lowering keeps of
      it: `LowerChar` moves only ASCII capitals, which are neither
      whitespace, bullets, digits nor `.`. */
  lemma LowerCharAt(s: string, i: nat)
    requires i < |s|
    ensures Lower(s)[i] == LowerChar(s[i])
    ensures IsSpace(Lower(s)[i]) == IsSpace(s[i])
    ensures IsBulletChar(Lower(s)[i]) == IsBulletChar(s[i])
    ensures IsDigit(Lower(s)[i]) == IsDigit(s[i])
    ensures (Lower(s)[i] == '.') == (s[i] == '.')
  {
  }

  /** A checkbox under a dash bullet loses both. */
  lemma CheckboxBulletExample(line: string)
    requires line == "- [ ] Set up database"
    ensures LineItem(line) == Some("Set up database")
  {
    assert line[0] == '-' && line[|line| - 1] == 'e';
    StripUnchanged(line);
    DashBulletMatch(line);
    ActionLineByBullet(line);
    CheckboxClean(line);
  }

  /** A line that is its own `strip()` and has a bullet is an action line. */
  lemma ActionLineByBullet(line: string)
    requires line != [] && Strip(line) == line && BulletMatch(line).Some?
    ensures IsActionLine(line)
  {
    BulletMatchLower(line);
  }

  lemma DashBulletMatch(line: string)
    requires line == "- [ ] Set up database"
    ensures BulletMatch(line) == Some(2)
  {
    assert RunEnd(line, 0, IsSpace) == 0;
    assert RunEnd(line, 2, IsSpace) == 2;
    assert RunEnd(line, 1, IsSpace) == 2;
  }

  lemma CheckboxClean(line: string)
    requires line == "- [ ] Set up database"
    requires BulletMatch(line) == Some(2)
    ensures CleanLine(line) == "Set up database"
  {
    var rest := line[2..];
    assert RemoveBullet(line) == rest;
    assert rest[0] == '[' && rest[|rest| - 1] == 'e';
    StripUnchanged(rest);
    assert rest[..3] == "[ ]";
    var unchecked := rest[3..];
    assert RemovePrefix(rest, "[ ]") == unchecked;
    UncheckedText(unchecked);
  }

  lemma UncheckedText(unchecked: string)
    requires unchecked == " Set up database"
    ensures Strip(RemovePrefix(Strip(unchecked), "[todo]")) == "Set up database"
  {
    var text := unchecked[1..];
    assert text == "Set up database";
    assert SkipStart(unchecked, IsSpace, 1) == 1;
    StripUnchanged(text);
    assert Strip(unchecked) == text;
    assert text[..6][0] != "[todo]"[0];
    assert RemovePrefix(text, "[todo]") == text;
  }

  /** A numbered bullet. */
  lemma NumberedBulletExample(line: string)
    requires line == "1. Write tests"
    ensures LineItem(line) == Some("Write tests")
  {
    assert line[0] == '1' && line[|line| - 1] == 's';
    StripUnchanged(line);
    NumberedMatch(line);
    ActionLineByBullet(line);
    NumberedClean(line);
  }

  lemma NumberedMatch(line: string)
    requires line == "1. Write tests"
    ensures BulletMatch(line) == Some(3)
  {
    assert RunEnd(line, 0, IsSpace) == 0;
    assert RunEnd(line, 1, IsDigit) == 1;
    assert RunEnd(line, 0, IsDigit) == 1;
    assert RunEnd(line, 3, IsSpace) == 3;
    assert RunEnd(line, 2, IsSpace) == 3;
  }

  lemma NumberedClean(line: string)
    requires line == "1. Write tests"
    requires BulletMatch(line) == Some(3)
    ensures CleanLine(line) == "Write tests"
  {
    var rest := line[3..];
    assert RemoveBullet(line) == rest;
    assert rest[0] == 'W' && rest[|rest| - 1] == 's';
    StripUnchanged(rest);
    assert rest[..3][0] != "[ ]"[0];
    assert RemovePrefix(rest, "[ ]") == rest;
    assert rest[..6][0] != "[todo]"[0];
    assert RemovePrefix(rest, "[todo]") == rest;
    assert rest == "Write tests";
  }

  /** `[TODO]` makes a line an action line through its lowered form, but
      the prefix is removed only when written in lower case, so it stays. */
  lemma UpperTodoKeptExample(line: string)
    requires line == "[TODO] x"
    ensures LineItem(line) == Some(line)
  {
    assert line[0] == '[' && line[|line| - 1] == 'x';
    StripUnchanged(line);
    UpperTodoAction(line);
    assert RunEnd(line, 0, IsSpace) == 0;
    assert BulletMatch(line) == None;
    assert RemoveBullet(line) == line;
    assert line[..3][1] != "[ ]"[1];
    assert RemovePrefix(line, "[ ]") == line;
    assert line[..6][1] != "[todo]"[1];
    assert RemovePrefix(line, "[todo]") == line;
  }

  lemma UpperTodoAction(line: string)
    requires line == "[TODO] x" && Strip(line) == line
    ensures IsActionLine(line)
  {
    var l := Lower(line);
    forall k | 0 <= k < 6
      ensures l[k] == "[todo]"[k]
    {
      LowerCharAt(line, k);
    }
    assert l[..6] == "[todo]";
    assert StartsWith(l, "[todo]");
    assert Contains(l, "[todo]");
  }
}
