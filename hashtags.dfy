/** The hashtag pattern `#(\w+)` shared by the week4 and week5 extractors:
    `re.findall` collects the names and `re.sub` deletes the tags. Both scan
    left to right and resume after each match, so they see the same tags. */
module Hashtags {
  import opened Common

  /** A tag starts at `i`: a `#` followed by a word character. */
  predicate TagAt(s: string, i: nat) {
    i + 1 < |s| && s[i] == '#' && IsWordChar(s[i + 1])
  }

  /** The end of the tag that starts at `i`: `\w+` is greedy, so the name
      runs over word characters up to the first character that is not one. */
  function TagEnd(s: string, i: nat): (j: nat)
    requires TagAt(s, i)
    ensures i + 2 <= j <= |s|
    ensures forall k :: i + 1 <= k < j ==> IsWordChar(s[k])
    ensures j < |s| ==> !IsWordChar(s[j])
  {
    RunEndAll(s, i + 1, IsWordChar);
    RunEnd(s, i + 1, IsWordChar)
  }

  /** `re.findall(r"#(\w+)", s[i..])`, scanning from position `i` of `s`. */
  function TagsFrom(s: string, i: nat): (tags: seq<string>)
    requires i <= |s|
    ensures forall t :: t in tags ==> t != [] && forall c :: c in t ==> IsWordChar(c)
    decreases |s| - i
  {
    if i == |s| then []
    else if TagAt(s, i) then
      var j := TagEnd(s, i);
      assert forall c :: c in s[i + 1..j] ==> IsWordChar(c);
      [s[i + 1..j]] + TagsFrom(s, j)
    else TagsFrom(s, i + 1)
  }

  /** `re.findall(r"#(\w+)", s)`: every tag name, in order, duplicates kept. */
  function HashTags(s: string): seq<string> {
    TagsFrom(s, 0)
  }

  /** `re.sub(r"#\w+", "", s[i..])`. */
  function RemoveTagsFrom(s: string, i: nat): string
    requires i <= |s|
    decreases |s| - i
  {
    if i == |s| then []
    else if TagAt(s, i) then RemoveTagsFrom(s, TagEnd(s, i))
    else [s[i]] + RemoveTagsFrom(s, i + 1)
  }

  /** `re.sub(r"#\w+", "", s)`. */
  function RemoveHashTags(s: string): string {
    RemoveTagsFrom(s, 0)
  }

  /** No `#` of `s` is directly followed by a word character. */
  predicate NoHashTag(s: string) {
    forall i :: 0 <= i < |s| ==> !TagAt(s, i)
  }

  /** `findall` finds nothing exactly when there is no tag. */
  lemma HashTagsEmpty(s: string)
    ensures HashTags(s) == [] <==> NoHashTag(s)
  {
    if NoHashTag(s) {
      NoTagsFrom(s, 0);
    } else {
      var i :| 0 <= i < |s| && TagAt(s, i);
      SomeTagFrom(s, 0, i);
    }
  }

  lemma {:induction false} NoTagsFrom(s: string, i: nat)
    requires i <= |s| && NoHashTag(s)
    ensures TagsFrom(s, i) == []
    decreases |s| - i
  {
    if i < |s| {
      NoTagsFrom(s, i + 1);
    }
  }

  lemma {:induction false} SomeTagFrom(s: string, k: nat, i: nat)
    requires k <= i < |s| && TagAt(s, i)
    ensures TagsFrom(s, k) != []
    decreases i - k
  {
    if !TagAt(s, k) {
      SomeTagFrom(s, k + 1, i);
    }
  }

  // ---------------------------------------------------------------------------
  // Which tags the scan finds
  // ---------------------------------------------------------------------------

  /** The names of the tags starting at positions `i`, `i + 1`, ... in turn,
      read position by position without skipping: every `#` followed by a
      word character is taken as the start of a tag. */
  function TagNamesAt(s: string, i: nat): seq<string>
    requires i <= |s|
    decreases |s| - i
  {
    if i == |s| then []
    else (if TagAt(s, i) then [s[i + 1..TagEnd(s, i)]] else []) + TagNamesAt(s, i + 1)
  }

  /** No tag starts inside a run of word characters, since `#` is not one. */
  lemma {:induction false} TagNamesSkipWord(s: string, k: nat, j: nat)
    requires k <= j <= |s|
    requires forall m :: k <= m < j ==> IsWordChar(s[m])
    ensures TagNamesAt(s, k) == TagNamesAt(s, j)
    decreases j - k
  {
    if k < j {
      assert !TagAt(s, k);
      TagNamesSkipWord(s, k + 1, j);
    }
  }

  /** The scan that resumes after each match finds a tag at every position
      where one starts: no `#` is swallowed by the name before it. */
  lemma {:induction false} TagsFromPositions(s: string, i: nat)
    requires i <= |s|
    ensures TagsFrom(s, i) == TagNamesAt(s, i)
    decreases |s| - i
  {
    if i < |s| {
      if TagAt(s, i) {
        var j := TagEnd(s, i);
        TagsFromPositions(s, j);
        TagNamesSkipWord(s, i + 1, j);
      } else {
        TagsFromPositions(s, i + 1);
      }
    }
  }

  lemma {:induction false} TagNamesAtMembers(s: string, i: nat)
    requires i <= |s|
    ensures forall t :: t in TagNamesAt(s, i) <==>
      exists k :: i <= k < |s| && TagAt(s, k) && t == s[k + 1..TagEnd(s, k)]
    decreases |s| - i
  {
    if i < |s| {
      TagNamesAtMembers(s, i + 1);
    }
  }

  /** `findall` returns, in text order and with duplicates, the name of the
      tag at each position where a `#` is followed by a word character; so a
      string is among the names exactly when some tag of the text has it. */
  lemma HashTagsPositions(s: string)
    ensures HashTags(s) == TagNamesAt(s, 0)
    ensures forall t :: t in HashTags(s) <==>
      exists k :: 0 <= k < |s| && TagAt(s, k) && t == s[k + 1..TagEnd(s, k)]
  {
    TagsFromPositions(s, 0);
    TagNamesAtMembers(s, 0);
  }

  // ---------------------------------------------------------------------------
  // What deleting the tags keeps
  // ---------------------------------------------------------------------------

  /** Position `k` belongs to a tag: it is a tag's `#`, or a word character
      that continues a tag begun before it. */
  predicate InTag(s: string, k: nat)
    requires k < |s|
  {
    TagAt(s, k) || (0 < k && IsWordChar(s[k]) && InTag(s, k - 1))
  }

  /** The characters of `s[i..]` outside every tag, in order. */
  function Untagged(s: string, i: nat): string
    requires i <= |s|
    decreases |s| - i
  {
    if i == |s| then []
    else (if InTag(s, i) then [] else [s[i]]) + Untagged(s, i + 1)
  }

  /** The whole name of a tag lies inside it. */
  lemma {:induction false} UntaggedSkipTag(s: string, i: nat, k: nat)
    requires TagAt(s, i) && i <= k <= TagEnd(s, i)
    ensures Untagged(s, i) == Untagged(s, k)
    decreases k - i
  {
    if i < k {
      UntaggedSkipTag(s, i, k - 1);
      InTagWithin(s, i, k - 1);
    }
  }

  lemma {:induction false} InTagWithin(s: string, i: nat, k: nat)
    requires TagAt(s, i) && i <= k < TagEnd(s, i)
    ensures InTag(s, k)
    decreases k - i
  {
    if i < k {
      InTagWithin(s, i, k - 1);
    }
  }

  lemma {:induction false} RemoveTagsFromUntagged(s: string, i: nat)
    requires i <= |s|
    requires i < |s| && InTag(s, i) ==> TagAt(s, i)
    ensures RemoveTagsFrom(s, i) == Untagged(s, i)
    decreases |s| - i
  {
    if i < |s| {
      if TagAt(s, i) {
        var j := TagEnd(s, i);
        RemoveTagsFromUntagged(s, j);
        UntaggedSkipTag(s, i, j);
      } else {
        RemoveTagsFromUntagged(s, i + 1);
      }
    }
  }

  /** `re.sub` deletes exactly the tags: it keeps every character outside a
      tag, in order, and nothing else; a text without tags is unchanged. */
  lemma RemoveHashTagsKeeps(s: string)
    ensures RemoveHashTags(s) == Untagged(s, 0)
    ensures NoHashTag(s) ==> RemoveHashTags(s) == s
  {
    RemoveTagsFromUntagged(s, 0);
    if NoHashTag(s) {
      UntaggedAll(s, 0);
    }
  }

  lemma {:induction false} UntaggedAll(s: string, i: nat)
    requires i <= |s| && NoHashTag(s)
    ensures Untagged(s, i) == s[i..]
    decreases |s| - i
  {
    if i < |s| {
      NoHashTagNotInTag(s, i);
      UntaggedAll(s, i + 1);
    }
  }

  lemma {:induction false} NoHashTagNotInTag(s: string, k: nat)
    requires k < |s| && NoHashTag(s)
    ensures !InTag(s, k)
    decreases k
  {
    if 0 < k {
      NoHashTagNotInTag(s, k - 1);
    }
  }

  /** After a position that no tag can run into, deletion leaves no word
      character in front. */
  lemma {:induction false} RemoveTagsFromStart(s: string, i: nat)
    requires i <= |s| && (i == |s| || !IsWordChar(s[i]))
    ensures RemoveTagsFrom(s, i) == [] || !IsWordChar(RemoveTagsFrom(s, i)[0])
    decreases |s| - i
  {
    if i < |s| && TagAt(s, i) {
      RemoveTagsFromStart(s, TagEnd(s, i));
    }
  }

  /** Deleting the tags leaves no tag, even where a deletion brings a `#` and
      the characters after the deleted tag together. */
  lemma {:induction false} RemoveTagsFromClean(s: string, i: nat)
    requires i <= |s|
    ensures NoHashTag(RemoveTagsFrom(s, i))
    decreases |s| - i
  {
    if i < |s| {
      if TagAt(s, i) {
        RemoveTagsFromClean(s, TagEnd(s, i));
      } else {
        var rest := RemoveTagsFrom(s, i + 1);
        RemoveTagsFromClean(s, i + 1);
        if s[i] == '#' {
          RemoveTagsFromStart(s, i + 1);
        }
        var out := [s[i]] + rest;
        forall k | 0 <= k < |out|
          ensures !TagAt(out, k)
        {
          if k > 0 {
            assert out[k..] == rest[k - 1..];
            assert TagAt(out, k) ==> TagAt(rest, k - 1);
          }
        }
      }
    }
  }

  lemma RemoveHashTagsClean(s: string)
    ensures NoHashTag(RemoveHashTags(s))
  {
    RemoveTagsFromClean(s, 0);
  }

  /** A slice of a string without tags has none. */
  lemma NoHashTagSlice(s: string, a: nat, b: nat)
    requires a <= b <= |s| && NoHashTag(s)
    ensures NoHashTag(s[a..b])
  {
    var t := s[a..b];
    forall k | 0 <= k < |t|
      ensures !TagAt(t, k)
    {
      if k + 1 < |t| {
        assert t[k] == s[a + k] && t[k + 1] == s[a + k + 1];
        assert !TagAt(s, a + k);
      }
    }
  }

  // ---------------------------------------------------------------------------
  // Whitespace collapsing
  // ---------------------------------------------------------------------------

  /** `re.sub(r"\s+", " ", s[i..])`: every maximal run of whitespace becomes
      one space. */
  function CollapseFrom(s: string, i: nat): (r: string)
    requires i <= |s|
    ensures i < |s| ==> r != [] && r[0] == (if IsSpace(s[i]) then ' ' else s[i])
    decreases |s| - i
  {
    if i == |s| then []
    else if IsSpace(s[i]) then [' '] + CollapseFrom(s, RunEnd(s, i, IsSpace))
    else [s[i]] + CollapseFrom(s, i + 1)
  }

  /** `re.sub(r"\s+", " ", s)`. */
  function CollapseSpace(s: string): string {
    CollapseFrom(s, 0)
  }

  /** Collapsing leaves no two whitespace characters side by side and no
      whitespace but the plain space. */
  lemma {:induction false} CollapseFromShape(s: string, i: nat)
    requires i <= |s|
    ensures forall k :: 0 <= k < |CollapseFrom(s, i)| && IsSpace(CollapseFrom(s, i)[k]) ==>
      CollapseFrom(s, i)[k] == ' ' && (k + 1 < |CollapseFrom(s, i)| ==> !IsSpace(CollapseFrom(s, i)[k + 1]))
    decreases |s| - i
  {
    if i < |s| {
      var r := CollapseFrom(s, i);
      if IsSpace(s[i]) {
        var j := RunEnd(s, i, IsSpace);
        var rest := CollapseFrom(s, j);
        CollapseFromShape(s, j);
        assert r == [' '] + rest;
        assert rest != [] ==> !IsSpace(rest[0]);
        forall k | 0 <= k < |r| && IsSpace(r[k])
          ensures r[k] == ' ' && (k + 1 < |r| ==> !IsSpace(r[k + 1]))
        {
          if k > 0 {
            assert r[k] == rest[k - 1];
          }
          if k + 1 < |r| {
            assert r[k + 1] == rest[k];
          }
        }
      } else {
        CollapseFromShape(s, i + 1);
        assert r[1..] == CollapseFrom(s, i + 1);
        assert forall k :: 1 <= k < |r| ==> r[k] == r[1..][k - 1];
      }
    }
  }

  /** Every whitespace character is a plain space followed by no other
      whitespace. */
  predicate SingleSpaced(t: string) {
    forall k :: 0 <= k < |t| && IsSpace(t[k]) ==> t[k] == ' ' && (k + 1 < |t| ==> !IsSpace(t[k + 1]))
  }

  /** A text whose whitespace is already single plain spaces is left as it
      is by collapsing. */
  lemma {:induction false} CollapseFromFixed(s: string, i: nat)
    requires i <= |s| && SingleSpaced(s)
    ensures CollapseFrom(s, i) == s[i..]
    decreases |s| - i
  {
    if i < |s| {
      if IsSpace(s[i]) {
        assert RunEnd(s, i + 1, IsSpace) == i + 1;
      }
      CollapseFromFixed(s, i + 1);
    }
  }

  lemma CollapseSpaceFixed(s: string)
    requires SingleSpaced(s)
    ensures CollapseSpace(s) == s
  {
    CollapseFromFixed(s, 0);
  }

  /** Collapsing whitespace creates no tag. */
  lemma {:induction false} CollapseFromClean(s: string, i: nat)
    requires i <= |s| && NoHashTag(s)
    ensures NoHashTag(CollapseFrom(s, i))
    decreases |s| - i
  {
    if i < |s| {
      var r := CollapseFrom(s, i);
      var next := if IsSpace(s[i]) then RunEnd(s, i, IsSpace) else i + 1;
      CollapseFromClean(s, next);
      var rest := CollapseFrom(s, next);
      assert r == [r[0]] + rest;
      if r[0] == '#' {
        assert !IsSpace(s[i]) && s[i] == '#' && next == i + 1;
        assert !TagAt(s, i);
      }
      forall k | 0 <= k < |r|
        ensures !TagAt(r, k)
      {
        if k > 0 {
          assert TagAt(r, k) ==> TagAt(rest, k - 1);
        }
      }
    }
  }

  lemma CollapseSpaceClean(s: string)
    requires NoHashTag(s)
    ensures NoHashTag(CollapseSpace(s))
  {
    CollapseFromClean(s, 0);
  }

  // ---------------------------------------------------------------------------
  // Scanning a text piece by piece
  // ---------------------------------------------------------------------------

  /** A tag of `r` is a tag of `p + r`, shifted by `|p|`. */
  lemma TagShift(p: string, r: string, i: nat)
    requires TagAt(r, i)
    ensures TagAt(p + r, |p| + i) && TagEnd(p + r, |p| + i) == |p| + TagEnd(r, i)
  {
    assert (p + r)[|p| + i] == r[i] && (p + r)[|p| + i + 1] == r[i + 1];
    RunEndShift(p, r, i + 1, IsWordChar);
  }

  /** The scans of `p + r` from inside `r` are the scans of `r`. */
  lemma ScanShift(p: string, r: string, i: nat)
    requires i <= |r|
    ensures TagsFrom(p + r, |p| + i) == TagsFrom(r, i)
    ensures RemoveTagsFrom(p + r, |p| + i) == RemoveTagsFrom(r, i)
  {
    TagsShift(p, r, i);
    RemoveShift(p, r, i);
  }

  lemma {:induction false} TagsShift(p: string, r: string, i: nat)
    requires i <= |r|
    ensures TagsFrom(p + r, |p| + i) == TagsFrom(r, i)
    decreases |r| - i
  {
    if i < |r| {
      var s := p + r;
      if TagAt(r, i) {
        var j := TagEnd(r, i);
        assert TagsFrom(s, |p| + i) == [s[|p| + i + 1..|p| + j]] + TagsFrom(s, |p| + j) by {
          TagShift(p, r, i);
        }
        assert TagsFrom(r, i) == [r[i + 1..j]] + TagsFrom(r, j);
        assert s[|p| + i + 1..|p| + j] == r[i + 1..j];
        TagsShift(p, r, j);
      } else {
        assert !TagAt(s, |p| + i) by {
          assert s[|p| + i] == r[i];
          assert |p| + i + 1 < |s| ==> s[|p| + i + 1] == r[i + 1];
        }
        assert TagsFrom(s, |p| + i) == TagsFrom(s, |p| + i + 1);
        assert TagsFrom(r, i) == TagsFrom(r, i + 1);
        TagsShift(p, r, i + 1);
      }
    }
  }

  lemma {:induction false} RemoveShift(p: string, r: string, i: nat)
    requires i <= |r|
    ensures RemoveTagsFrom(p + r, |p| + i) == RemoveTagsFrom(r, i)
    decreases |r| - i
  {
    if i < |r| {
      var s := p + r;
      if TagAt(r, i) {
        var e := TagEnd(r, i);
        assert RemoveTagsFrom(s, |p| + i) == RemoveTagsFrom(s, |p| + e) by {
          TagShift(p, r, i);
        }
        assert RemoveTagsFrom(r, i) == RemoveTagsFrom(r, e);
        RemoveShift(p, r, e);
      } else {
        assert !TagAt(s, |p| + i) && s[|p| + i] == r[i] by {
          assert s[|p| + i] == r[i];
          assert |p| + i + 1 < |s| ==> s[|p| + i + 1] == r[i + 1];
        }
        assert RemoveTagsFrom(s, |p| + i) == [r[i]] + RemoveTagsFrom(s, |p| + i + 1);
        assert RemoveTagsFrom(r, i) == [r[i]] + RemoveTagsFrom(r, i + 1);
        RemoveShift(p, r, i + 1);
      }
    }
  }

  /** The scans of `s` over a stretch without `#`. */
  lemma {:induction false} ScanPlain(s: string, i: nat, k: nat)
    requires i <= k <= |s| && '#' !in s[i..k]
    ensures TagsFrom(s, i) == TagsFrom(s, k)
    ensures RemoveTagsFrom(s, i) == s[i..k] + RemoveTagsFrom(s, k)
    decreases k - i
  {
    if i < k {
      assert s[i..k] == [s[i]] + s[i + 1..k];
      ScanPlain(s, i + 1, k);
    }
  }

  /** Text without `#` in front of `r` holds no tag and is kept whole. */
  lemma PlainPrefix(p: string, r: string)
    requires '#' !in p
    ensures HashTags(p + r) == HashTags(r)
    ensures RemoveHashTags(p + r) == p + RemoveHashTags(r)
  {
    assert (p + r)[0..|p|] == p;
    ScanPlain(p + r, 0, |p|);
    ScanShift(p, r, 0);
  }

  /** A tag `#t` in front of `r`, where `r` does not go on with a word
      character, is found with the name `t` and deleted whole. */
  lemma TagPrefix(t: string, r: string)
    requires t != [] && forall c :: c in t ==> IsWordChar(c)
    requires r == [] || !IsWordChar(r[0])
    ensures HashTags("#" + t + r) == [t] + HashTags(r)
    ensures RemoveHashTags("#" + t + r) == RemoveHashTags(r)
  {
    var h := "#" + t;
    var s := h + r;
    assert s == "#" + t + r;
    assert forall k :: 1 <= k < |h| ==> s[k] == t[k - 1] && t[k - 1] in t;
    assert TagAt(s, 0);
    RunEndAt(s, 1, |h|, IsWordChar);
    assert s[1..|h|] == t;
    ScanShift(h, r, 0);
  }

  /** The collapse of `p + r` from inside `r` is the collapse of `r`. */
  lemma {:induction false} CollapseShift(p: string, r: string, i: nat)
    requires i <= |r|
    ensures CollapseFrom(p + r, |p| + i) == CollapseFrom(r, i)
    decreases |r| - i
  {
    if i < |r| {
      assert (p + r)[|p| + i] == r[i];
      if IsSpace(r[i]) {
        RunEndShift(p, r, i, IsSpace);
        CollapseShift(p, r, RunEnd(r, i, IsSpace));
      } else {
        CollapseShift(p, r, i + 1);
      }
    }
  }

  /** The collapse of `s` over a stretch without whitespace keeps it. */
  lemma {:induction false} CollapsePlain(s: string, i: nat, k: nat)
    requires i <= k <= |s|
    requires forall j :: i <= j < k ==> !IsSpace(s[j])
    ensures CollapseFrom(s, i) == s[i..k] + CollapseFrom(s, k)
    decreases k - i
  {
    if i < k {
      var rest, tail := CollapseFrom(s, i + 1), CollapseFrom(s, k);
      assert CollapseFrom(s, i) == [s[i]] + rest by {
        assert !IsSpace(s[i]);
      }
      assert rest == s[i + 1..k] + tail by {
        CollapsePlain(s, i + 1, k);
      }
      assert s[i..k] == [s[i]] + s[i + 1..k];
      assert [s[i]] + (s[i + 1..k] + tail) == ([s[i]] + s[i + 1..k]) + tail;
    } else {
      assert s[i..k] == [];
    }
  }

  /** A word without whitespace in front of `r` is kept as it is. */
  lemma WordPrefix(w: string, r: string)
    requires forall c :: c in w ==> !IsSpace(c)
    ensures CollapseSpace(w + r) == w + CollapseSpace(r)
  {
    assert (w + r)[0..|w|] == w;
    assert forall j :: 0 <= j < |w| ==> !IsSpace((w + r)[j]) by {
      forall j | 0 <= j < |w| ensures !IsSpace((w + r)[j]) {
        assert (w + r)[j] == w[j] && w[j] in w;
      }
    }
    CollapsePlain(w + r, 0, |w|);
    CollapseShift(w, r, 0);
  }

  /** A run of whitespace in front of `r`, where `r` does not go on with
      whitespace, becomes one space. */
  lemma SpacePrefix(sp: string, r: string)
    requires sp != [] && forall c :: c in sp ==> IsSpace(c)
    requires r == [] || !IsSpace(r[0])
    ensures CollapseSpace(sp + r) == " " + CollapseSpace(r)
  {
    var s := sp + r;
    assert s[0] == sp[0] && sp[0] in sp;
    RunPrefix(sp, r, IsSpace);
    CollapseShift(sp, r, 0);
  }
}
