/** The week4 note extractor: action items with their hashtags, and the
    hashtags of a whole text. */
module Week4Extract {
  import opened Common
  import opened Hashtags

  /** `{"text": clean_text, "tags": tags}`. */
  datatype ActionItem = ActionItem(text: string, tags: seq<string>)

  /** `line.strip("- ").strip()`. */
  function TrimLine(line: string): string {
    Strip(Trim(line, IsDashOrSpace))
  }

  /** The text of an item: the tags deleted, whitespace runs collapsed to
      one space, the ends stripped. */
  function CleanText(stripped: string): string {
    Strip(CollapseSpace(RemoveHashTags(stripped)))
  }

  /** Whether a non-blank trimmed line yields an item: it has a tag, or its
      text ends with `!`, or its lowered text starts with `todo:`. */
  predicate IsActionItem(tags: seq<string>, clean: string) {
    tags != [] || EndsWith(clean, "!") || StartsWith(Lower(clean), "todo:")
  }

  /** The item a line yields, if any. */
  function ItemOf(line: string): Option<ActionItem> {
    var stripped := TrimLine(line);
    if stripped == [] then None
    else
      var tags := HashTags(stripped);
      var clean := CleanText(stripped);
      if IsActionItem(tags, clean) then Some(ActionItem(clean, tags)) else None
  }

  /** The items of `lines`, in line order. */
  function ItemsOf(lines: seq<string>): seq<ActionItem> {
    FilterMap(lines, ItemOf)
  }

  /** `extract_action_items(text)`: the loop over `text.splitlines()`. */
  method ExtractActionItems(text: string) returns (result: seq<ActionItem>)
    ensures result == ItemsOf(SplitLines(text))
  {
    var lines := SplitLines(text);
    result := [];
    for i := 0 to |lines|
      invariant result == ItemsOf(lines[..i])
    {
      FilterMapSnoc(lines, i, ItemOf);
      var stripped := TrimLine(lines[i]);
      if stripped == [] {
        continue;
      }
      var tags := HashTags(stripped);
      var cleanText := CleanText(stripped);
      if tags != [] || EndsWith(cleanText, "!") || StartsWith(Lower(cleanText), "todo:") {
        result := result + [ActionItem(cleanText, tags)];
      }
    }
    assert lines[..|lines|] == lines;
  }

  /** `extract_tags(text)`: the name of the tag at every position where a
      `#` is followed by a word character, in text order and with
      duplicates; empty exactly when the text has no tag. */
  function ExtractTags(text: string): (tags: seq<string>)
    ensures tags == TagNamesAt(text, 0)
    ensures forall t :: t in tags <==>
      exists k :: 0 <= k < |text| && TagAt(text, k) && t == text[k + 1..TagEnd(text, k)]
    ensures tags == [] <==> NoHashTag(text)
    ensures forall t :: t in tags ==> t != [] && forall c :: c in t ==> IsWordChar(c)
  {
    HashTagsEmpty(text);
    HashTagsPositions(text);
    HashTags(text)
  }

  /** An item's text holds no tag and no whitespace but single inner
      spaces; a line yields an item exactly when it has a tag, ends with `!`
      or starts with `todo:` ignoring case; the item's tags are all the tag
      names of the trimmed line. */
  lemma ItemOfContract(line: string)
    ensures var stripped := TrimLine(line);
      && (ItemOf(line).Some? <==>
            stripped != [] && IsActionItem(HashTags(stripped), CleanText(stripped)))
      && (ItemOf(line).Some? ==> ItemOf(line).value.tags == TagNamesAt(stripped, 0))
      && (ItemOf(line).Some? ==> ItemOf(line).value.text == Strip(CollapseSpace(Untagged(stripped, 0))))
      && (ItemOf(line).Some? ==> NoHashTag(ItemOf(line).value.text))
      && (ItemOf(line).Some? ==> WellSpaced(ItemOf(line).value.text))
  {
    var stripped := TrimLine(line);
    HashTagsPositions(stripped);
    RemoveHashTagsKeeps(stripped);
    CleanTextShape(stripped);
  }

  /** Whitespace only as single spaces between other characters. */
  predicate WellSpaced(t: string) {
    && (t != [] ==> !IsSpace(t[0]) && !IsSpace(t[|t| - 1]))
    && SingleSpaced(t)
  }

  lemma CleanTextShape(stripped: string)
    ensures NoHashTag(CleanText(stripped)) && WellSpaced(CleanText(stripped))
  {
    var removed := RemoveHashTags(stripped);
    var collapsed := CollapseSpace(removed);
    RemoveHashTagsClean(stripped);
    CollapseSpaceClean(removed);
    CollapseFromShape(removed, 0);
    assert SingleSpaced(collapsed);
    StripSingleSpaced(collapsed);
  }

  /** Stripping text without tags and with single plain spaces leaves it
      well spaced and without tags. */
  lemma StripSingleSpaced(c: string)
    requires NoHashTag(c) && SingleSpaced(c)
    ensures NoHashTag(Strip(c)) && WellSpaced(Strip(c))
  {
    TrimSlice(c, IsSpace);
    var a, b :| 0 <= a <= b <= |c| && Strip(c) == c[a..b];
    NoHashTagSlice(c, a, b);
    var t := c[a..b];
    forall k | 0 <= k < |t| && IsSpace(t[k])
      ensures t[k] == ' ' && (k + 1 < |t| ==> !IsSpace(t[k + 1]))
    {
      assert t[k] == c[a + k];
      if k + 1 < |t| {
        assert t[k + 1] == c[a + k + 1];
      }
    }
  }

  /** The clean text is made of the characters outside the tags, in order;
      a text that already has no tag and only single inner spaces is its own
      clean text, so cleaning twice changes nothing. */
  lemma CleanTextKeeps(s: string)
    ensures CleanText(s) == Strip(CollapseSpace(Untagged(s, 0)))
    ensures NoHashTag(s) && WellSpaced(s) ==> CleanText(s) == s
    ensures CleanText(CleanText(s)) == CleanText(s)
  {
    RemoveHashTagsKeeps(s);
    CleanTextFixed(s);
    CleanTextShape(s);
    CleanTextFixed(CleanText(s));
  }

  lemma CleanTextFixed(s: string)
    ensures NoHashTag(s) && WellSpaced(s) ==> CleanText(s) == s
  {
    if NoHashTag(s) && WellSpaced(s) {
      RemoveHashTagsKeeps(s);
      CollapseSpaceFixed(s);
      StripUnchanged(s);
    }
  }

  /** The items follow the lines: one per line that yields an item. */
  lemma ItemsOfLines(lines: seq<string>)
    ensures forall it :: it in ItemsOf(lines) ==> exists i :: 0 <= i < |lines| && ItemOf(lines[i]) == Some(it)
    ensures forall i :: 0 <= i < |lines| && ItemOf(lines[i]).Some? ==> ItemOf(lines[i]).value in ItemsOf(lines)
    ensures |ItemsOf(lines)| <= |lines|
  {
    FilterMapMembers(lines, ItemOf);
  }

  // ---------------------------------------------------------------------------
  // Examples
  // ---------------------------------------------------------------------------

  /** A one-line note yields what its line yields. */
  lemma OneLineItems(line: string)
    requires line != [] && forall c :: c in line ==> !IsLineBoundary(c)
    ensures ItemsOf(SplitLines(line)) == if ItemOf(line).Some? then [ItemOf(line).value] else []
  {
    SplitLinesOne(line);
    assert [line][..0] == [];
  }

  /** A tag name: word characters, at least one. */
  predicate IsName(t: string) {
    t != [] && forall c :: c in t ==> IsWordChar(c)
  }

  /** A line `- x` whose text `x` has no dash or whitespace at its ends, a
      tag, and the clean text `clean`, yields the item of `x`. */
  lemma DashLineItem(x: string, clean: string)
    requires x != [] && !IsDashOrSpace(x[0]) && !IsDashOrSpace(x[|x| - 1])
    requires !IsSpace(x[0]) && !IsSpace(x[|x| - 1])
    requires HashTags(x) != [] && CleanText(x) == clean
    ensures ItemOf("- " + x) == Some(ActionItem(clean, HashTags(x)))
  {
    assert forall c :: c in "- " ==> IsDashOrSpace(c);
    assert "- " + x + "" == "- " + x;
    TrimAround("- ", x, "", IsDashOrSpace);
    StripUnchanged(x);
  }

  /** A text with two tags and no other `#`: the names are found in
      order, and deleting the tags leaves the text around them. */
  lemma TwoTags(a: string, t1: string, b: string, t2: string, c: string)
    requires '#' !in a && '#' !in b && '#' !in c && IsName(t1) && IsName(t2)
    requires b != [] && !IsWordChar(b[0])
    requires c == [] || !IsWordChar(c[0])
    ensures HashTags(a + "#" + t1 + b + "#" + t2 + c) == [t1, t2]
    ensures RemoveHashTags(a + "#" + t1 + b + "#" + t2 + c) == a + b + c
  {
    var r1 := b + "#" + t2 + c;
    assert HashTags(r1) == [t2] && RemoveHashTags(r1) == b + c by {
      OneTag(b, t2, c);
    }
    assert a + "#" + t1 + b + "#" + t2 + c == a + "#" + t1 + r1;
    assert r1[0] == b[0];
    OneTagThen(a, t1, r1);
  }

  /** A tag between a text without `#` and the rest of the text. */
  lemma OneTagThen(a: string, t: string, r: string)
    requires '#' !in a && IsName(t)
    requires r == [] || !IsWordChar(r[0])
    ensures HashTags(a + "#" + t + r) == [t] + HashTags(r)
    ensures RemoveHashTags(a + "#" + t + r) == a + RemoveHashTags(r)
  {
    assert a + "#" + t + r == a + ("#" + t + r);
    PlainPrefix(a, "#" + t + r);
    TagPrefix(t, r);
  }

  /** A text with one tag and no other `#`. */
  lemma OneTag(a: string, t: string, c: string)
    requires '#' !in a && '#' !in c && IsName(t)
    requires c == [] || !IsWordChar(c[0])
    ensures HashTags(a + "#" + t + c) == [t]
    ensures RemoveHashTags(a + "#" + t + c) == a + c
  {
    assert HashTags(c) == [] && RemoveHashTags(c) == c by {
      assert c == c + [];
      PlainPrefix(c, []);
    }
    OneTagThen(a, t, c);
  }

  /** A word, then a run of whitespace, then the rest. */
  lemma WordSpaces(w: string, sp: string, r: string)
    requires NoSpace(w)
    requires sp != [] && forall c :: c in sp ==> IsSpace(c)
    requires r == [] || !IsSpace(r[0])
    ensures CollapseSpace(w + sp + r) == w + " " + CollapseSpace(r)
  {
    assert w + sp + r == w + (sp + r);
    WordPrefix(w, sp + r);
    SpacePrefix(sp, r);
  }

  /** Text without whitespace at its ends, followed by whitespace, is
      stripped back to the text. */
  lemma StripTrailing(body: string, sp: string)
    requires body != [] && !IsSpace(body[0]) && !IsSpace(body[|body| - 1])
    requires forall c :: c in sp ==> IsSpace(c)
    ensures Strip(body + sp) == body
  {
    assert [] + body + sp == body + sp;
    TrimAround([], body, sp, IsSpace);
  }

  /** No whitespace character. */
  predicate NoSpace(w: string) {
    forall c :: c in w ==> !IsSpace(c)
  }

  /** A line break-free note of one line gives the items of that line. */
  lemma OneLineNote(line: string, x: string, clean: string)
    requires line == "- " + x
    requires forall c :: c in line ==> !IsLineBoundary(c)
    requires x != [] && !IsDashOrSpace(x[0]) && !IsDashOrSpace(x[|x| - 1])
    requires !IsSpace(x[0]) && !IsSpace(x[|x| - 1])
    requires HashTags(x) != [] && CleanText(x) == clean
    ensures ItemsOf(SplitLines(line)) == [ActionItem(clean, HashTags(x))]
  {
    DashLineItem(x, clean);
    OneLineItems(line);
  }

  /** A character of plain prose: printable ASCII other than the space
      and `#`, CJK punctuation or a CJK ideograph. */
  predicate IsProseChar(c: char) {
    || ('!' <= c <= '~' && c != '#')
    || ('\U{3001}' <= c <= '\U{303F}')
    || ('\U{4E00}' <= c <= '\U{9FFF}')
  }

  lemma ProseChar(c: char)
    requires IsProseChar(c)
    ensures !IsSpace(c) && !IsLineBoundary(c) && c != '#' && c != ' '
  {
  }

  /** A word of prose: one or more prose characters. */
  predicate IsWord(w: string) {
    w != [] && forall c :: c in w ==> IsProseChar(c)
  }

  /** A gap between words: one or more plain spaces. */
  predicate IsGap(g: string) {
    g != [] && forall c :: c in g ==> c == ' '
  }

  /** Words, each followed by its gap. */
  predicate IsProse(ws: seq<string>, gaps: seq<string>) {
    |ws| == |gaps| && forall i :: 0 <= i < |ws| ==> IsWord(ws[i]) && IsGap(gaps[i])
  }

  /** The text of `ws`, each word followed by its gap. */
  function Spaced(ws: seq<string>, gaps: seq<string>): string
    requires |ws| == |gaps|
  {
    if ws == [] then [] else ws[0] + gaps[0] + Spaced(ws[1..], gaps[1..])
  }

  /** `" ".join(ws)`. */
  function JoinWords(ws: seq<string>): string {
    if ws == [] then []
    else if |ws| == 1 then ws[0]
    else ws[0] + " " + JoinWords(ws[1..])
  }

  lemma SpacedCons(w: string, g: string, ws: seq<string>, gaps: seq<string>)
    requires |ws| == |gaps|
    ensures Spaced([w] + ws, [g] + gaps) == w + g + Spaced(ws, gaps)
  {
    assert ([w] + ws)[1..] == ws && ([g] + gaps)[1..] == gaps;
  }

  lemma JoinCons(w: string, ws: seq<string>)
    requires ws != []
    ensures JoinWords([w] + ws) == w + " " + JoinWords(ws)
  {
    assert ([w] + ws)[1..] == ws;
  }

  /** Prose holds only prose characters and spaces. */
  lemma {:induction false} SpacedChars(ws: seq<string>, gaps: seq<string>)
    requires IsProse(ws, gaps)
    ensures forall c :: c in Spaced(ws, gaps) ==> IsProseChar(c) || c == ' '
    decreases |ws|
  {
    if ws != [] {
      SpacedChars(ws[1..], gaps[1..]);
      assert IsWord(ws[0]) && IsGap(gaps[0]);
    }
  }

  /** Joined words start and end with a prose character. */
  lemma {:induction false} JoinWordsEnds(ws: seq<string>)
    requires ws != [] && forall i :: 0 <= i < |ws| ==> IsWord(ws[i])
    ensures var j := JoinWords(ws); j != [] && IsProseChar(j[0]) && IsProseChar(j[|j| - 1])
    decreases |ws|
  {
    var w := ws[0];
    assert IsWord(w) && w[0] in w && w[|w| - 1] in w;
    if |ws| > 1 {
      JoinWordsEnds(ws[1..]);
    }
  }

  /** Collapsing the whitespace of prose joins its words with single
      spaces, one space left at the end. */
  lemma {:induction false} CollapseSpaced(ws: seq<string>, gaps: seq<string>)
    requires ws != [] && IsProse(ws, gaps)
    ensures CollapseSpace(Spaced(ws, gaps)) == JoinWords(ws) + " "
    decreases |ws|
  {
    var w, g, rest := ws[0], gaps[0], Spaced(ws[1..], gaps[1..]);
    assert IsWord(w) && IsGap(g);
    assert NoSpace(w) by {
      forall c | c in w ensures !IsSpace(c) {
        ProseChar(c);
      }
    }
    if |ws| == 1 {
      assert rest == [];
    } else {
      var v := ws[1];
      assert IsWord(v) && v[0] in v;
      ProseChar(v[0]);
      assert rest[0] == v[0];
      CollapseSpaced(ws[1..], gaps[1..]);
    }
    WordSpaces(w, g, rest);
  }

  /** What prose cleans to: its words joined with single spaces. */
  lemma CleanSpaced(ws: seq<string>, gaps: seq<string>)
    requires ws != [] && IsProse(ws, gaps)
    ensures Strip(CollapseSpace(Spaced(ws, gaps))) == JoinWords(ws)
  {
    CollapseSpaced(ws, gaps);
    JoinWordsEnds(ws);
    var j := JoinWords(ws);
    ProseChar(j[0]);
    ProseChar(j[|j| - 1]);
    StripTrailing(j, " ");
  }

  /** No `#` and no line boundary in the parts of prose. */
  lemma ProseParts(a: string, b: string, ws: seq<string>, gaps: seq<string>)
    requires IsProse(ws, gaps) && a + b == Spaced(ws, gaps)
    ensures '#' !in a && '#' !in b
    ensures forall c :: c in a + b ==> !IsLineBoundary(c) && (c == ' ' || !IsSpace(c))
  {
    SpacedChars(ws, gaps);
    forall c | c in a + b ensures c != '#' && !IsLineBoundary(c) && (c == ' ' || !IsSpace(c)) {
      if c != ' ' {
        ProseChar(c);
      }
    }
    assert forall c :: c in a ==> c in a + b;
    assert forall c :: c in b ==> c in a + b;
  }

  /** No line boundary character. */
  predicate NoBoundary(s: string) {
    forall c :: c in s ==> !IsLineBoundary(c)
  }

  lemma BoundaryFree(p: string, q: string)
    requires NoBoundary(p) && NoBoundary(q)
    ensures NoBoundary(p + q)
  {
  }

  /** A name has no line boundary, dash or whitespace. */
  lemma NameChars(t: string)
    requires IsName(t)
    ensures forall c :: c in t ==> !IsLineBoundary(c) && !IsSpace(c) && !IsDashOrSpace(c) && c != '#'
  {
  }

  /** The text `x` of a note line: non-blank at both ends, free of line
      boundaries, with the tags `tags` and the clean text `clean`. */
  predicate IsNoteText(x: string, tags: seq<string>, clean: string) {
    && x != [] && !IsDashOrSpace(x[0]) && !IsDashOrSpace(x[|x| - 1])
    && !IsSpace(x[0]) && !IsSpace(x[|x| - 1])
    && NoBoundary(x) && HashTags(x) == tags && CleanText(x) == clean
  }

  /** A note line `- x` whose text is a note text with tags is one item. */
  lemma NoteLine(x: string, tags: seq<string>, clean: string)
    requires IsNoteText(x, tags, clean) && tags != []
    ensures ItemsOf(SplitLines("- " + x)) == [ActionItem(clean, tags)]
  {
    BoundaryFree("- ", x);
    OneLineNote("- " + x, x, clean);
  }

  /** `a#t1 b#t2`, where `a` and `b` together are prose, is a note text:
      the tags are `t1` then `t2`, the clean text is the prose's words
      joined by single spaces. */
  lemma TwoTagText(a: string, t1: string, b: string, t2: string, ws: seq<string>, gaps: seq<string>)
    requires ws != [] && IsProse(ws, gaps) && a + b == Spaced(ws, gaps)
    requires a != [] && a[0] != '-' && a[0] != ' '
    requires b != [] && !IsWordChar(b[0])
    requires IsName(t1) && IsName(t2)
    ensures IsNoteText(a + "#" + t1 + b + "#" + t2, [t1, t2], JoinWords(ws))
  {
    var x := a + "#" + t1 + b + "#" + t2;
    ProseParts(a, b, ws, gaps);
    NameChars(t1);
    NameChars(t2);
    assert x[0] == a[0] && a[0] in a + b;
    assert x[|x| - 1] == t2[|t2| - 1] && t2[|t2| - 1] in t2;
    assert NoBoundary(x) by {
      BoundaryFree(a, "#");
      BoundaryFree(a + "#", t1);
      BoundaryFree(a + "#" + t1, b);
      BoundaryFree(a + "#" + t1 + b, "#");
      BoundaryFree(a + "#" + t1 + b + "#", t2);
    }
    assert HashTags(x) == [t1, t2] && RemoveHashTags(x) == a + b by {
      assert x + [] == x && a + b + [] == a + b;
      TwoTags(a, t1, b, t2, []);
    }
    CleanSpaced(ws, gaps);
  }

  /** `a#t`, where `a` is prose, is a note text tagged `t`. */
  lemma OneTagText(a: string, t: string, ws: seq<string>, gaps: seq<string>)
    requires ws != [] && IsProse(ws, gaps) && a == Spaced(ws, gaps)
    requires a[0] != '-' && a[0] != ' '
    requires IsName(t)
    ensures IsNoteText(a + "#" + t, [t], JoinWords(ws))
  {
    var x := a + "#" + t;
    assert a + [] == a;
    ProseParts(a, [], ws, gaps);
    NameChars(t);
    assert x[0] == a[0] && a[0] in a + [];
    assert x[|x| - 1] == t[|t| - 1] && t[|t| - 1] in t;
    assert NoBoundary(x) by {
      BoundaryFree(a, "#");
      BoundaryFree(a + "#", t);
    }
    assert HashTags(x) == [t] && RemoveHashTags(x) == a by {
      assert x + [] == x;
      OneTag(a, t, []);
    }
    CleanSpaced(ws, gaps);
  }

  /** The note `- a#t1 b#t2`, where `a` and `b` together are prose, is one
      item: the prose's words joined by single spaces, tagged `t1` and `t2`;
      `extract_tags` finds the same two names. */
  lemma TwoTagNote(a: string, t1: string, b: string, t2: string, ws: seq<string>, gaps: seq<string>)
    requires ws != [] && IsProse(ws, gaps) && a + b == Spaced(ws, gaps)
    requires a != [] && a[0] != '-' && a[0] != ' '
    requires b != [] && !IsWordChar(b[0])
    requires IsName(t1) && IsName(t2)
    ensures ItemsOf(SplitLines("- " + a + "#" + t1 + b + "#" + t2)) == [ActionItem(JoinWords(ws), [t1, t2])]
    ensures ExtractTags("- " + a + "#" + t1 + b + "#" + t2) == [t1, t2]
  {
    var line := "- " + a + "#" + t1 + b + "#" + t2;
    var x := a + "#" + t1 + b + "#" + t2;
    assert line == "- " + x;
    assert ItemsOf(SplitLines("- " + x)) == [ActionItem(JoinWords(ws), [t1, t2])] by {
      TwoTagText(a, t1, b, t2, ws, gaps);
      NoteLine(x, [t1, t2], JoinWords(ws));
    }
    assert HashTags(line) == [t1, t2] by {
      ProseParts(a, b, ws, gaps);
      assert line + [] == line;
      TwoTags("- " + a, t1, b, t2, []);
    }
  }

  /** The note `- a#t`, where `a` is prose, is one item: the prose's words
      joined by single spaces, tagged `t`. */
  lemma OneTagNote(a: string, t: string, ws: seq<string>, gaps: seq<string>)
    requires ws != [] && IsProse(ws, gaps) && a == Spaced(ws, gaps)
    requires a[0] != '-' && a[0] != ' '
    requires IsName(t)
    ensures ItemsOf(SplitLines("- " + a + "#" + t)) == [ActionItem(JoinWords(ws), [t])]
  {
    var x := a + "#" + t;
    assert "- " + a + "#" + t == "- " + x;
    OneTagText(a, t, ws, gaps);
    NoteLine(x, [t], JoinWords(ws));
  }

  /** The note `- TODO: deploy #infra and notify #team`, written here in
      its pieces, is one item with the text `TODO: deploy and notify` and
      the tags `infra` and `team`; `extract_tags` finds the same names. */
  lemma DeployExample(line: string)
    requires line == "- " + "TODO: deploy " + "#" + "infra" + " and notify " + "#" + "team"
    ensures ItemsOf(SplitLines(line)) == [ActionItem("TODO: deploy and notify", ["infra", "team"])]
    ensures ExtractTags(line) == ["infra", "team"]
  {
    var ws, gaps := ["TODO:", "deploy", "and", "notify"], [" ", "  ", " ", " "];
    assert IsProse(ws, gaps) && "TODO: deploy " + " and notify " == Spaced(ws, gaps) by {
      DeployProse(ws, gaps);
    }
    assert JoinWords(ws) == "TODO: deploy and notify" by {
      DeployJoin(ws);
    }
    TwoTagNote("TODO: deploy ", "infra", " and notify ", "team", ws, gaps);
  }

  lemma DeployProse(ws: seq<string>, gaps: seq<string>)
    requires ws == ["TODO:", "deploy", "and", "notify"] && gaps == [" ", "  ", " ", " "]
    ensures IsProse(ws, gaps) && "TODO: deploy " + " and notify " == Spaced(ws, gaps)
  {
    DeployText();
    DeploySpaced(ws, gaps);
    DeployWords();
  }

  lemma DeployText()
    ensures "TODO: deploy " + " and notify " == "TODO:" + " " + ("deploy" + "  " + ("and" + " " + ("notify" + " " + [])))
  {
  }

  lemma DeployWords()
    ensures IsWord("TODO:") && IsWord("deploy") && IsWord("and") && IsWord("notify")
  {
  }

  lemma DeploySpaced(ws: seq<string>, gaps: seq<string>)
    requires ws == ["TODO:", "deploy", "and", "notify"] && gaps == [" ", "  ", " ", " "]
    ensures Spaced(ws, gaps) == "TODO:" + " " + ("deploy" + "  " + ("and" + " " + ("notify" + " " + [])))
  {
    assert ws == ["TODO:"] + (["deploy"] + (["and"] + ["notify"]));
    assert gaps == [" "] + (["  "] + ([" "] + [" "]));
    SpacedCons("notify", " ", [], []);
    SpacedCons("and", " ", ["notify"], [" "]);
    SpacedCons("deploy", "  ", ["and"] + ["notify"], [" "] + [" "]);
    SpacedCons("TODO:", " ", ["deploy"] + (["and"] + ["notify"]), ["  "] + ([" "] + [" "]));
  }

  lemma DeployJoin(ws: seq<string>)
    requires ws == ["TODO:", "deploy", "and", "notify"]
    ensures JoinWords(ws) == "TODO: deploy and notify"
  {
    assert ws == ["TODO:"] + (["deploy"] + (["and"] + ["notify"]));
    JoinCons("and", ["notify"]);
    JoinCons("deploy", ["and"] + ["notify"]);
    JoinCons("TODO:", ["deploy"] + (["and"] + ["notify"]));
    assert "TODO: deploy and notify" == "TODO:" + " " + ("deploy" + " " + ("and" + " " + "notify"));
  }

  /** The note `- 记得回复邮件 #work #urgent`, written here in its pieces,
      is one item with the text `记得回复邮件` and the tags `work` and
      `urgent`, in that order. */
  lemma ReplyExample(line: string)
    requires line == "- " + "记得回复邮件 " + "#" + "work" + " " + "#" + "urgent"
    ensures ItemsOf(SplitLines(line)) == [ActionItem("记得回复邮件", ["work", "urgent"])]
  {
    var ws, gaps := ["记得回复邮件"], ["  "];
    assert IsProse(ws, gaps) && "记得回复邮件 " + " " == Spaced(ws, gaps) by {
      ReplyProse(ws, gaps);
    }
    TwoTagNote("记得回复邮件 ", "work", " ", "urgent", ws, gaps);
  }

  lemma ReplyProse(ws: seq<string>, gaps: seq<string>)
    requires ws == ["记得回复邮件"] && gaps == ["  "]
    ensures IsProse(ws, gaps) && "记得回复邮件 " + " " == Spaced(ws, gaps)
  {
  }

  /** The note `- TODO: 买牛奶 #shopping`, written here in its pieces, is one
      item with the text `TODO: 买牛奶` and the tag `shopping`. */
  lemma ShoppingExample(line: string)
    requires line == "- " + "TODO: 买牛奶 " + "#" + "shopping"
    ensures ItemsOf(SplitLines(line)) == [ActionItem("TODO: 买牛奶", ["shopping"])]
  {
    var ws, gaps := ["TODO:", "买牛奶"], [" ", " "];
    assert IsProse(ws, gaps) && "TODO: 买牛奶 " == Spaced(ws, gaps) by {
      ShoppingProse(ws, gaps);
    }
    assert JoinWords(ws) == "TODO: 买牛奶";
    OneTagNote("TODO: 买牛奶 ", "shopping", ws, gaps);
  }

  lemma ShoppingProse(ws: seq<string>, gaps: seq<string>)
    requires ws == ["TODO:", "买牛奶"] && gaps == [" ", " "]
    ensures IsProse(ws, gaps) && "TODO: 买牛奶 " == Spaced(ws, gaps)
  {
    assert ws == ["TODO:"] + ["买牛奶"] && gaps == [" "] + [" "];
    SpacedCons("买牛奶", " ", [], []);
    SpacedCons("TODO:", " ", ["买牛奶"], [" "]);
    assert "TODO: 买牛奶 " == "TODO:" + " " + ("买牛奶" + " " + []);
  }

  /** `extract_tags` finds `world` in `Hello #world`, and `alpha` then
      `beta` in `Tagged as #alpha and #beta today`. */
  lemma TagExamples(s1: string, s2: string)
    requires s1 == "Hello " + "#" + "world"
    requires s2 == "Tagged as " + "#" + "alpha" + " and " + "#" + "beta" + " today"
    ensures ExtractTags(s1) == ["world"]
    ensures ExtractTags(s2) == ["alpha", "beta"]
  {
    assert ExtractTags(s1) == ["world"] by {
      assert s1 == "Hello " + "#" + "world" + [];
      OneTag("Hello ", "world", []);
    }
    TwoTags("Tagged as ", "alpha", " and ", "beta", " today");
  }
}
