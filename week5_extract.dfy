/** The week5 note parsers: `!` and `todo:` lines, the distinct hashtags of
    a note, and the unchecked markdown checkboxes. */
module Week5Extract {
  import opened Common
  import opened Dedup
  import opened Hashtags

  // ---------------------------------------------------------------------------
  // extract_action_items
  // ---------------------------------------------------------------------------

  /** The first comprehension: a non-blank line, trimmed of `-` and space. */
  function TrimmedLine(line: string): Option<string> {
    if Strip(line) == [] then None else Some(Trim(line, IsDashOrSpace))
  }

  /** The condition of the second comprehension. */
  predicate IsActionLine(line: string) {
    EndsWith(line, "!") || StartsWith(Lower(line), "todo:")
  }

  function KeepAction(line: string): Option<string> {
    if IsActionLine(line) then Some(line) else None
  }

  /** `extract_action_items(text)`: the trimmed non-blank lines, then those
      that end with `!` or start with `todo:` ignoring case. */
  function ExtractActionItems(text: string): seq<string> {
    FilterMap(FilterMap(SplitLines(text), TrimmedLine), KeepAction)
  }

  /** Line `i` of `lines`, trimmed, is the item `x`. */
  predicate YieldsItem(lines: seq<string>, i: nat, x: string) {
    i < |lines| && Strip(lines[i]) != [] && x == Trim(lines[i], IsDashOrSpace) && IsActionLine(x)
  }

  /** An item is exactly a non-blank line of the text, trimmed of `-` and
      space at both ends, that ends with `!` or whose lowered form starts
      with `todo:`. */
  lemma ActionItemsMembers(text: string)
    ensures forall x :: x in ExtractActionItems(text) ==> exists i: nat :: YieldsItem(SplitLines(text), i, x)
    ensures forall x, i: nat :: YieldsItem(SplitLines(text), i, x) ==> x in ExtractActionItems(text)
    ensures |ExtractActionItems(text)| <= |SplitLines(text)|
  {
    var lines := SplitLines(text);
    FilterMapTwice(lines, TrimmedLine, KeepAction);
    assert |FilterMap(lines, TrimmedLine)| <= |lines|;
    forall x | x in ExtractActionItems(text)
      ensures exists i: nat :: YieldsItem(SplitLines(text), i, x)
    {
      var i :| 0 <= i < |lines| && TrimmedLine(lines[i]).Some? && KeepAction(TrimmedLine(lines[i]).value) == Some(x);
      assert YieldsItem(SplitLines(text), i, x);
    }
    forall x, i: nat | YieldsItem(lines, i, x)
      ensures x in ExtractActionItems(text)
    {
      assert TrimmedLine(lines[i]) == Some(x) && KeepAction(x) == Some(x);
    }
  }

  // ---------------------------------------------------------------------------
  // extract_tags
  // ---------------------------------------------------------------------------

  /** The key under which `seen` compares tag names: the name itself. */
  function Name(t: string): string {
    t
  }

  /** `extract_tags(text)`: the loop over `re.findall(r"#(\w+)", text)` that
      keeps each name the first time it is seen. */
  method ExtractTags(text: string) returns (result: seq<string>)
    ensures result == DedupBy(HashTags(text), Name)
  {
    var found := HashTags(text);
    var seen: set<string> := {};
    result := [];
    for i := 0 to |found|
      invariant result == DedupBy(found[..i], Name)
      invariant seen == KeySet(result, Name)
    {
      var name := found[i];
      assert found[..i + 1] == found[..i] + [name];
      DedupBySnoc(found[..i], name, Name);
      if name !in seen {
        KeySetSnoc(result, name, Name);
        seen := seen + {name};
        result := result + [name];
      }
    }
    assert found[..|found|] == found;
  }

  /** The unique tags: no name twice; the same names as the tags of the text;
      in the order of their first occurrence; none exactly when the text has
      no `#` followed by a word character. */
  lemma UniqueTagsContract(text: string)
    ensures var tags := DedupBy(HashTags(text), Name);
      && (forall i, j :: 0 <= i < j < |tags| ==> tags[i] != tags[j])
      && (forall t :: t in tags <==> t in HashTags(text))
      && (forall i, j :: 0 <= i < j < |tags| ==>
            tags[i] in HashTags(text) && tags[j] in HashTags(text) &&
            FirstIndex(HashTags(text), Name, tags[i]) < FirstIndex(HashTags(text), Name, tags[j]))
      && (tags == [] <==> NoHashTag(text))
  {
    var found := HashTags(text);
    var tags := DedupBy(found, Name);
    DedupByDistinct(found, Name);
    DedupByKeys(found, Name);
    DedupByFirstSeen(found, Name);
    NameKeys(found);
    NameKeys(tags);
    HashTagsEmpty(text);
    if found != [] {
      assert found[0] in found;
    }
  }

  /** Under `Name`, the keys of a list are its elements. */
  lemma NameKeys(xs: seq<string>)
    ensures forall t :: t in xs <==> t in KeySet(xs, Name)
  {
    forall t | t in xs
      ensures t in KeySet(xs, Name)
    {
      var i :| 0 <= i < |xs| && xs[i] == t;
      assert Name(xs[i]) == t;
    }
  }

  // ---------------------------------------------------------------------------
  // extract_tasks
  // ---------------------------------------------------------------------------

  /** The marker `- [ ] ` of an unchecked checkbox. */
  const TaskMarker: string := "- [ ] "

  /** The group of `^- \[ \] (.+)$` on one line: with `re.MULTILINE`, `^`
      and `$` sit at the line's ends, `.` takes everything but `\n`, and
      `.+` needs one character. */
  function TaskOf(line: string): (t: Option<string>)
    ensures t.Some? ==> line == TaskMarker + t.value
  {
    if StartsWith(line, TaskMarker) && |line| > |TaskMarker| then Some(line[|TaskMarker|..]) else None
  }

  /** `extract_tasks(text)`: the matches never span a `\n`, so the search is
      one test per line. */
  function ExtractTasks(text: string): seq<string> {
    FilterMap(NewlineSegments(text), TaskOf)
  }

  /** A task is exactly the non-empty remainder of a line that begins with
      `- [ ] `; it holds no newline. */
  lemma TasksContract(text: string)
    ensures var lines := NewlineSegments(text);
      forall t :: t in ExtractTasks(text) <==> t != [] && exists i :: 0 <= i < |lines| && lines[i] == TaskMarker + t
    ensures forall t :: t in ExtractTasks(text) ==> t != [] && '\n' !in t
  {
    var lines := NewlineSegments(text);
    FilterMapMembers(lines, TaskOf);
    forall t | t in ExtractTasks(text)
      ensures t != [] && '\n' !in t && exists i :: 0 <= i < |lines| && lines[i] == TaskMarker + t
    {
      var i :| 0 <= i < |lines| && TaskOf(lines[i]) == Some(t);
      assert lines[i] in lines;
      assert forall c :: c in t ==> c in lines[i];
    }
    forall t | t != [] && exists i :: 0 <= i < |lines| && lines[i] == TaskMarker + t
      ensures t in ExtractTasks(text)
    {
      var i :| 0 <= i < |lines| && lines[i] == TaskMarker + t;
      assert StartsWith(lines[i], TaskMarker);
      assert lines[i][|TaskMarker|..] == t;
      assert TaskOf(lines[i]) == Some(t);
    }
  }

  /** Checked boxes do not count, and neither does a marker after other text
      on its line. */
  lemma NotATaskExamples(checked: string, inline: string)
    requires checked == "- [x] already done"
    requires inline == "#python - [ ] write tests"
    ensures TaskOf(checked).None? && TaskOf(inline).None?
  {
    assert checked[..6][3] != TaskMarker[3];
    assert inline[..6][0] != TaskMarker[0];
  }
}
