/** Values and string operations shared by every part of the model: an Option
    type for Python's `None`, and the `str` methods and regular-expression
    character classes the source relies on, written out character by character. */
module Common {

  /** Python's `Optional[...]`: `None` or a present value. */
  datatype Option<+T> = None | Some(value: T) {
    /** `x if x is not None else default`, as in `d.get(key, default)`. */
    function GetOr(default: T): T {
      match this
      case Some(v) => v
      case None => default
    }
  }

  /** Python truthiness of an `Optional[str]`: present and non-empty. */
  predicate Filled(o: Option<string>) {
    o.Some? && o.value != []
  }

  // ---------------------------------------------------------------------------
  // Character classes
  // ---------------------------------------------------------------------------

  /** `str.isspace()`, which is also what `\s`, `str.strip()` and `str.split()`
      use: the characters whose bidirectional class is WS, B or S, or whose
      category is Zs. */
  predicate IsSpace(c: char) {
    || ('\t' <= c <= '\r')
    || ('\U{1C}' <= c <= '\U{1F}')
    || c == ' '
    || c == '\U{85}'
    || c == '\U{A0}'
    || c == '\U{1680}'
    || ('\U{2000}' <= c <= '\U{200A}')
    || c == '\U{2028}'
    || c == '\U{2029}'
    || c == '\U{202F}'
    || c == '\U{205F}'
    || c == '\U{3000}'
  }

  /** The line boundaries of `str.splitlines()`; `\r\n` counts as one boundary. */
  predicate IsLineBoundary(c: char) {
    || c == '\n'
    || c == '\r'
    || c == '\U{0B}'
    || c == '\U{0C}'
    || ('\U{1C}' <= c <= '\U{1E}')
    || c == '\U{85}'
    || c == '\U{2028}'
    || c == '\U{2029}'
  }

  predicate IsAsciiLetter(c: char) {
    ('a' <= c <= 'z') || ('A' <= c <= 'Z')
  }

  /** `\d`, restricted to the ASCII digits. */
  predicate IsDigit(c: char) {
    '0' <= c <= '9'
  }

  /** `\w`, restricted to ASCII letters, digits and the underscore. */
  predicate IsWordChar(c: char) {
    IsAsciiLetter(c) || IsDigit(c) || c == '_'
  }

  /** `str.lower()` on one character, restricted to the ASCII letters. */
  function LowerChar(c: char): char {
    if 'A' <= c <= 'Z' then (c as int + 32) as char else c
  }

  /** `str.lower()`, restricted to the ASCII letters. */
  function Lower(s: string): (r: string)
    ensures |r| == |s|
  {
    seq(|s|, i requires 0 <= i < |s| => LowerChar(s[i]))
  }

  // ---------------------------------------------------------------------------
  // Prefixes, suffixes, containment
  // ---------------------------------------------------------------------------

  /** `s.startswith(p)`. */
  predicate StartsWith(s: string, p: string) {
    |p| <= |s| && s[..|p|] == p
  }

  /** `s.endswith(p)`. */
  predicate EndsWith(s: string, p: string) {
    |p| <= |s| && s[|s| - |p|..] == p
  }

  /** `sub in s`. */
  predicate Contains(s: string, sub: string)
    decreases |s|
  {
    StartsWith(s, sub) || (s != [] && Contains(s[1..], sub))
  }

  /** `s.removeprefix(p)`. */
  function RemovePrefix(s: string, p: string): string {
    if StartsWith(s, p) then s[|p|..] else s
  }

  /** `removeprefix` drops `p` exactly when `s` starts with it, and nothing
      else. */
  lemma RemovePrefixContract(s: string, p: string)
    ensures StartsWith(s, p) ==> s == p + RemovePrefix(s, p)
    ensures !StartsWith(s, p) ==> RemovePrefix(s, p) == s
  {
    if StartsWith(s, p) {
      assert s == s[..|p|] + s[|p|..];
    }
  }

  // ---------------------------------------------------------------------------
  // Stripping
  // ---------------------------------------------------------------------------

  /** The first position at or after `i` whose character is kept. */
  function SkipStart(s: string, drop: char -> bool, i: nat): (r: nat)
    requires i <= |s|
    ensures i <= r <= |s|
    ensures r < |s| ==> !drop(s[r])
    decreases |s| - i
  {
    if i < |s| && drop(s[i]) then SkipStart(s, drop, i + 1) else i
  }

  /** The end of the kept part of `s[..j]`: the last kept position plus one. */
  function SkipEnd(s: string, drop: char -> bool, j: nat): (r: nat)
    requires j <= |s|
    ensures r <= j
    ensures r > 0 ==> !drop(s[r - 1])
    decreases j
  {
    if j > 0 && drop(s[j - 1]) then SkipEnd(s, drop, j - 1) else j
  }

  /** Drops the leading characters that satisfy `drop`. */
  function TrimStart(s: string, drop: char -> bool): string {
    s[SkipStart(s, drop, 0)..]
  }

  /** Drops the trailing characters that satisfy `drop`. */
  function TrimEnd(s: string, drop: char -> bool): string {
    s[..SkipEnd(s, drop, |s|)]
  }

  /** `s.strip()` when `drop` is `IsSpace`, `s.strip(chars)` when `drop` tests
      membership in `chars`: the longest slice of `s` that neither starts nor
      ends with a dropped character. */
  function Trim(s: string, drop: char -> bool): string {
    TrimEnd(TrimStart(s, drop), drop)
  }

  /** `s.strip()`. */
  function Strip(s: string): string {
    Trim(s, IsSpace)
  }

  /** Membership in the set of characters `"- "`, the argument of `strip("- ")`. */
  predicate IsDashOrSpace(c: char) {
    c == '-' || c == ' '
  }

  /** A string whose ends are not whitespace is its own `strip()`. */
  lemma StripUnchanged(s: string)
    requires s != [] ==> !IsSpace(s[0]) && !IsSpace(s[|s| - 1])
    ensures Strip(s) == s
  {
    assert TrimStart(s, IsSpace) == s;
  }

  /** What `strip` leaves is a slice of its input that neither starts nor ends
      with a stripped character. */
  lemma TrimSlice(s: string, drop: char -> bool)
    ensures exists a, b :: 0 <= a <= b <= |s| && Trim(s, drop) == s[a..b]
    ensures Trim(s, drop) != [] ==> !drop(Trim(s, drop)[0]) && !drop(Trim(s, drop)[|Trim(s, drop)| - 1])
  {
    var a := SkipStart(s, drop, 0);
    var t := s[a..];
    var b := SkipEnd(t, drop, |t|);
    assert Trim(s, drop) == t[..b] == s[a..a + b];
    if b > 0 {
      assert t[0] == s[a];
    }
  }

  // ---------------------------------------------------------------------------
  // Scanning runs of characters
  // ---------------------------------------------------------------------------

  /** The end of the run of characters satisfying `p` that starts at `i`. */
  function RunEnd(s: string, i: nat, p: char -> bool): (j: nat)
    requires i <= |s|
    ensures i <= j <= |s|
    ensures j < |s| ==> !p(s[j])
    decreases |s| - i
  {
    if i < |s| && p(s[i]) then RunEnd(s, i + 1, p) else i
  }

  /** Every character of the run satisfies `p`. */
  lemma {:induction false} RunEndAll(s: string, i: nat, p: char -> bool)
    requires i <= |s|
    ensures forall k :: i <= k < RunEnd(s, i, p) ==> p(s[k])
    decreases |s| - i
  {
    if i < |s| && p(s[i]) {
      RunEndAll(s, i + 1, p);
    }
  }

  /** A run that is known to stop at `j` ends there. */
  lemma {:induction false} RunEndAt(s: string, i: nat, j: nat, p: char -> bool)
    requires i <= j <= |s|
    requires forall k :: i <= k < j ==> p(s[k])
    requires j < |s| ==> !p(s[j])
    ensures RunEnd(s, i, p) == j
    decreases j - i
  {
    if i < j {
      RunEndAt(s, i + 1, j, p);
    }
  }

  /** A run inside `r` ends at the same place inside `p + r`. */
  lemma {:induction false} RunEndShift(p: string, r: string, i: nat, q: char -> bool)
    requires i <= |r|
    ensures RunEnd(p + r, |p| + i, q) == |p| + RunEnd(r, i, q)
    decreases |r| - i
  {
    if i < |r| {
      assert (p + r)[|p| + i] == r[i];
      RunEndShift(p, r, i + 1, q);
    }
  }

  /** A run over all of `p` that `r` does not continue ends where `p` does. */
  lemma RunPrefix(p: string, r: string, q: char -> bool)
    requires forall c :: c in p ==> q(c)
    requires r == [] || !q(r[0])
    ensures RunEnd(p + r, 0, q) == |p|
  {
    var s := p + r;
    assert forall k :: 0 <= k < |p| ==> s[k] == p[k] && p[k] in p;
    assert |p| < |s| ==> s[|p|] == r[0];
    RunEndAt(s, 0, |p|, q);
  }

  /** Dropped characters around a string whose ends are kept are exactly
      what `strip` removes. */
  lemma TrimAround(p: string, b: string, q: string, drop: char -> bool)
    requires forall c :: c in p ==> drop(c)
    requires forall c :: c in q ==> drop(c)
    requires b != [] && !drop(b[0]) && !drop(b[|b| - 1])
    ensures Trim(p + b + q, drop) == b
  {
    var s := p + b + q;
    assert s == p + (b + q);
    SkipStartRun(s, drop, 0);
    RunPrefix(p, b + q, drop);
    var t := s[|p|..];
    assert t == b + q;
    SkipEndAt(t, drop, |t|, |b|);
    assert t[..|b|] == b;
  }

  /** `SkipEnd` stops at the last kept character. */
  lemma {:induction false} SkipEndAt(s: string, drop: char -> bool, j: nat, b: nat)
    requires 0 < b <= j <= |s|
    requires forall c :: c in s[b..j] ==> drop(c)
    requires !drop(s[b - 1])
    ensures SkipEnd(s, drop, j) == b
    decreases j - b
  {
    if b < j {
      assert s[j - 1] in s[b..j];
      assert s[b..j - 1] <= s[b..j];
      SkipEndAt(s, drop, j - 1, b);
    }
  }

  /** `SkipStart` is the end of the run of dropped characters. */
  lemma {:induction false} SkipStartRun(s: string, drop: char -> bool, i: nat)
    requires i <= |s|
    ensures SkipStart(s, drop, i) == RunEnd(s, i, drop)
    decreases |s| - i
  {
    if i < |s| && drop(s[i]) {
      SkipStartRun(s, drop, i + 1);
    }
  }

  // ---------------------------------------------------------------------------
  // Splitting
  // ---------------------------------------------------------------------------

  /** The first line boundary at or after `i`, or `|s|`. */
  function BoundaryFrom(s: string, i: nat): (j: nat)
    requires i <= |s|
    ensures i <= j <= |s|
    ensures forall k :: i <= k < j ==> !IsLineBoundary(s[k])
    ensures j < |s| ==> IsLineBoundary(s[j])
  {
    RunEndAll(s, i, c => !IsLineBoundary(c));
    RunEnd(s, i, c => !IsLineBoundary(c))
  }

  /** `s.splitlines()`: the text between line boundaries, where `\r\n` is one
      boundary and a final boundary does not start another line. */
  function SplitLines(s: string): seq<string>
    decreases |s|
  {
    if s == [] then []
    else
      var i := BoundaryFrom(s, 0);
      if i == |s| then [s]
      else
        var next := if s[i] == '\r' && i + 1 < |s| && s[i + 1] == '\n' then i + 2 else i + 1;
        [s[..i]] + SplitLines(s[next..])
  }

  /** No line of `s.splitlines()` contains a line boundary. */
  lemma {:induction false} SplitLinesNoBoundary(s: string)
    ensures forall l :: l in SplitLines(s) ==> forall c :: c in l ==> !IsLineBoundary(c)
    decreases |s|
  {
    if s != [] {
      var i := BoundaryFrom(s, 0);
      if i == |s| {
        assert SplitLines(s) == [s];
      } else {
        var next := if s[i] == '\r' && i + 1 < |s| && s[i + 1] == '\n' then i + 2 else i + 1;
        SplitLinesNoBoundary(s[next..]);
        assert SplitLines(s) == [s[..i]] + SplitLines(s[next..]);
        assert forall c :: c in s[..i] ==> !IsLineBoundary(c);
      }
    }
  }

  /** A non-empty text without line boundaries is one line. */
  lemma SplitLinesOne(s: string)
    requires s != [] && forall c :: c in s ==> !IsLineBoundary(c)
    ensures SplitLines(s) == [s]
  {
    assert forall k :: 0 <= k < |s| ==> s[k] in s;
    RunEndAt(s, 0, |s|, c => !IsLineBoundary(c));
  }

  /** `s.split(c)` with an explicit one-character separator: the pieces
      between occurrences of `c`, empty pieces included. */
  function SplitOn(s: string, c: char): (pieces: seq<string>)
    ensures |pieces| >= 1
    ensures forall l :: l in pieces ==> c !in l
    decreases |s|
  {
    var i := RunEnd(s, 0, x => x != c);
    RunEndAll(s, 0, x => x != c);
    if i == |s| then [s] else [s[..i]] + SplitOn(s[i + 1..], c)
  }

  /** The lines that a multi-line regular expression sees: the pieces of `s`
      between `'\n'` characters, the last one possibly empty. */
  function NewlineSegments(s: string): seq<string> {
    SplitOn(s, '\n')
  }

  /** `sep.join(parts)`. */
  function Join(parts: seq<string>, sep: string): string {
    if parts == [] then []
    else if |parts| == 1 then parts[0]
    else parts[0] + sep + Join(parts[1..], sep)
  }

  /** Splitting on the separator undoes joining with it, as long as no part
      contains the separator. */
  lemma {:induction false} SplitJoin(parts: seq<string>, c: char)
    requires parts != []
    requires forall i :: 0 <= i < |parts| ==> c !in parts[i]
    ensures SplitOn(Join(parts, [c]), c) == parts
    decreases |parts|
  {
    var s := Join(parts, [c]);
    var p := parts[0];
    var i := RunEnd(s, 0, x => x != c);
    RunEndAll(s, 0, x => x != c);
    if |parts| == 1 {
      assert s == p;
      assert forall k :: 0 <= k < |p| ==> p[k] in p;
    } else {
      var t := Join(parts[1..], [c]);
      assert s == p + [c] + t;
      assert forall k :: 0 <= k < |p| ==> s[k] == p[k] && p[k] in p;
      assert s[|p|] == c;
      assert i == |p|;
      assert s[..i] == p;
      assert s[i + 1..] == t;
      SplitJoin(parts[1..], c);
      assert [p] + parts[1..] == parts;
    }
  }

  lemma {:induction false} ContainsAfter(x: string, t: string, sub: string)
    requires Contains(t, sub)
    ensures Contains(x + t, sub)
    decreases |x|
  {
    if x != [] {
      assert (x + t)[1..] == x[1..] + t;
      ContainsAfter(x[1..], t, sub);
    } else {
      assert x + t == t;
    }
  }

  lemma ContainsStart(s: string, y: string)
    ensures Contains(s + y, s)
  {
    assert (s + y)[..|s|] == s;
  }

  /** Every part occurs in the joined string. */
  lemma {:induction false} JoinContains(parts: seq<string>, sep: string, i: nat)
    requires i < |parts|
    ensures Contains(Join(parts, sep), parts[i])
    decreases i
  {
    if |parts| == 1 {
      ContainsStart(parts[0], []);
      assert parts[0] + [] == parts[0];
    } else if i == 0 {
      ContainsStart(parts[0], sep + Join(parts[1..], sep));
      assert parts[0] + sep + Join(parts[1..], sep) == parts[0] + (sep + Join(parts[1..], sep));
    } else {
      JoinContains(parts[1..], sep, i - 1);
      ContainsAfter(parts[0] + sep, Join(parts[1..], sep), parts[i]);
    }
  }

  /** `[f(x).value for x in xs if f(x) is not None]`: the loop that appends
      what each element yields, unfolded from the last element. */
  function FilterMap<A, B>(xs: seq<A>, f: A -> Option<B>): (ys: seq<B>)
    ensures |ys| <= |xs|
    decreases |xs|
  {
    if xs == [] then []
    else
      var n := |xs| - 1;
      FilterMap(xs[..n], f) + if f(xs[n]).Some? then [f(xs[n]).value] else []
  }

  /** What `FilterMap` keeps: exactly the values the elements yield. */
  lemma {:induction false} FilterMapMembers<A, B>(xs: seq<A>, f: A -> Option<B>)
    ensures forall y :: y in FilterMap(xs, f) ==> exists i :: 0 <= i < |xs| && f(xs[i]) == Some(y)
    ensures forall i :: 0 <= i < |xs| && f(xs[i]).Some? ==> f(xs[i]).value in FilterMap(xs, f)
    decreases |xs|
  {
    if xs != [] {
      var n := |xs| - 1;
      FilterMapMembers(xs[..n], f);
      assert forall i :: 0 <= i < n ==> xs[..n][i] == xs[i];
    }
  }

  /** The value element `i` yields is kept. */
  lemma FilterMapAt<A, B>(xs: seq<A>, f: A -> Option<B>, i: nat)
    ensures i < |xs| && f(xs[i]).Some? ==> f(xs[i]).value in FilterMap(xs, f)
  {
    FilterMapMembers(xs, f);
  }

  /** `FilterMapMembers` as one equivalence. */
  lemma FilterMapIff<A, B>(xs: seq<A>, f: A -> Option<B>)
    ensures forall y :: y in FilterMap(xs, f) <==> exists i :: 0 <= i < |xs| && f(xs[i]) == Some(y)
  {
    FilterMapMembers(xs, f);
  }

  /** A comprehension is empty exactly when no element yields a value. */
  lemma FilterMapEmpty<A, B>(xs: seq<A>, f: A -> Option<B>)
    ensures FilterMap(xs, f) == [] <==> forall i :: 0 <= i < |xs| ==> f(xs[i]).None?
  {
    FilterMapMembers(xs, f);
    if FilterMap(xs, f) != [] {
      assert FilterMap(xs, f)[0] in FilterMap(xs, f);
    }
  }

  /** Two comprehensions in a row keep what the second makes of what the
      first makes of some element. */
  lemma FilterMapTwice<A, B, C>(xs: seq<A>, f: A -> Option<B>, g: B -> Option<C>)
    ensures forall z :: z in FilterMap(FilterMap(xs, f), g) <==>
      exists i :: 0 <= i < |xs| && f(xs[i]).Some? && g(f(xs[i]).value) == Some(z)
  {
    var ys := FilterMap(xs, f);
    FilterMapMembers(xs, f);
    FilterMapMembers(ys, g);
    forall z | z in FilterMap(ys, g)
      ensures exists i :: 0 <= i < |xs| && f(xs[i]).Some? && g(f(xs[i]).value) == Some(z)
    {
      var j :| 0 <= j < |ys| && g(ys[j]) == Some(z);
      assert ys[j] in ys;
      var i :| 0 <= i < |xs| && f(xs[i]) == Some(ys[j]);
    }
    forall z | exists i :: 0 <= i < |xs| && f(xs[i]).Some? && g(f(xs[i]).value) == Some(z)
      ensures z in FilterMap(ys, g)
    {
      var i :| 0 <= i < |xs| && f(xs[i]).Some? && g(f(xs[i]).value) == Some(z);
      var j :| 0 <= j < |ys| && ys[j] == f(xs[i]).value;
    }
  }

  /** `FilterMap` of a longer prefix appends what the next element yields. */
  lemma FilterMapSnoc<A, B>(xs: seq<A>, i: nat, f: A -> Option<B>)
    requires i < |xs|
    ensures FilterMap(xs[..i + 1], f) == FilterMap(xs[..i], f) + if f(xs[i]).Some? then [f(xs[i]).value] else []
  {
    assert xs[..i + 1][..i] == xs[..i];
  }

  /** `str(n)` for an integer. */
  function IntToDecimal(n: int): (r: string)
    ensures r != []
    decreases if n < 0 then 1 - n else n
  {
    if n < 0 then "-" + IntToDecimal(-n)
    else if n < 10 then [(n + '0' as int) as char]
    else IntToDecimal(n / 10) + [(n % 10 + '0' as int) as char]
  }
}
