/**
 * The helpers of the CSS pointer: which selector kind the attribute before the cursor asks for,
 * the block of CSS lines shown for a match, and the escaping of a name for a regular expression.
 */
module CssPointer {
  import opened Wrappers
  import opened Text

  datatype SelectorKind = Class | Id

  /** One match of `(class(Name)?|id)\s*=`: the kind its attribute word gives and the index just
      after its `=`. */
  datatype AttrMatch = AttrMatch(kind: SelectorKind, end: nat)

  predicate WordAt(s: string, p: nat, w: string) {
    p + |w| <= |s| && s[p..p + |w|] == w
  }

  /** `\s*=` from `q`: the index after the `=`, when only white space comes before it. */
  function AssignEnd(s: string, q: nat): (r: Option<nat>)
    requires q <= |s|
    ensures r.Some? ==> q < r.value <= |s|
  {
    var j := SkipWhile(s, q, IsSpace);
    if j < |s| && s[j] == '=' then Some(j + 1) else None
  }

  /**
   * The match of the attribute pattern at `p`. The optional `Name` is greedy, so `className` is
   * tried before `class`; `id` is the other alternative. There is no word boundary in front, so
   * the word may end a longer one.
   */
  function MatchAt(s: string, p: nat): (r: Option<AttrMatch>)
    requires p <= |s|
    ensures r.Some? ==> p < r.value.end <= |s|
  {
    if WordAt(s, p, "className") && AssignEnd(s, p + 9).Some? then Some(AttrMatch(Class, AssignEnd(s, p + 9).value))
    else if WordAt(s, p, "class") && AssignEnd(s, p + 5).Some? then Some(AttrMatch(Class, AssignEnd(s, p + 5).value))
    else if WordAt(s, p, "id") && AssignEnd(s, p + 2).Some? then Some(AttrMatch(Id, AssignEnd(s, p + 2).value))
    else None
  }

  /** `exec` from `lastIndex == from`: where the first match at or after `from` starts, or `|s|`
      when there is none. */
  function NextMatch(s: string, from: nat): (p: nat)
    requires from <= |s|
    ensures from <= p <= |s|
    ensures p < |s| ==> MatchAt(s, p).Some?
    decreases |s| - from
  {
    if from == |s| || MatchAt(s, from).Some? then from else NextMatch(s, from + 1)
  }

  lemma {:induction false} NextMatchFirst(s: string, from: nat, k: nat)
    requires from <= |s| && from <= k < NextMatch(s, from)
    ensures MatchAt(s, k).None?
    decreases k - from
  {
    if k > from {
      NextMatchFirst(s, from + 1, k);
    }
  }

  /** The loop over the matches from `from` on: `acc` is the kind recorded so far, replaced by
      the kind of every further match. */
  function LastKindFrom(s: string, from: nat, acc: Option<SelectorKind>): Option<SelectorKind>
    requires from <= |s|
    decreases |s| - from
  {
    var p := NextMatch(s, from);
    if p == |s| then acc
    else LastKindFrom(s, MatchAt(s, p).value.end, Some(MatchAt(s, p).value.kind))
  }

  /** `lineText.substring(0, charPos)`: a position past the end stands for the end. */
  function Before(lineText: string, charPos: nat): string {
    lineText[..if charPos <= |lineText| then charPos else |lineText|]
  }

  /** The kind `getSelectorKind` answers for the word starting at `charPos`. */
  function SelectorKindAt(lineText: string, charPos: nat): Option<SelectorKind> {
    LastKindFrom(Before(lineText, charPos), 0, None)
  }

  /** `getSelectorKind`: the `exec` loop over the text before the word, keeping the last kind. */
  method GetSelectorKind(lineText: string, charPos: nat) returns (lastKind: Option<SelectorKind>)
    ensures lastKind == SelectorKindAt(lineText, charPos)
  {
    var beforeWord := Before(lineText, charPos);
    lastKind := None;
    var i := 0;
    var p := NextMatch(beforeWord, 0);
    while p < |beforeWord|
      invariant i <= |beforeWord| && p == NextMatch(beforeWord, i)
      invariant LastKindFrom(beforeWord, i, lastKind) == LastKindFrom(beforeWord, 0, None)
      decreases |beforeWord| - i
    {
      var m := MatchAt(beforeWord, p).value;
      if m.kind == Class {
        lastKind := Some(Class);
      } else {
        lastKind := Some(Id);
      }
      i := m.end;
      p := NextMatch(beforeWord, i);
    }
  }

  /** Every match starts with the `c` of `class` or the `i` of `id`. */
  lemma MatchStart(s: string, p: nat)
    requires p <= |s| && MatchAt(s, p).Some?
    ensures s[p] == 'c' || s[p] == 'i'
  {
    if WordAt(s, p, "className") {
      assert s[p] == s[p..p + 9][0];
    } else if WordAt(s, p, "class") {
      assert s[p] == s[p..p + 5][0];
    } else {
      assert s[p] == s[p..p + 2][0];
    }
  }

  /** After its first character, a match holds only `lass`, `Name`, `d`, white space and `=`. */
  lemma MatchBody(s: string, p: nat, w: string, q: nat)
    requires p <= |s| && WordAt(s, p, w) && (w == "className" || w == "class" || w == "id")
    requires AssignEnd(s, p + |w|).Some? && p < q < AssignEnd(s, p + |w|).value
    ensures s[q] != 'c' && s[q] != 'i'
  {
    var e := p + |w|;
    SkipWhileRun(s, e, IsSpace);
    if q < e {
      assert s[q] == s[p..e][q - p] == w[q - p];
    } else if q < SkipWhile(s, e, IsSpace) {
      assert IsSpace(s[q]);
    }
  }

  /** No match starts inside another one, so the loop skipping to the end of each match misses
      none. */
  lemma NoMatchInside(s: string, p: nat, q: nat)
    requires p <= |s| && MatchAt(s, p).Some? && p < q < MatchAt(s, p).value.end
    ensures MatchAt(s, q).None?
  {
    if WordAt(s, p, "className") && AssignEnd(s, p + 9).Some? {
      MatchBody(s, p, "className", q);
    } else if WordAt(s, p, "class") && AssignEnd(s, p + 5).Some? {
      MatchBody(s, p, "class", q);
    } else {
      MatchBody(s, p, "id", q);
    }
    if MatchAt(s, q).Some? {
      MatchStart(s, q);
    }
  }

  /** The loop records a kind exactly when it held one already or a match is left. */
  lemma {:induction false} LastKindSome(s: string, from: nat, acc: Option<SelectorKind>)
    requires from <= |s|
    ensures LastKindFrom(s, from, acc).Some? <==>
      acc.Some? || exists q :: from <= q < |s| && MatchAt(s, q).Some?
    decreases |s| - from
  {
    var p := NextMatch(s, from);
    if p == |s| {
      forall q | from <= q < |s|
        ensures MatchAt(s, q).None?
      {
        NextMatchFirst(s, from, q);
      }
    } else {
      LastKindSome(s, MatchAt(s, p).value.end, Some(MatchAt(s, p).value.kind));
    }
  }

  /** When a match is followed by no other, the loop ends with its kind. */
  lemma {:induction false} LastKindOfLast(s: string, from: nat, acc: Option<SelectorKind>, p: nat)
    requires from <= p < |s| && MatchAt(s, p).Some?
    requires forall q :: p < q < |s| ==> MatchAt(s, q).None?
    ensures LastKindFrom(s, from, acc) == Some(MatchAt(s, p).value.kind)
    decreases |s| - from
  {
    var p0 := NextMatch(s, from);
    if p < p0 {
      NextMatchFirst(s, from, p);
    }
    var m0 := MatchAt(s, p0).value;
    if p0 == p {
      assert NextMatch(s, m0.end) == |s|;
    } else {
      if p < m0.end {
        NoMatchInside(s, p0, p);
      }
      LastKindOfLast(s, m0.end, Some(m0.kind), p);
    }
  }

  /**
   * `getSelectorKind` answers the kind of the last match of the attribute pattern that lies
   * wholly before the word, and nothing when there is no such match.
   */
  lemma SelectorKindLastMatch(lineText: string, charPos: nat, p: nat)
    requires p < |Before(lineText, charPos)| && MatchAt(Before(lineText, charPos), p).Some?
    requires forall q :: p < q < |Before(lineText, charPos)| ==> MatchAt(Before(lineText, charPos), q).None?
    ensures SelectorKindAt(lineText, charPos) == Some(MatchAt(Before(lineText, charPos), p).value.kind)
  {
    LastKindOfLast(Before(lineText, charPos), 0, None, p);
  }

  lemma SelectorKindNone(lineText: string, charPos: nat)
    ensures SelectorKindAt(lineText, charPos).None? <==>
      forall q :: 0 <= q < |Before(lineText, charPos)| ==> MatchAt(Before(lineText, charPos), q).None?
  {
    LastKindSome(Before(lineText, charPos), 0, None);
  }

  /** Only the text before the word counts: whatever follows `charPos` changes nothing. */
  lemma SelectorKindReadsPrefix(lineText: string, other: string, charPos: nat)
    requires charPos <= |lineText| && charPos <= |other| && lineText[..charPos] == other[..charPos]
    ensures SelectorKindAt(lineText, charPos) == SelectorKindAt(other, charPos)
  {
    assert Before(lineText, charPos) == Before(other, charPos);
  }

  /** Since nothing anchors the word in front, `valid=` counts as an `id` attribute. */
  lemma ValidCountsAsId()
    ensures SelectorKindAt("<input valid=", 13) == Some(Id)
  {
    var s := Before("<input valid=", 13);
    assert s == "<input valid=";
    assert s[10..12] == "id";
    assert SkipWhile(s, 12, IsSpace) == 12;
    assert MatchAt(s, 10) == Some(AttrMatch(Id, 13));
    SelectorKindLastMatch("<input valid=", 13, 10);
  }

  /** `(line.match(/c/g) || []).length`. */
  function CountOf(line: string, c: char): nat {
    if line == [] then 0 else (if line[0] == c then 1 else 0) + CountOf(line[1..], c)
  }

  /** The net number of braces a line opens. */
  function Net(line: string): int {
    CountOf(line, '{') - CountOf(line, '}')
  }

  /** The braces left open by lines `a` to `b - 1`. */
  function Balance(lines: seq<string>, a: nat, b: nat): int
    requires a <= b <= |lines|
    decreases b - a
  {
    if a == b then 0 else Balance(lines, a, b - 1) + Net(lines[b - 1])
  }

  /** The first line `i` or later at which the count from `start` is back to zero, or the last
      line when there is none. */
  function FirstClose(lines: seq<string>, start: nat, i: nat): (e: nat)
    requires start < i <= |lines|
    ensures start <= e < |lines|
    decreases |lines| - i
  {
    if i == |lines| then |lines| - 1
    else if Balance(lines, start, i + 1) == 0 then i
    else FirstClose(lines, start, i + 1)
  }

  /** The last line of the block that starts at `start`. */
  function BlockEnd(lines: seq<string>, start: nat): nat {
    if start < |lines| then FirstClose(lines, start, start + 1) else start
  }

  /** The snippet shown for a match on line `start`: `lines.slice(start, end + 1).join("\n")`,
      where `slice` yields nothing from past the end. */
  function CssBlock(lines: seq<string>, start: nat): string {
    if start < |lines| then Join(lines[start..BlockEnd(lines, start) + 1], "\n") else ""
  }

  /** `extractCssBlock`: counts braces line by line and stops once they balance again. */
  method ExtractCssBlock(lines: seq<string>, startLine: nat) returns (block: string)
    ensures block == CssBlock(lines, startLine)
  {
    var openBraces: int := 0;
    var endLine := startLine;
    var i := startLine;
    while i < |lines|
      invariant startLine <= i && (startLine < |lines| ==> i <= |lines|)
      invariant startLine >= |lines| ==> i == startLine && endLine == startLine
      invariant startLine < |lines| ==> openBraces == Balance(lines, startLine, i)
      invariant startLine < i ==> endLine == i - 1
      invariant startLine + 1 < i ==> FirstClose(lines, startLine, startLine + 1) == FirstClose(lines, startLine, i)
      decreases |lines| - i
    {
      var line := lines[i];
      var opens := CountOf(line, '{');
      var closes := CountOf(line, '}');
      openBraces := openBraces + opens;
      openBraces := openBraces - closes;
      endLine := i;
      if openBraces == 0 && i > startLine {
        assert FirstClose(lines, startLine, i) == i;
        break;
      }
      i := i + 1;
    }
    assert startLine < |lines| ==> endLine == BlockEnd(lines, startLine);
    block := if startLine < |lines| then Join(lines[startLine..endLine + 1], "\n") else "";
  }

  /** The search for the closing line never stops before `i`, and stops at the first zero after. */
  lemma {:induction false} FirstCloseExact(lines: seq<string>, start: nat, i: nat)
    requires start < i <= |lines|
    ensures var e := FirstClose(lines, start, i);
      (i <= e || e == |lines| - 1)
      && (e == |lines| - 1 || Balance(lines, start, e + 1) == 0)
      && forall b :: i < b <= e ==> Balance(lines, start, b) != 0
    decreases |lines| - i
  {
    if i < |lines| && Balance(lines, start, i + 1) != 0 {
      FirstCloseExact(lines, start, i + 1);
    }
  }

  /**
   * Where the block stops: on the first line after `start` at which the braces counted from
   * `start` balance, or on the last line when they never do. It never stops on `start` itself
   * unless that is the last line.
   */
  lemma BlockEndExact(lines: seq<string>, start: nat)
    requires start < |lines|
    ensures var e := BlockEnd(lines, start);
      start <= e < |lines|
      && (e == start ==> start == |lines| - 1)
      && (e == |lines| - 1 || Balance(lines, start, e + 1) == 0)
      && forall b :: start + 1 < b <= e ==> Balance(lines, start, b) != 0
  {
    FirstCloseExact(lines, start, start + 1);
  }

  /** A rule written on one line does not end the block there: the line after it is taken in
      as well, since the count is only looked at from the second line on. */
  lemma OneLineRuleRunsOn()
    ensures CssBlock(["a{}", "b", "c"], 0) == "a{}\nb"
  {
    var lines := ["a{}", "b", "c"];
    OneLineCounts();
    assert Balance(lines, 0, 2) == 0;
    assert BlockEnd(lines, 0) == 1;
    assert lines[0..2] == ["a{}", "b"];
    assert ["a{}", "b"][1..] == ["b"];
  }

  lemma OneLineCounts()
    ensures Net("a{}") == 0 && Net("b") == 0
  {
    assert "a{}"[1..] == "{}" && "{}"[1..] == "}" && "}"[1..] == "" && "b"[1..] == "";
  }

  /** The characters `escapeRegExp` escapes: `. * + ? ^ $ { } ( ) | [ ] \`. */
  predicate IsRegExpMeta(c: char) {
    c == '.' || c == '*' || c == '+' || c == '?' || c == '^' || c == '$' || c == '{' || c == '}'
    || c == '(' || c == ')' || c == '|' || c == '[' || c == ']' || c == '\\'
  }

  /** `str.replace(/[.*+?^${}()|[\]\\]/g, "\\$&")`: a backslash before every such character. */
  function EscapeRegExp(s: string): string {
    if s == [] then [] else (if IsRegExpMeta(s[0]) then ['\\', s[0]] else [s[0]]) + EscapeRegExp(s[1..])
  }

  /** The number of characters that get a backslash. */
  function MetaCount(s: string): nat {
    if s == [] then 0 else (if IsRegExpMeta(s[0]) then 1 else 0) + MetaCount(s[1..])
  }

  /** Reading an escaped string back: a backslash and the character after it stand for that
      character. */
  function Unescape(s: string): string
    decreases |s|
  {
    if s == [] then []
    else if s[0] == '\\' && |s| >= 2 then [s[1]] + Unescape(s[2..])
    else [s[0]] + Unescape(s[1..])
  }

  /** One backslash is added per escaped character and nothing else changes length. */
  lemma {:induction false} EscapeLength(s: string)
    ensures |EscapeRegExp(s)| == |s| + MetaCount(s)
  {
    if s != [] {
      EscapeLength(s[1..]);
    }
  }

  /** A name without special characters is used as it is. */
  lemma {:induction false} EscapePlain(s: string)
    requires forall k :: 0 <= k < |s| ==> !IsRegExpMeta(s[k])
    ensures EscapeRegExp(s) == s
  {
    if s != [] {
      EscapePlain(s[1..]);
      assert [s[0]] + s[1..] == s;
    }
  }

  /** Removing the inserted backslashes gives back the original string. */
  lemma {:induction false} EscapeRoundTrip(s: string)
    ensures Unescape(EscapeRegExp(s)) == s
  {
    if s != [] {
      var r := EscapeRegExp(s[1..]);
      EscapeRoundTrip(s[1..]);
      if IsRegExpMeta(s[0]) {
        assert EscapeRegExp(s) == ['\\', s[0]] + r;
        assert (['\\', s[0]] + r)[2..] == r;
      } else {
        assert EscapeRegExp(s) == [s[0]] + r;
        assert ([s[0]] + r)[1..] == r;
      }
      assert [s[0]] + s[1..] == s;
    }
  }

  /** Escaping works character by character. */
  lemma {:induction false} EscapeAppend(a: string, b: string)
    ensures EscapeRegExp(a + b) == EscapeRegExp(a) + EscapeRegExp(b)
  {
    if a != [] {
      assert (a + b)[0] == a[0] && (a + b)[1..] == a[1..] + b;
      EscapeAppend(a[1..], b);
    } else {
      assert a + b == b;
    }
  }

  /** `a.b` is searched for as `a\.b`. */
  lemma EscapeExample()
    ensures EscapeRegExp("a.b") == "a\\.b"
  {
    assert "a.b"[1..] == ".b" && ".b"[1..] == "b" && "b"[1..] == "";
    assert EscapeRegExp("b") == "b";
    assert EscapeRegExp(".b") == "\\.b";
  }
}
