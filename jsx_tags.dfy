/**
 * The two JSX opening-tag patterns of the extension, as scanners over the document text:
 * `<([A-Z][A-Za-z0-9_]*)\b([\s\S]*?)(\/?)>` (any component) and `<Name\b([\s\S]*?)(/?)>`
 * (one component), both run with the `g` flag, so each search starts where the previous
 * match ended.
 */
module JsxTags {
  import opened Wrappers
  import opened Text

  predicate IsUpper(c: char) { 'A' <= c <= 'Z' }

  predicate NotClose(c: char) { c != '>' }

  /** A component name as the declaration patterns capture it: `[A-Z][A-Za-z0-9_]*`. */
  predicate IsComponentName(n: string) {
    |n| > 0 && IsUpper(n[0]) && forall k :: 0 <= k < |n| ==> IsWordChar(n[k])
  }

  /** One match: where it starts, the tag name, the attribute text, whether it ended in `/>`, and
      the index just after the closing `>`. */
  datatype Tag = Tag(start: nat, name: string, attrs: string, selfClosing: bool, end: nat)

  /** The text a tag was matched from. */
  function TagText(t: Tag): string {
    "<" + t.name + t.attrs + (if t.selfClosing then "/>" else ">")
  }

  /**
   * The match of the any-component pattern at `p`, if there is one. The name is the longest run
   * of word characters after `<` (so `\b` holds after it); the lazy attribute group stops at the
   * first `>`, and a `/` right before that `>` belongs to the closing `/>`.
   */
  function TagAt(s: string, p: nat): (t: Option<Tag>)
    requires p <= |s|
    ensures t.Some? ==> t.value.start == p && p < t.value.end <= |s|
  {
    if p + 1 < |s| && s[p] == '<' && IsUpper(s[p + 1]) then
      var e := SkipWhile(s, p + 1, IsWordChar);
      var g := SkipWhile(s, e, NotClose);
      if g == |s| then None
      else if g > e && s[g - 1] == '/' then Some(Tag(p, s[p + 1..e], s[e..g - 1], true, g + 1))
      else Some(Tag(p, s[p + 1..e], s[e..g], false, g + 1))
    else None
  }

  /** A match covers exactly the text `<Name attrs>` or `<Name attrs/>`, and its attribute text
      holds no `>`. */
  lemma TagAtText(s: string, p: nat)
    requires p <= |s| && TagAt(s, p).Some?
    ensures s[p..TagAt(s, p).value.end] == TagText(TagAt(s, p).value)
    ensures '>' !in TagAt(s, p).value.attrs
  {
    var t := TagAt(s, p).value;
    var e := SkipWhile(s, p + 1, IsWordChar);
    var g := SkipWhile(s, e, NotClose);
    SkipWhileRun(s, e, NotClose);
    if g > e && s[g - 1] == '/' {
      assert t == Tag(p, s[p + 1..e], s[e..g - 1], true, g + 1);
      CoverText(s, t, e, g - 1);
    } else {
      assert t == Tag(p, s[p + 1..e], s[e..g], false, g + 1);
      CoverText(s, t, e, g);
    }
  }

  /** A tag whose name and attribute text are cut from `s`, followed by its closing. */
  lemma CoverText(s: string, t: Tag, e: nat, c: nat)
    requires t.start < e <= c <= t.end <= |s| && s[t.start] == '<'
    requires t.name == s[t.start + 1..e] && t.attrs == s[e..c]
    requires s[c..t.end] == if t.selfClosing then "/>" else ">"
    ensures s[t.start..t.end] == TagText(t)
  {
    assert s[t.start..t.start + 1] == "<";
    SliceParts(s, t.start, t.start + 1, e, c, t.end);
  }

  /** A slice cut at three places. */
  lemma SliceParts(s: string, a: nat, b: nat, c: nat, d: nat, e: nat)
    requires a <= b <= c <= d <= e <= |s|
    ensures s[a..e] == s[a..b] + s[b..c] + s[c..d] + s[d..e]
  {
    assert s[a..e] == s[a..b] + s[b..e];
    assert s[b..e] == s[b..c] + s[c..e];
    assert s[c..e] == s[c..d] + s[d..e];
  }

  /** The name of a matched tag is the whole word after `<`: a component name. */
  lemma TagName(s: string, p: nat)
    requires p <= |s| && TagAt(s, p).Some?
    ensures IsComponentName(TagAt(s, p).value.name)
    ensures var e := p + 1 + |TagAt(s, p).value.name|; e == |s| || !IsWordChar(s[e])
  {
    SkipWhileRun(s, p + 1, IsWordChar);
  }

  /** Which matches a pattern accepts: any component, or the one it names. */
  predicate Wanted(t: Tag, want: Option<string>) {
    want.None? || t.name == want.value
  }

  /** Whether the pattern matches at `p`. */
  predicate MatchesAt(s: string, p: nat, want: Option<string>)
    requires p <= |s|
  {
    TagAt(s, p).Some? && Wanted(TagAt(s, p).value, want)
  }

  /** `exec` from `lastIndex == from`: where the first match at or after `from` starts, or `|s|`
      when there is none. */
  function NextTag(s: string, from: nat, want: Option<string>): (p: nat)
    requires from <= |s|
    ensures from <= p <= |s|
    ensures p < |s| ==> MatchesAt(s, p, want)
    decreases |s| - from
  {
    if from == |s| || MatchesAt(s, from, want) then from else NextTag(s, from + 1, want)
  }

  /** No match is skipped: there is none between `from` and the one found. */
  lemma {:induction false} NextTagFirst(s: string, from: nat, want: Option<string>, k: nat)
    requires from <= |s| && from <= k < NextTag(s, from, want)
    ensures !MatchesAt(s, k, want)
    decreases k - from
  {
    if k > from {
      NextTagFirst(s, from + 1, want, k);
    }
  }

  /** All the matches of a `while ((m = re.exec(text)) !== null)` loop started at `from`. */
  function TagsFrom(s: string, from: nat, want: Option<string>): (ts: seq<Tag>)
    requires from <= |s|
    ensures forall k :: 0 <= k < |ts| ==> from <= ts[k].start < ts[k].end <= |s|
    decreases |s| - from
  {
    var p := NextTag(s, from, want);
    if p == |s| then []
    else
      var t := TagAt(s, p).value;
      [t] + TagsFrom(s, t.end, want)
  }

  /** One turn of a matching loop: the match found from `from` joins the ones already seen, and
      the search goes on after it. */
  lemma TagsFromStep(s: string, from: nat, want: Option<string>, done: seq<Tag>)
    requires from <= |s| && NextTag(s, from, want) < |s|
    requires done + TagsFrom(s, from, want) == TagsFrom(s, 0, want)
    ensures var t := TagAt(s, NextTag(s, from, want)).value;
      (done + [t]) + TagsFrom(s, t.end, want) == TagsFrom(s, 0, want)
  {
    var t := TagAt(s, NextTag(s, from, want)).value;
    var rest := TagsFrom(s, t.end, want);
    assert TagsFrom(s, from, want) == [t] + rest;
    assert (done + [t]) + rest == done + ([t] + rest);
  }

  /** Each collected match is a match the pattern accepts, at the place it is recorded. */
  lemma {:induction false} TagsFromMatch(s: string, from: nat, want: Option<string>)
    requires from <= |s|
    ensures forall k :: 0 <= k < |TagsFrom(s, from, want)| ==>
      TagAt(s, TagsFrom(s, from, want)[k].start) == Some(TagsFrom(s, from, want)[k])
      && Wanted(TagsFrom(s, from, want)[k], want)
    decreases |s| - from
  {
    var p := NextTag(s, from, want);
    if p < |s| {
      var t := TagAt(s, p).value;
      var rest := TagsFrom(s, t.end, want);
      var ts := TagsFrom(s, from, want);
      assert ts == [t] + rest;
      TagsFromMatch(s, t.end, want);
      MatchedCons(s, want, t, rest);
    }
  }

  /** A match put in front of a list of matches. */
  lemma MatchedCons(s: string, want: Option<string>, t: Tag, rest: seq<Tag>)
    requires t.start <= |s| && TagAt(s, t.start) == Some(t) && Wanted(t, want)
    requires forall k :: 0 <= k < |rest| ==>
      (rest[k].start <= |s| && TagAt(s, rest[k].start) == Some(rest[k]) && Wanted(rest[k], want))
    ensures forall k :: 0 <= k < |[t] + rest| ==>
      (([t] + rest)[k].start <= |s| && TagAt(s, ([t] + rest)[k].start) == Some(([t] + rest)[k])
       && Wanted(([t] + rest)[k], want))
  {
    var ts := [t] + rest;
    forall k | 0 <= k < |ts|
      ensures ts[k].start <= |s| && TagAt(s, ts[k].start) == Some(ts[k]) && Wanted(ts[k], want)
    {
      if k > 0 {
        assert ts[k] == rest[k - 1];
      }
    }
  }

  /** The matches come in order and do not overlap. */
  lemma {:induction false} TagsFromOrdered(s: string, from: nat, want: Option<string>)
    requires from <= |s|
    ensures forall i, j :: 0 <= i < j < |TagsFrom(s, from, want)| ==>
      TagsFrom(s, from, want)[i].end <= TagsFrom(s, from, want)[j].start
    decreases |s| - from
  {
    var p := NextTag(s, from, want);
    if p < |s| {
      var t := TagAt(s, p).value;
      var rest := TagsFrom(s, t.end, want);
      var ts := TagsFrom(s, from, want);
      assert ts == [t] + rest;
      TagsFromOrdered(s, t.end, want);
      OrderedCons(t, rest);
    }
  }

  /** A tag ending before every tag of an ordered list can be put in front of it. */
  lemma OrderedCons(t: Tag, rest: seq<Tag>)
    requires forall i, j :: 0 <= i < j < |rest| ==> rest[i].end <= rest[j].start
    requires forall k :: 0 <= k < |rest| ==> t.end <= rest[k].start
    ensures forall i, j :: 0 <= i < j < |[t] + rest| ==> ([t] + rest)[i].end <= ([t] + rest)[j].start
  {
    var ts := [t] + rest;
    forall i, j | 0 <= i < j < |ts|
      ensures ts[i].end <= ts[j].start
    {
      assert ts[j] == rest[j - 1];
      if i > 0 {
        assert ts[i] == rest[i - 1];
      }
    }
  }

  /** `<PanelHeader>` is not a use of `Panel`: the word boundary after the name rules it out. */
  lemma WordBoundary(s: string, p: nat, name: string)
    requires IsComponentName(name) && p + 1 + |name| < |s|
    requires s[p] == '<' && s[p + 1..p + 1 + |name|] == name && IsWordChar(s[p + 1 + |name|])
    ensures TagAt(s, p).None? || !Wanted(TagAt(s, p).value, Some(name))
  {
    if TagAt(s, p).Some? {
      var e := p + 1 + |name|;
      assert forall k :: p + 1 <= k < e ==> IsWordChar(s[k]) by {
        assert forall k :: p + 1 <= k < e ==> s[k] == name[k - p - 1];
      }
      SkipWhileFrom(s, p + 1, e, IsWordChar);
      assert SkipWhile(s, e, IsWordChar) > e;
    }
  }

  /** A use of `B` whose prop `f` is an arrow function. */
  const ArrowText: string := "<B f={()=>g}/>"

  lemma ArrowSkips()
    ensures SkipWhile(ArrowText, 1, IsWordChar) == 2
    ensures SkipWhile(ArrowText, 2, NotClose) == 9
  {
    var s := ArrowText;
    assert SkipWhile(s, 2, IsWordChar) == 2;
    assert SkipWhile(s, 9, NotClose) == 9;
  }

  /**
   * The attribute group stops at the first `>`, even the one of an arrow function inside a
   * brace value: in `<B f={()=>g}/>` the match is `<B f={()=>`, with attribute text ` f={()=`
   * and no self-closing slash.
   */
  lemma ArrowCutsTag()
    ensures TagAt(ArrowText, 0) == Some(Tag(0, "B", " f={()=", false, 10))
  {
    var s := ArrowText;
    ArrowSkips();
    assert s[1..2] == "B" && s[2..9] == " f={()=";
  }
}
