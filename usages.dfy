/**
 * Usages of components in a document: every opening tag of a capitalised component, with the
 * set of prop names its attribute text assigns (`name =`), in the order they first appear.
 * A tag that assigns nothing is not a usage.
 */
module Usages {
  import opened Wrappers
  import opened Text
  import opened JsxTags

  /** `[a-zA-Z_]`: the first character of a name in the usage pattern. */
  predicate IsNameStart(c: char) {
    ('a' <= c <= 'z') || ('A' <= c <= 'Z') || c == '_'
  }

  /** The end of the name (the longest run of `[A-Za-z0-9_]`) that starts at `p`. */
  function NameEnd(s: string, p: nat): nat
    requires p <= |s|
  {
    SkipWhile(s, p, IsWordChar)
  }

  function NameAt(s: string, p: nat): string
    requires p <= |s|
  {
    s[p..NameEnd(s, p)]
  }

  /** Where the `=` after the name is expected, once the white space is skipped. */
  function EqualsPos(s: string, p: nat): nat
    requires p <= |s|
  {
    SkipWhile(s, NameEnd(s, p), IsSpace)
  }

  /**
   * Whether `\b([a-zA-Z_][A-Za-z0-9_]*)\s*=` matches at `p`: a word starts there, and after the
   * whole word and some white space comes `=`. (A shorter name would be followed by a word
   * character, never by white space or `=`, so only the whole word can match.)
   */
  predicate PropAt(s: string, p: nat)
    requires p <= |s|
  {
    p < |s| && IsNameStart(s[p]) && (p == 0 || !IsWordChar(s[p - 1]))
    && EqualsPos(s, p) < |s| && s[EqualsPos(s, p)] == '='
  }

  /** `exec` from `lastIndex == from`: where the first match at or after `from` starts, or
      `|s|` when there is none. */
  function NextProp(s: string, from: nat): (p: nat)
    requires from <= |s|
    ensures from <= p <= |s|
    ensures p < |s| ==> PropAt(s, p)
    decreases |s| - from
  {
    if from == |s| || PropAt(s, from) then from else NextProp(s, from + 1)
  }

  lemma {:induction false} NextPropFirst(s: string, from: nat, k: nat)
    requires from <= |s| && from <= k < NextProp(s, from)
    ensures !PropAt(s, k)
    decreases k - from
  {
    if k > from {
      NextPropFirst(s, from + 1, k);
    }
  }

  /** No match can start inside another one: inside the name `\b` fails, and after it come only
      white space and `=`. */
  lemma NoPropInside(s: string, p: nat, k: nat)
    requires p <= |s| && PropAt(s, p) && p < k <= EqualsPos(s, p)
    ensures !PropAt(s, k)
  {
    var e := NameEnd(s, p);
    SkipWhileRun(s, p, IsWordChar);
    SkipWhileRun(s, e, IsSpace);
    if k <= e {
      assert IsWordChar(s[k - 1]);
    } else if k < EqualsPos(s, p) {
      assert IsSpace(s[k]);
    }
  }

  /** The names of all the matches from `from` on, in order, duplicates included. */
  function PropMatches(s: string, from: nat): seq<string>
    requires from <= |s|
    decreases |s| - from
  {
    var p := NextProp(s, from);
    if p == |s| then [] else [NameAt(s, p)] + PropMatches(s, EqualsPos(s, p) + 1)
  }

  /** Every collected name is the name of a match. */
  lemma {:induction false} PropMatchesSound(s: string, from: nat, x: string)
    requires from <= |s| && x in PropMatches(s, from)
    ensures exists p :: from <= p < |s| && PropAt(s, p) && NameAt(s, p) == x
    decreases |s| - from
  {
    var p := NextProp(s, from);
    if NameAt(s, p) != x {
      PropMatchesSound(s, EqualsPos(s, p) + 1, x);
    }
  }

  /** The name of every match is collected: the loop skips none. */
  lemma {:induction false} PropMatchesComplete(s: string, from: nat, p: nat)
    requires from <= p < |s| && PropAt(s, p)
    ensures NameAt(s, p) in PropMatches(s, from)
    decreases |s| - from
  {
    var p0 := NextProp(s, from);
    if p < p0 {
      NextPropFirst(s, from, p);
    } else if p0 < p {
      if p <= EqualsPos(s, p0) {
        NoPropInside(s, p0, p);
      } else {
        PropMatchesComplete(s, EqualsPos(s, p0) + 1, p);
      }
    }
  }

  /** The matches from `i` on complete the names `seen` so far to all the matches. */
  predicate Resumes(s: string, seen: seq<string>, i: nat)
    requires i <= |s|
  {
    seen + PropMatches(s, i) == PropMatches(s, 0)
  }

  /** One turn of the matching loop: the name found from `from` joins the ones already seen. */
  lemma PropMatchesStep(s: string, from: nat, seen: seq<string>)
    requires from <= |s| && NextProp(s, from) < |s| && Resumes(s, seen, from)
    ensures Resumes(s, seen + [NameAt(s, NextProp(s, from))], EqualsPos(s, NextProp(s, from)) + 1)
  {
    var p := NextProp(s, from);
    var rest := PropMatches(s, EqualsPos(s, p) + 1);
    assert PropMatches(s, from) == [NameAt(s, p)] + rest;
    assert (seen + [NameAt(s, p)]) + rest == seen + ([NameAt(s, p)] + rest);
  }

  /** Once no match is left, the names seen are all the matches. */
  lemma PropMatchesDone(s: string, from: nat, seen: seq<string>)
    requires from <= |s| && NextProp(s, from) == |s| && Resumes(s, seen, from)
    ensures seen == PropMatches(s, 0)
  {
    assert PropMatches(s, from) == [];
    assert seen + [] == seen;
  }

  /** The names of one tag's attribute text: a `Set` filled match by match, as an array. */
  function UsageNames(attrs: string): seq<string> {
    InsertAll([], PropMatches(attrs, 0))
  }

  /** A usage name: `[a-zA-Z_][A-Za-z0-9_]*`. */
  predicate IsUsageName(n: string) {
    |n| > 0 && IsNameStart(n[0]) && forall k :: 0 <= k < |n| ==> IsWordChar(n[k])
  }

  /**
   * The names of a tag are exactly the words followed by optional white space and `=` in its
   * attribute text, each once.
   */
  lemma UsageNamesExact(attrs: string, x: string)
    ensures x in UsageNames(attrs) <==> exists p :: 0 <= p < |attrs| && PropAt(attrs, p) && NameAt(attrs, p) == x
  {
    InsertAllMembers([], PropMatches(attrs, 0));
    if x in PropMatches(attrs, 0) {
      PropMatchesSound(attrs, 0, x);
    }
    if p :| 0 <= p < |attrs| && PropAt(attrs, p) && NameAt(attrs, p) == x {
      PropMatchesComplete(attrs, 0, p);
    }
  }

  /** The names of a tag have no duplicates and each is a usage name. */
  lemma UsageNamesShape(attrs: string)
    ensures NoDup(UsageNames(attrs))
    ensures forall k :: 0 <= k < |UsageNames(attrs)| ==> IsUsageName(UsageNames(attrs)[k])
  {
    InsertAllNoDup([], PropMatches(attrs, 0));
    forall k | 0 <= k < |UsageNames(attrs)|
      ensures IsUsageName(UsageNames(attrs)[k])
    {
      var x := UsageNames(attrs)[k];
      UsageNamesExact(attrs, x);
      var p :| 0 <= p < |attrs| && PropAt(attrs, p) && NameAt(attrs, p) == x;
      SkipWhileRun(attrs, p, IsWordChar);
    }
  }

  /** The loop over the matches of the usage pattern in one attribute text. */
  method ExtractUsageNames(attrs: string) returns (names: seq<string>)
    ensures names == UsageNames(attrs)
  {
    names := [];
    var i := 0;
    var p := NextProp(attrs, 0);
    ghost var seen: seq<string> := [];
    while p < |attrs|
      invariant i <= |attrs| && p == NextProp(attrs, i)
      invariant Resumes(attrs, seen, i)
      invariant names == InsertAll([], seen)
      decreases |attrs| - i
    {
      var name := NameAt(attrs, p);
      PropMatchesStep(attrs, i, seen);
      InsertAllStep([], seen, name);
      if name !in names {
        names := names + [name];
      }
      seen := seen + [name];
      i := EqualsPos(attrs, p) + 1;
      p := NextProp(attrs, i);
    }
    PropMatchesDone(attrs, i, seen);
  }

  datatype Usage = Usage(componentName: string, props: seq<string>)

  /** The usages among the matched tags, in order: the tags that assign at least one name. */
  function UsagesOf(tags: seq<Tag>): seq<Usage> {
    if tags == [] then []
    else
      var t := tags[|tags| - 1];
      var names := UsageNames(t.attrs);
      UsagesOf(tags[..|tags| - 1]) + (if names == [] then [] else [Usage(t.name, names)])
  }

  lemma UsagesOfStep(tags: seq<Tag>, t: Tag)
    ensures UsagesOf(tags + [t]) == UsagesOf(tags)
      + (if UsageNames(t.attrs) == [] then [] else [Usage(t.name, UsageNames(t.attrs))])
  {
    assert (tags + [t])[..|tags|] == tags;
  }

  /** A usage is exactly a matched tag that assigns some name, with its names. */
  lemma {:induction false} UsagesOfMembers(tags: seq<Tag>, u: Usage)
    ensures u in UsagesOf(tags) <==>
      exists t :: t in tags && UsageNames(t.attrs) != [] && u == Usage(t.name, UsageNames(t.attrs))
  {
    if tags != [] {
      var init := tags[..|tags| - 1];
      UsagesOfMembers(init, u);
      assert tags == init + [tags[|tags| - 1]];
    }
  }

  /** `getUsagesInDocument`: the usages of the document, one per matched tag with names. */
  method GetUsagesInDocument(text: string) returns (usages: seq<Usage>)
    ensures usages == UsagesOf(TagsFrom(text, 0, None))
  {
    usages := [];
    var i := 0;
    ghost var done: seq<Tag> := [];
    while true
      invariant i <= |text|
      invariant done + TagsFrom(text, i, None) == TagsFrom(text, 0, None)
      invariant usages == UsagesOf(done)
      decreases |text| - i
    {
      var p := NextTag(text, i, None);
      if p == |text| {
        break;
      }
      var t := TagAt(text, p).value;
      TagsFromStep(text, i, None, done);
      var names := ExtractUsageNames(t.attrs);
      if |names| > 0 {
        usages := usages + [Usage(t.name, names)];
      }
      UsagesOfStep(done, t);
      done := done + [t];
      i := t.end;
    }
    assert done == TagsFrom(text, 0, None);
  }

  /** Every usage names a component and assigns a non-empty list of distinct usage names. */
  lemma UsagesShape(text: string, u: Usage)
    requires u in UsagesOf(TagsFrom(text, 0, None))
    ensures IsComponentName(u.componentName)
    ensures u.props != [] && NoDup(u.props)
    ensures forall k :: 0 <= k < |u.props| ==> IsUsageName(u.props[k])
  {
    var tags := TagsFrom(text, 0, None);
    UsagesOfMembers(tags, u);
    var t :| t in tags && UsageNames(t.attrs) != [] && u == Usage(t.name, UsageNames(t.attrs));
    MatchedName(text, t);
    UsageNamesShape(t.attrs);
  }

  /** A tag of the document's matches is named by a component name. */
  lemma MatchedName(text: string, t: Tag)
    requires t in TagsFrom(text, 0, None)
    ensures IsComponentName(t.name)
  {
    var tags := TagsFrom(text, 0, None);
    TagsFromMatch(text, 0, None);
    var k :| 0 <= k < |tags| && tags[k] == t;
    TagName(text, t.start);
  }
}
