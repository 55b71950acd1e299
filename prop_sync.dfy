/**
 * The save handler of the prop synchroniser and `syncDefinitionFromUsage`, over a signature
 * cache that maps each component name to the prop list last seen in its definition.
 *
 * The host is reduced to parameters: the workspace files are a list of paths and texts, the
 * declarations found in the saved document are given with their captured destructuring text, the
 * definition patterns are a function `find` from a component name and a file to the first match
 * in that file, and one boolean `confirm` answers every confirmation prompt. What a run shows and
 * applies is returned as `Effects`.
 */
module PropSync {
  import opened Wrappers
  import opened Text
  import opened PropNames
  import opened JsxTags
  import opened Usages
  import opened TestFiles
  import opened Reconcile
  import opened Union

  /** The language ids whose saves are handled. */
  const ReactLanguages: seq<string> := ["javascriptreact", "typescriptreact", "javascript", "typescript"]

  /** A component declared in the saved document: its name and the text between the braces of its
      destructured parameter. */
  datatype Declaration = Declaration(name: string, raw: string)

  /** A match of the definition patterns in one file: the offset of the captured props text, and
      that text. */
  datatype Capture = Capture(start: nat, raw: string)

  /** The definition the search settles on: its file and its match. */
  datatype Found = Found(file: SourceFile, capture: Capture)

  /** A confirmation prompt: the definition prompt lists the props announced as new. */
  datatype Prompt = DefinitionPrompt(component: string, newOnly: seq<string>) | UsagesPrompt(component: string)

  /** What a run shows and changes: its prompts, in order, and the edits it applies, in order. */
  datatype Effects = Effects(prompts: seq<Prompt>, edits: seq<Edit>)

  const NoEffects: Effects := Effects([], [])

  function Then(a: Effects, b: Effects): Effects {
    Effects(a.prompts + b.prompts, a.edits + b.edits)
  }

  /** What `syncComponentPropsUsages` shows and applies: one prompt when some tag changes, and
      the planned edits only when confirmed. */
  function UsageSync(name: string, props: seq<string>, removed: seq<string>, files: seq<SourceFile>, confirm: bool)
    : Effects
  {
    var planned := PlannedEdits(files, name, props, removed);
    if planned == [] then NoEffects else Effects([UsagesPrompt(name)], if confirm then planned else [])
  }

  /** The usage synchronisation prompts at most once, edits only non-test files, and applies
      nothing unconfirmed. */
  lemma UsageSyncShape(name: string, props: seq<string>, removed: seq<string>, files: seq<SourceFile>, confirm: bool)
    ensures |UsageSync(name, props, removed, files, confirm).prompts| <= 1
    ensures !confirm ==> UsageSync(name, props, removed, files, confirm).edits == []
    ensures forall e :: e in UsageSync(name, props, removed, files, confirm).edits ==> !IsTestFile(e.path)
  {
    forall e | e in UsageSync(name, props, removed, files, confirm).edits
      ensures !IsTestFile(e.path)
    {
      PlannedEditsAvoidTests(files, name, props, removed, e);
    }
  }

  // ---------------------------------------------------------------- the definition search

  /** The file loop of the definition search from file `k` on: the first file that is not a test
      file and has a match. */
  function FindFrom(name: string, files: seq<SourceFile>, find: (string, SourceFile) -> Option<Capture>, k: nat)
    : (r: Option<Found>)
    requires k <= |files|
    ensures r.Some? ==> !IsTestFile(r.value.file.path) && find(name, r.value.file) == Some(r.value.capture)
    decreases |files| - k
  {
    if k == |files| then None
    else if !IsTestFile(files[k].path) && find(name, files[k]).Some? then
      Some(Found(files[k], find(name, files[k]).value))
    else FindFrom(name, files, find, k + 1)
  }

  /**
   * The search settles on the first file that is not a test file and in which the patterns
   * match; it finds nothing exactly when no such file exists.
   */
  lemma {:induction false} FindFromFirst(name: string, files: seq<SourceFile>,
                                         find: (string, SourceFile) -> Option<Capture>, k: nat)
    requires k <= |files|
    ensures FindFrom(name, files, find, k).None? <==>
      forall j :: k <= j < |files| ==> IsTestFile(files[j].path) || find(name, files[j]).None?
    ensures FindFrom(name, files, find, k).Some? ==>
      exists j :: k <= j < |files| && !IsTestFile(files[j].path)
        && find(name, files[j]).Some?
        && FindFrom(name, files, find, k) == Some(Found(files[j], find(name, files[j]).value))
        && forall i :: k <= i < j ==> IsTestFile(files[i].path) || find(name, files[i]).None?
    decreases |files| - k
  {
    if k < |files| {
      FindFromFirst(name, files, find, k + 1);
      if !(!IsTestFile(files[k].path) && find(name, files[k]).Some?) && FindFrom(name, files, find, k).Some? {
        var j :| k + 1 <= j < |files| && !IsTestFile(files[j].path)
          && find(name, files[j]).Some?
          && FindFrom(name, files, find, k + 1) == Some(Found(files[j], find(name, files[j]).value))
          && forall i :: k + 1 <= i < j ==> IsTestFile(files[i].path) || find(name, files[i]).None?;
        assert forall i :: k <= i < j ==> IsTestFile(files[i].path) || find(name, files[i]).None?;
      }
    }
  }

  // ---------------------------------------------------------------- `syncDefinitionFromUsage`

  /**
   * The prop list the definition would be rewritten to, if a rewrite is proposed: None when the
   * captured text is empty or the union adds nothing and removes no repetition.
   */
  function ProposedProps(raw: string, usageProps: seq<string>): Option<seq<string>> {
    if raw == [] then None
    else
      var defProps := DerivePropNames(raw);
      var all := AllProps(defProps, usageProps);
      if SameContent(defProps, all) then None else Some(all)
  }

  /** The outcome of `syncDefinitionFromUsage`: the cache entry it writes, if any, and its effects. */
  datatype DefinitionResult = DefinitionResult(cached: Option<seq<string>>, effects: Effects)

  function DefinitionSync(usage: Usage, files: seq<SourceFile>, find: (string, SourceFile) -> Option<Capture>,
                          confirm: bool): DefinitionResult
  {
    match FindFrom(usage.componentName, files, find, 0)
    case None => DefinitionResult(None, NoEffects)
    case Some(fd) => DefinitionUpdate(usage, fd, files, confirm)
  }

  /** What follows once the definition `fd` is found: the early exit, then the prompt. */
  function DefinitionUpdate(usage: Usage, fd: Found, files: seq<SourceFile>, confirm: bool): DefinitionResult {
    match ProposedProps(fd.capture.raw, usage.props)
    case None => DefinitionResult(None, NoEffects)
    case Some(all) =>
      Rewrite(usage.componentName, fd, all, NewOnly(DerivePropNames(fd.capture.raw), usage.props), files, confirm)
  }

  /** The prompt announcing `newOnly`, and on confirmation the definition edit replacing the
      captured text by `allProps.join(", ")`, the cache write and the propagation to the usages. */
  function Rewrite(name: string, fd: Found, all: seq<string>, newOnly: seq<string>, files: seq<SourceFile>,
                   confirm: bool): DefinitionResult
  {
    var prompt := DefinitionPrompt(name, newOnly);
    if !confirm then DefinitionResult(None, Effects([prompt], []))
    else
      var defEdit := Edit(fd.file.path, fd.capture.start, fd.capture.start + |fd.capture.raw|, Join(all, ", "));
      DefinitionResult(Some(all), Then(Effects([prompt], [defEdit]), UsageSync(name, all, [], files, confirm)))
  }

  /** Declining the prompt leaves the cache alone and edits nothing. */
  lemma DefinitionSyncDeclined(usage: Usage, files: seq<SourceFile>, find: (string, SourceFile) -> Option<Capture>)
    ensures DefinitionSync(usage, files, find, false).cached == None
    ensures DefinitionSync(usage, files, find, false).effects.edits == []
  {
    match FindFrom(usage.componentName, files, find, 0)
    case None =>
    case Some(fd) =>
  }

  /**
   * No prompt, no edit and no cache change when the definition's props are distinct and already
   * include every prop the usage sets.
   */
  lemma DefinitionCovered(usage: Usage, files: seq<SourceFile>, find: (string, SourceFile) -> Option<Capture>,
                          confirm: bool, fd: Found)
    requires FindFrom(usage.componentName, files, find, 0) == Some(fd)
    requires NoDup(DerivePropNames(fd.capture.raw))
    requires forall p :: p in usage.props ==> p in DerivePropNames(fd.capture.raw)
    ensures DefinitionSync(usage, files, find, confirm) == DefinitionResult(None, NoEffects)
  {
    SameContentIff(DerivePropNames(fd.capture.raw), usage.props);
  }

  /** A usage name is written back and read again unchanged. */
  lemma UsageNameClean(n: string)
    requires IsUsageName(n)
    ensures IsCleanName(n)
  {
    assert forall c :: c in n ==> IsWordChar(c);
    assert !IsSpace(n[0]) && !IsSpace(n[|n| - 1]);
  }

  /**
   * The definition text written back, `allProps.join(", ")`, derives exactly the prop list that
   * goes into the cache, provided no definition prop keeps a trailing `?` and every usage prop is
   * a usage name (as every name collected from a tag is).
   */
  lemma ProposedRoundTrip(raw: string, usageProps: seq<string>)
    requires ProposedProps(raw, usageProps).Some?
    requires forall k :: 0 <= k < |DerivePropNames(raw)| ==> DerivePropNames(raw)[k][|DerivePropNames(raw)[k]| - 1] != '?'
    requires forall k :: 0 <= k < |usageProps| ==> IsUsageName(usageProps[k])
    ensures DerivePropNames(Join(ProposedProps(raw, usageProps).value, ", ")) == ProposedProps(raw, usageProps).value
  {
    var defProps := DerivePropNames(raw);
    var all := AllProps(defProps, usageProps);
    AllPropsMembers(defProps, usageProps);
    forall k | 0 <= k < |all|
      ensures IsCleanName(all[k])
    {
      assert all[k] in all;
      if all[k] in defProps {
        var i :| 0 <= i < |defProps| && defProps[i] == all[k];
      } else {
        var i :| 0 <= i < |usageProps| && usageProps[i] == all[k];
        UsageNameClean(usageProps[i]);
      }
    }
    DeriveJoinRoundTrip(all);
  }

  /** A definition update only adds: when the definition's props are distinct, the new list is
      them followed by the props announced as new, deduplicated. */
  lemma ProposedExtends(raw: string, usageProps: seq<string>)
    requires ProposedProps(raw, usageProps).Some? && NoDup(DerivePropNames(raw))
    ensures ProposedProps(raw, usageProps).value
      == DerivePropNames(raw) + InsertAll([], NewOnly(DerivePropNames(raw), usageProps))
    ensures NewOnly(DerivePropNames(raw), usageProps) != []
  {
    NewOnlyExact(DerivePropNames(raw), usageProps);
    EmptyAnnouncement(DerivePropNames(raw), usageProps);
  }

  // ---------------------------------------------------------------- the save handler, as functions

  /** `prevProps.filter((p) => !c.props.includes(p))`, with a missing entry read as `[]`. */
  function Removed(cache: map<string, seq<string>>, name: string, props: seq<string>): seq<string> {
    Without(if name in cache then cache[name] else [], Elems(props))
  }

  /**
   * The removed props are exactly the cached props the new signature lacks, in cached order;
   * so they never meet the new props, which is what the rewrite's idempotence asks for.
   */
  lemma RemovedExact(cache: map<string, seq<string>>, name: string, props: seq<string>)
    ensures forall x :: x in Removed(cache, name, props) <==> name in cache && x in cache[name] && x !in props
    ensures Elems(props) !! Elems(Removed(cache, name, props))
  {
    WithoutMembers(if name in cache then cache[name] else [], Elems(props));
  }

  /** The cache and the effects so far. */
  datatype Pass = Pass(cache: map<string, seq<string>>, effects: Effects)

  /** One declaration of the saved document. */
  function ComponentStep(p: Pass, d: Declaration, files: seq<SourceFile>, confirm: bool): Pass {
    var props := DerivePropNames(d.raw);
    if props == [] then p
    else
      Pass(p.cache[d.name := props],
           Then(p.effects, UsageSync(d.name, props, Removed(p.cache, d.name, props), files, confirm)))
  }

  /** The declarations of the saved document, one after the other. */
  function ComponentPass(p: Pass, decls: seq<Declaration>, files: seq<SourceFile>, confirm: bool): Pass {
    if decls == [] then p
    else ComponentStep(ComponentPass(p, decls[..|decls| - 1], files, confirm), decls[|decls| - 1], files, confirm)
  }

  /** The prop list of the last declaration named `n` that has props. */
  function LastSignature(decls: seq<Declaration>, n: string): Option<seq<string>> {
    if decls == [] then None
    else
      var d := decls[|decls| - 1];
      if d.name == n && DerivePropNames(d.raw) != [] then Some(DerivePropNames(d.raw))
      else LastSignature(decls[..|decls| - 1], n)
  }

  /**
   * After the declarations, a component's entry holds the props of its last declaration with
   * props; a component declared only without props keeps its entry as it was, or its absence.
   */
  lemma {:induction false} ComponentPassCache(p: Pass, decls: seq<Declaration>, files: seq<SourceFile>,
                                              confirm: bool, n: string)
    ensures var c := ComponentPass(p, decls, files, confirm).cache;
      match LastSignature(decls, n)
      case Some(props) => n in c && c[n] == props
      case None => (n in c <==> n in p.cache) && (n in c ==> c[n] == p.cache[n])
  {
    if decls != [] {
      ComponentPassCache(p, decls[..|decls| - 1], files, confirm, n);
    }
  }

  /** The usages the usage pass handles: those with props whose name was not handled before. */
  function Selected(usages: seq<Usage>): seq<Usage> {
    if usages == [] then []
    else
      var init := usages[..|usages| - 1];
      var u := usages[|usages| - 1];
      Selected(init) + (if u.props != [] && u.componentName !in NamesOf(init) then [u] else [])
  }

  lemma SelectedAt(usages: seq<Usage>, k: nat)
    requires k < |usages|
    ensures Selected(usages[..k + 1]) == Selected(usages[..k])
      + (if usages[k].props != [] && usages[k].componentName !in NamesOf(usages[..k]) then [usages[k]] else [])
    ensures NamesOf(usages[..k + 1])
      == NamesOf(usages[..k]) + (if usages[k].props != [] then {usages[k].componentName} else {})
  {
    assert usages[..k + 1] == usages[..k] + [usages[k]];
    assert usages[..k + 1][..k] == usages[..k];
  }

  /** The `seen` set: the names of the usages with props. */
  function NamesOf(usages: seq<Usage>): set<string> {
    set u | u in usages && u.props != [] :: u.componentName
  }

  /** The first usage with props of component `n`. */
  function FirstUsage(usages: seq<Usage>, n: string): Option<Usage> {
    if usages == [] then None
    else
      var init := usages[..|usages| - 1];
      var u := usages[|usages| - 1];
      if FirstUsage(init, n).Some? then FirstUsage(init, n)
      else if u.componentName == n && u.props != [] then Some(u)
      else None
  }

  lemma {:induction false} FirstUsageNames(usages: seq<Usage>, n: string)
    ensures FirstUsage(usages, n).Some? <==> n in NamesOf(usages)
    ensures FirstUsage(usages, n).Some? ==>
      FirstUsage(usages, n).value in usages && FirstUsage(usages, n).value.componentName == n
  {
    if usages != [] {
      var init := usages[..|usages| - 1];
      FirstUsageNames(init, n);
      assert usages == init + [usages[|usages| - 1]];
    }
  }

  /**
   * Each component is handled once, with its first usage that has props: the handled usages are
   * exactly those first usages, and no two of them name the same component.
   */
  lemma {:induction false} SelectedOnce(usages: seq<Usage>)
    ensures forall v :: v in Selected(usages) <==>
      v.componentName in NamesOf(usages) && FirstUsage(usages, v.componentName) == Some(v)
    ensures forall i, j :: 0 <= i < j < |Selected(usages)| ==>
      Selected(usages)[i].componentName != Selected(usages)[j].componentName
  {
    if usages != [] {
      var init := usages[..|usages| - 1];
      var u := usages[|usages| - 1];
      SelectedOnce(init);
      assert usages == init + [u];
      forall n
        ensures FirstUsage(usages, n).Some? <==> n in NamesOf(usages)
      {
        FirstUsageNames(usages, n);
      }
      forall n
        ensures FirstUsage(init, n).Some? <==> n in NamesOf(init)
      {
        FirstUsageNames(init, n);
      }
      var s := Selected(init);
      if u.props != [] && u.componentName !in NamesOf(init) {
        forall i | 0 <= i < |s|
          ensures s[i].componentName != u.componentName
        {
          assert s[i] in s;
        }
      }
    }
  }

  /** One handled usage: `syncDefinitionFromUsage`, and its cache write. */
  function DefinitionStep(p: Pass, u: Usage, files: seq<SourceFile>, find: (string, SourceFile) -> Option<Capture>,
                          confirm: bool): Pass
  {
    var r := DefinitionSync(u, files, find, confirm);
    Pass(if r.cached.Some? then p.cache[u.componentName := r.cached.value] else p.cache, Then(p.effects, r.effects))
  }

  function DefinitionPass(p: Pass, handled: seq<Usage>, files: seq<SourceFile>,
                          find: (string, SourceFile) -> Option<Capture>, confirm: bool): Pass
  {
    if handled == [] then p
    else DefinitionStep(DefinitionPass(p, handled[..|handled| - 1], files, find, confirm),
                        handled[|handled| - 1], files, find, confirm)
  }

  lemma ComponentPassAt(p: Pass, decls: seq<Declaration>, k: nat, files: seq<SourceFile>, confirm: bool)
    requires k < |decls|
    ensures ComponentPass(p, decls[..k + 1], files, confirm)
      == ComponentStep(ComponentPass(p, decls[..k], files, confirm), decls[k], files, confirm)
  {
    assert decls[..k + 1][..k] == decls[..k];
  }

  lemma DefinitionPassStep(p: Pass, handled: seq<Usage>, u: Usage, files: seq<SourceFile>,
                           find: (string, SourceFile) -> Option<Capture>, confirm: bool)
    ensures DefinitionPass(p, handled + [u], files, find, confirm)
      == DefinitionStep(DefinitionPass(p, handled, files, find, confirm), u, files, find, confirm)
  {
    assert (handled + [u])[..|handled|] == handled;
  }

  /** One save of a document: its text, in the language `languageId`, declaring `decls`. */
  function Save(cache: map<string, seq<string>>, languageId: string, decls: seq<Declaration>, text: string,
                files: seq<SourceFile>, find: (string, SourceFile) -> Option<Capture>, confirm: bool): Pass
  {
    if languageId !in ReactLanguages then Pass(cache, NoEffects)
    else
      var c := ComponentPass(Pass(cache, NoEffects), decls, files, confirm);
      DefinitionPass(c, Selected(UsagesOf(TagsFrom(text, 0, None))), files, find, confirm)
  }

  // ---------------------------------------------------------------- properties of a save

  /** What the definition step of one usage edits is no test file. */
  lemma DefinitionSyncSparesTests(u: Usage, files: seq<SourceFile>, find: (string, SourceFile) -> Option<Capture>,
                                  confirm: bool)
    ensures forall e :: e in DefinitionSync(u, files, find, confirm).effects.edits ==> !IsTestFile(e.path)
  {
    match FindFrom(u.componentName, files, find, 0)
    case None =>
    case Some(fd) =>
      match ProposedProps(fd.capture.raw, u.props)
      case None =>
      case Some(all) =>
        UsageSyncShape(u.componentName, all, [], files, confirm);
  }

  /** One declaration keeps every cache key, adds only edits to non-test files, and none when
      declined. */
  lemma ComponentStepFacts(p: Pass, d: Declaration, files: seq<SourceFile>, confirm: bool)
    ensures p.cache.Keys <= ComponentStep(p, d, files, confirm).cache.Keys
    ensures forall e :: e in ComponentStep(p, d, files, confirm).effects.edits ==>
      e in p.effects.edits || !IsTestFile(e.path)
    ensures !confirm ==> ComponentStep(p, d, files, confirm).effects.edits == p.effects.edits
  {
    var props := DerivePropNames(d.raw);
    UsageSyncShape(d.name, props, Removed(p.cache, d.name, props), files, confirm);
  }

  /** One handled usage keeps every cache key, adds only edits to non-test files, and when
      declined changes neither the cache nor the edits. */
  lemma DefinitionStepFacts(p: Pass, u: Usage, files: seq<SourceFile>, find: (string, SourceFile) -> Option<Capture>,
                            confirm: bool)
    ensures p.cache.Keys <= DefinitionStep(p, u, files, find, confirm).cache.Keys
    ensures forall e :: e in DefinitionStep(p, u, files, find, confirm).effects.edits ==>
      e in p.effects.edits || !IsTestFile(e.path)
    ensures !confirm ==> (DefinitionStep(p, u, files, find, confirm).cache == p.cache
      && DefinitionStep(p, u, files, find, confirm).effects.edits == p.effects.edits)
  {
    DefinitionSyncSparesTests(u, files, find, confirm);
    if !confirm {
      DefinitionSyncDeclined(u, files, find);
    }
  }

  lemma {:induction false} ComponentPassFacts(p: Pass, decls: seq<Declaration>, files: seq<SourceFile>, confirm: bool)
    ensures p.cache.Keys <= ComponentPass(p, decls, files, confirm).cache.Keys
    ensures forall e :: e in ComponentPass(p, decls, files, confirm).effects.edits ==>
      e in p.effects.edits || !IsTestFile(e.path)
    ensures !confirm ==> ComponentPass(p, decls, files, confirm).effects.edits == p.effects.edits
  {
    if decls != [] {
      var q := ComponentPass(p, decls[..|decls| - 1], files, confirm);
      ComponentPassFacts(p, decls[..|decls| - 1], files, confirm);
      ComponentStepFacts(q, decls[|decls| - 1], files, confirm);
    }
  }

  lemma {:induction false} DefinitionPassFacts(p: Pass, handled: seq<Usage>, files: seq<SourceFile>,
                                               find: (string, SourceFile) -> Option<Capture>, confirm: bool)
    ensures p.cache.Keys <= DefinitionPass(p, handled, files, find, confirm).cache.Keys
    ensures forall e :: e in DefinitionPass(p, handled, files, find, confirm).effects.edits ==>
      e in p.effects.edits || !IsTestFile(e.path)
    ensures !confirm ==> (DefinitionPass(p, handled, files, find, confirm).cache == p.cache
      && DefinitionPass(p, handled, files, find, confirm).effects.edits == p.effects.edits)
  {
    if handled != [] {
      var q := DefinitionPass(p, handled[..|handled| - 1], files, find, confirm);
      DefinitionPassFacts(p, handled[..|handled| - 1], files, find, confirm);
      DefinitionStepFacts(q, handled[|handled| - 1], files, find, confirm);
    }
  }

  /** Declining every prompt applies no edit, and then only the declarations change the cache. */
  lemma SaveDeclined(cache: map<string, seq<string>>, languageId: string, decls: seq<Declaration>, text: string,
                     files: seq<SourceFile>, find: (string, SourceFile) -> Option<Capture>)
    ensures Save(cache, languageId, decls, text, files, find, false).effects.edits == []
    ensures languageId in ReactLanguages ==>
      Save(cache, languageId, decls, text, files, find, false).cache
        == ComponentPass(Pass(cache, NoEffects), decls, files, false).cache
  {
    if languageId in ReactLanguages {
      var c := ComponentPass(Pass(cache, NoEffects), decls, files, false);
      ComponentPassFacts(Pass(cache, NoEffects), decls, files, false);
      DefinitionPassFacts(c, Selected(UsagesOf(TagsFrom(text, 0, None))), files, find, false);
    }
  }

  /** A save never edits a test file. */
  lemma SaveSparesTests(cache: map<string, seq<string>>, languageId: string, decls: seq<Declaration>, text: string,
                        files: seq<SourceFile>, find: (string, SourceFile) -> Option<Capture>, confirm: bool)
    ensures forall e :: e in Save(cache, languageId, decls, text, files, find, confirm).effects.edits ==>
      !IsTestFile(e.path)
  {
    if languageId in ReactLanguages {
      var c := ComponentPass(Pass(cache, NoEffects), decls, files, confirm);
      ComponentPassFacts(Pass(cache, NoEffects), decls, files, confirm);
      DefinitionPassFacts(c, Selected(UsagesOf(TagsFrom(text, 0, None))), files, find, confirm);
    }
  }

  /** A save never drops a cache entry: it only adds or replaces entries. */
  lemma SaveKeepsKeys(cache: map<string, seq<string>>, languageId: string, decls: seq<Declaration>, text: string,
                      files: seq<SourceFile>, find: (string, SourceFile) -> Option<Capture>, confirm: bool)
    ensures cache.Keys <= Save(cache, languageId, decls, text, files, find, confirm).cache.Keys
  {
    if languageId in ReactLanguages {
      var c := ComponentPass(Pass(cache, NoEffects), decls, files, confirm);
      ComponentPassFacts(Pass(cache, NoEffects), decls, files, confirm);
      DefinitionPassFacts(c, Selected(UsagesOf(TagsFrom(text, 0, None))), files, find, confirm);
    }
  }

  // ---------------------------------------------------------------- the handler, imperatively

  /** The extension's state: `componentPropsCache`. */
  class Synchronizer {
    var cache: map<string, seq<string>>

    constructor()
      ensures cache == map[]
    {
      cache := map[];
    }

    /** `syncDefinitionFromUsage`: the file loop of the definition search, then the union, the
        early exit, the prompt, the definition edit, the cache write and the propagation. */
    method SyncDefinitionFromUsage(usage: Usage, files: seq<SourceFile>, find: (string, SourceFile) -> Option<Capture>,
                                   confirm: bool) returns (effects: Effects)
      modifies this
      ensures var r := DefinitionSync(usage, files, find, confirm);
        effects == r.effects
        && cache == if r.cached.Some? then old(cache)[usage.componentName := r.cached.value] else old(cache)
    {
      var name := usage.componentName;
      var found: Option<Found> := None;
      var k := 0;
      while k < |files|
        invariant k <= |files|
        invariant FindFrom(name, files, find, 0) == FindFrom(name, files, find, k)
        decreases |files| - k
      {
        var f := files[k];
        if !IsTestFile(f.path) {
          var m := find(name, f);
          if m.Some? {
            found := Some(Found(f, m.value));
            break;
          }
        }
        k := k + 1;
      }
      assert found == FindFrom(name, files, find, 0);
      if found.None? {
        return NoEffects;
      }
      effects := UpdateDefinition(usage, found.value, files, confirm);
    }

    /** The rest of `syncDefinitionFromUsage` once the definition is found. */
    method UpdateDefinition(usage: Usage, fd: Found, files: seq<SourceFile>, confirm: bool) returns (effects: Effects)
      modifies this
      ensures var r := DefinitionUpdate(usage, fd, files, confirm);
        effects == r.effects
        && cache == if r.cached.Some? then old(cache)[usage.componentName := r.cached.value] else old(cache)
    {
      var name := usage.componentName;
      var raw := fd.capture.raw;
      if raw == [] {
        assert DefinitionUpdate(usage, fd, files, confirm) == DefinitionResult(None, NoEffects);
        return NoEffects;
      }
      var defProps := DerivePropNames(raw);
      var all := BuildUnion(defProps, usage.props);
      if SameContent(defProps, all) {
        assert DefinitionUpdate(usage, fd, files, confirm) == DefinitionResult(None, NoEffects);
        return NoEffects;
      }
      assert ProposedProps(raw, usage.props) == Some(all);
      assert DefinitionUpdate(usage, fd, files, confirm) == Rewrite(name, fd, all, NewOnly(defProps, usage.props), files, confirm);
      effects := ApplyRewrite(name, fd, all, NewOnly(defProps, usage.props), files, confirm);
    }

    /** The prompt, and on confirmation the definition edit, the cache write and the propagation. */
    method ApplyRewrite(name: string, fd: Found, all: seq<string>, newOnly: seq<string>, files: seq<SourceFile>,
                        confirm: bool) returns (effects: Effects)
      modifies this
      ensures var r := Rewrite(name, fd, all, newOnly, files, confirm);
        effects == r.effects && cache == if r.cached.Some? then old(cache)[name := r.cached.value] else old(cache)
    {
      var prompt := DefinitionPrompt(name, newOnly);
      if !confirm {
        return Effects([prompt], []);
      }
      var defEdit := Edit(fd.file.path, fd.capture.start, fd.capture.start + |fd.capture.raw|, Join(all, ", "));
      cache := cache[name := all];
      var propagated := Propagate(name, all, files);
      effects := Then(Effects([prompt], [defEdit]), propagated);
    }

    /** `syncComponentPropsUsages` with the confirmed prop list and nothing removed. */
    method Propagate(name: string, all: seq<string>, files: seq<SourceFile>) returns (effects: Effects)
      ensures effects == UsageSync(name, all, [], files, true)
    {
      var prompted, applied := SyncComponentPropsUsages(name, all, [], files, true);
      effects := Effects(if prompted then [UsagesPrompt(name)] else [], applied);
    }

    /** The save handler (`onDidSaveTextDocument`): the declaration pass, then the usage pass. */
    method OnSave(languageId: string, decls: seq<Declaration>, text: string, files: seq<SourceFile>,
                  find: (string, SourceFile) -> Option<Capture>, confirm: bool) returns (effects: Effects)
      modifies this
      ensures languageId !in ReactLanguages ==> cache == old(cache) && effects == NoEffects
      ensures cache == Save(old(cache), languageId, decls, text, files, find, confirm).cache
      ensures effects == Save(old(cache), languageId, decls, text, files, find, confirm).effects
    {
      if languageId !in ReactLanguages {
        return NoEffects;
      }
      effects := NoEffects;
      for k := 0 to |decls|
        invariant Pass(cache, effects) == ComponentPass(Pass(old(cache), NoEffects), decls[..k], files, confirm)
      {
        var d := decls[k];
        ComponentPassAt(Pass(old(cache), NoEffects), decls, k, files, confirm);
        var props := DerivePropNames(d.raw);
        if props == [] {
          continue;
        }
        var prev := if d.name in cache then cache[d.name] else [];
        var removed := Without(prev, Elems(props));
        cache := cache[d.name := props];
        var prompted, applied := SyncComponentPropsUsages(d.name, props, removed, files, confirm);
        effects := Then(effects, Effects(if prompted then [UsagesPrompt(d.name)] else [], applied));
      }
      assert decls[..|decls|] == decls;
      ghost var afterDecls := Pass(cache, effects);
      var usages := GetUsagesInDocument(text);
      if |usages| == 0 {
        return;
      }
      var seen: set<string> := {};
      ghost var handled: seq<Usage> := [];
      for k := 0 to |usages|
        invariant seen == NamesOf(usages[..k])
        invariant handled == Selected(usages[..k])
        invariant Pass(cache, effects) == DefinitionPass(afterDecls, handled, files, find, confirm)
      {
        var u := usages[k];
        SelectedAt(usages, k);
        if |u.props| == 0 {
          continue;
        }
        if u.componentName in seen {
          continue;
        }
        seen := seen + {u.componentName};
        var e := SyncDefinitionFromUsage(u, files, find, confirm);
        DefinitionPassStep(afterDecls, handled, u, files, find, confirm);
        handled := handled + [u];
        effects := Then(effects, e);
      }
      assert usages[..|usages|] == usages;
    }
  }
}
