# React prop synchroniser and CSS pointer, modelled in Dafny

This project models the core of a VS Code extension for React code bases, written in
TypeScript. It has two parts.

**The prop synchroniser** (`src/features/reactPropSync.ts`) keeps a cache that maps each
component name to the props of its definition, as last seen. When a document is saved:

- every component declared in the document with a destructured parameter `({ a, b })` updates
  its cache entry;
- for each such component, the usages of that component in the workspace are rebuilt. Missing
  props are appended as `prop={/* TODO: completar */}` placeholders, and props that disappeared
  from the signature are dropped (`syncComponentPropsUsages`);
- then every JSX usage `<Name ...>` in the saved document that sets props is compared with the
  definition of `Name`, once per component (`syncDefinitionFromUsage`). If the usage sets props
  the definition lacks, the definition's destructuring is rewritten to the union, and the new
  list is propagated to the other usages;
- files whose path looks like a test file are never searched or edited (`isTestFile`).

**The CSS pointer helpers** (`src/features/cssPointer.ts`) do three things:

- decide whether the word under the cursor is a class or an id, from the last `class=`,
  `className=` or `id=` before it (`getSelectorKind`);
- cut a CSS rule out of a style sheet by counting braces (`extractCssBlock`);
- escape a string for use in a regular expression (`escapeRegExp`).

## Files and modules

| file | module | content |
|---|---|---|
| `wrappers.dfy` | `Wrappers` | `Option` |
| `text.dfy` | `Text` | white space, `split`, `trim`, `join`, `indexOf`, `filter` by membership, insertion into a `Set` in insertion order |
| `prop_names.dfy` | `PropNames` | the prop-name derivation from a destructuring text |
| `test_files.dfy` | `TestFiles` | `isTestFile` |
| `jsx_attributes.dfy` | `JsxAttributes` | `parseJsxAttributes`, as a specification function and as the source's loops |
| `jsx_tags.dfy` | `JsxTags` | the matches of `<Name\b...(/?)>` in a text |
| `usages.dfy` | `Usages` | usage-name extraction and `getUsagesInDocument` |
| `reconcile.dfy` | `Reconcile` | the per-tag rewrite and `syncComponentPropsUsages` |
| `union.dfy` | `Union` | the union and early exit of `syncDefinitionFromUsage` |
| `prop_sync.dfy` | `PropSync` | `syncDefinitionFromUsage`, the save handler and the cache, as functions and as the class `Synchronizer` |
| `css_pointer.dfy` | `CssPointer` | `getSelectorKind`, `extractCssBlock`, `escapeRegExp` |

### How the code maps to Dafny

- **Loops become methods.** Each imperative loop of the source is a Dafny `method` with a
  `while` or `for` loop, proved against a specification function. The specification functions
  carry the lemmas.
- **Regular-expression scans.** A scan is written as "the next position where the pattern
  matches" (`NextTag`, `NextProp`, `NextMatch`) plus the list of matches from a position
  (`TagsFrom`, `PropMatches`, `LastKindFrom`). Lemmas show the scan misses no match.
- **The workspace is a value.** It is a sequence of `SourceFile(path, text)`.
- **Edits are records.** An edit is `Edit(path, start, end, newText)` with character offsets.
- **Prompts.** One boolean `confirm` answers every confirmation prompt.

## Model

| member | source | states |
|---|---|---|
| `Text.Split` | src/features/reactPropSync.ts:93-94 | `split(",")` yields at least one piece, and no piece contains the separator |
| `Text.SplitAppend` | src/features/reactPropSync.ts:93-94 | splitting `a + "," + b` gives the pieces of `a` followed by the pieces of `b` |
| `Text.Trim` | src/features/reactPropSync.ts:95 | `trim()` yields text with no white space at either end, made only of characters of the input |
| `Text.TrimExact` | src/features/reactPropSync.ts:95 | `trim()` returns a slice `s[a..b]` of its input with only white space before `a` and after `b`; with the first row, this fixes the result |
| `Text.TrimSurrounded` | src/features/reactPropSync.ts:95 | a trimmed, non-empty text between two runs of white space trims to itself |
| `Text.TrimKeepsParts` | src/features/reactPropSync.ts:95 | after leading white space, text that starts with a non-space and has a non-space at a later position keeps everything up to that position |
| `Text.TrimLeadingSpace` | src/features/reactPropSync.ts:95 | leading white space does not change the trimmed text |
| `Text.Before` | src/features/reactPropSync.ts:97 | `split(c)[0]` is the longest prefix without `c`, and it stops at a `c` when it is shorter than the input |
| `Text.WithoutMembers` | src/features/reactPropSync.ts:237 | `filter((p) => !xs.includes(p))` keeps exactly the elements not in the dropped set |
| `Text.WithoutAppend` | src/features/reactPropSync.ts:237 | filtering distributes over concatenation, so order is kept |
| `Text.InsertAllMembers` | src/features/reactPropSync.ts:223-227 | adding elements to an insertion-ordered `Set` gives exactly the old elements together with the added ones |
| `Text.InsertAllNoDup` | src/features/reactPropSync.ts:223-227 | a `Set` built this way never holds an element twice |
| `Text.InsertAllConcat` | src/features/reactPropSync.ts:223-227 | adding `a + b` is adding `a`, then `b` |
| `Text.InsertAllDistinct` | src/features/reactPropSync.ts:223 | `new Set(xs)` in insertion order is `xs` itself when `xs` has no repetition |
| `Text.InsertAllAfter` | src/features/reactPropSync.ts:223-227 | adding `u` to a set that starts with `d` keeps `d` first, then adds the elements of `u` that are not in `d` |
| `PropNames.DropQuestion` | src/features/reactPropSync.ts:97 | `replace(/\?$/, "")` removes exactly one trailing `?` and nothing else |
| `PropNames.CleanEntry` | src/features/reactPropSync.ts:97 | the name part of one entry is trimmed, contains no `=` or `:`, and uses only characters of the entry |
| `PropNames.DeriveEntry` | src/features/reactPropSync.ts:95-98 | an entry yields a name only when that name is non-empty, trimmed and free of `=` and `:` |
| `PropNames.CleanEntryCut` | src/features/reactPropSync.ts:97 | for every entry of the form white space, clean name, white space, then nothing or a text starting with `=` or `:`, the name part is exactly the clean name |
| `PropNames.CleanEntryOptional` | src/features/reactPropSync.ts:97 | the same with `?` right after the name: the `?` is dropped and the name part is the bare name |
| `PropNames.CleanEntrySpacedQuestion` | src/features/reactPropSync.ts:97 | with white space between `?` and the `=` or `:`, the `?` stays: `size? : number` yields `size?` |
| `PropNames.DeriveEntryCut` | src/features/reactPropSync.ts:95-98 | an entry of the form white space, clean name, white space, `=` or `:` and anything after yields exactly that name |
| `PropNames.DeriveEntryOptional` | src/features/reactPropSync.ts:95-98 | an entry of the form white space, clean name, `?`, then nothing or a default or a type yields exactly the bare name |
| `PropNames.DeriveExample` | src/features/reactPropSync.ts:93-98 | `{ title, onSave = noop, size?: number }` derives `[title, onSave, size]` |
| `PropNames.DerivePropNames` | src/features/reactPropSync.ts:93-98 | the derivation yields at most one name per comma-separated piece, and every name has the prop-name shape |
| `PropNames.DeriveFromShape` | src/features/reactPropSync.ts:93-98 | every derived name is non-empty, trimmed, and free of `,`, `=` and `:` |
| `PropNames.DeriveFromAppend` | src/features/reactPropSync.ts:96-98 | the pieces are derived one by one, independently of each other |
| `PropNames.DeriveAppend` | src/features/reactPropSync.ts:93-98 | deriving from `a + "," + b` is deriving from `a`, then from `b` |
| `PropNames.CleanEntryClean` | src/features/reactPropSync.ts:97 | a clean name (trimmed, no `,` `=` `:`, no trailing `?`) is its own entry name |
| `PropNames.DeriveEntryClean` | src/features/reactPropSync.ts:95-98 | white space followed by a clean name yields that name |
| `PropNames.DeriveSpace` | src/features/reactPropSync.ts:93-98 | white space alone derives no props |
| `PropNames.DeriveOne` | src/features/reactPropSync.ts:93-98 | white space then one clean name derives exactly that name |
| `PropNames.DeriveJoin` | src/features/reactPropSync.ts:93-98 | clean names joined with `", "`, after any white space, derive back exactly those names |
| `PropNames.DeriveJoinRoundTrip` | src/features/reactPropSync.ts:215-220 | `derive(names.join(", ")) == names` for clean names: the text written back reads back as the list |
| `PropNames.DeriveKeepsDuplicates` | src/features/reactPropSync.ts:93-98 | the derivation does not deduplicate: `n, n` derives `[n, n]` |
| `TestFiles.Normalize` | src/features/reactPropSync.ts:124 | replacing backslashes keeps the path's length |
| `TestFiles.NormalizeChars` | src/features/reactPropSync.ts:124 | each character is kept, except that a backslash becomes a slash |
| `TestFiles.NormalizeIdempotent` | src/features/reactPropSync.ts:124 | a normalised path has no backslash, and normalising it again changes nothing |
| `TestFiles.NormalizeAppend` | src/features/reactPropSync.ts:124 | normalisation works character by character over concatenation |
| `TestFiles.NormalizeNoBackslash` | src/features/reactPropSync.ts:124 | a path without backslashes is already normalised |
| `TestFiles.ContainsFromExact` | src/features/reactPropSync.ts:126 | the regular-expression `test` finds an occurrence at or after `i` exactly when one exists |
| `TestFiles.MarkerMakesTestFile` | src/features/reactPropSync.ts:123-128 | one marker anywhere in the normalised path makes it a test file |
| `TestFiles.IsTestFileMarkers` | src/features/reactPropSync.ts:123-128 | a path is a test file exactly when its normalised form contains `.test.`, `.spec.`, `/__tests__/`, `/test/` or `/tests/` |
| `TestFiles.IsTestFileNormalized` | src/features/reactPropSync.ts:123-128 | the test-file verdict is the same for a path and its normalised form |
| `TestFiles.NormalizeInfix` | src/features/reactPropSync.ts:124 | a normalised piece is found at its old position in the normalised whole |
| `TestFiles.DirectoryMarker` | src/features/reactPropSync.ts:124-126 | `/dir/` and `\dir\` both normalise to a directory marker |
| `TestFiles.TestDirectory` | src/features/reactPropSync.ts:123-128 | any path through a `__tests__`, `test` or `tests` directory is a test file, whichever separator it uses |
| `TestFiles.TestSuffix` | src/features/reactPropSync.ts:123-128 | any path with a `.test.` or `.spec.` part is a test file |
| `TestFiles.PlainNameNotTestFile` | src/features/reactPropSync.ts:123-128 | a path without `.`, `/` or `\` is never a test file |
| `JsxAttributes.BraceEnd` | src/features/reactPropSync.ts:300-315 | the brace-depth scan ends within the text, and consumes at least one character when any is left (where it ends: `JsxAttributes.BraceEndExact`) |
| `JsxAttributes.QuoteEnd` | src/features/reactPropSync.ts:383-394 | the quoted-value scan ends within the text |
| `JsxAttributes.ValueEnd` | src/features/reactPropSync.ts:363-405 | the value scan ends within the text, at or after the value's start |
| `JsxAttributes.BraceEndExact` | src/features/reactPropSync.ts:300-315 | the brace scan ends one past the first `}` that brings the depth back to zero, or at the end of the text when no `}` does |
| `JsxAttributes.QuoteEndExact` | src/features/reactPropSync.ts:383-394 | the quoted-value scan ends one past the first quote not preceded by a backslash, or at the end of the text when there is none |
| `JsxAttributes.ValueEndExact` | src/features/reactPropSync.ts:363-405 | a value ends after its balanced braces, after its closing quote, or at the end of the longest run of characters other than white space, `>` and `/` |
| `JsxAttributes.NextAttr` | src/features/reactPropSync.ts:288-408 | one record's text is exactly the slice from `start` to the next position; there is no record exactly when only white space is left |
| `JsxAttributes.NamedAttr` | src/features/reactPropSync.ts:333-408 | a named record covers at least its identifier, and its name is that identifier |
| `JsxAttributes.ScanFromCoversPrefix` | src/features/reactPropSync.ts:283-412 | the records' texts, concatenated, are the text from `start` onwards, up to trailing white space |
| `JsxAttributes.ScanAttrsRoundTrip` | src/features/reactPropSync.ts:283-412 | rendering the parsed records gives back the attribute text, except trailing white space |
| `JsxAttributes.NamedWellFormed` | src/features/reactPropSync.ts:291-338 | a named record's text is white space, then a character that starts an identifier, and its name is the longest identifier run from there |
| `JsxAttributes.NextAttrWellFormed` | src/features/reactPropSync.ts:288-408 | every record cut by one round of the loop is well formed |
| `JsxAttributes.ScanFromWellFormed` | src/features/reactPropSync.ts:283-412 | every record is well formed |
| `JsxAttributes.ScanAttrsWellFormed` | src/features/reactPropSync.ts:283-412 | every record is well formed, and every record name is an identifier `[A-Za-z_$][A-Za-z0-9_$]*` |
| `JsxAttributes.ParseJsxAttributes` | src/features/reactPropSync.ts:283-412 | the imperative parser returns exactly the specified record list |
| `JsxAttributes.ScanOne` | src/features/reactPropSync.ts:288-408 | one round of the outer loop computes the specified record and next position |
| `JsxAttributes.ScanNamed` | src/features/reactPropSync.ts:333-408 | the named-attribute branch computes the specified record |
| `JsxAttributes.ScanValue` | src/features/reactPropSync.ts:363-405 | the value branches compute the specified value end |
| `JsxAttributes.SkipRun` | src/features/reactPropSync.ts:292-294 | a skip loop stops at the first character outside the class |
| `JsxAttributes.SkipBraced` | src/features/reactPropSync.ts:300-315 | the brace-depth loop computes the specified end |
| `JsxAttributes.SkipQuoted` | src/features/reactPropSync.ts:383-394 | the quote loop computes the specified end, honouring a backslash before the quote |
| `JsxTags.TagAt` | src/features/reactPropSync.ts:135 | a tag matched at `p` starts at `p` and ends within the text |
| `JsxTags.TagAtText` | src/features/reactPropSync.ts:135 | the matched text is `<`, the name, the attribute text and the closing; the lazy attribute text contains no `>` |
| `JsxTags.ArrowCutsTag` | src/features/reactPropSync.ts:135 | the attribute text stops at the first `>`, even inside a brace value: `<B f={()=>g}/>` matches as `<B f={()=>` |
| `JsxTags.TagName` | src/features/reactPropSync.ts:135 | the tag name has the form `[A-Z][A-Za-z0-9_]*` and ends at a word boundary |
| `JsxTags.NextTag` | src/features/reactPropSync.ts:140 | the next match lies at or after `from`, and a match really is there |
| `JsxTags.NextTagFirst` | src/features/reactPropSync.ts:140 | no match is skipped between `from` and the next match |
| `JsxTags.TagsFrom` | src/features/reactPropSync.ts:140-158 | every match lies within the text, at or after `from` |
| `JsxTags.TagsFromMatch` | src/features/reactPropSync.ts:140-158 | every listed tag is a match of the pattern at its start |
| `JsxTags.TagsFromOrdered` | src/features/reactPropSync.ts:140-158 | the matches are in text order and do not overlap |
| `JsxTags.WordBoundary` | src/features/reactPropSync.ts:429 | `<Name\b` does not match a longer name such as `<NameX` |
| `Usages.NextProp` | src/features/reactPropSync.ts:145-148 | the next `\b[a-zA-Z_]\w*\s*=` match lies at or after `from`, and a match really is there |
| `Usages.NextPropFirst` | src/features/reactPropSync.ts:148 | no match is skipped before the next one |
| `Usages.NoPropInside` | src/features/reactPropSync.ts:145-148 | no match starts inside a match, so resuming after its `=` loses nothing |
| `Usages.PropMatchesSound` | src/features/reactPropSync.ts:148-150 | every collected name is the name of a match |
| `Usages.PropMatchesComplete` | src/features/reactPropSync.ts:148-150 | every match's name is collected |
| `Usages.UsageNamesExact` | src/features/reactPropSync.ts:144-150 | a name is in a usage's prop set exactly when some `name\s*=` occurrence in the attribute text matches |
| `Usages.UsageNamesShape` | src/features/reactPropSync.ts:144-155 | the prop list has no repetition, and each name has the form `[a-zA-Z_][A-Za-z0-9_]*` |
| `Usages.ExtractUsageNames` | src/features/reactPropSync.ts:144-150 | the imperative loop over `propRegex` returns exactly the specified names |
| `Usages.UsagesOfStep` | src/features/reactPropSync.ts:152-157 | a tag adds a usage exactly when it sets some prop |
| `Usages.UsagesOfMembers` | src/features/reactPropSync.ts:140-158 | the usages are exactly the tags with a non-empty prop set, with their names and props |
| `Usages.GetUsagesInDocument` | src/features/reactPropSync.ts:132-161 | the imperative tag loop returns exactly the specified usages |
| `Usages.UsagesShape` | src/features/reactPropSync.ts:132-161 | every usage names a component, and has props that are distinct usage names |
| `Usages.MatchedName` | src/features/reactPropSync.ts:135 | every matched tag names a component |
| `Reconcile.ExistingNamesAppend` | src/features/reactPropSync.ts:448-450 | the existing names of two record lists are the union of their names |
| `Reconcile.Kept` | src/features/reactPropSync.ts:464-469 | keeping records never lengthens the list |
| `Reconcile.KeptAppend` | src/features/reactPropSync.ts:464-469 | keeping records works record by record, in order |
| `Reconcile.KeptMembers` | src/features/reactPropSync.ts:464-469 | a record is kept exactly when it is not a named record whose name is to be removed |
| `Reconcile.KeptAll` | src/features/reactPropSync.ts:464-469 | with nothing to remove, every record is kept |
| `Reconcile.KeptNames` | src/features/reactPropSync.ts:448-469 | the kept names are the old names without the removed ones |
| `Reconcile.Placeholders` | src/features/reactPropSync.ts:472-474 | one placeholder per missing prop |
| `Reconcile.PlaceholdersAt` | src/features/reactPropSync.ts:472-474 | the k-th placeholder is `" p={/* TODO: completar */}"` for the k-th missing prop |
| `Reconcile.PlaceholderNames` | src/features/reactPropSync.ts:472-474 | placeholders for non-empty props name exactly those props |
| `Reconcile.RewrittenNames` | src/features/reactPropSync.ts:448-476 | after the rebuild, the names are the old names without the removed props, plus the missing props |
| `Reconcile.RewriteIdempotent` | src/features/reactPropSync.ts:452-459 | if no prop is also a removed prop, the rebuilt record list sets every prop and none of the removed ones, so reconciling that record list again finds nothing missing and nothing to remove |
| `Reconcile.TagUntouched` | src/features/reactPropSync.ts:452-459 | a tag is left alone exactly when it sets every prop and none of the removed ones |
| `Reconcile.TagRewriteFrame` | src/features/reactPropSync.ts:477 | a rebuilt tag still opens with `<Name` and closes with `/>` or `>` like the matched one |
| `Reconcile.AddOnlyKeepsText` | src/features/reactPropSync.ts:461-477 | when nothing is removed, the rebuilt tag keeps the attribute text verbatim, except trailing white space, and appends the placeholders in prop order |
| `Reconcile.RewriteTag` | src/features/reactPropSync.ts:447-477 | the imperative rebuild of one tag returns exactly the specified new text, or none when it skips the tag |
| `Reconcile.KeptTexts` | src/features/reactPropSync.ts:464-469 | the keep loop collects exactly the texts of the kept records |
| `Reconcile.AppendPlaceholders` | src/features/reactPropSync.ts:472-474 | the placeholder loop appends exactly the placeholder texts |
| `Reconcile.TagEdit` | src/features/reactPropSync.ts:457-485 | a tag gives at most one edit |
| `Reconcile.TagEditsMembers` | src/features/reactPropSync.ts:442-486 | the edits of a file are exactly one replacement per matched tag that needs rebuilding |
| `Reconcile.TagEditsOrdered` | src/features/reactPropSync.ts:442-486 | edits of non-overlapping tags do not overlap either, and are in text order |
| `Reconcile.FileEditsExact` | src/features/reactPropSync.ts:442-486 | an edit of a file replaces exactly the span of a matched `<Name ...>` tag with that tag's rebuilt text |
| `Reconcile.FileEditsDisjoint` | src/features/reactPropSync.ts:442-486 | the edits of one file are ordered and disjoint, and each replaces exactly the matched tag's text |
| `Reconcile.CollectEditsMembers` | src/features/reactPropSync.ts:431-487 | the workspace edits are exactly the edits of the individual files |
| `Reconcile.PlannedEditsMembers` | src/features/reactPropSync.ts:431-487 | the workspace edits are exactly the edits of the files that are not test files |
| `Reconcile.PlannedEditsAvoidTests` | src/features/reactPropSync.ts:431-434 | no test file is edited, and every edit belongs to a workspace file |
| `Reconcile.CollectFileEdits` | src/features/reactPropSync.ts:439-486 | the imperative tag loop over one file returns exactly the specified edits |
| `Reconcile.SyncComponentPropsUsages` | src/features/reactPropSync.ts:416-511 | it prompts exactly when some tag changes, and applies the planned edits exactly when prompted and confirmed |
| `Reconcile.ValuelessScan` | src/features/reactPropSync.ts:341-349 | a valueless prop's record takes the white space after its name: ` hidden title="x"` parses as ` hidden ` and `title="x"` |
| `Reconcile.RemoveValuelessExample` | src/features/reactPropSync.ts:461-477 | removing the valueless `hidden` from `<Panel hidden title="x"/>` gives `<Paneltitle="x"/>` |
| `Reconcile.GluedScan` | src/features/reactPropSync.ts:333-408 | ` a=1 b c=2` parses as ` a=1`, ` b ` and `c=2` |
| `Reconcile.GluedRewrite` | src/features/reactPropSync.ts:448-477 | removing `b` from `<Panel a=1 b c=2/>` (props `a`, `c`) gives `<Panel a=1c=2/>` |
| `Reconcile.RebuiltScan` | src/features/reactPropSync.ts:395-405 | ` a=1c=2` parses as one record named `a`: the unquoted value runs over `c=2` |
| `Reconcile.RescanRewritesAgain` | src/features/reactPropSync.ts:448-477 | the rewrite is not idempotent on text: `<Panel a=1c=2/>`, reconciled again with the same props, gets a placeholder for `c` appended although `c=2` is still there |
| `Union.BuildUnion` | src/features/reactPropSync.ts:222-227 | the two loops filling the `Set` return exactly the specified union |
| `Union.AllPropsMembers` | src/features/reactPropSync.ts:222-227 | the union holds every definition prop and every usage prop, nothing else, and nothing twice |
| `Union.AllPropsExtends` | src/features/reactPropSync.ts:222-227 | with distinct definition props, the union is those props unchanged, then the usage props they lack |
| `Union.SameContentIff` | src/features/reactPropSync.ts:229-234 | the early exit happens exactly when the definition props are distinct and include every usage prop |
| `Union.NewOnlyExact` | src/features/reactPropSync.ts:237 | the announced props are exactly the usage props the definition lacks; with distinct definition props they are the appended tail |
| `Union.EmptyAnnouncement` | src/features/reactPropSync.ts:229-246 | the prompt announces nothing new exactly when the definition repeats a prop and the usage adds none |
| `Union.AnnouncedExample` | src/features/reactPropSync.ts:237 | for definition `[a, b]` and usage `[b, c]`, only `c` is announced |
| `Union.UnionExample` | src/features/reactPropSync.ts:222-227 | for definition `[a, b]` and usage `[b, c]`, the union is `[a, b, c]` |
| `PropSync.UsageSyncShape` | src/features/reactPropSync.ts:416-511 | the usage sync prompts at most once, edits no test file, and applies nothing unconfirmed |
| `PropSync.FindFrom` | src/features/reactPropSync.ts:185-208 | the definition found lies in a non-test file where the patterns match |
| `PropSync.FindFromFirst` | src/features/reactPropSync.ts:185-208 | the search settles on the first non-test file with a match, and finds nothing exactly when there is none |
| `PropSync.DefinitionSyncDeclined` | src/features/reactPropSync.ts:243-253 | declining the prompt writes no cache entry and edits nothing |
| `PropSync.DefinitionCovered` | src/features/reactPropSync.ts:229-234 | no prompt, no edit and no cache write when the definition already has every usage prop, without repetition |
| `PropSync.UsageNameClean` | src/features/reactPropSync.ts:145 | a usage name written back reads back unchanged |
| `PropSync.ProposedRoundTrip` | src/features/reactPropSync.ts:215-236 | the definition text written back derives exactly the list stored in the cache |
| `PropSync.ProposedExtends` | src/features/reactPropSync.ts:222-237 | a definition update only adds: with distinct definition props, the new list is them, then the announced props |
| `PropSync.RemovedExact` | src/features/reactPropSync.ts:35-36 | the removed props are exactly the cached props the new signature lacks, so they never meet the new props |
| `PropSync.ComponentPassCache` | src/features/reactPropSync.ts:28-43 | after the declarations, an entry holds the props of its last declaration with props; other entries are unchanged |
| `PropSync.SelectedAt` | src/features/reactPropSync.ts:51-63 | one more usage is handled exactly when it has props and its name is not yet in `seen` |
| `PropSync.FirstUsageNames` | src/features/reactPropSync.ts:51-63 | a component has a first usage with props exactly when it is in `seen` |
| `PropSync.SelectedOnce` | src/features/reactPropSync.ts:51-63 | each component is handled once, with its first usage that has props |
| `PropSync.DefinitionSyncSparesTests` | src/features/reactPropSync.ts:165-274 | `syncDefinitionFromUsage` never edits a test file |
| `PropSync.ComponentStepFacts` | src/features/reactPropSync.ts:30-42 | one declaration keeps every cache key, edits no test file, and edits nothing unconfirmed |
| `PropSync.DefinitionStepFacts` | src/features/reactPropSync.ts:60-62 | one handled usage keeps every cache key, edits no test file, and changes nothing unconfirmed |
| `PropSync.ComponentPassFacts` | src/features/reactPropSync.ts:28-43 | the declaration pass keeps every cache key, edits no test file, and edits nothing unconfirmed |
| `PropSync.DefinitionPassFacts` | src/features/reactPropSync.ts:51-63 | the usage pass keeps every cache key, edits no test file, and changes nothing unconfirmed |
| `PropSync.SaveDeclined` | src/features/reactPropSync.ts:16-64 | when every prompt is declined, a save edits nothing, and only the declarations change the cache |
| `PropSync.SaveSparesTests` | src/features/reactPropSync.ts:16-64 | a save never edits a test file |
| `PropSync.SaveKeepsKeys` | src/features/reactPropSync.ts:16-64 | a save never drops a cache entry |
| `PropSync.Synchronizer.constructor` | src/features/reactPropSync.ts:13 | the cache starts empty |
| `PropSync.Synchronizer.SyncDefinitionFromUsage` | src/features/reactPropSync.ts:165-274 | the imperative search and update produce the specified effects and cache write |
| `PropSync.Synchronizer.UpdateDefinition` | src/features/reactPropSync.ts:210-274 | the empty-capture abort, the union, the early exit and the rewrite, as specified |
| `PropSync.Synchronizer.ApplyRewrite` | src/features/reactPropSync.ts:239-273 | the prompt; on confirmation, the definition edit, the cache write and the propagation |
| `PropSync.Synchronizer.Propagate` | src/features/reactPropSync.ts:273 | propagation is the usage sync with the new list and nothing removed |
| `PropSync.Synchronizer.OnSave` | src/features/reactPropSync.ts:16-64 | other languages change nothing; otherwise the new cache and the effects are those of the specified save |
| `CssPointer.AssignEnd` | src/features/cssPointer.ts:77 | `\s*=` ends after the position where it starts, within the text |
| `CssPointer.MatchAt` | src/features/cssPointer.ts:77 | a match of `(class(Name)?\|id)\s*=` at `p` ends within the text |
| `CssPointer.NextMatch` | src/features/cssPointer.ts:82 | the next match lies at or after `from`, and a match really is there |
| `CssPointer.NextMatchFirst` | src/features/cssPointer.ts:82 | no match is skipped before the next one |
| `CssPointer.GetSelectorKind` | src/features/cssPointer.ts:72-92 | the imperative loop returns exactly the specified kind |
| `CssPointer.MatchStart` | src/features/cssPointer.ts:77 | every match starts with `c` or `i` |
| `CssPointer.NoMatchInside` | src/features/cssPointer.ts:77-82 | no match starts inside a match, so resuming after it loses nothing |
| `CssPointer.LastKindSome` | src/features/cssPointer.ts:79-91 | the scan yields a kind exactly when it starts with one or some match follows |
| `CssPointer.LastKindOfLast` | src/features/cssPointer.ts:79-91 | the kind of the last match wins |
| `CssPointer.SelectorKindLastMatch` | src/features/cssPointer.ts:72-92 | the kind is that of the last match that lies entirely before the cursor |
| `CssPointer.SelectorKindNone` | src/features/cssPointer.ts:72-92 | no kind exactly when no match lies before the cursor |
| `CssPointer.SelectorKindReadsPrefix` | src/features/cssPointer.ts:76 | only the text before the cursor matters |
| `CssPointer.ValidCountsAsId` | src/features/cssPointer.ts:77 | the pattern is not anchored: `<input valid=` counts as an id |
| `CssPointer.FirstClose` | src/features/cssPointer.ts:186-199 | the block's last line lies at or after the start line, within the sheet |
| `CssPointer.FirstCloseExact` | src/features/cssPointer.ts:186-199 | the loop stops at the first later line where the brace balance since the start line is zero, or else at the last line |
| `CssPointer.BlockEndExact` | src/features/cssPointer.ts:182-202 | the block ends at the first line after the start where the braces balance, or else at the last line |
| `CssPointer.ExtractCssBlock` | src/features/cssPointer.ts:182-202 | the imperative loop returns exactly the specified block |
| `CssPointer.OneLineRuleRunsOn` | src/features/cssPointer.ts:196 | a rule opened and closed on the start line runs on to the next line: `a{}`, `b`, `c` gives `a{}\nb` |
| `CssPointer.OneLineCounts` | src/features/cssPointer.ts:188-192 | `a{}` and `b` each leave the balance unchanged |
| `CssPointer.EscapeLength` | src/features/cssPointer.ts:204-206 | escaping adds one backslash per metacharacter |
| `CssPointer.EscapePlain` | src/features/cssPointer.ts:204-206 | a string without metacharacters escapes to itself |
| `CssPointer.EscapeRoundTrip` | src/features/cssPointer.ts:204-206 | removing the escapes gives back the original string |
| `CssPointer.EscapeAppend` | src/features/cssPointer.ts:204-206 | escaping works character by character over concatenation |
| `CssPointer.EscapeExample` | src/features/cssPointer.ts:204-206 | `a.b` escapes to `a\.b` |

## Behaviour worth knowing

These follow from the source as written. The lemmas named below state them.

- **Derivation keeps duplicates.** The prop-name derivation does not deduplicate
  (`PropNames.DeriveKeepsDuplicates`). A definition that repeats a prop is therefore always
  rewritten by `syncDefinitionFromUsage`, and its prompt can announce no new prop at all
  (`Union.EmptyAnnouncement`).
- **Removing a valueless prop glues text.** A valueless prop's record takes the white space that
  follows its name. Removing it glues the next attribute to the tag name:
  `<Panel hidden title="x"/>` becomes `<Paneltitle="x"/>` (`Reconcile.RemoveValuelessExample`).
- **A spaced `?` stays.** The `?` is dropped only at the very end of the text cut at `=` and
  `:`. With white space before the type, `size? : number` derives `size?`
  (`PropNames.CleanEntrySpacedQuestion`).
- **Rewriting is not idempotent on text.** Removing a valueless prop between two unquoted values
  joins them: `<Panel a=1 b c=2/>` becomes `<Panel a=1c=2/>`. That text parses as the one
  attribute `a`, so the next reconciliation adds `c` again (`Reconcile.RescanRewritesAgain`).
- **Arrow functions end a tag.** The tag pattern stops at the first `>`, so
  `<B f={()=>g}/>` is matched only up to `=>` (`JsxTags.ArrowCutsTag`).
- **Unanchored pattern.** The selector-kind pattern has no word boundary, so `valid=` counts as
  an `id` attribute (`CssPointer.ValidCountsAsId`).
- **One-line rules run on.** A CSS rule that opens and closes on its start line does not stop
  there: the loop only stops after the start line, so the block takes in the next line as well
  (`CssPointer.OneLineRuleRunsOn`).
- **Round trip needs clean names.** The written-back definition reads back as the cached list
  only if no definition prop keeps a trailing `?` (`PropSync.ProposedRoundTrip` requires this).
  `a??` derives `a?`, which is written back and then reads as `a`.

## Left out

- **VS Code host calls** are replaced by parameters and results: `findFiles`,
  `openTextDocument`, `positionAt`, `showInformationMessage`, `applyEdit` and the save event.
  - The workspace is a list of `SourceFile(path, text)`.
  - Edits are returned as `Edit(path, start, end, newText)` over character offsets; they are not
    applied.
  - Every file is read from one snapshot, so a usage pass does not see the text that an earlier
    confirmed edit of the same save produced.
  - Informational messages are not modelled.
- **Prompts.** One boolean `confirm` answers every confirmation prompt of a save. Answering
  different prompts differently is not modelled.
- **Asynchrony.** `await`s and concurrent saves are not modelled: a save runs to completion
  before the next.
- **Declarations are inputs.** `getComponentsInDocument`'s regular expressions
  (reactPropSync.ts:86-118) are not modelled. The declarations of the saved document are given
  as `Declaration(name, raw)` with the captured destructuring text. The derivation applied to
  `raw` is modelled.
- **Definition search.** The definition patterns of `syncDefinitionFromUsage`
  (reactPropSync.ts:174-203) are the parameter `find`. It gives the first match in a file, as the
  captured text and its offset. The file loop, the test-file skip and what follows are modelled.
- `PropSync.Rewrite`: the definition edit starts at the capture's own offset. The source
  computes it as `match.index + fullMatch.indexOf(propsRaw)` (reactPropSync.ts:258-260), which
  lands on an earlier occurrence of the same text inside the match. For example, with
  `function Card({C})` the captured `C` is first found in `Card`. No claim is made about where
  the source's edit lands.
- **Regular-expression engine.** JavaScript regular expressions are modelled only through the
  patterns written out here:
  - `<Name\b([\s\S]*?)(/?)>`;
  - `\b([a-zA-Z_][A-Za-z0-9_]*)\s*=`;
  - `(class(Name)?|id)\s*=`;
  - the test-file patterns;
  - the metacharacter class of `escapeRegExp`.

  `\s` is JavaScript's white space and line terminator set, which is also what `trim()`
  removes.
- `Reconcile.RewriteIdempotent`: proved for the rebuilt record list only, not for the rebuilt
  text. Scanning the rebuilt text again can give other records. For example, `<Panel a=1 b c=2/>`
  without `b` becomes `<Panel a=1c=2/>`, which reads as the one attribute `a`
  (`Reconcile.RescanRewritesAgain`). A brace value holding `=>` is also cut at that `>`
  (`JsxTags.ArrowCutsTag`).
- **Offsets.** The source's offsets count UTF-16 code units. `Edit` offsets and the CSS cursor
  count Dafny characters. The two agree only for text without characters outside the Basic
  Multilingual Plane.
- **Declaration names.** `Declaration.name` is any string here. In the source, the declaration
  pattern (reactPropSync.ts:87) captures only names of the form `[A-Z][A-Za-z0-9_]*`, which
  `JsxTags.IsComponentName` accepts. The model does not rely on this.
- `CssPointer.Before`: `substring(0, charPos)` is clamped to the line. A negative `charPos`
  cannot occur because positions are `nat`.
- **Not part of this model:**
  - `findCssMatches`, `findCssLocations`, `createCssHover`, and the hover and definition
    providers of `cssPointer.ts`: they depend on the workspace search and the editor;
  - `extension.ts`: it only registers the features;
  - the `node_modules` exclusion of `findFiles`: the workspace list is taken as already
    filtered.
