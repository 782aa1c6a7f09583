# nuxt-svgo-loader template rewrite, in Dafny

This project models the build-time core of the `nuxt-svgo-loader` Nuxt module and proves
properties of that model.

- **`SvgoIconTransform`** is the current unplugin. Phase A finds every `<SvgoIcon>` or
  `<svgo-icon>` element in a component's template. Each one becomes a synthesized
  component `SvgoIcon<Strategy><Name>`, or is removed when it names no known asset. Phase A
  records the imports the file needs in a per-file `bucket`. Phase B prepends those
  imports and redirects `resolveComponent('SvgoIcon…')` calls to the imported bindings.
- **`SvgoIconResolver`** is the older unplugin. It has the same two passes but no asset
  registry and no strategy. Its import list keeps duplicates, and phase B redirects to the
  bare name.
- **The devtools RPC state** covers the `namespace:function` method resolver, the memoised
  SVG file list and its invalidation on file-watch events, the list of connected channels,
  and the framing of websocket messages.
- **The component scan** turns globbed paths into `{ name, path }` records.

Files and modules:

- `wrappers.dfy` (`Wrappers`): `Option`.
- `text.dfy` (`Text`): `indexOf`, `includes`, `join` and `split` on strings.
- `casing.dfy` (`Casing`): scule's `pascalCase` and `camelCase` on ASCII.
- `magic_string.dfy` (`MagicStrings`): the magic-string operations the plugins use.
- `markup.dfy` (`Markup`): template nodes and the template match.
- `vue_id.dfy` (`VueIds`): `isVue` and `transformInclude`.
- `walk_state.dfy` (`TemplateWalk`): the state both plugins carry through the template walk.
- `transform.dfy` (`SvgoIconTransform`): the current plugin.
- `resolver.dfy` (`SvgoIconResolver`): the older plugin.
- `rpc.dfy` (`DevtoolsRpc`): the devtools RPC state.
- `scan.dfy` (`Paths`, `Scan`): pathe's `basename` and `scanComponents`.

Each phase A handler is modelled twice:

- As a specification. `Step` is one call of the walk callback. `Walk` folds `Step` over
  the template's nodes in the order their callbacks start. `Rewrite` is the whole handler's decision. All three
  work on a `WalkState` of edits, imports and a `stopped` flag. `stopped` is set when
  magic-string throws; the handler's `catch` then ends the walk and keeps the work done so
  far.
- As imperative code. A `MagicString` object is edited in place by `VisitNode`, in the
  loop of `WalkTemplate`, called from the plugin class's `PhaseA`. The methods' `ensures`
  tie the object's new state to `Walk` and `Rewrite`. The lemmas state what the walk
  guarantees.

## Model

| member | source | states |
|---|---|---|
| `Casing.PascalFrom` | src/plugins/svgo-icon-transform.ts:113 | the Pascal form has no separators, is no longer than its input, and starts upper-case |
| `Casing.PascalCase` | src/plugins/svgo-icon-transform.ts:113 | `pascalCase` output contains no `-`, `_`, `/` or `.` |
| `Casing.CamelCase` | src/plugins/svgo-icon-resolver.ts:97 | `camelCase` output has no separators and is as long as the Pascal form |
| `Casing.PascalOfSinglePiece` | src/plugins/svgo-icon-transform.ts:113 | text without separators keeps every character except the first, which is upper-cased |
| `Casing.PascalHead` | src/plugins/svgo-icon-transform.ts:113 | a name not starting with a separator keeps its first character, upper-cased, in front |
| `Casing.UpperLowerUpper` | src/plugins/svgo-icon-resolver.ts:97 | lower-casing an upper-case character and upper-casing it again gives it back |
| `Casing.PascalOfCamel` | src/plugins/svgo-icon-resolver.ts:97 | `pascalCase(camelCase(s)) == pascalCase(s)` for every `s` |
| `Casing.PascalFromSplit` | src/plugins/svgo-icon-transform.ts:113 | a leading piece without separators is cased on its own, and the rest starts a new run |
| `Casing.PascalCaseCollides` | src/plugins/svgo-icon-transform.ts:113 | a `-` before a lower-case letter and that letter upper-cased give one Pascal form, so `foo-bar` and `fooBar` are two names with one form |
| `Text.IndexOfFrom` | src/plugins/svgo-icon-transform.ts:69 | the first occurrence at or after `from`, or None when there is none |
| `Text.LastIndexOfFrom` | src/plugins/svgo-icon-transform.ts:69 | the last occurrence at or after `from`, or None when there is none |
| `Text.Includes` | src/plugins/svgo-icon-resolver.ts:48 | `includes` holds exactly when the pattern occurs at some index |
| `Text.Join` | src/plugins/svgo-icon-transform.ts:141 | `parts.join(sep)`: the parts in order with `sep` between neighbours, the empty string for no parts |
| `Text.JoinNonEmpty` | src/plugins/svgo-icon-transform.ts:140-142 | joining a list whose first line is non-empty gives a non-empty entry |
| `Text.InfixCancel` | src/plugins/svgo-icon-transform.ts:122 | equal texts with a common head and tail have equal middles |
| `Text.FirstIndexOf` | src/rpc/index.ts:29 | the index holds the character and no earlier index does |
| `Text.Split` | src/rpc/index.ts:29 | `split` yields at least one part, at least two exactly when the separator occurs, parts without the separator, and joining them gives the input back |
| `Text.SplitAfterFirst` | src/rpc/index.ts:29 | splitting `a:b` with `a` free of `:` yields `a` followed by the parts of `b` |
| `Text.SplitHead` | src/rpc/index.ts:29 | the first part of `a` + `b`, where `b` is empty or starts with the separator, is `a` |
| `MagicStrings.RemoveResult` | src/plugins/svgo-icon-transform.ts:109 | `remove` keeps edits well-formed and only appends; an out-of-bounds, reversed or overlapping range throws, and an empty one does nothing |
| `MagicStrings.OverwriteResult` | src/plugins/svgo-icon-transform.ts:133 | `overwrite` appends exactly one edit and keeps edits well-formed; an empty, reversed, out-of-bounds or overlapping range throws |
| `MagicStrings.EditAt` | src/plugins/svgo-icon-transform.ts:144-146 | the edit found starts at the position, and None means no edit starts there |
| `MagicStrings.RenderFrom` | src/plugins/svgo-icon-transform.ts:145 | from a position on, each edit that starts there contributes its content and the copy resumes at its end; other characters are copied |
| `MagicStrings.Apply` | src/plugins/svgo-icon-transform.ts:145 | the original text with every edit spliced in, as `toString()` renders it without the intro |
| `MagicStrings.RenderSkip` | src/plugins/svgo-icon-transform.ts:144-146 | text with no edit starting in it is copied to the output unchanged |
| `MagicStrings.ApplyNoEdits` | src/plugins/svgo-icon-transform.ts:144-149 | a string with no edits renders as the original, so it reports no change |
| `MagicStrings.EditsOfWellFormed` | src/plugins/svgo-icon-transform.ts:175 | the edits `replace` records for in-order, disjoint matches are in-bounds, non-empty and pairwise disjoint, so none of its overwrites throws |
| `MagicStrings.NoEditStartsBetween` | src/plugins/svgo-icon-transform.ts:175 | no replacement edit starts between two consecutive matches |
| `MagicStrings.EditAtMatch` | src/plugins/svgo-icon-transform.ts:175 | at a match's start the edit found is that match's replacement |
| `MagicStrings.RenderAtEdit` | src/plugins/svgo-icon-transform.ts:175 | at an edit's start the output is its content, then the text after its end |
| `MagicStrings.RenderMatchesFrom` | src/plugins/svgo-icon-transform.ts:175 | from any match on, the rendered edits equal the replaced text |
| `MagicStrings.ApplyMatches` | src/plugins/svgo-icon-transform.ts:175 | rendering the edits `replace` records equals replacing every match by prefix and capture |
| `MagicStrings.ReplaceNothing` | src/plugins/svgo-icon-transform.ts:175 | with no match, `replace` leaves the text unchanged |
| `MagicStrings.ReplaceFrom` | src/plugins/svgo-icon-transform.ts:175 | from a position on, each remaining match becomes the prefix followed by its capture, and the text between matches is copied |
| `MagicStrings.ReplaceAll` | src/plugins/svgo-icon-transform.ts:175 | `String.prototype.replace` with a global pattern and the callback `(_, name) => prefix + name`, written independently of magic-string |
| `MagicStrings.MagicString.constructor` | src/plugins/svgo-icon-transform.ts:74 | a new string keeps the code as original, with no intro and no edits |
| `MagicStrings.MagicString.ToString` | src/plugins/svgo-icon-transform.ts:145 | `toString()` is the intro followed by the original text with the edits spliced in |
| `MagicStrings.MagicString.HasChanged` | src/plugins/svgo-icon-transform.ts:144 | `hasChanged()` holds when the generated text differs from the original |
| `MagicStrings.MagicString.Prepend` | src/plugins/svgo-icon-transform.ts:174 | `prepend` puts the content before the existing intro and leaves the edits alone |
| `MagicStrings.MagicString.Remove` | src/plugins/svgo-icon-transform.ts:109 | `remove` performs `RemoveResult`, or leaves the edits unchanged where it throws |
| `MagicStrings.MagicString.Overwrite` | src/plugins/svgo-icon-transform.ts:133 | `overwrite` performs `OverwriteResult`, or leaves the edits unchanged where it throws |
| `MagicStrings.MagicString.ReplaceMatches` | src/plugins/svgo-icon-transform.ts:175 | `replace(globalRegex, fn)` records one edit per match, and the output is the intro plus the replaced text |
| `Markup.TemplateMatch` | src/plugins/svgo-icon-transform.ts:69-72 | the template match runs from the first `<template>` to the last `</template>` after it; None exactly when no such pair exists |
| `Markup.WrappedHasTemplate` | src/plugins/svgo-icon-transform.ts:47-49 | every text wrapped in `<template>` and `</template>` passes the hook's template filter |
| `VueIds.IsVue` | src/plugins/svgo-icon-transform.ts:190-221 | accepts a bare `.vue` id; otherwise needs a query without a truthy `nuxt_component`, plus an accepted macro query or a `vue` query with a wanted block type |
| `VueIds.Truthy` | src/plugins/svgo-icon-transform.ts:204 | `query[key]` is truthy when the key is present with a non-empty string, or with an array of values |
| `VueIds.EndsWithVue` | src/plugins/svgo-icon-transform.ts:193 | `id.endsWith('.vue')` |
| `VueIds.MacroAccepted` | src/plugins/svgo-icon-transform.ts:209 | a truthy `macro` query is accepted when the search is exactly `?macro=true`, no block types are asked for, or `script` is among them |
| `VueIds.IncludesBlockType` | src/plugins/svgo-icon-transform.ts:214-215 | the block type is `script` for a `setup` query, else the `type` value, and it must be among the asked-for types |
| `VueIds.VueBlockAccepted` | src/plugins/svgo-icon-transform.ts:214-220 | a query with a `vue` key is accepted unless block types are asked for and its type is not among them |
| `VueIds.AnyMatches` | src/plugins/svgo-icon-transform.ts:37-42 | `patterns.some(p => p.test(id))` holds exactly when some pattern matches |
| `VueIds.TransformInclude` | src/plugins/svgo-icon-transform.ts:36-44 | an exclude match rejects even when an include pattern also matches; otherwise an include match accepts; otherwise `isVue` decides |
| `VueIds.BareVueFile` | src/plugins/svgo-icon-transform.ts:193-195 | a `.vue` id with no query is accepted |
| `VueIds.NoQueryNotVue` | src/plugins/svgo-icon-transform.ts:197-199 | any other id with no query is rejected |
| `VueIds.NuxtComponentRejected` | src/plugins/svgo-icon-transform.ts:204-206 | a truthy `nuxt_component` query is rejected |
| `VueIds.MacroQueryAccepted` | src/plugins/svgo-icon-transform.ts:209-211 | `?macro=true` is accepted whatever block types are asked for |
| `VueIds.NonVueQueryRejected` | src/plugins/svgo-icon-transform.ts:214-217 | a query without `vue`, and not an accepted macro, is rejected |
| `SvgoIconTransform.IconWordEnd` | src/plugins/svgo-icon-transform.ts:19 | a match of `\b(?:svgo-icon\|SvgoIcon)\b` at a position spells one of the two words there |
| `SvgoIconTransform.FirstIconWord` | src/plugins/svgo-icon-transform.ts:19 | the leftmost match at or after `from`; None means there is none |
| `SvgoIconTransform.HasIconWord` | src/plugins/svgo-icon-transform.ts:53-55 | the intended fast reject: true exactly when the word occurs anywhere in the file |
| `SvgoIconTransform.ExecTest` | src/plugins/svgo-icon-transform.ts:53 | a global regex's `test` finds a match only at or after `lastIndex`; it leaves `lastIndex` at the match end, or at 0 on failure |
| `SvgoIconTransform.IconWordRegex.constructor` | src/plugins/svgo-icon-transform.ts:19 | the module-level regex starts with `lastIndex` 0 |
| `SvgoIconTransform.IconWordRegex.Test` | src/plugins/svgo-icon-transform.ts:53 | `SVGO_ICON_RE.test(code)` updates the shared `lastIndex` as `ExecTest` says; a true answer means the word occurs |
| `SvgoIconTransform.ExecTestFromStart` | src/plugins/svgo-icon-transform.ts:53 | from `lastIndex` 0 the test is the whole-file check |
| `SvgoIconTransform.IconAfterPlain` | src/plugins/svgo-icon-transform.ts:53 | after text with no `s` or `S` ending in a non-word character, a fresh test finds `SvgoIcon` and leaves `lastIndex` at its end |
| `SvgoIconTransform.LongFileLeavesLastIndex` | src/plugins/svgo-icon-transform.ts:47-53 | `<template><p>a long line of text</p><SvgoIcon name="a"/></template>` passes the template filter, and a fresh test on it leaves `lastIndex` at 45 |
| `SvgoIconTransform.ShortFileHoldsWord` | src/plugins/svgo-icon-transform.ts:47-53 | `<template><SvgoIcon/></template>` passes the template filter, holds the word, and is 32 characters long |
| `TemplateWalk.Stored` | src/plugins/svgo-icon-transform.ts:140-142 | the bucket gets the imports joined by newlines under the file's id only when there are some; otherwise an older entry stays |
| `TemplateWalk.Output` | src/plugins/svgo-icon-transform.ts:144-149 | the handler returns the edited code exactly when it differs from the original |
| `SvgoIconTransform.StaleLastIndexSkipsFile` | src/plugins/svgo-icon-transform.ts:53-55 | both files pass the template filter; after `<template><p>a long line of text</p><SvgoIcon name="a"/></template>` leaves `lastIndex` at 45, the 32-character `<template><SvgoIcon/></template>` fails the test although it holds the word |
| `SvgoIconTransform.StrategyAllowed` | src/plugins/svgo-icon-transform.ts:102-105 | the strategy is always one of `ALLOW_STRATEGIES`; an allowed attribute is kept, and an absent, empty or unknown one becomes `DEFAULT_STRATEGY` |
| `SvgoIconTransform.Strategy` | src/plugins/svgo-icon-transform.ts:102-105 | `node.attributes.strategy \|\| DEFAULT_STRATEGY`, replaced by the default when not in `ALLOW_STRATEGIES` |
| `SvgoIconTransform.PascalNameIsPascalCase` | src/plugins/svgo-icon-transform.ts:113 | the binding's strategy part is scule's `pascalCase` of the strategy name |
| `SvgoIconTransform.PascalOfLowerWord` | src/plugins/svgo-icon-transform.ts:113 | `pascalCase` of a lower-case word upper-cases its first letter and keeps the rest |
| `SvgoIconTransform.Binding` | src/plugins/svgo-icon-transform.ts:113 | `SvgoIcon${pascalCase(strategy)}${pascalCase(name)}` |
| `SvgoIconTransform.LookupKeys` | src/plugins/svgo-icon-transform.ts:80 | the lookup's keys are exactly the components' names |
| `SvgoIconTransform.LookupKeepsLast` | src/plugins/svgo-icon-transform.ts:80 | under each name the lookup holds the last component of that name |
| `SvgoIconTransform.LookupOf` | src/plugins/svgo-icon-transform.ts:80 | `new Map(components.map(c => [c.name, c]))`: later entries overwrite earlier ones |
| `SvgoIconTransform.GenImport` | src/plugins/svgo-icon-transform.ts:122 | knitwork's `genImport(specifier, name)`: a default import of `name` from `specifier` |
| `SvgoIconTransform.ImportFor` | src/plugins/svgo-icon-transform.ts:114-122 | the import of a found asset: its `filePath`, `?` and the strategy as specifier, bound to `__` and the binding |
| `SvgoIconTransform.BindingHead` | src/plugins/svgo-icon-transform.ts:113 | after the `SvgoIcon` prefix, a binding starts with the first letter of the strategy's Pascal form |
| `SvgoIconTransform.ImportHead` | src/plugins/svgo-icon-transform.ts:122 | in an import line, that letter sits at index 17 |
| `SvgoIconTransform.StrategiesKeepApart` | src/plugins/svgo-icon-transform.ts:113-122 | one asset and name under two different strategies yields two different bindings and two different imports |
| `SvgoIconTransform.ImportNamesItsFile` | src/plugins/svgo-icon-transform.ts:122 | for one strategy and name, different files give different imports |
| `SvgoIconTransform.ImportNamesItsSpecifier` | src/plugins/svgo-icon-transform.ts:122 | `genImport` lines of one binding differ when their specifiers name different files |
| `SvgoIconTransform.BindingCollision` | src/plugins/svgo-icon-transform.ts:113-122 | names such as `foo-bar` and `fooBar` share one binding but, as different files, get two distinct imports |
| `SvgoIconTransform.AddImport` | src/plugins/svgo-icon-transform.ts:122 | `imports.add` makes the line present and adds nothing else |
| `SvgoIconTransform.ImportOf` | src/plugins/svgo-icon-transform.ts:114-122 | the import a resolved node adds, from the looked-up `<name>.svg` and the node's strategy |
| `SvgoIconTransform.Renamed` | src/plugins/svgo-icon-transform.ts:124-131 | the clone is renamed to the binding and loses `name` and `strategy`, keeping everything else |
| `SvgoIconTransform.Replacement` | src/plugins/svgo-icon-transform.ts:107-133 | a resolved target's span becomes the rendered clone; an unnamed or unknown one is removed |
| `SvgoIconTransform.Removed` | src/plugins/svgo-icon-transform.ts:109-119 | after `s.remove`: the new edits, or the walk stopped by a throw |
| `SvgoIconTransform.Overwritten` | src/plugins/svgo-icon-transform.ts:122-133 | after `imports.add` and `s.overwrite`: the import is kept even when the overwrite throws, which stops the walk |
| `SvgoIconTransform.Step` | src/plugins/svgo-icon-transform.ts:83-134 | one callback: a non-target or a stopped walk changes nothing; a target without a known asset is removed, a resolved one adds its import and is overwritten |
| `SvgoIconTransform.Walk` | src/plugins/svgo-icon-transform.ts:83-138 | the callback applied to the nodes in the order the callbacks start |
| `SvgoIconTransform.Rewrite` | src/plugins/svgo-icon-transform.ts:51-138 | nothing without the icon word, a template match or a parse; otherwise the walk from the empty state |
| `SvgoIconTransform.WalkStopped` | src/plugins/svgo-icon-transform.ts:136-138 | once magic-string has thrown, the rest of the walk changes nothing |
| `SvgoIconTransform.StepEdits` | src/plugins/svgo-icon-transform.ts:107-133 | one callback only appends edits, each covering the node's span with its replacement, and only for a target |
| `SvgoIconTransform.WalkEditsOnlyTargets` | src/plugins/svgo-icon-transform.ts:84-133 | the walk only appends edits, and each appended edit covers a target's offset span with its replacement |
| `SvgoIconTransform.WalkImportsOnlyResolved` | src/plugins/svgo-icon-transform.ts:76-122 | imports stay distinct, none is dropped, and each new one is the import of a resolved target |
| `SvgoIconTransform.WalkCoversTargets` | src/plugins/svgo-icon-transform.ts:98-133 | an uninterrupted walk edits every target's non-empty span and records every resolved target's import |
| `SvgoIconTransform.WalkImportsNonEmpty` | src/plugins/svgo-icon-transform.ts:122 | every recorded import line is non-empty |
| `SvgoIconTransform.WalkImportsMonotone` | src/plugins/svgo-icon-transform.ts:122 | the walk never drops an import |
| `SvgoIconTransform.UntargetedTemplateUnchanged` | src/plugins/svgo-icon-transform.ts:84-96 | a template with no target node gets no edit and no import |
| `SvgoIconTransform.RepeatedUseImportedOnce` | src/plugins/svgo-icon-transform.ts:76-122 | two uses of one asset under one strategy share one import, which the file holds once |
| `SvgoIconTransform.VisitNode` | src/plugins/svgo-icon-transform.ts:83-134 | the walk callback on one node has exactly the effect of `Step` on the edits and imports |
| `SvgoIconTransform.WalkTemplate` | src/plugins/svgo-icon-transform.ts:82-138 | the walk loop, abandoned at the first throw, ends in the state `Walk` specifies |
| `SvgoIconTransform.TransformPlugin.constructor` | src/plugins/svgo-icon-transform.ts:31 | the bucket starts empty |
| `SvgoIconTransform.TransformPlugin.PhaseA` | src/plugins/svgo-icon-transform.ts:51-149 | the bucket gets the joined imports only if there are some, else it keeps any older entry; the result is the edited code when it differs from the input; a file without the word, or without a template match (which the hook's filter keeps from the handler), returns nothing and records nothing |
| `SvgoIconTransform.TransformPlugin.PhaseB` | src/plugins/svgo-icon-transform.ts:166-180 | nothing without a bucket entry; otherwise the stored imports, a newline, then the code with each `resolveComponent('SvgoIcon…')` replaced by `__` and the captured name |
| `SvgoIconResolver.ComponentNameIsPascal` | src/plugins/svgo-icon-resolver.ts:97 | the component name is `SvgoIcon` plus the Pascal form of the name |
| `SvgoIconResolver.ComponentName` | src/plugins/svgo-icon-resolver.ts:97 | `SvgoIcon${pascalCase(camelCase(name))}` |
| `SvgoIconResolver.ImportLine` | src/plugins/svgo-icon-resolver.ts:99 | the pushed line imports the component from `~/assets/svg/<name>.svg?component`, with no check that the file exists |
| `SvgoIconResolver.Renamed` | src/plugins/svgo-icon-resolver.ts:101-107 | the clone is renamed to the component and loses only `name` |
| `SvgoIconResolver.Step` | src/plugins/svgo-icon-resolver.ts:75-110 | one callback: a non-target or a stopped walk changes nothing; an unnamed target is removed, a named one pushes its line and is overwritten |
| `SvgoIconResolver.Walk` | src/plugins/svgo-icon-resolver.ts:75-114 | the callback applied to the nodes in the order the callbacks start |
| `SvgoIconResolver.Rewrite` | src/plugins/svgo-icon-resolver.ts:46-114 | nothing without `SvgoIcon`, a template match or a parse; otherwise the walk from the empty state |
| `SvgoIconResolver.RenamedKeepsAttributes` | src/plugins/svgo-icon-resolver.ts:101-107 | the clone has the component name and keeps every attribute except `name`, `strategy` included |
| `SvgoIconResolver.NodeImports` | src/plugins/svgo-icon-resolver.ts:97-99 | a node contributes one import line if it is a named target, else none |
| `SvgoIconResolver.StepImports` | src/plugins/svgo-icon-resolver.ts:97-99 | a running walk pushes exactly the node's own import lines |
| `SvgoIconResolver.NamedImportsAppend` | src/plugins/svgo-icon-resolver.ts:71 | the named imports of two node lists, one after the other, are the two lists' named imports in order |
| `SvgoIconResolver.WalkStopped` | src/plugins/svgo-icon-resolver.ts:112-114 | once magic-string has thrown, the rest of the walk changes nothing |
| `SvgoIconResolver.WalkImportsInOrder` | src/plugins/svgo-icon-resolver.ts:71-99 | an uninterrupted walk pushes one import line per named target, in the order their callbacks start |
| `SvgoIconResolver.RepeatedUseImportedTwice` | src/plugins/svgo-icon-resolver.ts:71-99 | two uses of one name leave its import line in the list at least twice |
| `SvgoIconResolver.NamedImportsHas` | src/plugins/svgo-icon-resolver.ts:97-99 | a named target's import line is among the named imports |
| `SvgoIconResolver.NamedImportsSplit` | src/plugins/svgo-icon-resolver.ts:71-99 | the named imports around a named target are those before it, its line, then those after it |
| `SvgoIconResolver.NamedImportsTwice` | src/plugins/svgo-icon-resolver.ts:71-99 | two named targets with one name contribute its line at least twice |
| `SvgoIconResolver.StepEdits` | src/plugins/svgo-icon-resolver.ts:92-109 | one callback only appends edits, each covering the node's span with its replacement, and only for a target |
| `SvgoIconResolver.WalkEditsOnlyTargets` | src/plugins/svgo-icon-resolver.ts:76-109 | the walk only appends edits, each covering an `SvgoIcon` target's span with nothing or the rendered clone |
| `SvgoIconResolver.WalkCoversTargets` | src/plugins/svgo-icon-resolver.ts:88-109 | an uninterrupted walk edits every target's non-empty span |
| `SvgoIconResolver.WalkImportsNonEmpty` | src/plugins/svgo-icon-resolver.ts:99 | every pushed import line is non-empty |
| `SvgoIconResolver.VisitNode` | src/plugins/svgo-icon-resolver.ts:75-110 | the walk callback on one node has exactly the effect of `Step` |
| `SvgoIconResolver.WalkTemplate` | src/plugins/svgo-icon-resolver.ts:73-114 | the walk loop, abandoned at the first throw, ends in the state `Walk` specifies |
| `SvgoIconResolver.ResolverPlugin.constructor` | src/plugins/svgo-icon-resolver.ts:25 | the bucket starts empty |
| `SvgoIconResolver.ResolverPlugin.PhaseA` | src/plugins/svgo-icon-resolver.ts:46-125 | text without `SvgoIcon`, or without a template match (which the hook's filter keeps from the handler), returns nothing; the bucket gets the joined lines only if some were pushed; the result is the edited code when it changed |
| `SvgoIconResolver.ResolverPlugin.PhaseB` | src/plugins/svgo-icon-resolver.ts:142-158 | nothing without a bucket entry; otherwise the imports, a newline, then the code with each `resolveComponent('SvgoIcon…')` replaced by the bare name (an empty entry returns the code unchanged) |
| `DevtoolsRpc.ResolveMethod` | src/rpc/index.ts:22-31 | a supplied function is returned unchanged; a name without `:` and no function resolves to nothing |
| `DevtoolsRpc.ResolveNamespaced` | src/rpc/index.ts:29-30 | `ns:f`, with or without a further `:` tail, resolves to `extended[ns][f]`, or to nothing when either key is missing |
| `DevtoolsRpc.ResolveIgnoresTail` | src/rpc/index.ts:29-30 | `a:b:c` resolves like `a:b` |
| `DevtoolsRpc.NothingExtended` | src/rpc/index.ts:20-30 | with the extension map empty, as `setupRPC` leaves it, only a supplied function resolves |
| `DevtoolsRpc.Inbound` | src/rpc/index.ts:104-113 | a message is delivered exactly when it parses to an object with `type` `custom` and `event` `WS_EVENT_NAME`, and then its `data` is passed on; parse failures are dropped |
| `DevtoolsRpc.Frame` | src/rpc/index.ts:96-103 | the frame `post(d)` sends: `{ type: 'custom', event: WS_EVENT_NAME, data: d }` |
| `DevtoolsRpc.FrameRoundTrip` | src/rpc/index.ts:96-113 | every frame `post` sends is delivered by the peer's filter with its payload unchanged |
| `DevtoolsRpc.Info` | src/rpc/index.ts:66-75 | a record keeps the path, its resolved file path and the stat, and is named after the path's last segment |
| `DevtoolsRpc.Infos` | src/rpc/index.ts:64-77 | `Promise.all` over the globbed paths: None when any `lstat` fails, else one record per path |
| `DevtoolsRpc.ScanListsFiles` | src/rpc/index.ts:64-77 | a scan fails exactly when some file cannot be stat-ed; otherwise it has one record per path, in order |
| `DevtoolsRpc.BroadcastOnce` | src/rpc/index.ts:45 | on a channel list without repeats, every listed channel receives the payload's frame exactly once, and nothing else is sent to any channel |
| `DevtoolsRpc.IndexOf` | src/rpc/index.ts:123 | `indexOf` gives the first position of the channel, or -1 when it is absent |
| `DevtoolsRpc.Without` | src/rpc/index.ts:122-126 | the list without a channel keeps exactly the other channels |
| `DevtoolsRpc.SpliceIsWithout` | src/rpc/index.ts:123-125 | in a list without repeats, splicing out the first occurrence removes that channel and keeps the rest in order |
| `DevtoolsRpc.WithoutAbsent` | src/rpc/index.ts:124 | closing an unlisted channel changes nothing |
| `DevtoolsRpc.CloseUndoesConnect` | src/rpc/index.ts:117-126 | closing the connection just made restores the channel list |
| `DevtoolsRpc.WithoutDistinct` | src/rpc/index.ts:122-126 | removing a channel keeps the list free of repeats |
| `DevtoolsRpc.RpcServer.constructor` | src/rpc/index.ts:41 | the cache starts `null`, with no channel and no client |
| `DevtoolsRpc.RpcServer.Scan` | src/rpc/index.ts:53-80 | a non-null cache, even an empty list, is returned without rescanning; otherwise the fresh list is cached and returned |
| `DevtoolsRpc.RpcServer.OnWatch` | src/rpc/index.ts:48-51 | only `add` and `unlink` events schedule a refresh |
| `DevtoolsRpc.RpcServer.Post` | src/rpc/index.ts:96-103 | `post(d)` sends `{ type: 'custom', event: WS_EVENT_NAME, data: d }` |
| `DevtoolsRpc.RpcServer.FireRefresh` | src/rpc/index.ts:43-46 | a due refresh nulls the cache and sends the refresh event on every channel; with none due, nothing changes |
| `DevtoolsRpc.RpcServer.Connect` | src/rpc/index.ts:93-119 | a connection adds its client and appends exactly one new channel |
| `DevtoolsRpc.RpcServer.Close` | src/rpc/index.ts:120-127 | closing deletes the client and removes that channel only, the others staying in order |
| `Paths.LastSegment` | src/scan.ts:16 | the last segment is a suffix without separators, preceded by a separator unless it is the whole path |
| `Paths.LastSegmentOfName` | src/scan.ts:16 | a path without separators is its own last segment |
| `Paths.LastSegmentAfterSlash` | src/scan.ts:16 | `dir/name` has `name` as its last segment |
| `Paths.Basename` | src/scan.ts:16 | `basename(p, ext)` has no separator; with `ext` put back it is the last segment when that ends in `ext`, else it is the last segment |
| `Scan.ScanComponents` | src/scan.ts:15-18 | one record per globbed path, in order, with the path unchanged |
| `Scan.ScanNamesFiles` | src/scan.ts:16 | a record's name has no separator, and with `.svg` put back it is the path's last segment |
| `Scan.ScanNameOfFile` | src/scan.ts:16 | `dir/stem.svg` is named `stem` |

## Left out

- Parsing and rendering are not modelled. ultrahtml's `parse`, `walk` and `render` are inputs: the template arrives as its nodes in the order the walk starts their callbacks (None when parsing throws), and `render` is a function parameter.
- The script analysis is not modelled. The `SCRIPT_RE` matches and oxc-walker's `ScopeTracker` become the set of names the script declares.
- Source maps (`generateMap`) are left out.
- `MagicStrings.RemoveResult`: treats every removal that overlaps an earlier edit as a throw. magic-string accepts some of these, such as a removal inside an already removed range.
- `MagicStrings.OverwriteResult`: treats every overwrite that overlaps an earlier edit as a throw. magic-string accepts an overwrite inside an already removed range. So for an unnamed icon whose span encloses a named one, the model stops the walk after the outer removal, while the source rewrites the inner icon and every later one.
- `SvgoIconTransform.Walk`: runs one whole callback per node, in the order the callbacks start. ultrahtml's `walk` awaits a node's callback and then starts all its children together through `Promise.all`, so that order is not document order. For `<div><SvgoIcon name="a"/></div><SvgoIcon name="b"/>`, b's import is recorded before a's.
- `SvgoIconTransform.Walk`: a callback adds its import, or removes its node, as soon as it starts, but it overwrites only once `render` resolves. The model does all of a callback's work at once, so it does not capture overwrites landing in another order than the imports.
- `SvgoIconTransform.Walk`: after a throw, the source's callbacks that have already started still add imports and overwrite. The model stops everything at the throwing node.
- `SvgoIconTransform.WalkTemplate`: the same sequential walk as `SvgoIconTransform.Walk`, with the same three simplifications.
- `SvgoIconResolver.Walk`: the same three simplifications as `SvgoIconTransform.Walk`; its pushed import lines follow the order in which callbacks start.
- `SvgoIconResolver.WalkTemplate`: the same sequential walk as `SvgoIconResolver.Walk`.
- The `resolveComponent` pattern is not run. Its matches are an input list of (start, end, captured name), non-empty, in order and disjoint, as a global regular expression yields them.
- Casing covers ASCII only. Non-ASCII letters are never case-changed.
- `GenImport` does not escape. knitwork would escape a `"` or `\` inside the specifier.
- `VueIds.AnyMatches`: treats each user `include` and `exclude` pattern as a pure test. A user regular expression with the `g` or `y` flag keeps its `lastIndex` between calls, like `SVGO_ICON_RE`, and can then answer differently for the same id.
- `pathToFileURL`, `decodeURIComponent`, `parseURL` and `parseQuery` are inputs. `isVue` receives the parsed search string and query.
- `getComponents()` and `render` are assumed not to throw. In the source, a throw from either also lands in the handler's `catch`.
- birpc is not modelled: its group internals, the 120 s timeout, `onError` logging, flatted serialisation and the encoding of the refresh event. That encoded event is the `payload` parameter of `FireRefresh`.
- `ResolveMethod`: does not model property lookups that hit `Object.prototype`, such as `ns:toString`.
- The 500 ms debounce is a pending flag plus an explicit `FireRefresh` step. Several watch events before the timer fires give one refresh.
- Scans are modelled as atomic. The code does not keep a single scan in flight: two `getStaticSvgFiles` calls while the cache is `null` both glob and stat. A refresh that lands during a scan is then overwritten by that scan's result. The model follows the code and has no such guard.
- The file system is an input. The glob result, `resolve(srcDir, path)` and `lstat` are parameters, and modification times are whole milliseconds.
- JSON is an input. `JSON.parse(String(e))` is the parsed value (None when it throws), and JSON numbers are integers.
- `Paths.LastSegment`: a path ending in a separator has an empty last segment. Versions of pathe that skip trailing separators would differ there; globbed files never end in one.
- `SvgoIconResolver.WalkImportsInOrder`: states the import list only for a walk that magic-string does not interrupt. For an interrupted walk, only the edits are characterised.
- `SvgoIconTransform.TransformPlugin.PhaseA`: uses the intended whole-file fast reject `HasIconWord`. The stateful `SVGO_ICON_RE.test` is modelled separately by `IconWordRegex` (see Findings).

## Findings

| source | as written | input that shows it | evidently intended | confidence | as-written member | corrected member |
|---|---|---|---|---|---|---|
| src/plugins/svgo-icon-transform.ts:19 | the fast reject calls `.test` on the module-level regex `SVGO_ICON_RE`, which has the `g` flag, so `lastIndex` carries over from one file to the next | both files pass the hook's template filter: phase A on `<template><p>a long line of text</p><SvgoIcon name="a"/></template>` leaves `lastIndex` at 45; phase A on the next file, the 32-character `<template><SvgoIcon/></template>`, then searches from index 45, the test fails, and the icon is left unrewritten | a whole-file check on every call, as with `includes` in the resolver plugin | high; not executed | `SvgoIconTransform.StaleLastIndexSkipsFile` | `SvgoIconTransform.HasIconWord` |
