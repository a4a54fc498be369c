# Angular linking post-processor for a built package, in Dafny

`index.mjs` post-processes an Angular package that is already built. It
finds every bundle under `fesm2022/`. It runs each bundle through the
Angular linker, a Babel plugin, and writes the result beside the bundle as
`<bundle>.linked.mjs`. It also rewrites the package's `package.json`. Every
`exports` entry whose `default` contains `fesm2022` gains an
`ng-linked` resolution condition pointing at the linked artifact. Package
resolvers that ask for `ng-linked` then pick up the linked code.

The model covers:

- **`JsText`**: the string tests the script uses. These are containment
  (`/fesm2022/.test`, `includes`) and prefix (`startsWith`). It also has
  the decimal keys of array indices.
- **`JsonValue`**: the parsed `package.json` as JavaScript sees it. An
  object is the ordered sequence of its own properties. Property read,
  assignment (`o[k] = v`) and object spread (`{ a: x, ...o }`) are
  modelled with JavaScript's ordering rules.
- **`BundleLinking`**: the name of the linked artifact (line 26). Also the
  loop that starts one bundle task per discovered file, with file reading
  and the linker passed in as parameters.
- **`ManifestUpdate`**: the manifest task (lines 32-63) as written. This
  covers the `exports` assertion and the TypeErrors JavaScript raises.
  These come from a `null` document, a `null` export entry, and a
  `default` that `String(v)` cannot convert (an object with its own
  `toString` property, or an array holding one). Otherwise `default` is
  tested through its `String(v)` text. The loop over
  `Object.entries(exports)` is a `method` proved against the function
  `RewriteFields`. The side-effects step is a `method` that returns its
  array unchanged, as the code does.
- **`ManifestProperties`**: what the update promises about the whole
  document:
  - when it fails;
  - what it keeps;
  - the shape of each rewritten record;
  - that running it twice changes nothing.
- **`SideEffectsFix`**: the side-effects step as its comment describes it,
  and the proof that the code as written differs from it (see Findings).

Four facts about what the code does, which the model states as they are:

- The code has no pass that rewrites import specifiers between bundles.
  The transform uses only the linker plugin.
- A record that already has its own `ng-linked` condition has it moved to
  the front by the spread. Its value is kept.
- The `default` test is containment of `fesm2022` anywhere in the text. It
  is not a check that the path lies under the bundle directory.
- The side-effects step appends nothing.

## Model

| member | source | states |
|---|---|---|
| JsText.ContainsIffOccurs | index.mjs:43 | the containment test holds exactly when the pattern occurs at some position of the text |
| JsText.NatToStringInjective | index.mjs:41 | distinct array indices have distinct decimal keys |
| JsonValue.Get | index.mjs:42 | reading a property finds a value exactly when the key is an own key, and the value found is that key's |
| JsonValue.Put | index.mjs:46 | after `o[k] = v`, reading `k` gives `v` and reading any other key gives what it gave before |
| JsonValue.PutAt | index.mjs:46 | assigning an existing key of an object with distinct keys replaces the value in place and keeps the key order |
| JsonValue.PutNewKey | index.mjs:46-48 | assigning a key that is not there appends it after the existing properties |
| JsonValue.SpreadAfterOne | index.mjs:46-49 | `{ n: w, ...src }` puts `n` first, with `src`'s own value for `n` if it has one and `w` otherwise, then the other properties of `src` in their order |
| JsonValue.SpreadAfterHead | index.mjs:46-49 | spreading `src` after a first property and properties `src` does not share puts the first key first with `src`'s value for it if any, then those properties, then the rest of `src` in order |
| BundleLinking.LinkedNameRoundTrip | index.mjs:26 | the artifact name is the bundle path followed by ".linked.mjs" and strips back to the bundle path |
| BundleLinking.LinkedNameInjective | index.mjs:26 | two different bundles never get the same artifact |
| BundleLinking.LinkedNameIsNew | index.mjs:26 | an artifact never overwrites its own bundle or package.json |
| BundleLinking.PlanBundleWrites | index.mjs:17-29 | one write per discovered bundle, in discovery order, to its artifact name with the linker's output for that bundle's contents and file name; no write targets its own bundle or the manifest; different bundles write different files |
| ManifestUpdate.IndexedEntriesLookup | index.mjs:41 | the entries `Object.entries` gives for an array hold its elements in order, and reading the decimal text of an index finds the element at that index |
| ManifestUpdate.EntriesDistinct | index.mjs:41 | the entries of any parsed value have distinct keys |
| ManifestUpdate.RewriteFields | index.mjs:41-50 | the loop succeeds exactly when no entry throws (a `null` entry, or a truthy `default` that `String` cannot convert); then each subpath keeps its key and position and takes the rewritten record if its `default` links a bundle, otherwise its old value; otherwise it stops with the TypeError of the first entry that throws |
| ManifestUpdate.ArrayTextHasElements | index.mjs:43 | the `String` text of an array contains the text of each of its non-null elements |
| ManifestUpdate.RewriteEntries | index.mjs:41-50 | the in-place loop, assigning `exports[subpath]` entry by entry, produces exactly the entries RewriteFields describes |
| ManifestUpdate.IndexKeyIsNotBundlePath | index.mjs:55-56 | a `for...in` key of an array never starts with "./fesm2022/" |
| ManifestUpdate.ExtendSideEffects | index.mjs:53-59 | the side-effects step as written returns the array unchanged |
| ManifestUpdate.UpdateManifest | index.mjs:33-62 | the manifest task fails on a `null` document, on a missing or falsy `exports`, on a `null` export entry and on a `default` that cannot be converted to a string, and otherwise writes the document UpdatedManifest describes |
| ManifestProperties.FailsWithoutExports | index.mjs:34-39 | the task fails reading `exports` exactly when the document is `null`, and fails the assertion exactly when a non-null document has no truthy `exports` |
| ManifestProperties.SucceedsUnlessEntryThrows | index.mjs:36-43 | the task succeeds exactly when `exports` is truthy and no entry throws, that is, none is `null` and no truthy `default` is unconvertible; a TypeError is that of the first entry that throws and names its subpath |
| ManifestProperties.OwnToStringDefaultThrows | index.mjs:41-43 | when the first entry that throws has a `default` object with its own `toString` property, such as `{"toString": "q"}`, the update stops with a TypeError naming that entry's subpath |
| ManifestProperties.TopLevelPreserved | index.mjs:41-62 | the written document has the same top-level keys in the same order, and every top-level field other than `exports` is unchanged, including the top-level `sideEffects` |
| ManifestProperties.SubpathsPreserved | index.mjs:41-50 | `exports` keeps its subpaths in order; each ends up with its rewritten record, and one that does not link a bundle keeps its value; an array keeps its length; any other kind of `exports` is unchanged |
| ManifestProperties.LinkedRecordShape | index.mjs:46-49 | a record that links a bundle becomes `ng-linked` first, then its other conditions in order; `ng-linked` keeps the record's own value if it had one |
| ManifestProperties.LinkedRecordAddsCondition | index.mjs:46-49 | a linking record without its own `ng-linked` gains `"ng-linked": default + ".linked.mjs"` as its first key, one key more, and every other condition reads as before |
| ManifestProperties.LinkedRecordKeepsOwnCondition | index.mjs:46-49 | a linking record that has its own `ng-linked` keeps the same number of conditions, the same keys and every value; only `ng-linked` moves to the front, and the other conditions keep their order |
| ManifestProperties.LinksBundleIsContainment | index.mjs:42-43 | a record links a bundle exactly when its `default` is truthy and "fesm2022" occurs somewhere in its text |
| ManifestProperties.SubstringAnywhereLinks | index.mjs:43 | a `default` of "./x/fesm2022-old/a.js" links, although it is not under `fesm2022/` |
| ManifestProperties.StringDefaultText | index.mjs:43 | a string `default` is tested as it is: the record links exactly when the string contains "fesm2022" |
| ManifestProperties.ArrayDefaultLinksByElement | index.mjs:43 | an array `default` links as soon as the text of one of its non-null elements contains "fesm2022" |
| ManifestProperties.ArrayDefaultLinks | index.mjs:42-49 | a record whose `default` is an array holding one path that mentions "fesm2022", and that has no `ng-linked` of its own, links, and gains that path's artifact as `ng-linked` in front of its conditions |
| ManifestProperties.LinkedKeepsDefault | index.mjs:46-49 | rewriting a record keeps its `default`, so an entry throws on a second pass exactly when it threw on the first |
| ManifestProperties.LinkedConditionsIdempotent | index.mjs:46-49 | rewriting a record twice gives the same record as rewriting it once |
| ManifestProperties.ExportsWithoutRecordsUnchanged | index.mjs:41-44 | a string, number or boolean `exports` has no entry that links a bundle, so the loop leaves its entries as they are |
| ManifestProperties.RewrittenExportsIdempotent | index.mjs:41-50 | running the rewrite loop over its own output changes nothing |
| ManifestProperties.UpdateIdempotent | index.mjs:33-62 | running the manifest update on the document it wrote gives that same document |
| SideEffectsFix.ContainsChar | index.mjs:56 | `includes` of a one-character string holds exactly when the character occurs |
| SideEffectsFix.LinkedPatternsMembers | index.mjs:52-57 | every name appended is the artifact of a literal, wildcard-free pattern under "./fesm2022/" in the list, and every such pattern has its artifact appended |
| SideEffectsFix.ExtendSideEffectsIntended | index.mjs:52-59 | the intended step keeps the original patterns in order and appends exactly LinkedPatterns of them |
| SideEffectsFix.LinkedPatternsAppend | index.mjs:55-57 | the appended names of a concatenation are those of its parts in order |
| SideEffectsFix.LinkedPatternQualifies | index.mjs:55-57 | an appended name is itself a literal pattern under "./fesm2022/", so a loop over the live array would never end |
| SideEffectsFix.IntendedStepSelects | index.mjs:56-57 | for a literal path under "./fesm2022/", a wildcard pattern and a path elsewhere, only the literal path's artifact is appended |
| SideEffectsFix.IntendedManifestExtends | index.mjs:52-62 | the intended manifest differs from the written one only in the top-level `sideEffects`, which gains the artifacts of its literal bundle paths after its original patterns |
| SideEffectsFix.AsWrittenKeepsSideEffects | index.mjs:53-59 | on a package whose top-level `sideEffects` lists a literal bundle path, the update as written keeps `sideEffects` unchanged, misses that path's artifact, and so differs from the intended manifest |

## Left out

- Bundle discovery (`globSync("fesm2022/**/*.mjs")`, line 8) is an external file-system query. The bundle list is a parameter of PlanBundleWrites.
- The Babel transform and the Angular linker plugin (lines 1-2, 11-15, 21-24) are external code. The linker's output is the function parameter `transform` of PlanBundleWrites, applied to the bundle's contents and its file name (`filename`, line 23).
- Reading and writing files (lines 20, 26, 33, 62) are left out. So are the JSON text format, `JSON.parse` and `JSON.stringify` with its indentation (lines 34, 62). The manifest update starts from the parsed value and ends with the value that is serialised.
- The concurrent tasks, `Promise.all`, the error report and the exit code (lines 9, 18-19, 31-32, 66, 69-72) are left out. A failing bundle transform rejects the run while other tasks may still write their files; this is not modelled.
- Numbers are integers. Fractions, exponents, `-0` and numbers of 1e21 or more, which `String` writes in exponent form, are outside the model.
- Objects keep their properties in insertion order. JavaScript lists integer-like keys such as "0" first in ascending order; a `package.json` whose objects use such keys is outside the model.
- Strings are sequences of Unicode characters, while JavaScript strings are sequences of UTF-16 code units. A lone surrogate such as `"\ud800"` in `package.json` has no counterpart, and `Object.entries` of a string `exports` counts code units where the model counts characters. Neither changes a result: the entries of a string never link a bundle and never throw.
- ManifestUpdate.UpdateManifest: requires a well-formed document (every object has distinct keys), which every value `JSON.parse` returns satisfies.
- The pass that rewrites import specifiers between bundles is not in index.mjs and is not part of this model.

## Findings

| source | as written | input that shows it | evidently intended | confidence | as-written member | corrected member |
|---|---|---|---|---|---|---|
| index.mjs:53-59 | the step reads `packageJson.exports.sideEffects` rather than the top-level `sideEffects`, and walks it with `for...in`, which binds the index keys "0", "1", … rather than the patterns; no key starts with "./fesm2022/", so nothing is ever appended | `{"exports": {".": {"default": "./fesm2022/a.mjs"}}, "sideEffects": ["./fesm2022/a.mjs"]}`: the written `sideEffects` stays `["./fesm2022/a.mjs"]` | append "./fesm2022/a.mjs.linked.mjs" to the top-level `sideEffects` (comment at line 52), walking a copy of the original patterns so that the appended names, which qualify again, are not revisited | high, not executed | ManifestUpdate.ExtendSideEffects, SideEffectsFix.AsWrittenKeepsSideEffects | SideEffectsFix.ExtendSideEffectsIntended, SideEffectsFix.IntendedManifestExtends |
