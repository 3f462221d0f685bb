# licensecheck command-line front end, modelled in Dafny

`licensecheck` walks a Node.js project's installed dependencies and reports, for
each package, the license it declares and the license file found for it. The
command-line front end (`cli.js`) takes the resolved package tree from the
license engine and turns it into output. It has three modes:

- a tree of packages;
- a flat listing keyed by `name@version`;
- JSON records.

This project models that front end:

- **Option handling.** The `--tsv`, `--json`, `--fields` and `--separator`
  handling picks the field list, the flat mode, the colour switch and the
  separator. The separator's escapes `\t`, `\n` and `\0` are then decoded
  (module `Configuration`).
- **isMissing** (module `Packages`).
- **getDescription** (module `Descriptions`). It builds one package's output:
  - an insertion-ordered object of fields in JSON mode;
  - otherwise the field values joined by the separator.
- **makeFlatDependencyMap** (module `FlatMap`).
- **makeDependencyTree** (module `DependencyTree`).

Supporting modules:

- `Strings` models JavaScript's `split`, `join` and global `replace` with a
  fixed pattern.
- `OrderedMaps` models JavaScript objects as association lists in insertion
  order.
- `Wrappers` holds `Option` and `Result`.

The package tree is a value (`Packages.Package`). Each node holds:

- the declared name and the manifest version;
- the other top-level manifest fields;
- the license file the engine chose, if any;
- the resolved license;
- the direct dependencies, in order.

A license file that is present but the empty string counts as absent, as
JavaScript truthiness has it.

Each operation that updates variables step by step (the loops, and the
reassignments of the option handling) is a method proved against a
specification function:

| method | specification function |
|---|---|
| `GetDescription` | `Describe` |
| `MakeFlatDependencyMap` | `Flat` |
| `MakeDependencyTree` | `Tree` |
| `SelectFields` | `SelectedFields` |

The properties are proved as lemmas about those functions:

- A key of the flat map holds the first truthy description in preorder.
- The flat map's keys are exactly the listed nodes.
- The object's keys come in first-write order.
- A later sibling wins in the tree.
- The JavaScript separator line equals a single escape-decoding scan.
- The `simplelicensefile` abbreviation puts " ~ " in place of each `/node_modules/` and leaves none.

In the flat listing, a `name@version` seen more than once keeps the first
*truthy* description in preorder (cli.js:260): a description line that is the
empty string is replaced by a later one. The model follows this (`FlatMap.Choose`,
`FlatMap.FlatFirstOccurrenceWins`). In JSON mode every description is an
object, so the first occurrence always wins there
(`FlatMap.FlatFirstOccurrenceWinsJson`).

## Model

| member | source | states |
|---|---|---|
| `Strings.Join` | cli.js:180 | `join`: the parts with the separator between each two; `SplitJoin` and `JoinSplit` pair it with `Split` |
| `Strings.ReplaceAll` | cli.js:202 | `replace` with a global, fixed pattern: the leftmost occurrence is replaced and the scan resumes after it; its properties are the lemmas below |
| `Strings.Split` | cli.js:118 | `split` gives at least one piece, and no piece contains the separator character |
| `Strings.JoinSplit` | cli.js:118 | joining the pieces of a split with the same character gives the string back |
| `Strings.SplitJoin` | cli.js:180 | splitting a comma join of parts that contain no comma gives the parts back |
| `Strings.ReplaceAllRemoves` | cli.js:202 | a global replacement whose replacement text shares no character with the pattern leaves no occurrence of the pattern |
| `Strings.ReplaceAllAbsent` | cli.js:202 | a global replacement changes nothing when the pattern does not occur |
| `Strings.ReplaceAllLeftmost` | cli.js:202 | the leftmost occurrence of the pattern is replaced in place by the replacement text, and the rest is replaced the same way |
| `Packages.IsMissing` | cli.js:158-160 | a package is missing when it has no truthy license file or its license is "nomatch"; `LicenseFieldFlagsMissing`, `FlatKeys` and `TreeShape` relate it to the output |
| `OrderedMaps.Put` | cli.js:168-222 | assigning a property: the key then holds the value, other keys keep theirs, a new key goes last, an existing key keeps its place |
| `OrderedMaps.PutAllLookup` | cli.js:244-248 | after a series of assignments each key holds the value last assigned to it, or its old value when none was |
| `OrderedMaps.PutAllKeys` | cli.js:229-232 | the keys of an object built by assignments are listed in order of first assignment |
| `OrderedMaps.LastValueFound` | cli.js:244-248 | a key has an assigned value exactly when some assignment names it |
| `OrderedMaps.LastValueAt` | cli.js:244-248 | an assignment wins when no later assignment reuses its key |
| `OrderedMaps.DedupDistinct` | cli.js:229-232 | the object's key list names each assigned key once, and no other key |
| `OrderedMaps.PutAllFrom` | cli.js:229-232 | every entry of the object is one of the assignments made |
| `Descriptions.GetDescription` | cli.js:162-234 | the loops compute `Describe`: the ordered object of the field values in JSON mode, else their values joined by the separator |
| `Descriptions.WriteFields` | cli.js:165-224 | the loop over the fields builds the output object: each field's value assigned to its key in turn |
| `Descriptions.CollectValues` | cli.js:229-232 | the `for ... in` loop collects the output object's values in key order |
| `Descriptions.FieldValue` | cli.js:166-223 | the value one field writes, chosen by the field's name as the chain of `if`s does; its properties are the field lemmas below |
| `Descriptions.LicenseLabel` | cli.js:183-197 | the `license` value: red "unknown" without a license file, yellow "unmatched" on "nomatch", magenta when the highlight matches, else green |
| `Descriptions.LicenseFileLabel` | cli.js:198-213 | the `licensefile` value: red "no license found" without a file, else the path (abbreviated for `simplelicensefile`), yellow on "nomatch" |
| `Descriptions.ManifestLabel` | cli.js:217-223 | a manifest field's string value, or "UNKNOWN" |
| `Descriptions.LicenseFieldFlagsMissing` | cli.js:158-160 | the `license` field is red or yellow exactly when the package is missing ("unknown" without a license file, "unmatched" for an unmatched one); otherwise it is the license, magenta exactly when the highlight matches |
| `Descriptions.LicenseFileFields` | cli.js:198-213 | both license-file fields write the `licensefile` key: "no license found" without a file, else the path; the simple form has no "/node_modules/" left and equals the full path when it had none; yellow or red exactly when missing; `SimpleLicenseFileAbbreviates` states that " ~ " takes the place of each one |
| `Descriptions.SimpleLicenseFileAbbreviates` | cli.js:201-203 | `simplelicensefile` puts " ~ " in place of the leftmost "/node_modules/" of the path and abbreviates the rest the same way, keeping the rest as it is when no other occurs |
| `Descriptions.NameVersionField` | cli.js:167-178 | `nameversion` is the `name` value, "@" and the `version` value |
| `Descriptions.DependenciesFieldSplits` | cli.js:179-182 | the `dependencies` value, split at commas, gives the direct dependencies' `name@version` in order; it is empty without dependencies |
| `Descriptions.ManifestFieldValue` | cli.js:214-223 | a field that is not built in writes its own key: the manifest's string value, or "UNKNOWN" when absent or not a string |
| `Descriptions.OutputKeyOrder` | cli.js:165-224 | the output object's keys are the fields' keys in order of first writing, each once |
| `Descriptions.OutputHasKey` | cli.js:165-224 | a key is in the output object exactly when some requested field writes it |
| `Descriptions.WriteKeys` | cli.js:165-224 | the fields' writes name the keys the fields map to, in order |
| `Descriptions.LastFieldWins` | cli.js:165-224 | a key holds the value of the last requested field that writes it |
| `Descriptions.LineSplitsIntoValues` | cli.js:229-233 | outside JSON mode, with a one-character separator absent from the values, splitting the line gives back the values, one per distinct key |
| `Descriptions.RecordKeys` | cli.js:226-228 | in JSON mode the description is the object, keyed by the distinct output keys in first-write order |
| `FlatMap.Listed` | cli.js:254 | a node has its own entry in the flat map unless missing-only is on and it is not missing; `FlatKeys` states the keys it gives |
| `FlatMap.MakeFlatDependencyMap` | cli.js:252-266 | the recursion and its loops compute `Flat`: the node's own entry when listed, then each dependency's map merged in order |
| `FlatMap.MergeSubMap` | cli.js:259-263 | the inner loop copies each sub-map key where the map holds no truthy value |
| `FlatMap.MergeLookup` | cli.js:260-262 | after a merge a key holds the existing value when truthy, else the sub-map's value when present |
| `FlatMap.FlatLookup` | cli.js:252-266 | a key of the flat map holds the first truthy description among the listed nodes with that `name@version` in preorder (the last when none is truthy), and is absent when no listed node has it |
| `FlatMap.FlatAfterLookup` | cli.js:257-264 | merging the dependencies' maps in order chooses among the node's own value and the dependencies' occurrences in preorder |
| `FlatMap.OccurrencesNonEmpty` | cli.js:254-256 | a key has an occurrence exactly when some listed node has that `name@version` |
| `FlatMap.FlatKeys` | cli.js:253-256 | the flat map's keys are the `name@version` of every node; with missing-only, of every missing node |
| `FlatMap.FlatFirstOccurrenceWins` | cli.js:257-264 | the first listed occurrence in preorder with a truthy description is the one kept |
| `FlatMap.FlatFirstOccurrenceWinsJson` | cli.js:226-228 | in JSON mode the first listed occurrence in preorder is kept |
| `DependencyTree.Pruned` | cli.js:238 | a node is pruned when missing-only is on and neither it nor a direct dependency is missing; `TreeShape` states the tree it gives |
| `DependencyTree.MakeDependencyTree` | cli.js:237-250 | the recursion and its loops compute `Tree` |
| `DependencyTree.Subtrees` | cli.js:244 | mapping over the dependencies gives each one's tree, in order |
| `DependencyTree.MergeSubtrees` | cli.js:244-248 | the loop over the dependencies' objects merges them in sibling order |
| `DependencyTree.CopyKeys` | cli.js:245-247 | copying one dependency's keys is that series of assignments |
| `DependencyTree.TreeShape` | cli.js:237-243 | a node gives an empty object exactly when missing-only is on and neither it nor a direct dependency is missing; otherwise one key, its description, over the merged dependency objects |
| `DependencyTree.MergedKeys` | cli.js:244-248 | the merged object's keys are the dependencies' keys in order of first appearance |
| `DependencyTree.LaterSiblingWins` | cli.js:244-248 | a dependency's key holds its subtree unless a later sibling has the same key |
| `DependencyTree.DeepMissingHidden` | cli.js:238 | with missing-only, a root whose direct dependencies all have licenses gives an empty tree even when a deeper package is missing, while the flat listing names that package |
| `DependencyTree.HiddenExampleShowsNothing` | cli.js:238-240 | on a three-level chain with only the leaf missing, missing-only gives an empty tree and a flat listing that holds `c@1.0.0` |
| `DependencyTree.FixedTreeAgreesWithFlat` | cli.js:238 | the corrected pruning gives an empty tree exactly when the missing-only flat listing is empty |
| `DependencyTree.FixedTreeUnchanged` | cli.js:237-250 | without missing-only the corrected tree is the tree as written |
| `Configuration.SelectFields` | cli.js:104-123 | `--fields` beats the json preset, which beats the tsv preset, else the pretty fields; a given `--fields` is the comma join of the fields; flat under flat, tsv or json; separator a tab under tsv; colour off under tsv or json |
| `Configuration.UnescapeSeparator` | cli.js:128 | the three global replacements of `\t`, `\n` and `\0`, one after another; `UnescapeSeparatorIsUnescape` states what they compute |
| `Configuration.UnescapeSeparatorIsUnescape` | cli.js:128 | the three replacements in turn are a single left-to-right escape-decoding scan |
| `Configuration.ReplaceEscape` | cli.js:128 | each replacement pass decodes one more escape letter of that scan |
| `Configuration.UnescapeDecodes` | cli.js:128 | text without a backslash is unchanged, and a `\t`, `\n` or `\0` is decoded in place |
| `Configuration.ResolveSeparatorAsWritten` | cli.js:125-128 | fails exactly on an empty separator; otherwise gives the decoded separator |
| `Configuration.ResolveSeparator` | cli.js:125-128 | always gives the decoded separator; an empty one stays empty |
| `Configuration.DefaultSeparatorKept` | cli.js:64-69 | the parser's default separator " ── " decodes to itself |
| `Configuration.Handled` | cli.js:104-132 | what the handling sets: the selected fields, the decoded separator (a tab under tsv), json, missing-only and the highlight as given, flat and colour as the presets set them |
| `Configuration.ConfigureAsWritten` | cli.js:104-128 | as written: fails exactly when tsv is off and the separator is empty; otherwise gives the handled settings |
| `Configuration.Configure` | cli.js:104-128 | with the corrected separator rule: never fails and gives the handled settings; a tab under tsv, a separator without backslashes as given, an empty one empty |

## Left out

- Argument parsing, the help text and the exit on a parse error (cli.js:77-102). The model starts from the parsed options (`Configuration.Options`). The parser's default separator " ── " (cli.js:64-69) is the constant `Configuration.DefaultSeparator`.
- Terminal colour. A coloured value is a tag and its text (`Descriptions.Styled`). Rendering is taken to be the identity on the text, as with colours disabled. The colour switch is only recorded.
- The highlight regular expression (cli.js:130-132). It is a predicate on license names passed in with the settings. An empty `--highlight` pattern stands for no predicate.
- The license-overrides file (cli.js:134-135): file I/O and JSON parsing. Overrides act through the engine, which is not part of this model.
- `main` (cli.js:138-156). It sorts the flat map's keys, prints the records or the tree, and draws the tree with `treeify`. Only the map and the tree it prints are modelled.
- The license engine `index.js` and the tests. The model takes the engine's resolved tree as input.
- JavaScript's ordering of integer-like object keys, which come before the other keys. The model keeps all keys in insertion order. Field names and `name@version` keys are not integer-like in practice.
- The key `__proto__`, which a plain JavaScript object treats specially.
- A manifest version that is not a string. The version is taken to be a string.
- `Configuration.Configure`: uses the corrected separator rule, so an empty `--separator` gives an empty separator where the code throws; `Configuration.ConfigureAsWritten` models the code as written (see Findings).
- `DependencyTree.MakeDependencyTree`: when JSON mode reaches the tree, a description object would become the key "[object Object]" (`DependencyTree.KeyText`). JSON mode always selects the flat listing, so this is not reached.

## Findings

| source | as written | input that shows it | evidently intended | confidence | as-written member | corrected member |
|---|---|---|---|---|---|---|
| cli.js:125-128 | `sep` is assigned only when the separator option is truthy, and the escapes are then replaced on it, so an empty separator leaves it null and the replacement throws | `--separator ""` without `--tsv` | an empty separator joins the fields with nothing | medium; not executed | `Configuration.ConfigureAsWritten` | `Configuration.Configure` |
| cli.js:238 | under missing-only a node is pruned when it and its direct dependencies have licenses, whatever lies deeper | `--missing-only` tree view of a → b → c where only c has no license file: the tree is empty, the flat listing shows `c@1.0.0` | keep every node with a missing package below it, so that the tree is empty exactly when the flat listing is | medium; not executed | `DependencyTree.HiddenExampleShowsNothing` | `DependencyTree.FixedTreeAgreesWithFlat` |
