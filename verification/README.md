# Terraform AzureRM Set-diff analyzer and Excalidraw library splitter, in Dafny

This project models the decision logic of two Python scripts and proves
properties about it.

**The Set-diff analyzer** (`analyze_plan.py`) reads a Terraform plan. For
every `azurerm_` resource change it compares the before and after values of
each Set-type attribute listed in a schema. A Set attribute is a list whose
order Terraform does not preserve. The analyzer separates elements that
were really added, removed or modified from elements that only moved. It
then counts the findings across the plan and maps them to an exit code:
0 for no changes or order-only changes, 1 for real Set changes, creations or
deletions, and 2 for a replacement.

**The library splitter** (`split-excalidraw-library.py`) turns each item of
an Excalidraw library into a file whose name is derived from the item's name.
It returns the list of (name, file name) pairs sorted by name.

Modules, from the bottom up:

| file | module | models |
|---|---|---|
| `wrappers.dfy` | `Wrappers` | `Option` and `Result` (a raised exception is a `Failure`) |
| `json.dfy` | `JsonValue` | JSON values as Python sees them; Python `==` (`PyEq`, where `True == 1` and `1.0 == 1`); truthiness; `dict.get` |
| `text.dfy` | `Text` | code-point string order, sorted key lists, `in` on strings, lower-casing |
| `seqs.dfy` | `Seqs` | order-preserving filtering and counting |
| `normalize.dfy` | `Normalize` | `normalize_value`, `normalize_for_comparison`, `values_equivalent` |
| `setdiff.dfy` | `SetDiff` | `get_attr_config`, `get_element_key`, `compare_elements`, `analyze_primitive_set`, `analyze_set_attribute` |
| `resource.dfy` | `ResourceAnalysis` | `analyze_resource_change` |
| `aggregate.dfy` | `PlanSummary` | `collect_all_changes`, the counting loop of `analyze_plan`, `determine_exit_code` |
| `sanitize.dfy` | `Sanitize` | `sanitize_filename` |
| `library.dfy` | `Library` | the name-to-file-name mapping and the sort of `split_library` |

The analyzer's globals become explicit in the model:

- `CONFIG.ignore_case` is a field of `SetDiff.Config`.
- Python's `str()` of a non-string key is the `render` field of `Config`.
- `str(hash(json.dumps(...)))` is the `digest` field of `Config`.
- Warnings appended to `CONFIG.warnings` are returned with each result
  instead of being accumulated in a global. Their order follows the model's
  iteration order, which is described under "Left out".
- The schema `AZURERM_SET_ATTRIBUTES` is a parameter.

Where the source raises an exception (`TypeError`, `AttributeError`) on
input it does not expect, the model returns a `Failure` naming the case.
`analyze_plan` stops at the first such failure.

Python's `\w` class is the parameter `isWord` of `Sanitize.SanitizeFilename`.

### Behaviour of the code worth knowing

The model follows the code in each of these cases.

- **Replacements.** Only a pure `["create"]` or `["delete"]` skips Set
  analysis (lines 409-410), so a replacement is still diffed.
- **Pairs with only nested differences.** A matched pair that differs only
  in a nested Set field (for example a reordered nested list) goes down the
  `elif not nested_set_list` branch, so the pair is counted neither
  order-only nor modified at the parent. Its nested findings are still kept
  (lines 326-360).
- **Other changes.** A Set attribute the differ ran on without a finding is
  not added to `analyzed_attrs`. If its values differ under `==` (for
  example `[]` to `null`), it is listed as an other change. Sensitivity
  markers are not consulted there at all (lines 453-476).

## Model

Source paths are relative to the repository root.

| member | source | states |
|---|---|---|
| JsonValue.CanonMatchesPythonEquality | skills/terraform-azurerm-set-diff-analyzer/scripts/analyze_plan.py:323 | Comparing canonical forms is exactly Python's structural `==`: bools equal 0/1, integral floats equal ints, lists compare element-wise and dicts key-wise |
| JsonValue.CanonIdempotent | skills/terraform-azurerm-set-diff-analyzer/scripts/analyze_plan.py:323 | The equality representative of a representative is itself |
| JsonValue.CanonNumbers | skills/terraform-azurerm-set-diff-analyzer/scripts/analyze_plan.py:204 | Two numbers are Python-equal iff their numeric values are equal |
| Normalize.NormalizeValue | skills/terraform-azurerm-set-diff-analyzer/scripts/analyze_plan.py:158-167 | `None`, `""` and `[]` become `None`; an integral float becomes the int of the same value; any other value is returned unchanged. Every non-blank value stays Python-equal to itself and is not blank |
| Normalize.NormalizeForComparison | skills/terraform-azurerm-set-diff-analyzer/scripts/analyze_plan.py:170-175 | Blanks become `None` and nothing else does. Without case folding, and for every non-string, it is `normalize_value`; with case folding a non-empty string becomes its lower-cased form |
| Normalize.NormalizeIdempotent | skills/terraform-azurerm-set-diff-analyzer/scripts/analyze_plan.py:158-175 | Both normalisations are idempotent |
| Normalize.EquivalenceIsEquivalenceRelation | skills/terraform-azurerm-set-diff-analyzer/scripts/analyze_plan.py:178-180 | `values_equivalent` is reflexive, symmetric and transitive |
| Normalize.EquivalentIffBlankOrEqual | skills/terraform-azurerm-set-diff-analyzer/scripts/analyze_plan.py:158-180 | Without case folding, two values are equivalent iff both are blank, or neither is and they are Python-equal |
| Normalize.CaseInsensitiveStrings | skills/terraform-azurerm-set-diff-analyzer/scripts/analyze_plan.py:170-180 | With case folding, two strings are equivalent iff their lower-cased forms are equal |
| Normalize.PyEqImpliesEquivalent | skills/terraform-azurerm-set-diff-analyzer/scripts/analyze_plan.py:178-180 | Python-equal values are always equivalent |
| SetDiff.GetAttrConfig | skills/terraform-azurerm-set-diff-analyzer/scripts/analyze_plan.py:80-97 | `None` and non-str, non-dict definitions give no key and no nested attributes. A string is the key. A dict gives its `_key` entry (or `None`) and every other entry, unchanged, as the nested attributes |
| SetDiff.ElementKey | skills/terraform-azurerm-set-diff-analyzer/scripts/analyze_plan.py:147-155 | Fails iff the key attribute is a non-empty list or dict. A present string key field is returned, lower-cased under case folding; another present value is rendered; otherwise the element digest is used |
| SetDiff.AsList | skills/terraform-azurerm-set-diff-analyzer/scripts/analyze_plan.py:265-272 | A list is diffed as its items. A falsy non-list is the empty list, and a truthy non-list is the one-element list holding it |
| SetDiff.CaseInsensitiveKeysMatch | skills/terraform-azurerm-set-diff-analyzer/scripts/analyze_plan.py:149-152 | Under case folding, elements whose key fields differ only in case get the same key |
| SetDiff.AnalyzePrimitiveSet | skills/terraform-azurerm-set-diff-analyzer/scripts/analyze_plan.py:212-248 | Fails iff some element is unhashable. Added and removed are the two set differences of the (case-folded) element sets. The order-only count is positive iff the two sets are equal and non-empty, and then equals their size |
| SetDiff.PrimitiveMembership | skills/terraform-azurerm-set-diff-analyzer/scripts/analyze_plan.py:224-241 | An after element is reported added iff no before element has the same representative, and symmetrically for removed. Every reported value comes from the right side |
| SetDiff.PrimitivePermutationIsOrderOnly | skills/terraform-azurerm-set-diff-analyzer/scripts/analyze_plan.py:243-246 | Reordering a non-empty primitive list gives no additions or removals and an order-only count equal to its number of distinct values |
| SetDiff.IndexElements | skills/terraform-azurerm-set-diff-analyzer/scripts/analyze_plan.py:287-303 | Every dict element's key is in the map. Every mapped key comes from some element. The last element with a key wins. The key order is duplicate-free. Duplicates plus keys equal the number of dict elements, and there are no duplicates when keys are distinct |
| SetDiff.DistinctKeysIndexSize | skills/terraform-azurerm-set-diff-analyzer/scripts/analyze_plan.py:287-303 | With distinct keys, nothing is reported duplicate and the map has one entry per dict element |
| SetDiff.OnlyIn | skills/terraform-azurerm-set-diff-analyzer/scripts/analyze_plan.py:308-316 | The keys listed are exactly the keys on one side but not the other, each once |
| SetDiff.InBoth | skills/terraform-azurerm-set-diff-analyzer/scripts/analyze_plan.py:319 | The keys listed are exactly the keys on both sides, each once |
| SetDiff.CompareElements | skills/terraform-azurerm-set-diff-analyzer/scripts/analyze_plan.py:183-209 | A non-nested field is in the diffs iff it is not `values_equivalent` on the two sides, and the diff holds both values. A nested field is listed iff its two values differ under `==` |
| SetDiff.EqualElementsHaveNoDifferences | skills/terraform-azurerm-set-diff-analyzer/scripts/analyze_plan.py:183-209 | Python-equal elements yield no diffs and no nested fields |
| SetDiff.Classify | skills/terraform-azurerm-set-diff-analyzer/scripts/analyze_plan.py:354-360 | A pair is modified iff it has field diffs, with its display key and those diffs. It is order-only iff it has neither diffs nor differing nested fields. It is never both |
| SetDiff.CompareUnequal | skills/terraform-azurerm-set-diff-analyzer/scripts/analyze_plan.py:326-360 | For a pair that is not Python-equal, the modified and order-only outcomes follow the comparison as in `Classify`: its modified list is exactly the one entry `(display key, field diffs)` when there are field diffs and empty otherwise, and it is order-only iff there are neither field diffs nor differing nested fields. Kept nested changes all have findings |
| SetDiff.ComparePair | skills/terraform-azurerm-set-diff-analyzer/scripts/analyze_plan.py:322-360 | Python-equal pairs count one order-only match and nothing else. Otherwise the pair's modified list is its one `(display key, field diffs)` entry iff it has field diffs (`ModifiedPair`), and it counts one order-only match iff it is equal or has neither field diffs nor differing nested fields (`OrderOnlyPair`). A pair contributes at most one order-only or modified entry |
| SetDiff.CompareCommon | skills/terraform-azurerm-set-diff-analyzer/scripts/analyze_plan.py:319-360 | The loop over common keys, in key order: its modified list is exactly the entries of the keys whose pairs are modified (`ModifiedEntries`), and its order-only count is the number of order-only pairs (`OrderOnlyCount`). Order-only plus modified never exceeds the number of common keys. Every modified entry has diffs and every nested change has a finding |
| SetDiff.ModifiedEntriesMembers | skills/terraform-azurerm-set-diff-analyzer/scripts/analyze_plan.py:319-360 | Every key whose pair is modified has its `(display key, field diffs)` entry in the modified list, and every entry there is that of such a key |
| SetDiff.ModifiedEntriesCount | skills/terraform-azurerm-set-diff-analyzer/scripts/analyze_plan.py:319-360 | Over distinct keys, the modified list has exactly one entry per key whose pair is modified |
| SetDiff.OrderOnlyCountIsSize | skills/terraform-azurerm-set-diff-analyzer/scripts/analyze_plan.py:319-360 | Over distinct keys, the order-only count is the number of keys whose pair is order-only |
| SetDiff.IdenticalPairsAreOrderOnly | skills/terraform-azurerm-set-diff-analyzer/scripts/analyze_plan.py:319-325 | When every common key maps to the same element on both sides, each counts once as order-only and nothing else is produced |
| SetDiff.NestedLoop | skills/terraform-azurerm-set-diff-analyzer/scripts/analyze_plan.py:333-352 | Only nested changes with a finding are kept, at most one per differing nested field |
| SetDiff.NestedLoopKeepsFindings | skills/terraform-azurerm-set-diff-analyzer/scripts/analyze_plan.py:333-352 | When the nested loop succeeds, every differing nested field it visits was analysed without error, and every such analysis with a finding is attached |
| SetDiff.Display | skills/terraform-azurerm-set-diff-analyzer/scripts/analyze_plan.py:309-316 | One display entry per key: the key itself when there is a key attribute, otherwise the placeholder `(element)` |
| SetDiff.DuplicateWarnings | skills/terraform-azurerm-set-diff-analyzer/scripts/analyze_plan.py:291-303 | One warning per duplicate key, in order, naming that key, the side and the path |
| SetDiff.AnalyzeSetAttribute | skills/terraform-azurerm-set-diff-analyzer/scripts/analyze_plan.py:251-362 | Name and dotted path are set. If either list holds a value that is neither `None` nor a dict, the result is exactly `analyze_primitive_set` with no warnings, and it fails iff some element is unhashable. Otherwise an unhashable key attribute with some object present fails, and a success has the keyed outcome: it reports no primitive changes; its warnings start with one duplicate warning per repeated key, before side then after side, and are all duplicate-key warnings (the modified entries are stated by `SetAttributeModified`); the removed and added counts are the sizes of the key-set differences, and equal those sets when a key attribute exists; order-only plus modified is at most the number of common keys; kept nested changes have findings and modified entries have diffs |
| SetDiff.AnalyzeKeyed | skills/terraform-azurerm-set-diff-analyzer/scripts/analyze_plan.py:286-362 | The keyed path alone, for lists of objects and Nones: an unhashable key attribute with some object present fails, and a success has the findings and keyed outcome stated above |
| SetDiff.KeyedModified | skills/terraform-azurerm-set-diff-analyzer/scripts/analyze_plan.py:319-360 | On the keyed path, a common key is reported modified, with its display key and field diffs, iff its two elements are not equal and differ in a non-Set field. Every modified entry belongs to such a key, there is one entry per such key, and the order-only count is the number of common keys whose elements are equal or differ in nothing the differ reports |
| SetDiff.SetAttributeModified | skills/terraform-azurerm-set-diff-analyzer/scripts/analyze_plan.py:251-362 | The same for `analyze_set_attribute` on lists of dicts and Nones: the modified entries and the order-only count are those of the common keys of the two indexed sides, pair by pair |
| SetDiff.NestedReorderIsNestedFinding | skills/terraform-azurerm-set-diff-analyzer/scripts/analyze_plan.py:326-360 | A pair of objects that differs only by a reordering of a nested Set list (distinct child keys) is neither order-only nor modified at the parent; exactly one nested change is kept, for that field, and it counts one order-only match per child element and nothing added, removed, modified or nested |
| SetDiff.PermutationIsOrderOnly | skills/terraform-azurerm-set-diff-analyzer/scripts/analyze_plan.py:251-362 | Reordering a list of objects with distinct keys gives nothing added, removed, modified or nested, no warnings, and one order-only match per element |
| ResourceAnalysis.OrEmpty | skills/terraform-azurerm-set-diff-analyzer/scripts/analyze_plan.py:388-392 | `v or {}`: a truthy value is kept, a falsy one becomes `{}` |
| ResourceAnalysis.AsDict | skills/terraform-azurerm-set-diff-analyzer/scripts/analyze_plan.py:418-419 | `.get` on a before/after value succeeds iff it is falsy or a dict |
| ResourceAnalysis.In | skills/terraform-azurerm-set-diff-analyzer/scripts/analyze_plan.py:422 | `name in v` is key membership on a dict and false on a falsy value. It raises iff the value is a truthy number or bool |
| ResourceAnalysis.DictGet | skills/terraform-azurerm-set-diff-analyzer/scripts/analyze_plan.py:442 | `.get` succeeds iff the value is falsy or a dict, and then returns the member or `None` |
| ResourceAnalysis.IsSensitive | skills/terraform-azurerm-set-diff-analyzer/scripts/analyze_plan.py:421-426 | For markers that are dicts or falsy, in any combination, an attribute is sensitive iff its marker is truthy on either side. With no markers it never is |
| ResourceAnalysis.AttrLoop | skills/terraform-azurerm-set-diff-analyzer/scripts/analyze_plan.py:415-464 | Every kept Set change belongs to a schema attribute that was present, changed and a list on some side, and has a finding. Its warnings are stated by `AttrLoopSensitive`, `AttrLoopKeepsWarnings` and `AttrLoopWarningSources` |
| ResourceAnalysis.AttrLoopKeepsFindings | skills/terraform-azurerm-set-diff-analyzer/scripts/analyze_plan.py:428-464 | Every considered attribute is diffed. It is recorded as analysed iff its diff has a finding |
| ResourceAnalysis.AttrLoopSensitive | skills/terraform-azurerm-set-diff-analyzer/scripts/analyze_plan.py:421-426 | A visited attribute has a sensitivity warning for this resource iff its marker is present and truthy on either side |
| ResourceAnalysis.AttrLoopKeepsWarnings | skills/terraform-azurerm-set-diff-analyzer/scripts/analyze_plan.py:428-464 | The duplicate-key warnings of every analysed attribute are among the loop's warnings |
| ResourceAnalysis.AttrLoopWarningSources | skills/terraform-azurerm-set-diff-analyzer/scripts/analyze_plan.py:415-464 | Every warning of the loop is a sensitivity warning for a visited attribute of this resource, or a duplicate-key warning of an analysed attribute |
| ResourceAnalysis.OtherChanges | skills/terraform-azurerm-set-diff-analyzer/scripts/analyze_plan.py:466-476 | A top-level key is listed iff it is not analysed, does not start with `_`, and its two values differ under `==`. Each key is listed once |
| ResourceAnalysis.AnalyzeResourceChange | skills/terraform-azurerm-set-diff-analyzer/scripts/analyze_plan.py:365-478 | No-ops, non-`azurerm_` types and filtered types give `None` with no warnings, and only those do. Address, type and actions are copied. Replace holds iff both `delete` and `create` occur; create and delete iff the actions are exactly that one. A pure create or delete has no findings. A truthy non-dict before/after on an analysed resource raises |
| ResourceAnalysis.ResourceChangeContents | skills/terraform-azurerm-set-diff-analyzer/scripts/analyze_plan.py:413-476 | Set changes come from the schema's attributes that changed and have findings. The other changes are exactly the unanalysed, non-internal keys whose values differ |
| ResourceAnalysis.ResourceChangeSensitive | skills/terraform-azurerm-set-diff-analyzer/scripts/analyze_plan.py:413-426 | An analysed update or replacement warns that a schema-listed attribute is sensitive iff the sensitivity markers flag it |
| ResourceAnalysis.UnchangedResourceReportsNothing | skills/terraform-azurerm-set-diff-analyzer/scripts/analyze_plan.py:428-476 | If before equals after, no Set change and no other change is reported |
| PlanSummary.Own | skills/terraform-azurerm-set-diff-analyzer/scripts/analyze_plan.py:493-504 | A change goes to the order-only bucket iff it has order-only matches and no real change, and to the actual bucket iff it has a real change |
| PlanSummary.Collect | skills/terraform-azurerm-set-diff-analyzer/scripts/analyze_plan.py:481-512 | Every entry of the order-only list is order-only, and every entry of the actual list is actual |
| PlanSummary.CollectIsFilteredFlatten | skills/terraform-azurerm-set-diff-analyzer/scripts/analyze_plan.py:481-512 | The two lists are exactly the pre-order walk of the change tree, with dotted display names, filtered by each bucket's test |
| PlanSummary.CollectChildrenIsFilteredFlatten | skills/terraform-azurerm-set-diff-analyzer/scripts/analyze_plan.py:507-510 | The same for the nested children from a given index on |
| PlanSummary.ActualIffAnyActual | skills/terraform-azurerm-set-diff-analyzer/scripts/analyze_plan.py:493-510 | A change tree yields an actual entry iff some node has additions, removals, modifications or primitive changes |
| PlanSummary.Gather | skills/terraform-azurerm-set-diff-analyzer/scripts/analyze_plan.py:743-748 | The kept resources come from the plan's entries, at most one per entry |
| PlanSummary.GatherStep | skills/terraform-azurerm-set-diff-analyzer/scripts/analyze_plan.py:745-748 | One more entry either raises, ending the run, or appends its resource and warnings |
| PlanSummary.GatherStopsAtFailure | skills/terraform-azurerm-set-diff-analyzer/scripts/analyze_plan.py:745-746 | The first entry that raises ends the analysis of the whole plan |
| PlanSummary.SummarizeAppend | skills/terraform-azurerm-set-diff-analyzer/scripts/analyze_plan.py:751-764 | Appending one resource adds exactly its replace/create/delete classification, other-change count and bucket sizes to the totals |
| PlanSummary.StepSummarizes | skills/terraform-azurerm-set-diff-analyzer/scripts/analyze_plan.py:745-764 | Counting entry by entry gives the same totals as summarising the gathered resources |
| PlanSummary.AnalyzePlan | skills/terraform-azurerm-set-diff-analyzer/scripts/analyze_plan.py:735-769 | The loop returns the first failure, or else the whole-plan summary. Replace, create and delete are counted with `if`/`elif` precedence; other changes and the two bucket sizes are summed over all resources |
| PlanSummary.DetermineExitCode | skills/terraform-azurerm-set-diff-analyzer/scripts/analyze_plan.py:772-782 | The exit code is always 0, 1 or 2, never the error code 3 |
| PlanSummary.ExitCodeMeaning | skills/terraform-azurerm-set-diff-analyzer/scripts/analyze_plan.py:772-782 | 2 iff some resource is replaced. 1 iff none is replaced and some resource is created, deleted or has a real Set change. 0 iff neither holds |
| PlanSummary.SumActualPositive | skills/terraform-azurerm-set-diff-analyzer/scripts/analyze_plan.py:761-764 | The actual-change count is positive iff some resource has a real Set change somewhere in its tree |
| Sanitize.ReplaceSpaces | skills/excalidraw-diagram-generator/scripts/split-excalidraw-library.py:37 | Same length; spaces become hyphens and every other character is kept |
| Sanitize.KeepAllowed | skills/excalidraw-diagram-generator/scripts/split-excalidraw-library.py:40 | Keeps exactly the word characters, hyphens and dots, each as many times as it occurs in the input, and drops every other character |
| Sanitize.CollapseHyphens | skills/excalidraw-diagram-generator/scripts/split-excalidraw-library.py:43 | No two hyphens in a row remain and nothing new is introduced. The first and last characters are kept, and the hyphen-separated non-empty pieces are unchanged |
| Sanitize.StripHyphens | skills/excalidraw-diagram-generator/scripts/split-excalidraw-library.py:46 | The result neither starts nor ends with a hyphen. It is a contiguous slice of the input, and everything cut off on either side is hyphens |
| Sanitize.SanitizeFilename | skills/excalidraw-diagram-generator/scripts/split-excalidraw-library.py:26-48 | The file name is the non-empty hyphen-separated pieces of the name, after spaces become hyphens and disallowed characters are dropped, joined with single hyphens; it is never longer than the name |
| Sanitize.JoinSplit | skills/excalidraw-diagram-generator/scripts/split-excalidraw-library.py:43-46 | Joining the pieces of `split('-')` with hyphens gives back the string |
| Sanitize.StripIsJoin | skills/excalidraw-diagram-generator/scripts/split-excalidraw-library.py:43-46 | On a string without doubled hyphens, stripping the end hyphens equals joining its non-empty pieces |
| Sanitize.SanitizeMyIcon | skills/excalidraw-diagram-generator/scripts/split-excalidraw-library.py:26-48 | `my icon` becomes `my-icon` |
| Sanitize.SanitizeIsClean | skills/excalidraw-diagram-generator/scripts/split-excalidraw-library.py:26-48 | The file name holds only word characters, hyphens and dots, no spaces, no doubled hyphens, and no hyphen at either end |
| Sanitize.SanitizeKeepsContent | skills/excalidraw-diagram-generator/scripts/split-excalidraw-library.py:26-48 | Ignoring hyphens, the file name is the name with spaces and disallowed characters removed, in order |
| Sanitize.SanitizeIdempotent | skills/excalidraw-diagram-generator/scripts/split-excalidraw-library.py:26-48 | Sanitising a sanitised name changes nothing |
| Library.ItemName | skills/excalidraw-diagram-generator/scripts/split-excalidraw-library.py:123-126 | A non-dict item raises. A dict whose `name` is present but not a string raises. Otherwise the name is `name`, or `Unnamed` when it is missing |
| Library.ItemNames | skills/excalidraw-diagram-generator/scripts/split-excalidraw-library.py:121-126 | Succeeds iff every item is usable, with one name per item in order. A failure is the failure of the first unusable item, since the loop stops there |
| Library.MakeRefs | skills/excalidraw-diagram-generator/scripts/split-excalidraw-library.py:126-137 | One reference per name, in order, whose file name is the sanitised name plus `.json` |
| Library.LibraryItems | skills/excalidraw-diagram-generator/scripts/split-excalidraw-library.py:116-121 | A list yields its items. `None` and numbers are not iterable. Iterating a dict or string yields no dict items |
| Library.SortByName | skills/excalidraw-diagram-generator/scripts/split-excalidraw-library.py:142 | The result is sorted by name and is a permutation of the input |
| Library.SortIsStable | skills/excalidraw-diagram-generator/scripts/split-excalidraw-library.py:142 | Entries with equal names keep their relative order (Python's sort is stable) |
| Library.SplitLibrary | skills/excalidraw-diagram-generator/scripts/split-excalidraw-library.py:105-142 | A missing `libraryItems` is an error. For a list of items it succeeds iff every item is usable, returning the name-sorted permutation of the per-item references, each with its sanitised file name |
| Library.SplitLibraryKeepsItems | skills/excalidraw-diagram-generator/scripts/split-excalidraw-library.py:115-142 | One reference per item. The references for any one name appear in item order |

## Left out

- File and terminal I/O: reading the plan and the library, writing icon files and `reference.md`, printing, and every formatting routine (`format_*`, `warn`'s stderr output, argument parsing, `main`).
- Plan decoding: a `resource_changes` entry is given as a `PlanEntry` with typed `type`, `address` and `actions` fields. The source reads them with `.get` and defaults; a non-string type or non-list actions is not modelled.
- The schema file loader: the schema is a parameter, mapping resource types to attribute definitions.
- Iteration order of Python dicts and sets. The model visits dict keys and key sets in code-point order and keyed elements in first-occurrence order. Python uses insertion or hash order. This changes the order of lists such as `added`, `removed` and the warnings, but no stated property depends on it.
- `primitive_added` and `primitive_removed` are sets of Python-equality representatives, not lists built from Python sets. Which of several equal values (`1`, `1.0`, `True`) a Python set keeps is not modelled.
- `hash()` and `str()` of JSON values belong to the host; they are the `digest` and `render` functions of `Config`.
- Which exception is raised first when several inputs in one entry are malformed: the model reports one failure per entry, but not necessarily the one Python would raise first.
- ResourceAnalysis.IsSensitive: its body computes Python's `in` and `.get` on string and list markers exactly, through `In` and `DictGet`. Only the contract is narrower: it states the result when each marker is a dict or falsy, not for string or list markers.
- `after_unknown`: only its `.get(attr_name)` at line 442 is modelled, including the AttributeError it raises on a truthy non-dict. The value it returns is passed to `analyze_set_attribute`, which never uses it, so the model drops it.
- Text.ToLower: `str.lower` is modelled as ASCII lower-casing; Unicode case mapping is left out.
- Sanitize.SanitizeFilename: Python's `\w` is the parameter `isWord`, since the Unicode word-character table is outside the model. Cleanliness, content and idempotence are stated by the lemmas `SanitizeIsClean`, `SanitizeKeepsContent` and `SanitizeIdempotent`.
- Library.SplitLibrary: a top-level library value that is not a dict is an error here. In Python, `'libraryItems' in` a list or string performs a membership test instead; that path is not modelled.
- Floating-point numbers are exact reals; rounding and NaN are not modelled.
