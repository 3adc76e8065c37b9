# yays sorting engine in Dafny

yays is a command-line tool that reorders a YAML document at given paths. This project models its core in Dafny and proves properties of the model:

- **path parser**: `parsePathSteps`. It turns `.a.b[2].c`, `.[*]` or `name[*].key` into `Key`, `Index` and `All` steps.
- **resolver**: `resolveTargets`. It walks those steps from the document's root node and fans out at `All`.
- **key ranker**: `rankSortType`. Under the `human` sort type it puts `apiVersion`, `kind`, `metadata`, … first.
- **mapping sorter**: `sortMappingNodeKeys`. It stably sorts the key/value pairs by rank and then by key text.
- **sequence sorter**: `sortSequenceByFirstField`. It stably sorts the elements by the rendered value of their first field, built by `firstFieldComparableValue` and `nodeComparableString`.
- **orchestrator**: `SortYaml`. It applies the paths in order. A scalar target is an error, unless the path contains `[*]`.
- **indentation detection**: `detectIndentation` and `gcd`.

How the model is built:

- **The tree** is the value datatype `Yaml.Node(kind, value, content)`.
- **A target** is a position, the list of child indices from the root, rather than a pointer. `Yaml.Update` replaces the node at a position. This is how the source's in-place writes to `n.Content` are modelled.
- **Operations as methods.** Each Go operation that loops or mutates is a method with loops and invariants. Each method is proved equal to a specification function. The behavioural properties are proved as lemmas about those functions.
- **Stable sorting.** `sort.SliceStable` is modelled as `StableSorting.StableSort`, an insertion sort. It is specified by `IsStableSortOf`: sorted, a permutation, and the same order within each equal-key group. Its result is unique.
- **The tests.** The seven cases of `TestCLI_SortYaml` are proved end to end as lemmas in module `Scenarios`. Each one runs `SortEngine.ApplyPaths` on the test's input tree and gets the expected tree.

Modules and files:

| Module | File | What it holds |
|---|---|---|
| `Wrappers` | `wrappers.dfy` | `Option` and `Result` |
| `Text` | `text.dfy` | `strings.TrimSpace`, `strings.Split`/`bytes.Split`, `strings.Index`, Go string `<`, `strconv.Atoi` with its 64-bit range |
| `Yaml` | `yaml_node.dfy` | nodes, positions, `At` and `Update` |
| `StableSorting` | `stable_sort.dfy` | the stable sort and its uniqueness |
| `NodeSort` | `node_sort.dfy` | the ranker and both sorters |
| `PathSteps` | `path_steps.dfy` | the path parser |
| `Resolver` | `resolve.dfy` | the resolver |
| `SortEngine` | `sort_yaml.dfy` | `SortYaml` |
| `Indentation` | `indent.dfy` | indentation detection |
| `SortScenarios`, `Scenarios` | `sort_scenarios.dfy`, `scenarios.dfy` | the test cases |

## Model

| member | source | states |
|---|---|---|
| Text.TrimSpace | main.go:180-181 | The result is empty exactly when the input is all white space. Otherwise it starts and ends with a non-space. An input that already has no space at either end is returned unchanged. |
| Text.TrimSpaceSlice | main.go:180-181 | The trimmed text is a slice of the input with only white space before and after it, so with the lines above it is exactly the input between its leading and trailing white space. |
| Text.IndexOf | main.go:205 | The result is -1 exactly when the element is absent. Otherwise it is the index of the first occurrence. |
| Text.Split | main.go:184 | There is at least one piece. No piece contains the separator. Joining the pieces with the separator gives back the input. |
| Text.SplitJoin | main.go:184 | Splitting a join of separator-free pieces gives back exactly those pieces, so Split and Join are inverse to each other. |
| Text.Atoi | main.go:198 | A parsed value lies in the 64-bit range. It comes from a non-empty run of digits after an optional sign. A negative value comes from a leading `-`. |
| Text.AtoiPlus | main.go:198 | A leading `+` before digits reads as the digits alone, so `[+1]` selects index 1. |
| Text.AtoiLeadingZero | main.go:198 | A `0` between the optional sign and non-empty digits does not change the result. |
| Text.AtoiInRange | main.go:198 | Non-empty digits after an optional `+` or `-` parse exactly when their signed value fits 64 bits, and then to that value. |
| Text.AtoiItoa | main.go:215 | Every 64-bit integer printed in decimal parses back to itself. |
| Text.LessTransitive | main.go:313 | Go's string `<` is transitive. |
| Text.LessTotal | main.go:342 | Go's string `<` is total: two strings are equal or one is less. |
| Yaml.Update | main.go:320 | After replacing the node at a position, that position holds the new node. An inner node keeps its kind, value and number of children. |
| Yaml.UpdateElsewhere | main.go:126-139 | Replacing one target leaves every other position of the same depth unchanged. So the targets of one path can be sorted one after another, in any order. |
| StableSorting.StableSort | main.go:308-314 | The result is a stable sort of the input: sorted by key, a permutation, and each equal-key group in input order. |
| StableSorting.InsertSorted | main.go:308-314 | Inserting into a sorted sequence keeps it sorted. |
| StableSorting.StableSortUnique | main.go:341-343 | Any stable sort of a sequence equals StableSort of it, so the result does not depend on the algorithm. |
| StableSorting.StableSortIdempotent | main.go:341-343 | Sorting a sorted result changes nothing. |
| StableSorting.DistinctKeysStableSort | main.go:308-314 | A sorted permutation whose keys are all different is the stable sort of the input. |
| NodeSort.ListRankFinds | main.go:101-106 | The scan finds a key exactly when it is in the list, and then returns its index. Otherwise it returns the list length plus one. |
| NodeSort.KeyRank | main.go:95-111 | Under any sort type other than `human` every key ranks 10. Under `human` a listed key ranks by its index in the list, and an unlisted key ranks 10. |
| NodeSort.RankSortType | main.go:95-111 | The loop with early return computes KeyRank. |
| NodeSort.FirstIndex | main.go:101-106 | The loop over the list returns the first matching index, or the list length plus one. |
| NodeSort.CollectPairs | main.go:303-306 | The loop builds one pair per key/value position, in content order, each with its rank and key text. |
| NodeSort.LayOutPairs | main.go:316-320 | The loop lays the sorted pairs out again as key, value, key, value. |
| NodeSort.SortMappingNodeKeys | main.go:295-321 | The method computes SortedMapping. A node that is not a mapping is returned unchanged. |
| NodeSort.SortedMapping | main.go:295-321 | Kind, value and number of children are kept. A node that is not a mapping is unchanged. |
| NodeSort.SortedMappingIsStableSort | main.go:308-314 | The new pairs are a stable sort of the old pairs by (rank, key text). |
| NodeSort.SortedMappingOrder | main.go:308-314 | In the result, each key has a smaller rank than every later key, or an equal rank and key text that is not greater. |
| NodeSort.AlphanumericOrder | main.go:97-98 | Under any sort type other than `human`, the keys are in ascending text order. |
| NodeSort.HumanOrder | main.go:100-106 | Under `human`, every key before a listed key is itself listed and ranks no higher. |
| NodeSort.SortedMappingIdempotent | main.go:295-321 | Sorting a mapping twice is the same as sorting it once. |
| NodeSort.SortedMappingNodes | main.go:316-320 | Every child of the result was a child of the input, so nothing new is invented. |
| NodeSort.KeyedPairsInjective | main.go:303-306 | Collecting pairs loses nothing: equal pair lists come from equal contents. |
| NodeSort.SortedMappingWellFormed | main.go:295-321 | The result is well formed again: every mapping has whole key/value pairs. |
| NodeSort.NodeComparableString | main.go:363-397 | The recursive method with its builder loops computes Render. |
| NodeSort.BuildPairs | main.go:372-381 | The mapping builder loop writes `k:v` for each pair, with a comma between pairs. |
| NodeSort.BuildItems | main.go:384-392 | The sequence builder loop writes each rendered element, with a comma between elements. |
| NodeSort.RenderMapping | main.go:371-382 | A mapping renders as `{`, the comma-joined `key:value` texts, then `}`. |
| NodeSort.RenderSequence | main.go:384-393 | A sequence renders as `[`, the comma-joined element texts, then `]`. |
| NodeSort.FirstFieldInRendering | main.go:351-360 | For a mapping with pairs, the comparison string is the text between the first key's `:` and the remaining pairs of the mapping's own rendering. An empty mapping compares as `{}`. Any other element compares by its whole rendering. |
| NodeSort.ItemKeyFirstValueOnly | main.go:351-360 | Two mappings with pairs and equal first values get the same sort key, whatever their keys and their other pairs. |
| NodeSort.CollectItems | main.go:334-340 | The loop pairs every element with its first-field key, in order. |
| NodeSort.WriteBackItems | main.go:344-346 | The loop writes the sorted elements back, position by position. |
| NodeSort.SortSequenceByFirstField | main.go:326-347 | The method computes SortedSequence. A node that is not a sequence is returned unchanged. |
| NodeSort.SortedSequence | main.go:326-347 | Kind, value and length are kept. A node that is not a sequence is unchanged. The result is well formed. |
| NodeSort.SortedSequenceIsStableSort | main.go:341-343 | The new elements are a permutation of the old ones and a stable sort of them by first-field key. |
| NodeSort.SortedSequenceOrder | main.go:341-343 | In the result, no element's first-field key is less than that of an earlier element. |
| NodeSort.SortedSequenceIdempotent | main.go:326-347 | Sorting a sequence twice is the same as sorting it once. |
| PathSteps.AppendTokenSteps | main.go:187-221 | The method appends the steps and stops at the error, exactly as AddToken says. |
| PathSteps.BracketOnlyToken | main.go:192-203 | A token `[sel]` adds only the step of the trimmed selection. |
| PathSteps.NamedBracketToken | main.go:205-220 | A token `name[sel]` adds `Key(name)` when name is not empty, then the step of the trimmed selection. |
| PathSteps.PlainKeyToken | main.go:221 | Any other token adds one `Key` step. |
| PathSteps.ParsePathSteps | main.go:179-224 | The loop over the dot-separated tokens computes ParsePath. |
| PathSteps.BlankPathHasNoSteps | main.go:180-183 | A blank path or `.` gives no steps. |
| PathSteps.ParseTokensFails | main.go:186-222 | Parsing fails exactly when some token is an invalid bracket selection. |
| PathSteps.ParseTokensErrorStays | main.go:202 | Once a token fails, no later token changes the error. |
| PathSteps.ParseNameIndexKey | main.go:179-224 | `name[n].key` parses to `Key(name), Index(n), Key(key)` for every 64-bit n. |
| PathSteps.ParseNameAllKey | main.go:179-224 | `name[*].key` parses to `Key(name), All, Key(key)`: a suffix bracket holding `*` gives All. |
| PathSteps.ParseRootIndex | main.go:192-200 | `.[n]` parses to `Index(n)`: the bracket-only token whose trimmed inside Atoi accepts. |
| PathSteps.ParseRootBadSelection | main.go:192-202 | `.[x]` with x neither `*` nor a number is the invalid-bracket-selection error naming x. |
| PathSteps.StepsContainLoop | main.go:226-233 | True exactly when the steps contain All. |
| Resolver.Start | main.go:236-242 | Resolution starts at the document's first child, or at the root when it is not a non-empty document. |
| Resolver.FindKey | main.go:252-260 | The first pair whose key text matches, or none when no key matches. |
| Resolver.Select | main.go:246-289 | The selected child indices are increasing and all within the node's content. |
| Resolver.SelectChildren | main.go:246-289 | The loops of one step over one node compute Select. |
| Resolver.SelectKey | main.go:247-264 | A Key step on a non-mapping is the cannot-descend error. On a mapping it succeeds exactly when some key matches, and then selects the value of the first match. |
| Resolver.SelectIndex | main.go:265-274 | An Index step succeeds exactly on a sequence with the index in range, and then selects that element. |
| Resolver.SelectAll | main.go:275-288 | All selects every element of a sequence, or every value of a mapping, in order. Any other kind is the not-iterable error. |
| Resolver.ResolveTargets | main.go:235-293 | The loop over the steps computes Resolve. |
| Resolver.Resolve | main.go:235-293 | Every resolved position is valid in the tree. |
| Resolver.StepAllOk | main.go:244-291 | A step succeeds exactly when it succeeds on every current node. |
| Resolver.StepAllError | main.go:244-291 | A step fails with e exactly when some current node fails with e and every earlier node succeeds. |
| Resolver.ResolveErrorStays | main.go:244-291 | An error on a prefix of the steps is the error of the whole path. |
| Resolver.ResolveFrontier | main.go:235-293 | The targets are distinct positions, all of the same depth (start plus one per step). |
| Resolver.ResolveShapedAlike | main.go:235-293 | Resolution reads only the nodes above the targets, and of those only the kind, the number of children and the children's texts: two trees that agree there resolve a path to the same positions or the same error. |
| Resolver.ResolveWithoutLoop | main.go:235-293 | A path without All resolves to exactly one target. |
| SortEngine.SortedTarget | main.go:127-133 | A mapping is key-sorted and a sequence is sequence-sorted. Kind, value and length are kept, and the result is well formed. |
| SortEngine.SortedTargetIdempotent | main.go:127-133 | Sorting a target twice is the same as sorting it once. |
| SortEngine.SortEachTarget | main.go:126-139 | The loop over the targets computes SortTargets. |
| SortEngine.SortTargetsOk | main.go:126-139 | Sorting the targets succeeds exactly when the path contains All, or every target is a mapping or a sequence. |
| SortEngine.SortTargetsError | main.go:133-136 | On failure there is a first unsortable target, and the error names the path and that target's kind. |
| SortEngine.SortTargetsLayer | main.go:126-139 | After success, each target holds its sorted form and every other node of that depth is unchanged. |
| SortEngine.SortTargetsAbove | main.go:126-139 | After success, every node above the targets keeps its kind, value and number of children. |
| SortEngine.SortPath | main.go:116-139 | One pass of the path loop computes ApplyPath. |
| SortEngine.ApplyPathOutcome | main.go:116-139 | A path with All that resolves always succeeds. A path without All changes exactly its one target, or fails when that target is a scalar. |
| SortEngine.SortYaml | main.go:113-142 | The loop over the paths computes ApplyPaths. |
| SortEngine.ApplyPathsConcat | main.go:115-141 | Applying `a + b` applies `a`, then applies `b` to the result. The first error ends the run. |
| SortEngine.ApplyPathIdempotent | main.go:116-139 | Applying a path to the tree it produced changes nothing: the path resolves to the same targets, and each is already sorted or is skipped again. |
| SortEngine.ApplyPathTwice | main.go:113-142 | Giving the same path twice in a row gives the same result as giving it once. |
| SortEngine.SortDocumentTop | main.go:113-142 | Path `.` sorts the document's top node in place. |
| SortEngine.SortSequenceElement | main.go:113-142 | `.[i]` sorts only element i of a top-level sequence. |
| SortEngine.SortEverySequenceElement | main.go:113-142 | `.[*]` sorts each element of a top-level sequence but does not reorder the sequence. |
| Indentation.Gcd | main.go:436-449 | The loop returns Euclid's gcd of the absolute values. That is non-negative, and it is \|a\| when b is 0. See "## Left out" for `math.MinInt64`. |
| Indentation.GcdCommonDivisor | main.go:444-447 | Euclid's result divides both arguments. |
| Indentation.GcdGreatest | main.go:444-447 | Every common divisor of the arguments divides Euclid's result. |
| Indentation.GcdPositive | main.go:444-447 | The result is 0 only when both arguments are 0. |
| Indentation.LeadingSpaces | main.go:412-416 | The number of leading spaces: all of them are spaces, and the next byte is not one. |
| Indentation.CountLeadingSpaces | main.go:412-416 | The counting loop computes LeadingSpaces. |
| Indentation.AbsorbLine | main.go:405-428 | A line that is empty, starts with a tab, has no leading spaces, or has a tab after them leaves the accumulator alone. Any other line combines its run into it. |
| Indentation.DetectIndentation | main.go:401-434 | The loop over the lines computes Width. |
| Indentation.WidthIsGcdOfRuns | main.go:401-434 | The width is at least 1. It is 2 when no line qualifies. Otherwise it divides every qualifying run, and every common divisor of the runs divides it. |
| Indentation.TabLinesIgnored | main.go:408-411 | A line starting with a tab contributes no run. |
| SortScenarios.AlphanumericStudent | main_test.go:19-34 | The student mapping sorts to age, gpa, is_student, name, whatever its values are. |
| SortScenarios.HumanStudent | main_test.go:35-50 | Under `human` the student mapping sorts to name, age, gpa, is_student. |
| SortScenarios.FruitNamesSorted | main_test.go:51-66 | Banana, Strawberry, Apple, Orange sort to Apple, Banana, Orange, Strawberry. |
| SortScenarios.BasketSorted | main_test.go:67-98 | The fruit objects sort by their first field, name, with each object's own key order untouched. |
| SortScenarios.AppleSorted | main_test.go:99-130 | The Apple object's keys sort to colour, name, price. |
| SortScenarios.BasketEachAlphanumeric | main_test.go:131-162 | Every fruit object's keys sort to colour, name, price. |
| SortScenarios.BasketEachHuman | main_test.go:163-194 | Under `human` every fruit object's keys sort to name, colour, price. |
| Scenarios.DefaultMappingScenario | main_test.go:19-34 | SortYaml with `.` under alphanumeric turns the test's input document into its expected document. |
| Scenarios.HumanMappingScenario | main_test.go:35-50 | The same, under `human`. |
| Scenarios.DefaultSequenceScenario | main_test.go:51-66 | The same for the sequence of fruit names. |
| Scenarios.DefaultSequenceObjectsScenario | main_test.go:67-98 | The same for the sequence of fruit objects. |
| Scenarios.DefaultSequenceObjectAtIndexScenario | main_test.go:99-130 | `.[2]` re-sorts the keys of element 2 only. |
| Scenarios.DefaultSequenceAllObjectsScenario | main_test.go:131-162 | `.[*]` re-sorts every element's keys and keeps the sequence's order. |
| Scenarios.HumanSequenceAllObjectsScenario | main_test.go:163-194 | The same under `human`: name first, then the rest alphabetically. |

## Left out

- **Outside the core.** The command-line wiring is not modelled: the `CLI` struct, `main`, and the kong flag parsing and version output. Neither are `ReadFile`, `PrintYaml`, `WriteYaml` and `fail`, which do file and terminal I/O, permission bits and process exit. The YAML decoder and encoder are not modelled either. The model takes the decoded tree as input, and the indentation detector takes the raw text as a byte sequence.
- **Node fields.** Only `Kind`, `Value` and `Content` of `yaml.Node` are kept. Style, tag, comments, line, column and anchor are not modelled. Alias nodes are just one more kind, so they render as the empty string and are not sortable.
- **Nil nodes.** They are not representable: a child is always a node. So the `nil` checks of `firstFieldComparableValue` and `nodeComparableString` have no counterpart.
- **Well-formed input.** Every mapping has an even number of children. This is required by the members that read `Content[i+1]`. The decoder always produces such trees, and the source does not check for it.
- **Sort internals.** The algorithm inside `sort.SliceStable` is not modelled. Only its contract is: a stable sort, and any stable sort gives the same result.
- **Failed runs.** When `SortYaml` fails, the source has already changed the tree in place for the earlier paths and targets. The model returns only the error and drops that partial tree. The caller then exits without writing.
- **Error messages.** The `fmt.Errorf` message texts are not modelled. The errors are datatype constructors that carry the values the messages report.
- **String order.** Go compares strings byte by byte. The model compares `char` sequences, and code-point order agrees with UTF-8 byte order for valid text. Text that is not valid UTF-8 is not modelled.
- **Unlisted rank.** The unlisted rank is `len(humanCommonOrder) + 1`, that is 10, as the code computes it. Only the relative order of ranks matters.
- **Key steps on sequences.** A `Key` step against a sequence is the cannot-descend error, as the code has it. There is no numeric-key lookup into sequences.
- **Bracket selections.** They go through `strconv.Atoi`, so `[-1]` and `[+1]` parse. The negative index then fails in the resolver as out of range. The name before a bracket is not trimmed on its own.
- **Sort types.** An unknown sort type behaves like `alphanumeric`, as the `default` case does.
- **Method decomposition.** The loops of `SortYaml`, `resolveTargets`, `parsePathSteps`, `sortMappingNodeKeys`, `sortSequenceByFirstField`, `nodeComparableString` and `detectIndentation` are split into helper methods. Each helper is one loop or loop body, proved against its specification function.
- **Scenario values.** In the student scenarios the values are arbitrary nodes. In the fruit scenarios the values are the test's literal scalars.
- Indentation.Gcd: treats its arguments as unbounded integers, so it does not model that Go's `-a` leaves `math.MinInt64` unchanged and `gcd(math.MinInt64, 0)` is then negative. `detectIndentation` never passes such a value: it calls `gcd` only with counts of leading spaces and with the previous result, all positive.
