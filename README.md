# pysource-minimize, modelled in Dafny

pysource-minimize shrinks a Python program while a user-supplied checker
keeps saying "the bug is still there". It parses the source into a syntax tree,
numbers every node, and searches for smaller trees. Each candidate is
described as a *substitution map* on top of the changes already committed,
and each change is proposed to the checker as one *probe*. Several kinds of
change are tried:

- removing list elements by bisection (`minimize_list`, `minimize_lists`);
- replacing a node by one of its children (`try_only`);
- shrinking literal values (`minimize_Constant`).

A driver (`minimize_ast`) runs the structure pass and then the value pass,
and repeats this cycle until `retries + 1` cycles in a row leave the tree
unchanged. A third strategy, renaming identifiers to unique names
(`MinimizeUniqueName`), is modelled on its own: no driver in the sources
calls it, and as written it raises at the first name it would rename (see Findings).

The model follows the program's structure, one module per concern:

| module | file | what it holds |
|---|---|---|
| `Wrappers`, `Checker` | wrappers.dfy, checker.dfy | `Option`/`Result`; the checker's verdict (reject, accept, accept-and-stop) and a probe's answer (`Yes`, `No`, `Unwind` for an exception) |
| `Ast` | ast.dfy | trees as kind + fields, `equal_ast`, `is_block`, `arguments` |
| `Substitution` | substitution.dfy | the numbered tree (arena), the substitution map, and `get_ast` as a total function with explicit failures |
| `Indexing` | indexing.dfy | the numbering loop of `MinimizeBase.__init__`, proved to round-trip |
| `Base` | base.dfy | `MinimizeBase` as a class `Engine` with `replaced`, `stop` and the probe helpers |
| `ListReduce` | list_reduce.dfy | the divide-and-conquer list reducer as a function of the answers it receives |
| `Structure` | structure.dfy | `minimize_list`/`minimize_lists` as methods on the engine, and `walk_until` |
| `Value` | value.dfy | `minimize_Constant`: bool, int bisection, str/bytes piece removal |
| `UniqueName` | unique_name.dfy | `MinimizeUniqueName` as a class with `used_names` and `name_index` |
| `Driver` | driver.dfy | `minimize_ast`'s retry loop and `minimize`'s `CouldNotMinimize` gate |
| `Cli` | cli.dfy | `num_equal_lines` and `escape_markdown` |
| `OldEngine` | old_engine.dfy | the older engine (`pysource_minimize/_minimize.py`): its `get_ast`, probe helpers, list reducer and constructor gate |

Three design choices shape the model:

- A probe's exception becomes the answer `Unwind`, and every caller returns at once on it. This covers `StopMinimization` raised from the checker and an engine failure.
- The user's checker is a function parameter `Val -> Verdict`.
- `parse`, `unparse` and `compile` are parameters of the driver.

## Model

Source paths are relative to the repository root.

| member | source | states |
|---|---|---|
| Ast.EqualAstIsStripEquality | pysource_minimize/_minimize_base.py:32-50 | `equal_ast(a, b)` holds exactly when `a` and `b` are equal after every `ctx` field is erased. Both directions are proved. |
| Ast.EqualAstIsEquivalence | pysource_minimize/_minimize_base.py:32-50 | `equal_ast` is reflexive, symmetric and transitive. |
| Ast.CtxIsIgnored | pysource_minimize/_minimize_base.py:42-47 | Replacing a node's `ctx` field by anything leaves it `equal_ast` to the original. |
| Ast.Arguments | pysource_minimize/_minimize_base.py:64-73 | The result has one entry per parameter that is present, and its length is the sum of the present parameters. A value is in the result iff it is one of the parameters. `args` come first and `posonlyargs` last. |
| Substitution.Merge | pysource_minimize/_minimize_base.py:133 | `{**replaced, **extra}`: the keys are the union of both maps. A key in `extra` takes its value from `extra`; any other key keeps the committed value. |
| Substitution.ResolveScalar | pysource_minimize/_minimize_base.py:153-173 | Following the map from a handle: an unmapped handle resolves to itself; a `None` mapping gives `None`; a literal replacement gives that value. A node the result names is itself unmapped. A list mapping in a scalar position fails, and so does a cycle of redirects. |
| Substitution.ResolveScalarStep | pysource_minimize/_minimize_base.py:158-160 | A handle that redirects resolves to whatever its target resolves to. |
| Substitution.FlattenOne | pysource_minimize/_minimize_base.py:176-191 | An unmapped handle yields itself. A `None` mapping yields `None`, and a mapping to `[]` yields nothing. Every node yielded is unmapped. |
| Substitution.FlattenSeqAppend | pysource_minimize/_minimize_base.py:176-191 | Flattening a concatenation of handle lists is the concatenation of the two flattenings. |
| Substitution.FlattenSeqUnmapped | pysource_minimize/_minimize_base.py:176-179 | When no handle of a list is mapped, flattening yields exactly those handles, in order. |
| Substitution.FlattenSeqRemoved | pysource_minimize/_minimize_base.py:176-185 | Handles that `try_without` mapped to `[]` vanish from the list. |
| Substitution.FlattenOneRedirectList | pysource_minimize/_minimize_base.py:184-185 | A handle mapped to a list of handles expands to the flattening of that list. |
| Substitution.Materialize | pysource_minimize/_minimize_base.py:209-221 | A materialised handle is a node exactly when its arena entry is a node. It keeps its kind and its number of fields. |
| Substitution.ResolveSlot | pysource_minimize/_minimize_base.py:210-219 | A `(index, name)` key replaces the whole field. Otherwise a plain value is kept and a list field stays a list. |
| Substitution.ResolveList | pysource_minimize/_minimize_base.py:175-207 | The result is a list. A block emptied outside `orelse`/`finalbody` is not empty: it becomes `[Pass]`. A block holds no bare expression, because expressions are wrapped in `Expr`. Otherwise the length is that of the flattened list. |
| Substitution.Candidate | pysource_minimize/_minimize_base.py:251-254 | The candidate tree's root has the original root's kind. |
| Indexing.IndexTree | pysource_minimize/_minimize_base.py:95-117 | Numbering in `ast.walk` (breadth-first) order, wrapping the plain elements of the four listed fields. The arena has one entry per node and wrapped value, and its root is a node. Materialising it with nothing mapped gives back exactly the original tree. |
| Indexing.IndexFields | pysource_minimize/_minimize_base.py:106-114 | Every field of a node gets a slot that refers to its children by their future handles. The worklist grows by exactly the size of those children. |
| Indexing.RoundTrip | pysource_minimize/_minimize_base.py:132-221 | For a consistently numbered arena, `get_ast` with an empty map returns the value stored under each handle. |
| Indexing.ResolveListOk | pysource_minimize/_minimize_base.py:175-207 | With an empty map, a list field comes back as the original list: no `Pass` is inserted and nothing is wrapped. |
| Indexing.BlockHasNoExpr | pysource_minimize/_minimize_base.py:204-205 | Wrapping expressions in `Expr` leaves an original block unchanged. |
| Indexing.Prepare | pysource_minimize/_minimize_base.py:79-127 | The constructor raises `ValueError` exactly when the checker rejects the original tree, and never fails on a broken candidate. The numbering does not change the tree: with nothing mapped, the arena materialises to the original. The engine is stopped exactly when the checker asks to stop, and otherwise the root is handed to `minimize_stmt`. |
| Base.Open | pysource_minimize/_minimize_base.py:121-127 | `ValueError` (`NothingToMinimize`) exactly when the checker rejects the candidate with nothing mapped. Otherwise no probe has been logged, and the engine is stopped exactly when the checker asks to stop. While still running, the root (handle 0) is handed to `minimize_stmt`, and that is the only rule call. |
| Base.Engine.constructor | pysource_minimize/_minimize_base.py:79-124 | The state before the root rule call: nothing committed, nothing probed and nothing visited. It is stopped exactly when the checker raises `StopMinimization` on the original, and `Valid()` holds: the current tree is one the checker accepts. |
| Base.JudgeOverride | pysource_minimize/_minimize_base.py:133 | A key offered in `extra` overrides a committed mapping of the same key: the probe's answer does not depend on the committed value. |
| Base.RemovalMap | pysource_minimize/_minimize_base.py:302-303 | `try_without`'s map has exactly the given handles as keys, each mapped to `[]`. |
| Base.ReplayStep | pysource_minimize/_minimize_base.py:289-291 | After a probe, the committed map grows by that probe's extra map when, and only when, the probe was accepted. |
| Base.Engine.TryWith | pysource_minimize/_minimize_base.py:260-294 | A candidate that deletes a constant is refused. Otherwise the answer is `Yes` iff the checker accepts, and then `extra` is merged into `replaced`. `No` leaves everything unchanged. `StopMinimization` merges `extra` into `replaced`, then unwinds with the engine stopped. A candidate that cannot be built unwinds as a failure and commits nothing. The answer is `Judge` of the old committed map, the probe is recorded, and `Valid()` is preserved. |
| Base.JudgedAt | pysource_minimize/_minimize_base.py:260-294 | In a run of probes judged on one committed map, each probe's answer is the checker's verdict on its own candidate. |
| Base.Engine.TryAttr | pysource_minimize/_minimize_base.py:296-297 | Probes `(index, attr) -> value`. The answer is `Judge`, the checker's verdict on that candidate. On `Yes`, and on `StopMinimization`, exactly that key is committed. |
| Base.Engine.TryNode | pysource_minimize/_minimize_base.py:299-300 | Probes `index -> new node`. The answer is the checker's verdict on that candidate (`Judge`), and `Unwind` exactly when the engine has stopped or failed. On `Yes`, and on `StopMinimization`, exactly that key is committed. |
| Base.Engine.TryWithout | pysource_minimize/_minimize_base.py:302-303 | Probes the removal of all the given handles. The answer is the checker's verdict on that candidate (`Judge`), so `No` means the checker refused it. On `Yes`, and on `StopMinimization`, the removal is committed. |
| Base.Engine.TryNone | pysource_minimize/_minimize_base.py:305-308 | An absent node answers `Yes` without a probe. Otherwise it probes `index -> None`, the answer is the checker's verdict on that candidate (`Judge`), and `Unwind` exactly when the engine has stopped or failed. On `Yes`, and on `StopMinimization`, the mapping is committed. |
| Base.OnlyRunCompletes | pysource_minimize/_minimize_base.py:310-320 | When every child is rejected, `try_only` has made one probe per present child, in order, each answered `No`. |
| Base.OnlyRunStops | pysource_minimize/_minimize_base.py:310-320 | The first child not rejected ends `try_only`, and its answer is the result. |
| Base.Engine.TryOnly | pysource_minimize/_minimize_base.py:310-320 | Absent children are skipped, and the rest are probed in order. Every probe's answer is the checker's verdict on its candidate (`JudgedAgainst` the committed map at entry). The search stops at the first `Yes`, and only that child's mapping is committed; a stop commits it too. `No` means the checker refused every present child and nothing changed. |
| Base.Engine.TryOnlyMinimize | pysource_minimize/_minimize_base.py:322-332 | Every probe is the checker's verdict on its candidate. On `Yes` only the accepted child's mapping is committed, and only that child is minimized. On `No` every present child is minimized, in order, and nothing was committed. |
| Base.Engine.OfferChildren | pysource_minimize/_minimize_base.py:310-320 | The children are offered in order until one is accepted or an exception unwinds. If all are rejected, the trials are exactly their rejections and nothing is committed. Otherwise the loop ends on child `i`, after rejections of the children before it. |
| Base.Engine.MinimizeEach | pysource_minimize/_minimize_base.py:330-331 | One rule call per child, in order; nothing else changes. |
| Base.Engine.Minimize | pysource_minimize/_minimize_base.py:334-335 | A rule call is recorded, and the committed state is untouched. |
| ListReduce.DivideSplit | src/pysource_minimize/_minimize_structure.py:685-691 | A longer list is split at `len // 2`. The back half is offered first, then the front half, unless an exception is unwinding. |
| ListReduce.DivideSingle | src/pysource_minimize/_minimize_structure.py:680-684 | A single element is offered only while budget remains. It is removed on `Yes` and kept otherwise. |
| ListReduce.WoUnfold | src/pysource_minimize/_minimize_structure.py:667-673 | `wo` probes the whole slice only when the budget covers it. On acceptance it charges the budget. Otherwise it divides. |
| ListReduce.ReduceWithinBudget | src/pysource_minimize/_minimize_structure.py:665-673 | The budget never goes below zero, and exactly `len - minimal - left` elements are removed. Every probe is a non-empty slice no longer than the budget at that point. |
| ListReduce.ReduceRemovesAccepted | src/pysource_minimize/_minimize_structure.py:667-684 | The removed elements are exactly the slices whose probe was accepted, in order. |
| ListReduce.ReducePartition | src/pysource_minimize/_minimize_structure.py:675-694 | Kept plus removed is a permutation of the input. If an exception unwinds, it is contained in the input. |
| ListReduce.ReduceOrder | src/pysource_minimize/_minimize_structure.py:688-694 | `remaining` lists the kept elements in reverse input order, because the back half is handled first. |
| ListReduce.ReduceLocallyMinimal | src/pysource_minimize/_minimize_structure.py:680-684 | Every kept element was offered alone and rejected, unless the budget had run out. |
| ListReduce.ReduceEmpty | src/pysource_minimize/_minimize_structure.py:677-678 | An empty list makes no probe. |
| ListReduce.ReduceNoBudget | src/pysource_minimize/_minimize_structure.py:665-684 | With `minimal >= len`, no probe is made, nothing is removed, and every element is kept. |
| ListReduce.ReduceKeepsMinimal | src/pysource_minimize/_minimize_structure.py:665 | The floor: unless unwound, at least `min(minimal, len)` elements remain. |
| ListReduce.DivideExtend | src/pysource_minimize/_minimize_structure.py:675-691 | Answers beyond those the reducer consulted do not change its outcome. |
| Structure.MinLen | src/pysource_minimize/_minimize_structure.py:614 | `zip` stops at the shortest list: the result is no longer than any list and equal to one of them. |
| Structure.Transpose | src/pysource_minimize/_minimize_structure.py:614 | `zip(*lists)`: there are as many rows as the shortest list has elements, and row `k` holds element `k` of every list. |
| Structure.Flat | src/pysource_minimize/_minimize_structure.py:619-620 | `chain.from_iterable`: a handle is in the result iff it is in some row. |
| Structure.ReplayRemovals | src/pysource_minimize/_minimize_structure.py:619-628 | Replaying a reducer's probes commits exactly the removal of every handle of every accepted row. |
| Structure.MergeRemovals | src/pysource_minimize/_minimize_structure.py:667-673 | Two committed removals amount to one removal of both handle lists. |
| Structure.ListReducer.TryWithoutRows | src/pysource_minimize/_minimize_structure.py:619-620 | Probes the removal of every node of the rows, and records the probe with the budget it had. |
| Structure.ListReducer.Wo | src/pysource_minimize/_minimize_structure.py:622-628 | The state after `wo` is `ListReduce.Wo` of the state before, under the answers the engine gave. The engine's trials and committed map stay in step with the probes. |
| Structure.ListReducer.Divide | src/pysource_minimize/_minimize_structure.py:630-646 | The same for `devide`. |
| Structure.ListReducer.DivideOne | src/pysource_minimize/_minimize_structure.py:635-639 | The same for the single-element case, with or without budget. |
| Structure.MinimizeLists | src/pysource_minimize/_minimize_structure.py:610-655 | The outcome is `ListReduce.Reduce` on the transposed rows. The engine commits exactly the removal of the removed rows' nodes. Terminals run on the kept rows only after the reduction, row by row (every terminal of a row, in turn, before the next row), and not at all when unwound. `Valid()` is preserved. |
| Structure.ReduceRows | src/pysource_minimize/_minimize_structure.py:615-649 | The outcome is `ListReduce.Reduce` of the rows with budget `len(rows) - minimal`. The engine logs exactly one trial per probe. Unless unwound, it commits the replay of those trials. No rule is visited. |
| Structure.MinimizeList | src/pysource_minimize/_minimize_structure.py:657-699 | The same on one list. `remaining` keeps at least `min(minimal, len)` elements, and the terminal runs on each of them, in `remaining` order. Every probe got the checker's verdict on removing its batch after the removals committed before it (`ProbesJudged`). |
| Structure.KeptRowsWereRefused | src/pysource_minimize/_minimize_structure.py:630-639 | Unless the budget ran out, every kept row was offered alone for removal and the checker refused that candidate, on the map committed at that moment. |
| Structure.RemovalHandlesAsWritten | pysource_minimize/_minimize_base.py:302-303 | `try_without` over the chained rows, as written: it fails (AttributeError) exactly when some entry is `None`. Otherwise it removes the handles of all entries, in order. |
| Structure.PresentHandles | pysource_minimize/_minimize_base.py:302-303 | `try_without` corrected to skip absent entries: a handle is removed iff it is a present entry of some row. |
| Structure.CorrectedAgreesOnNodes | src/pysource_minimize/_minimize_structure.py:619-620 | On rows of nodes only, the corrected and the written `try_without` both remove exactly the chained nodes. These are the rows the rest of the model reduces. |
| Structure.DictUnpackProbeRaises | src/pysource_minimize/_minimize_structure.py:150-152 | For `{**x}`, the reducer's first probe offers the row `(None, x)` whatever the checker says, and the written removal map cannot be built. |
| Structure.DictUnpackProbeCorrected | src/pysource_minimize/_minimize_structure.py:150-152 | Under the corrected `try_without`, the same probe removes the `**` operand alone. |
| Structure.SingletonRows | src/pysource_minimize/_minimize_structure.py:661-664 | Reducing one-element rows keeps one-element rows, so `minimize_list` is `minimize_lists` on a single list. |
| Structure.RunRows | src/pysource_minimize/_minimize_structure.py:651-653 | The terminals run on each kept row, pairing terminal `j` with column `j`; nothing else changes. |
| Structure.RunNodes | src/pysource_minimize/_minimize_structure.py:696-697 | The terminal runs on each kept node, in order. |
| Structure.ScopedWalkStopsAtScopes | src/pysource_minimize/_minimize_structure.py:10-18 | With the stop set passed down, no node of a stop kind is visited below the roots. |
| Structure.ScopedWalkIsContained | src/pysource_minimize/_minimize_structure.py:10-18 | The walk that passes the stop set down visits a subset of what the walk as written visits. |
| Structure.GuardAsWrittenIsStricter | src/pysource_minimize/_minimize_structure.py:335-358 | Whenever the function-body guard lets `try_only(node, node.body)` through as written, it also does with the stop set passed down. |
| Structure.NestedReturnIsWalked | src/pysource_minimize/_minimize_structure.py:10-18 | As written, the walk of `if c: if d: def g(): return` reaches the `Return` inside `g`, so the guard refuses. |
| Structure.NestedReturnIsSkippedWhenScoped | src/pysource_minimize/_minimize_structure.py:10-18 | With the stop set passed down, the same body lets the guard through. |
| Value.Bisect | pysource_minimize/_minimize_value.py:40-53 | The result lies between `0` and the original value. The number of probes is at most their distance. |
| Value.BisectThreshold | pysource_minimize/_minimize_value.py:40-53 | If the checker accepts exactly the values from a threshold `t` up, bisection returns `t`. |
| Value.BisectLocallyMinimal | pysource_minimize/_minimize_value.py:40-53 | Unless unwound, the result is the original value or was accepted, and it is at most 1 above 0 or its predecessor was rejected. |
| Value.BisectExample | pysource_minimize/_minimize_value.py:40-53 | From 100 with a checker accepting values above 70, bisection finds 71. |
| Value.MinimizeInt | pysource_minimize/_minimize_value.py:40-53 | The loop on the engine follows `Bisect`, using floor division. Each probe is recorded, and the committed value is the one found. |
| Value.ShrinkKeepsRejected | pysource_minimize/_minimize_value.py:67-87 | Every piece kept is one whose removal, offered alone, was rejected. |
| Value.ShrinkWithinOriginal | pysource_minimize/_minimize_value.py:67-87 | The result is a subsequence of the original, and so is every candidate offered. |
| Value.DivideHalves | pysource_minimize/_minimize_value.py:76-85 | `devide` keeps what `without` keeps of the front half followed by what it keeps of the back half. |
| Value.ShrinkExample | pysource_minimize/_minimize_value.py:55-87 | `"some bug here"` with a checker looking for `"bug"` shrinks to `"bug"`. |
| Value.RunWithout | pysource_minimize/_minimize_value.py:67-74 | On the engine, `without` keeps what the `Without` function keeps. The probes are recorded, and the committed value is the shrunk one. |
| Value.RunDivide | pysource_minimize/_minimize_value.py:76-85 | The same for `devide`. |
| Value.MinimizePieces | pysource_minimize/_minimize_value.py:55-87 | The str/bytes branch follows `Shrink`, and the committed value is the shrunk string. |
| Value.MinimizeConstant | pysource_minimize/_minimize_value.py:21-87 | `True` is offered `False` once. An int is bisected toward 0, and str/bytes are shrunk. `None`, `False` and other values are left untouched without a probe. |
| UniqueName.NatToStringInjective | src/pysource_minimize/_minimize_unique_name.py:19 | `str` is injective on natural numbers. |
| UniqueName.UniqueNameInjective | src/pysource_minimize/_minimize_unique_name.py:19 | Different counters give different names, and every name carries the prefix. |
| UniqueName.FirstFree | src/pysource_minimize/_minimize_unique_name.py:18-21 | The first counter from `k` on whose name is unused: its name is free, and every counter skipped had a used name. |
| UniqueName.FirstFreeIdempotent | src/pysource_minimize/_minimize_unique_name.py:18-21 | Asking again without taking the name gives the same counter. |
| UniqueName.Renamer.Start | src/pysource_minimize/_minimize_unique_name.py:10-16 | `used_names` is the set of ids of all `Name` nodes, and the counter starts at 0. No code in the sources calls `start`; see Findings. |
| UniqueName.Renamer.NewName | src/pysource_minimize/_minimize_unique_name.py:18-21 | The loop advances the counter to the first free name and returns that name. `used_names` is unchanged. |
| UniqueName.Renamer.MinimizeName | src/pysource_minimize/_minimize_unique_name.py:34-39 | An id that already has the prefix is left alone without a probe. Otherwise the next free name is offered. It is added to `used_names` only on acceptance. |
| UniqueName.Renamer.Visit | src/pysource_minimize/_minimize_unique_name.py:26-32 | The traversal hands every `Name` node, in order, to `minimize_Name`. Names added to `used_names` all carry the prefix, and every name offered was not in use when the traversal began. |
| UniqueName.Renamer.MinimizeTree | src/pysource_minimize/_minimize_unique_name.py:23-32 | From the root, every `Name` node of the tree is handled unless the checker stops the search. Every name offered carries the prefix and was not in use when the traversal began. |
| UniqueName.FirstUnprefixed | src/pysource_minimize/_minimize_unique_name.py:34-37 | The first handled node whose id lacks the prefix, that is, the first call of `new_name`; every node before it has the prefix. |
| UniqueName.UnstartedRaisesAt | src/pysource_minimize/_minimize_unique_name.py:18-19 | The pass as written, started from `__init__` without `start`: it raises at a handled `Name` without the prefix, or finishes without a probe when every handled id has the prefix. |
| UniqueName.UnstartedRaisesOnAssign | src/pysource_minimize/_minimize_unique_name.py:18-19 | On `x = 1` the pass as written raises at the `Name` node `x`. |
| UniqueName.Renamer.Run | src/pysource_minimize/_minimize_unique_name.py:10-32 | `start`, then `minimize_stmt`: every id of the tree is in use, and every name offered carries the prefix and is none of the tree's ids. |
| Driver.RunCycle | src/pysource_minimize/_minimize.py:37-43 | The inner loop runs the minimizers in order, each on the tree the previous one left, and ends early when one sets `stop` or its constructor raises `ValueError`. |
| Driver.ChainAppend | src/pysource_minimize/_minimize.py:39-43 | A `stop` or a raised error skips the rest of the cycle. |
| Driver.StopSkipsValue | src/pysource_minimize/_minimize.py:39-43 | When the structure pass stops or raises, the value pass does not run; otherwise the cycle's result is the value pass's on the structure pass's tree. |
| Driver.Streak | src/pysource_minimize/_minimize.py:45-52 | `last_success` is the number of trailing cycles that left the tree `equal_ast` to its input. |
| Driver.MinimizeAst | src/pysource_minimize/_minimize.py:14-54 | The loop ends exactly when `retries + 1` cycles in a row changed nothing. Those cycles are in the trace, and the loop never ended earlier. A cycle whose minimizer raises `ValueError` (`pysource_minimize/_minimize_base.py:121-122`) leaves the loop with `raised`, before the streak is reached. |
| Driver.FixedPointEnds | src/pysource_minimize/_minimize.py:33-54 | Once a cycle returns its input unchanged, the loop ends with that tree within `retries + 1` more cycles, and without an error. |
| Driver.KeptCycleRuns | src/pysource_minimize/_minimize.py:39-43 | When both passes keep a tree accepted, a cycle from an accepted tree does not raise and ends on an accepted tree. |
| Driver.CycleRaisesIffRejected | src/pysource_minimize/_minimize.py:39-41 | With the constructor's gate (`pysource_minimize/_minimize_base.py:121-122`) in both passes, a cycle raises exactly when the checker rejects the tree it is given. |
| Driver.TraceKeeps | src/pysource_minimize/_minimize.py:33-54 | A property every pass preserves holds of the final tree. |
| Driver.SourceChecker | src/pysource_minimize/_minimize.py:84-94 | A tree passes only if it unparses, also compiles when `compilable`, and the user's checker accepts the source. |
| Driver.SourceCheckerConsults | src/pysource_minimize/_minimize.py:84-94 | A tree that does not unparse, or does not compile when required, is rejected whatever the user's checker says. |
| Driver.MinimizeSource | src/pysource_minimize/_minimize.py:61-109 | `CouldNotMinimize` is raised exactly when the round-tripped original fails the wrapped checker. Otherwise the result is the unparsed final tree. A `ValueError` from a minimizer passes through as `CheckerRejected`. When the passes preserve acceptance, that error cannot happen and the result satisfies the user's checker. |
| Cli.SplitLines | src/pysource_minimize/__main__.py:26-27 | `str.splitlines`: no line contains a line boundary, and an empty string has no lines. |
| Cli.SplitTerminated | src/pysource_minimize/__main__.py:26-27 | Splitting lines that each end in `\n` gives those lines back. |
| Cli.NumEqualLines | src/pysource_minimize/__main__.py:25-39 | `start` lines agree at the front and `end` lines at the back, and the first mismatch stops each count. Equal sources share all their lines at both ends. |
| Cli.EscapeMarkdown | src/pysource_minimize/__main__.py:42-43 | The result grows by one character per underscore, and it never starts with an underscore. |
| Cli.UnescapeEscape | src/pysource_minimize/__main__.py:42-43 | Removing the escapes gives the original string back. |
| Cli.EscapeInjective | src/pysource_minimize/__main__.py:42-43 | Different strings escape differently. |
| Cli.EscapedUnderscores | src/pysource_minimize/__main__.py:42-43 | Every underscore of the result is preceded by a backslash. |
| OldEngine.FollowNode | pysource_minimize/_minimize.py:61-70 | The old `replaced_node`: an unmapped handle gives itself, and `None` gives `None`. A list in a scalar position fails the assertion. A node the result names is unmapped. |
| OldEngine.ReplaceOne | pysource_minimize/_minimize.py:72-84 | The old `replace`: an unmapped handle yields itself and `[]` yields nothing. `None` inside a list raises `TypeError`. |
| OldEngine.RemovedEntriesVanish | pysource_minimize/_minimize.py:72-84 | Handles mapped to `[]` vanish from a list. |
| OldEngine.GetNode | pysource_minimize/_minimize.py:55-113 | A materialised handle is a node exactly when its entry is one, with the same kind and number of fields. |
| OldEngine.GetList | pysource_minimize/_minimize.py:86-100 | A block never comes back empty: an emptied block is `[Pass]`, and `orelse` too. A block holds no bare expression. Other lists keep the flattened length. |
| OldEngine.GetAst | pysource_minimize/_minimize.py:115-118 | The candidate's root has the original root's kind. |
| OldEngine.EmptiedOrelse | pysource_minimize/_minimize.py:93-94 | An emptied `orelse` becomes `[Pass]` in the old engine but `[]` in the new one. |
| OldEngine.SourceOf | pysource_minimize/_minimize.py:115-118 | `get_source_tree`: a source exactly when `get_ast` builds the tree and `ast.unparse` succeeds on it. An unparse that raises gives `Unparsable`. |
| OldEngine.TryAnswer | pysource_minimize/_minimize.py:127-147 | A candidate whose `get_ast` or `ast.unparse` raises unwinds: line 132 is outside the `try`. `Yes` only for a candidate that builds, unparses, compiles and satisfies the checker. |
| OldEngine.CompileErrorRule | pysource_minimize/_minimize.py:133-140 | A compile error mentioning "assigned to before global declaration" answers `No`. Any other compile error propagates. In both cases the checker is not consulted. |
| OldEngine.Minimizer.constructor | pysource_minimize/_minimize.py:26-38 | Starts with nothing committed and nothing visited. |
| OldEngine.Minimizer.TryWith | pysource_minimize/_minimize.py:127-147 | The answer is `TryAnswer`, and `extra` is committed exactly on `Yes`. |
| OldEngine.Minimizer.TryWithout | pysource_minimize/_minimize.py:149-150 | Probes the removal of the given handles, and commits it on `Yes`. |
| OldEngine.Minimizer.TryNone | pysource_minimize/_minimize.py:152-154 | An absent node returns Python `None` without a probe. Otherwise it probes `index -> None`. |
| OldEngine.ReplayRemovals | pysource_minimize/_minimize.py:452-486 | Replaying the reducer's probes commits the removal of exactly the accepted slices. |
| OldEngine.ListReducer.Wo | pysource_minimize/_minimize.py:455-464 | The state after `wo` is `ListReduce.Wo` of the state before. |
| OldEngine.ListReducer.Divide | pysource_minimize/_minimize.py:466-484 | The state after `devide` is `ListReduce.Divide` of the state before. |
| OldEngine.ListReducer.DivideOne | pysource_minimize/_minimize.py:471-478 | A single element either is removed or has its terminal run at once. |
| OldEngine.Minimizer.MinimizeList | pysource_minimize/_minimize.py:452-486 | The outcome is `ListReduce.Reduce`, so the same budget, order and minimality lemmas apply. Terminals run in `remaining` order as elements are kept. The accepted removals are committed. |
| OldEngine.OpenGate | pysource_minimize/_minimize.py:40-47 | `ValueError` exactly when the checker rejects the original source. Otherwise the constructor raises exactly when `get_source({})` does, because `get_ast` or `ast.unparse` fails. The original source is kept when the round trip loses the error. Otherwise minimization proceeds on the round-tripped source. |

## Left out

- The per-node rules of `MinimizeStructure` (`minimize_expr`, `minimize_stmt`, `minimize_args_of` and the rest of `_minimize_structure.py`) are modelled only as recorded rule calls (`Base.Engine.Minimize`). Their call sites enter the model through `MinimizeList`'s `terminal`, `try_only_minimize` and the `walk_until` guard.
- `minimize_all`, the `progress_callback` and the command line's `main` (process spawning, file I/O, `rich` output) are left out. They are I/O around the core.
- `parse`, `unparse`, `compile` and the user's checker are parameters, because they are calls into Python itself. `ast.unparse` raises on a tree it cannot print. In both engines the model's `unparse` parameter returns `None` where that call would raise.
- The float branch of `minimize_Constant` is left out, because IEEE floating point is not modelled. Floats, complex numbers and Ellipsis are `LOther` literals that no pass changes.
- `Substitution.Materialize`: cycles of redirects make the source recurse without end. The model bounds the nesting by the arena size and reports `TooDeep` or `RedirectCycle` instead.
- `UniqueName.Renamer.Visit` is bounded the same way. The arena size is always enough for a tree.
- OldEngine.FollowNode, OldEngine.ReplaceSeq, OldEngine.GetNode: on a cycle of redirects the old engine's `replaced_node` loops forever (`pysource_minimize/_minimize.py:64-66`), and `replace` recurses until RecursionError (:72-82). The model detects the cycle, or bounds the nesting by the arena size, and reports `Endless`, which a probe turns into `Unwind`.
- Driver.MinimizeAst: the `while` loop carries a `fuel` bound. A run that exhausts it returns with `done` false, and its contract then says only that `fuel` cycles ran.
- Driver.MinimizeAst and Driver.MinimizeSource take the two minimizer passes as functions. The link to `Structure` and `Value` is their shared types, not a single composed proof.
- Indexing.IndexTree: in the four wrapped fields, `wrap` recurses into a nested list, and only a scalar that is not None, int, str or bytes fails its assertion. The model keeps the whole field plain when it holds such a scalar or a nested list, so it does not model the recursion into nested lists. Python's syntax trees put neither in these fields: they hold expressions or `None`, or strings.
- Indexing.IndexTree: a list field that mixes nodes and plain values, such as a dict's keys with a `None`, is kept plain. `replaced_nodes` returns such a list unchanged, as the model does. The source still numbers the nodes inside it, so their subtrees can be substituted there. In the model they get no handles, and handles after them differ from the source's numbering. The same goes for `MinimizeUniqueName.start`: `ast.walk` records the ids of `Name` nodes inside such a list, but the model's `NamesIn` does not, so `FirstFree` may offer a name the source would skip. UniqueName.Renamer.Visit likewise follows `Children`, which skips plain slots: the source's `iter_child_nodes` reaches the `Name` nodes inside such a list and renames them, and the model does not hand them to `minimize_Name`.
- The `UniqueObj` transformer in `__init__` duplicates shared field-less nodes such as `Load()`. The model numbers every occurrence separately, which has the same effect.
- The `TESTING` self-checks of `get_ast` and `try_with` (double mappings, index consistency, `coverage_required`) are left out. They are debugging assertions that never change a result.
- Python's `str(k)` is modelled for natural numbers only, because the counter never goes negative.
- Base.Open: the root call of `minimize_stmt` at `_minimize_base.py:125` is recorded as a rule call only. What that call probes and commits belongs to the left-out rules, so `Open` states nothing about the committed map after it.
- Driver.MinimizeAst: the checker is a deterministic function. A minimizer's `ValueError` is modelled as its pass returning `Raised`, which leaves the loop (`raised`). With a checker that answers differently on the same tree, a cycle's input can be rejected this way; the model admits any pass raising on any tree but does not relate it to earlier answers. The `retries` counter exists to absorb checkers that answer differently on the same candidate; the model proves its loop rule, but not that retries help such a checker.
- Substitution.Materialize: a replacement node built by `try_node` (a `Literal` value, such as the `Assign` made from an `AnnAssign`) is taken as a fixed tree. In the source, that node reuses the original children, whose handles are still resolved through `replaced` when the candidate is built.
- Structure.MinimizeLists: rows are rows of nodes. A dict display with a `**x` entry has a `None` key, which the rest of the model does not reduce; see Findings.
- The old engine's `minimize_stmt`/`minimize_expr` rules, `get_source` and the `Console` output are left out. Only what the listed helpers do is modelled.

## Findings

| source | as written | input that shows it | evidently intended | confidence | as-written member | corrected member |
|---|---|---|---|---|---|---|
| src/pysource_minimize/_minimize_structure.py:18 | The recursive call `walk_until(child)` drops `stop`, so only the first level below the root honours the stop set. | The function body `if c: if d: def g(): return`: the walk reaches the `Return` inside the nested `def g`. The body-replacement guard therefore refuses, although that `return` belongs to `g`. | `walk_until(child, stop)`, so that no nested scope below the roots is entered at any depth. A root of the body that is itself a scope, such as `def g(): return` placed directly in the body, is still walked into, so the guard still refuses it. | not executed | Structure.NestedReturnIsWalked | Structure.NestedReturnIsSkippedWhenScoped |
| src/pysource_minimize/_minimize_structure.py:150-152 | A dict display's keys and values are zipped into rows for `minimize_lists`, and `try_without` (`pysource_minimize/_minimize_base.py:303`) reads `n.__index` of every entry. A `**x` entry has the key `None`, so the removal map cannot be built and AttributeError escapes the minimizer. | The statement `{**x}`, with a checker that keeps it (one that looks for `**` in the source, say): when the structure pass reaches the dict, the budget is 1 and the single row `(None, x)` is offered whole as the first probe, whatever the checker would answer. | `try_without` skips entries that are `None` and removes the others. | not executed; medium | Structure.DictUnpackProbeRaises | Structure.DictUnpackProbeCorrected |
| src/pysource_minimize/_minimize_unique_name.py:10-21 | Nothing calls `start`, and `MinimizeBase.__init__` runs `minimize_stmt` at once (`pysource_minimize/_minimize_base.py:125`). `new_name` then reads `self.name_index`, which was never set, and AttributeError escapes the constructor. | The module `x = 1`: the traversal reaches the `Name` node `x`, whose id lacks the prefix, and `new_name` raises before any probe. | `start` runs before the traversal, so the counter starts at 0 and every id of the tree is in use. | not executed; high | UniqueName.UnstartedRaisesOnAssign | UniqueName.Renamer.Run |
