# Sequence detector: construction, catalogue and table reduction

This project models the core of a sequence-detector generator. The program reads a pattern over the symbols `0`, `1` and the don't care `-`, at most four symbols long, and an overlap mode: not overlapping, partially overlapping or totally overlapping. From these it

1. builds a recogniser as a graph of states rooted at `reset` (`create_states`, `add_state_to_graph`, `find_match`, with the wildcard-aware comparisons `valuescmp` and `valuesncmp`);
2. lists every reachable state once and sorts the list in place (`get_states_list`, `list_add`, `list_contains`, `list_qsort`, `seqcmp`, `swap`, `list_index`);
3. turns the list into a state table with next states and exit flags (`get_table`), then repeatedly merges rows that `equal_rows` reports equal (`optimize_table`, `merge_rows`).

Modules, one per file, in dependency order:

- `symbols.dfy` (`Symbols`): symbols, modes, `MaxSeq`, the comparisons.
- `graph.dfy` (`Graph`): the state graph as an arena. Node `k` stands for a heap `State`, an index replaces a pointer, `None` replaces NULL, and node 0 is `reset`. It also holds the walks of `add_state_to_graph` and `find_match`, and the failure-function property `SuffixClosed`.
- `builder.dfy` (`Builder`): class `StateGraph`, holding the arena and `sequence->nstates`, with the mutually recursive construction. It is written as three methods:
  - `CreateStates` allocates and hooks in a state;
  - `SettleBoth` settles the two transitions, '0' first;
  - `Settle` handles one transition;
  - `NextState` applies the mode rules.
- `catalog.dfy` (`Catalog`): class `StatesList`, an array plus `nstates`, with `list_add`, `list_contains` and `list_index`, and the in-place quicksort on that array.
- `table.dfy` (`Tables`): class `Table`, an array of rows plus `nstates`. It has `get_table`, `equal_rows`, the four loops of `merge_rows` and the nested loops of `optimize_table`, as written and with the flag accumulated over a pass.
- `pipeline.dfy` (`Pipeline`): the sequence of calls in `main`, meaning the states, the list, the table and the gated reduction, without the console I/O.

Recursion matches the source:
- `create_states` settles the `0` transition completely, including the whole recursion below it, before it starts the `1` transition.
- `find_match` sees a transition that is still NULL as a failed walk.

The order is observable. For the pattern `--` in the totally overlapping mode, state `0` settles its `1` transition while `reset`'s own `1` transition is still NULL, so `01` falls back to `reset` rather than to the state `1`. `Builder.FallbackBeforeRightSubtree` evaluates find_match on the arena as it stands at that moment (reset and state `0`, with reset's `1` transition still NULL). That arena is written out by hand; the lemma does not derive it from `CreateStates`.

The main results:
- `Builder.StateGraph.CreateStates` builds a complete graph with the invariant `GraphInv`:
  - every label is made of `0`/`1` and is shorter than the pattern;
  - there is one state per allocation;
  - each state is hooked below the state reached by its label minus its last symbol;
  - every transition leads to `reset` or to a state labelled by a suffix of the input it has read.
- Every transition of the finished graph obeys the mode rule in `Builder.EdgeRule` (`Builder.Ruled` from state 0 on). The contracts of `Catalog.GetStatesList` and `Pipeline.Calculate` carry this rule. In the overlapping modes, every state but `reset` carries a label the pattern accepts as a prefix (`Builder.Prefixed`).
- find_match returns `reset` or a state labelled by a proper suffix of its argument. In the overlapping modes that label is also a prefix the pattern accepts (`Builder.FindMatchResult`).
- `Catalog.GetStatesList` lists every state exactly once, with `reset` first, and the list is closed under transitions.
- `Tables.GetTable` builds the table `Tables.TableSpec` describes. Read from row 0, that table produces the graph's exit flags on every input (`Tables.TableReadsLikeGraph`).
- Every `merge_rows` that `optimize_table` performs is an equal-row merge (`Tables.Replay`). Such merges keep the table closed, remove one row each, and leave the outputs read from row 0 unchanged (`Tables.ReplayPreservesRun`).
- `optimize_table` as written can stop with two equal rows left, because its flag is cleared at every i (`Tables.OptimizeLeavesEqualRows`). The reduction with the flag accumulated over a pass always terminates and leaves no two rows equal (`Tables.Table.OptimizeTableAccumulated`).
- `Pipeline.Calculate` combines these results: on every input, the final table gives the graph's outputs from `reset`.

## Model

| member | source | states |
|---|---|---|
| Symbols.ValuesCmp | fsm.c:214-226 | returns 0 or 1, and 0 exactly when the value has the pattern's length and every pattern symbol is `-` or equal to the value's symbol |
| Symbols.ValuesNCmp | fsm.c:228-237 | returns 0 or 1, and 0 exactly when each of the first min(n, pattern length) positions is `-` or agrees; the scan stops at the end of the pattern |
| Symbols.PrefixAtFullLength | fsm.c:135 | at the pattern's full length the prefix test and the exact test agree |
| Symbols.Strcmp | fsm.c:325 | gives -1, 0 or 1, and 0 exactly for equal strings |
| Symbols.StrcmpAntisymmetric | fsm.c:325 | swapping the arguments negates the result |
| Symbols.SeqCmp | fsm.c:320-326 | 0 exactly for identical labels; a shorter label ranks below a longer one, the other way round gives a positive result |
| Symbols.SeqCmpAntisymmetric | fsm.c:320-326 | swapping the arguments flips the sign of the result |
| Symbols.ResetRanksFirst | fsm.c:244 | reset's label `-` ranks strictly below every non-empty label of `0`s and `1`s |
| Graph.Walk | fsm.c:176-181 | a successful walk from reset ends at a node of the arena |
| Graph.WalkAvoidingReset | fsm.c:196-208 | a successful walk ends inside the arena, and after at least one step it is not at reset |
| Graph.BestMatch | fsm.c:190-212 | the result of find_match is a node of the arena |
| Graph.WalkReachesState | fsm.c:171-188 | in a graph where every state hangs below its parent, walking a state's label from reset reaches that state |
| Graph.WalkPrefix | fsm.c:176-181 | a walk that succeeds also succeeds on every prefix of its input, so the parent walk never meets NULL |
| Graph.WalkAvoidingResetSuffix | fsm.c:198-208 | in a suffix-closed graph, a successful walk ends at a state whose label is a suffix of what was read |
| Graph.BestMatchIsProperSuffix | fsm.c:190-212 | find_match returns reset or a state labelled by a proper suffix of its argument |
| Builder.BestMatchIsPrefix | fsm.h:41-46 | in the overlapping modes find_match returns reset or a state whose label the pattern accepts as a prefix |
| Builder.FindMatchResult | fsm.h:41-46 | in the overlapping modes find_match returns reset or a state whose label is a proper suffix of the value and a prefix the pattern accepts |
| Builder.GrowIsShorter | fsm.c:132-164 | a new state is only created for a proper prefix, so labels stay shorter than the pattern |
| Builder.Classify | fsm.c:117-164 | the tests of create_states, run in the source's order through valuescmp and valuesncmp, choose exactly the choice that `Policy` gives for the mode |
| Builder.FindMatch | fsm.c:190-212 | the loop and the tail call return exactly `BestMatch` |
| Builder.FallbackBeforeRightSubtree | fsm.c:154-164 | for pattern `--` and totally overlapping mode, with reset's `1` transition still NULL, find_match on `01` returns reset although `1` is a suffix that the pattern accepts as a prefix |
| Builder.SetEdgeKeepsInv | fsm.c:119-164 | setting a free transition to reset, or to a state labelled by a suffix of label + b, keeps the whole graph invariant |
| Builder.AppendKeepsInv | fsm.c:102-107 | appending a fresh state with NULL transitions keeps every other part of the invariant |
| Builder.HookKeepsInv | fsm.c:183-187 | hooking the newest state below its parent, on its last symbol, restores the whole invariant |
| Builder.StateGraph.constructor | fsm.c:240-245 | the arena holds only reset, labelled `-` with NULL transitions, and nstates is 1 |
| Builder.StateGraph.AddStateToGraph | fsm.c:171-188 | the walk over all but the last symbol reaches the parent, and only that parent's `left` (last symbol `0`) or `right` (last symbol `1`) changes, to the new state |
| Builder.StateGraph.NewState | fsm.c:101-110 | one new node with the value and NULL transitions; nstates grows by one; the only other change is the parent's hook |
| Builder.StateGraph.SetTransition | fsm.c:134-164 | only the chosen transition of the chosen state changes |
| Builder.StateGraph.NextState | fsm.c:117-164 | the target obeys the mode rule: reset, a fresh state labelled value + b, or the find_match result on the graph as it stands; a fresh subtree is finished, and nothing existing changes except the new state's hook |
| Builder.StateGraph.Settle | fsm.c:132-138 | the transition is set to the target the mode rule allows; a fallback is exactly find_match's answer on the graph as it stood on entry; the other transition, every label and every other node that existed before stay unchanged |
| Builder.StateGraph.SettleBoth | fsm.c:115-165 | both transitions of the state are set, each by the mode rule, the '0' one first; a '0' fallback is find_match's answer on the graph on entry, a '1' fallback its answer on the graph `mid` left once '0' was settled, where the state's '1' transition is still NULL; every label and every other node that existed before stay unchanged; every state allocated meanwhile is finished |
| Builder.StateGraph.CreateStates | fsm.c:97-169 | the state for the value has both transitions set, each by the mode rule; every state from this call on is finished; for the empty value the whole graph is complete and every transition of every state obeys the mode rule; in the overlapping modes every label is a prefix the pattern accepts |
| Catalog.ListAddSpec | fsm.c:258-265 | the result extends the list, stays duplicate-free, holds the state, and places a state not listed before straight after the old entries |
| Catalog.ListAddClosed | fsm.c:258-265 | every state list_add appends has both transition targets listed afterwards |
| Catalog.ClosedListHoldsAll | fsm.c:253 | a list that holds reset and is closed under transitions holds every state of the tree |
| Catalog.IndexOf | fsm.c:305-310 | -1 exactly when the state is absent; otherwise the first position holding it |
| Catalog.IndexOfDistinct | fsm.c:305-310 | in a duplicate-free list, list_index of an entry is its position |
| Catalog.PermutationKeepsDistinct | fsm.c:328-332 | permuting a duplicate-free list keeps it duplicate-free |
| Catalog.Swap | fsm.c:328-332 | the two entries are exchanged and the contents are a permutation |
| Catalog.ScanUp | fsm.c:284-285 | i stops at `right` or at the first entry ranking above the pivot; everything passed ranks at most the pivot |
| Catalog.ScanDown | fsm.c:287-288 | j stops at the first entry, going down, ranking at most the pivot, and never below the pivot |
| Catalog.PartitionStep | fsm.c:283-295 | one round permutes [left+1, right] only, keeps the pivot, and shrinks j - i |
| Catalog.Partition | fsm.c:279-295 | i and j end inside the range, the pivot stays, the contents are a permutation, nothing outside (left, right] moves, and a strict minimum at `left` leaves the array unchanged |
| Catalog.ListQsort | fsm.c:274-303 | the contents are a permutation, nothing outside [left, right] moves, and a strict minimum at `left` stays in place |
| Catalog.StatesList.constructor | fsm.c:248-252 | an empty list with room for one entry per state |
| Catalog.StatesList.ListContains | fsm.c:267-272 | true exactly when the state is listed |
| Catalog.StatesList.ListIndex | fsm.c:305-310 | returns `IndexOf` of the listed states |
| Catalog.StatesList.ListAdd | fsm.c:258-265 | the list becomes `ListAddSpec` of the old list: pre-order, left before right, no duplicates |
| Catalog.Gather | fsm.c:248-253 | after list_add(reset) the list holds every state exactly once, with reset first |
| Catalog.CollectStates | fsm.c:248-254 | after sorting, the list is a permutation of the list_add order, still lists every state once, and still starts with reset |
| Catalog.FullListClosed | fsm.c:253 | a list holding every state is closed under transitions |
| Catalog.GetStatesList | fsm.c:239-256 | the graph is complete, satisfies the invariant, and every transition obeys the mode rule; the list holds each state once, reset first, and is closed under transitions |
| Tables.TableClosed | table.c:37-42 | every next0/next1 of the table lies in [0, nstates) |
| Tables.TableFollowsTransitions | table.c:37-42 | row k's next0 and next1 are the list positions of listed state k's left and right targets |
| Tables.ResetExit | table.c:32-45 | reset's `-` contributes no symbol, so reset exits on b exactly for a one-symbol pattern accepting b |
| Tables.StateExit | table.c:32-45 | whatever other state is listed exits on b exactly when label + b matches the pattern |
| Tables.TableRunIsOutputs | table.c:26-46 | reading the table from row k gives the graph's exit flags from listed state k on every input |
| Tables.TableReadsLikeGraph | table.c:26-46 | reading from row 0 of a list that starts with reset gives the graph's outputs from reset |
| Tables.EqualRows | table.c:98-103 | true exactly when next0, exit0, next1 and exit1 of the two rows agree; labels are ignored |
| Tables.EqualRowsEquivalence | table.c:98-103 | equal_rows is reflexive, symmetric and transitive |
| Tables.EqualRowsSameRun | table.c:98-103 | rows that equal_rows reports equal produce the same exit flags on every input |
| Tables.MergeLabels | table.c:106-111 | the merged label has the longer length and accepts both labels; agreeing positions of label i are kept |
| Tables.MergeLabelsExample | table.c:106 | "010" and "000" give "0-0" |
| Tables.RenumInRange | table.c:118-132 | renumbering maps [0, n) into [0, n-1), sends j where i goes, and moves the references above j down by one |
| Tables.MergeRowsLabel | table.c:105-116 | every row except j keeps its label, one place lower if it was past j; row i has the merged label |
| Tables.MergedRow | table.c:113-132 | old row s now sits at Renum(s), with the same exit flags and renumbered next states |
| Tables.MergeKeepsClosed | table.c:118-132 | with all references in [0, n) beforehand, all references lie in [0, n-1) afterwards |
| Tables.MergePreservesRun | table.c:105-133 | merging equal rows changes no exit flag along any input: state s then behaves as old state s did |
| Tables.MergeKeepsResetRun | table.c:105-133 | merging a later row into an earlier one leaves row 0's behaviour unchanged |
| Tables.ReplayStep | table.c:84-91 | recording one more equal-row merge performs it on the table so far |
| Tables.ReplayPreservesRun | table.c:72-96 | a sequence of merges drops one row per merge, keeps the table closed, and keeps row 0's outputs |
| Tables.Table.constructor | table.c:16-20 | a table of n rows |
| Tables.Table.MergeLabelRow | table.c:106-111 | row i's label becomes the merge of labels i and j; nothing else changes |
| Tables.Table.DeleteRow | table.c:113-115 | the first nstates-1 rows are the old rows with row j removed |
| Tables.Table.RedirectRefs | table.c:118-124 | every reference to j now goes to i; nothing else changes |
| Tables.Table.ShiftRefs | table.c:126-132 | every reference above j moves down by one; nothing else changes |
| Tables.Table.MergeRows | table.c:105-133 | nstates drops by one and the rows become `MergeRowsSpec`: labels merged, row j deleted, references renumbered |
| Tables.MergeFrom | table.c:82-93 | the j loop for row i never grows the table and row i is still in it afterwards |
| Tables.MergeFromSteps | table.c:84-92 | an equal row j is merged and place j looked at again; otherwise the loop moves to j + 1 |
| Tables.MergesFromCount | table.c:82-93 | the j loop performs one merge per row it removes |
| Tables.MergeFromReplay | table.c:82-93 | replaying the j loop's merges after earlier ones yields the table the loop leaves |
| Tables.MergesFromInto | table.c:84-88 | every merge of the j loop for row i merges a later row into row i |
| Tables.MergeFromUnchanged | table.c:82-93 | a j loop that removes no row leaves the table as it was, and no row after place j equals row i |
| Tables.MergeIntoLog | table.c:82-93 | the j loop's merges extend the earlier log, each into row i and equal-row, one per removed row, and they are none exactly when the table is unchanged and no later row equals row i |
| Tables.PassFrom | table.c:80-94 | the for loop never grows the table, and a set flag (with a row i left to scan) means it removed a row |
| Tables.PassFromSteps | table.c:80-81 | each i runs the j loop and clears the flag to whether that i removed rows; the loop ends once i reaches nstates - 1 |
| Tables.PassLogStep | table.c:80-94 | adding the merges of row i keeps every merge of the pass into a row up to i, and one is into i exactly when row i merged anything |
| Tables.Optimized | table.c:72-96 | the reduction never grows the table |
| Tables.OptimizeLeavesEqualRows | table.c:78-95 | for a five-row table, the reduction as written stops with four rows of which rows 0 and 2 are still equal, because the flag only tells whether the last i of the pass merged |
| Tables.Table.MergeInto | table.c:81-93 | the table becomes `MergeFrom` of the old one: every later row equal to row i is merged into it, place j being looked at again after a merge; the flag is true exactly when a row was removed; if false, no later row equals row i |
| Tables.Table.Pass | table.c:80-94 | the table and flag are `PassFrom` of the old table: the recorded merges extend the earlier ones, one row fewer per merge; `lastI`, one of the last two rows, is the last i; every merge is into a row up to lastI and the flag is true exactly when one is into lastI (the flag is cleared at every i); a false flag means the last two rows differ |
| Tables.Table.OptimizeTable | table.c:72-96 | the table is `Optimized` of the old one, which is the original with a sequence of equal-row merges replayed; on normal exit the last pass's final i found the last two rows different; `hangs` marks the non-terminating case, with at most one row left |
| Tables.Table.PassAccumulated | table.c:79-94 | with the flag cleared once per pass and set by any merge: the recorded merges extend the earlier ones; the flag is true exactly when a row was removed; a false flag means the table is unchanged and no two of its rows are equal |
| Tables.Table.OptimizeTableAccumulated | table.c:72-96 | the reduction with the accumulated flag always terminates, replays only equal-row merges, and leaves no two equal rows |
| Tables.MakeRow | table.c:27-45 | the row has the state's label, the list positions of its targets, and the valuescmp tests of the label with `0` and with `1` written at its end, or over a leading `-` (so reset's `-` counts as no symbol) |
| Tables.GetTable | table.c:15-48 | one row per listed state, in list order, each equal to `RowSpec` |
| Pipeline.Calculate | fsm.c:45-58 | the graph has the construction's labels and every transition obeys the mode rule; on every input the final table, read from row 0, gives the graph's outputs from reset; without the gate the table is get_table's; with it (using the reduction with the accumulated flag) no two rows are left equal |

## Left out

- `main`, `get_sequence` and `get_mode` (console input, validation, prompts) are not modelled. Their outcome is the precondition of `Pipeline.Calculate`: a pattern of one to four symbols and a mode.
- Pipeline.Calculate: the lower bound of one symbol excludes a defect of the source, not just bad input. `get_sequence` accepts an empty line (fsm.c:73-76). With L = 0, create_states never meets `next_length == length` (fsm.c:118). In the overlapping modes the valuesncmp test (fsm.c:230) passes at once on an empty pattern. Either way it recurses without bound and overruns `next[]`.
- `print_table` and every `printf` trace are left out, because they only produce output.
- `error_exit`, the `malloc` failure paths and `delete_states_list`/`free` are left out; they are memory management and process exit.
- Pipeline.Calculate: it runs the reduction with the accumulated flag (see Findings), so the endless loop of `optimize_table` on a table reduced to one row is not part of its contract.
- Tables.Table.OptimizeTable: where the source loops forever, the model returns with `hangs` set. This happens when the flag is still true but at most one row is left. Termination is then proved by the row count and the flag.
- Catalog.ListQsort: does not claim sortedness, because the source does not sort. For the two-element range with labels `1` then `0`, `i` stops at `right` (fsm.c:284). Then the only swap is of `right` with itself, and both recursive calls are skipped. Only permutation, the frame, and "reset stays first" are claimed.
- Tables.MergeLabels: where label i is shorter than label j, the source writes `-` over its terminator and then compares uninitialised bytes. The model writes `-` at those positions, so their values are a modelling choice.
- Symbols.Strcmp: only the sign of `strcmp` is modelled. Character codes of `-`, `0` and `1` are 45, 48 and 49.
- Symbols.SeqCmp: the `size_t` difference of the lengths is taken as an integer difference. Labels hold at most four symbols.
- Builder.StateGraph.CreateStates: the contract says which target each transition may have. A reset or grow transition is determined by it. A fallback is pinned to find_match's answer on the graph as it stood when the transition was settled (`Builder.StateGraph.Settle`), and bounded (reset, or a proper suffix the pattern accepts as a prefix). The recogniser is not claimed to detect every occurrence of the pattern. `Builder.FallbackBeforeRightSubtree` exhibits the construction-order case where it does not.
- Graph.BestMatch: the result is not always the longest suffix that the pattern accepts as a prefix (the promise of fsm.h:44). A transition that is still NULL fails the walk, so the answer depends on construction order, as `Builder.FallbackBeforeRightSubtree` shows. Only "reset, or a proper suffix accepted as a prefix" is proved.
- Builder.FindMatch: the source also moves `match` along the failing transition before it gives up. That value is never used, so the model does not compute it.
- Tables.Table.OptimizeTable: the source promises to delete equal rows (table.c:74), but as written it can stop with two equal rows left (see Findings). Its contract therefore only claims the last two rows differ. `Pipeline.Calculate` uses the corrected reduction. Neither reduction is claimed to give a minimal table: rows that are compatible without being equal (table.c:75-76) are not merged.
- Row numbers and flags are `int` and `bool`. Labels are sequences of symbols rather than NUL-terminated buffers.

## Findings

| source | as written | input that shows it | evidently intended | confidence | as-written member | corrected member |
|---|---|---|---|---|---|---|
| table.c:78-95 | `equivalentRows = false` at every i (table.c:81), so after a pass the flag only says whether the last i merged; merges at earlier i renumber rows and can make earlier rows equal, and the loop then stops with them in place, against "Delete equal rows" (table.c:74). With rows left at one and the flag set, the for loop is empty and the while loop never ends. | rows (next0, exit0, next1, exit1) = (1,F,0,F), (0,T,0,F), (4,F,0,F), (3,F,3,T), (0,T,0,F): i = 1 merges row 4 into row 1, row 2 becomes (1,F,0,F) like row 0, the last i merges nothing and the reduction stops with rows 0 and 2 equal | the flag is cleared once per pass and set by any merge, so passes repeat until a pass merges nothing, which leaves no two equal rows and always terminates | not executed; medium (table built by hand, not known to arise from a pattern) | Tables.OptimizeLeavesEqualRows | Tables.Table.OptimizeTableAccumulated |
