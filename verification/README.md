# Inverter relocation in majority-inverter graphs

This project models two rewriting passes over majority-inverter graphs
(MIGs). Both passes move complement bits ("inverters") around without
changing the function the graph computes:

- **`mig_inv_minimization`** makes one sweep over the gates. For each live
  gate it estimates how many complemented edges an inversion would remove
  (`one_level`, `two_level`). It inverts the gate when the estimate is
  positive, and in the two-level case it also inverts the gate's
  consumers. The gains go into `num_inverters_removed`.
- **`mig_inv_propogation`** runs a FIFO work list seeded with the nodes of
  the primary outputs. It inverts every popped gate that some reader uses
  complemented (`has_comp_fanout`). Only the complemented readers move to
  the replacement, so complements travel from the outputs towards the
  inputs. The popped gate's fanins are queued whether or not it was
  inverted.

Inverting gate `n` with children `a, b, c` creates `n' = maj(!a, !b, !c)`
with `create_maj_without_changing_comp`. That function is structural
hashing without complement normalisation, and both passes carry an
identical copy of it. The pass then uses `!n'` where `n` was used.
Majority is self-dual, so `!n'` computes what `n` computed, while every
complement bit on the moved edges flips.

## Layout

| file | module | contents |
|---|---|---|
| `signals.dfy` | `Signals` | signals (node index, complement bit), majority, the symmetry, absorption and self-duality identities |
| `counting.dfy` | `Counting` | counting and summing over sequences |
| `network.dfy` | `Network` | the graph record, well-formedness, valuations, and the host-network primitives the passes call |
| `create.dfy` | `Create` | `create_maj_without_changing_comp` |
| `metrics.dfy` | `Metrics` | the `complement_count` and `complement_count_except_pi` test metrics |
| `minimization.dfy` | `Minimization` | gains, `inv_node`, and the sweep of the minimization pass |
| `inversion.dfy` | `Inversion` | what the minimization pass's `inv_node` achieves on a gate: it is detached, and retired when its references run out |
| `removal.dfy` | `Removal` | a fresh inversion lowers `complement_count` by exactly `one_level` |
| `accounting.dfy` | `Accounting` | how `num_inverters_removed` relates to the fall of `complement_count`, for the sweep as written and for a sweep that counts the gains it realises |
| `overcount.dfy` | `Overcount` | a graph on which the two-level branch adds more to the statistic than the complement count falls |
| `propagation.dfy` | `Propagation` | `has_comp_fanout`, the conditional `inv_node`, and the work-list driver of the propagation pass |

The graph is an immutable record with these fields:

- `nodes`: each node has a kind, children and a dead flag.
- `refs`: the reference count (`fanout_size`) of every node.
- `hash`: the structural hash table, from child triple to node.
- `outputs`: the primary outputs.

Node 0 is the constant. Functional correctness is stated with valuations:
one Boolean per node, the constant false, and every gate the majority of
its children. `SameBehaviour(g, v, h, v')` says that `v'` is such a
valuation of `h`, that it agrees with `v` on the nodes of `g`, and that it
gives every primary output the same value. No acyclicity is assumed.

## Model

All source paths are under `include/mockturtle/algorithms/` or `test/algorithms/`.

| member | source | states |
|---|---|---|
| Signals.MajSymmetric | include/mockturtle/algorithms/mig_inv_minimization.hpp:243-258 | majority does not depend on the order of its arguments, so sorting a gate's children keeps its function |
| Signals.MajAbsorption | include/mockturtle/algorithms/mig_inv_minimization.hpp:260-268 | maj(x, x, y) = x and maj(x, !x, y) = y, the identities behind the trivial cases of creation |
| Signals.MajSelfDual | include/mockturtle/algorithms/mig_inv_minimization.hpp:216-220 | !maj(!a, !b, !c) = maj(a, b, c), so the complemented new gate stands for the inverted one |
| Signals.MajOfPermutation | include/mockturtle/algorithms/mig_inv_minimization.hpp:243-258 | a gate's value is the same for every ordering of its three children |
| Create.Order3 | include/mockturtle/algorithms/mig_inv_minimization.hpp:243-258 | the ordering step returns three signals by non-decreasing node index, each of them one of the inputs |
| Create.Order3Permutation | include/mockturtle/algorithms/mig_inv_minimization.hpp:243-258 | the ordering step outputs the three input signals, each exactly once and with its own complement bit, by non-decreasing index |
| Create.Order3Canonical | include/mockturtle/algorithms/mig_inv_minimization.hpp:243-258 | on three distinct nodes, every permutation of the inputs gives the same ordered triple, which is the hash key |
| Create.AbsorbedRule | include/mockturtle/algorithms/mig_inv_minimization.hpp:260-268 | the trivial cases, read on the unordered inputs: two signals on one node with equal polarity give that signal, with opposite polarity the third |
| Create.CreateMaj | include/mockturtle/algorithms/mig_inv_minimization.hpp:241-305 | trivial triples return an input and allocate nothing; otherwise the result is an uncomplemented live gate over the ordered triple; a hash hit changes nothing; a miss appends the gate at the old size, hashes it and gives each child one more reference |
| Create.CreateMajValue | include/mockturtle/algorithms/mig_inv_propogation.hpp:226-290 | in every case the created signal carries maj(a, b, c) and the graph keeps its function |
| Create.CreateMajIdempotent | include/mockturtle/algorithms/mig_inv_minimization.hpp:275-280 | creating the same gate again, from any ordering of the inputs, is answered by the hash table and changes nothing |
| Create.CreateMajElsewhere | include/mockturtle/algorithms/mig_inv_minimization.hpp:270-304 | creation over signals that do not read node n gives another node, adds no reader of n and leaves n's reference count alone |
| Network.IsFanoutCompIff | include/mockturtle/algorithms/mig_inv_minimization.hpp:231-239 | `is_fanout_comp(in, out)` holds exactly when the last fanin of `out` reading `in` is complemented |
| Network.ReplaceInOutputsCondComp | include/mockturtle/algorithms/mig_inv_propogation.hpp:193-213 | a dead old node changes nothing; otherwise exactly the outputs on the old node (only complemented ones when `have_comp_out` is false) are redirected with xored polarity, the rest untouched, and each redirection moves one reference when the indices differ, keeping the total |
| Network.ReplaceInOutputsBehaviour | include/mockturtle/algorithms/mig_inv_propogation.hpp:198-204 | redirecting outputs to a signal with the old node's value keeps every output value |
| Network.MoveRefsFacts | include/mockturtle/algorithms/mig_inv_propogation.hpp:205-211 | the reference bookkeeping raises the new node and lowers the old one by the same amount, and does nothing when they coincide |
| Metrics.ComplementCount | test/algorithms/mig_inv_minimization.cpp:13-30 | `complement_count` is never negative, and is 0 exactly when no fanin of a live node and no primary output is complemented |
| Metrics.ComplementCountExceptPi | test/algorithms/mig_inv_propogation.cpp:32-49 | `complement_count_except_pi` never exceeds `complement_count`, and is 0 exactly when no live fanin edge and no primary output reads a gate complemented |
| Metrics.EdgeCountZero | test/algorithms/mig_inv_minimization.cpp:13-30 | an edge count is 0 exactly when no live fanin and no primary output satisfies the predicate |
| Metrics.LiveGates | test/algorithms/mig_inv_minimization.cpp:64-73 | the number of gates not marked dead, at most the table size, and 0 exactly when no node is a live gate; this is how the tests' `num_gates` is read |
| Metrics.LiveGatesSwap | test/algorithms/mig_inv_minimization.cpp:64-73 | a table that takes out one live gate and appends one, keeping the kind and liveness of every other node, has as many live gates |
| Minimization.OneLevel | include/mockturtle/algorithms/mig_inv_minimization.hpp:157-205 | 0 for inputs, the constant and dead nodes; what the gain means, the exact fall of `complement_count` under a clean inversion, is stated by `Removal.InvNodeComplementCount` |
| Minimization.TwoLevel | include/mockturtle/algorithms/mig_inv_minimization.hpp:138-155 | 0 for inputs, the constant and dead nodes, and never below `one_level` |
| Minimization.TwoLevelExceeds | include/mockturtle/algorithms/mig_inv_minimization.hpp:143-152 | `two_level` exceeds `one_level` exactly when some consumer's corrected gain is positive |
| Minimization.InvNode | include/mockturtle/algorithms/mig_inv_minimization.hpp:207-229 | inputs and the constant are returned unchanged; otherwise the graph stays well formed, grows by at most one node, and the node returned is the replacement's |
| Minimization.InvNodeRedirects | include/mockturtle/algorithms/mig_inv_minimization.hpp:220-221 | every primary output on a live gate is redirected to the replacement with its polarity xored, and every other output is untouched |
| Minimization.Retire | include/mockturtle/algorithms/mig_inv_minimization.hpp:226-227 | the node ends dead exactly when it was dead already or was a live gate with fanout size 0 |
| Minimization.InvNodeBehaviour | include/mockturtle/algorithms/mig_inv_minimization.hpp:207-229 | inversion keeps the function of the graph, and the replacement signal carries the inverted node's value |
| Minimization.FlipParent | include/mockturtle/algorithms/mig_inv_minimization.hpp:123-127 | a parent is inverted only when its one-level gain is positive, and is otherwise left alone |
| Minimization.Visit | include/mockturtle/algorithms/mig_inv_minimization.hpp:108-131 | the statistic grows only by positive gains; it is unchanged exactly when both gains are at most 0, and then the graph is unchanged (how it relates to the fall of `complement_count` is stated in `Accounting`) |
| Minimization.Step | include/mockturtle/algorithms/mig_inv_minimization.hpp:101-131 | a sweep step never lowers the statistic; it changes the statistic exactly when the node is a live gate with a positive gain, and a step that leaves the statistic alone leaves the graph alone |
| Minimization.StepIsCalm | include/mockturtle/algorithms/mig_inv_minimization.hpp:101-107 | a sweep step leaves the statistic as it was exactly on a node that is not a live gate or has no positive gain, and then leaves the graph alone |
| Minimization.IndexSweepStatistic | include/mockturtle/algorithms/mig_inv_minimization.hpp:101-132 | a sweep leaves the statistic as it was exactly when no live gate of the range had a positive gain, and then leaves the graph unchanged |
| Minimization.Run | include/mockturtle/algorithms/mig_inv_minimization.hpp:94-135 | one sweep over the gates present at the start; `num_inverters_removed` ends non-negative, and at 0 exactly when no gate had a positive gain, in which case the graph is unchanged |
| Minimization.RunBehaviour | include/mockturtle/algorithms/mig_inv_minimization.hpp:94-135 | the minimization pass keeps the function of the graph |
| Inversion.InvertedGateFacts | include/mockturtle/algorithms/mig_inv_minimization.hpp:212-220 | the replacement of a gate that does not read itself is another node; creating it adds no reader of the gate and leaves its reference count and consumers alone |
| Inversion.InvNodeOutputs | include/mockturtle/algorithms/mig_inv_minimization.hpp:220-221 | after inverting a live gate that does not read itself, no primary output reads it |
| Inversion.InvNodeNoConsumers | include/mockturtle/algorithms/mig_inv_minimization.hpp:222-225 | after inverting a gate read at most once by each consumer, no live gate reads it |
| Inversion.RewireAllRefs | include/mockturtle/algorithms/mig_inv_minimization.hpp:222-225 | rewiring the consumers moves one reference per consumer from the gate to the replacement |
| Inversion.InvNodeRetires | include/mockturtle/algorithms/mig_inv_minimization.hpp:226-227 | such a gate is taken out exactly when its reference count equals the number of outputs and consumers reading it |
| Removal.RewireAllEdges | include/mockturtle/algorithms/mig_inv_minimization.hpp:222-225 | rewiring the consumers to a complemented replacement changes the complemented fanin edges by the uncomplemented consumer edges minus the complemented ones |
| Removal.InvNodeComplementCount | include/mockturtle/algorithms/mig_inv_minimization.hpp:157-229 | a fresh inversion that takes out a detachable gate with no constant fanin lowers `complement_count` by exactly `one_level` of the gate |
| Removal.VisitComplementCount | include/mockturtle/algorithms/mig_inv_minimization.hpp:108-131 | in that situation a positive one-level gain inverts the gate, the two-level test then finds it dead, and the statistic grows by exactly the fall of `complement_count`, which is positive |
| Accounting.CleanInvNodeNew | include/mockturtle/algorithms/mig_inv_minimization.hpp:212-219 | a clean inversion of gate n appends the gate maj(!a, !b, !c) over its children, ordered, at the end of the node table |
| Accounting.CleanInvNodeDead | include/mockturtle/algorithms/mig_inv_minimization.hpp:226-227 | a clean inversion marks n dead and changes nothing else about it |
| Accounting.CleanInvNodeKeeps | include/mockturtle/algorithms/mig_inv_minimization.hpp:207-229 | a clean inversion leaves every node other than n and its consumers as it was |
| Accounting.CleanInvNodeConsumer | include/mockturtle/algorithms/mig_inv_minimization.hpp:222-225 | each consumer of n reads the complemented new gate in place of n |
| Accounting.CleanInvNodeOutputs | include/mockturtle/algorithms/mig_inv_minimization.hpp:220-221 | every primary output on n is redirected to the new gate with its polarity flipped |
| Accounting.CleanInvNodeRefs | include/mockturtle/algorithms/mig_inv_minimization.hpp:207-229 | every old node other than n and its children keeps its reference count |
| Accounting.CleanInvNodeShape | include/mockturtle/algorithms/mig_inv_minimization.hpp:207-229 | a clean inversion keeps the kind and liveness of every old node other than n |
| Accounting.CleanInvNodeGates | include/mockturtle/algorithms/mig_inv_minimization.hpp:207-229 | a clean inversion takes out one gate and adds one, so the number of live gates is unchanged |
| Accounting.FlipGain | include/mockturtle/algorithms/mig_inv_minimization.hpp:121-127 | the gains the parent step realises are never negative, and none for no parents |
| Accounting.FlipParentsComplementCount | include/mockturtle/algorithms/mig_inv_minimization.hpp:121-127 | the parent step lowers `complement_count` by exactly the gains it realises, each parent's `one_level` on the graph the parents before it left |
| Accounting.FlipParentGates | include/mockturtle/algorithms/mig_inv_minimization.hpp:123-127 | one parent of the parent step, inverted cleanly or left alone, keeps the number of live gates |
| Accounting.FlipParentsGates | include/mockturtle/algorithms/mig_inv_minimization.hpp:121-127 | the parent step keeps the number of live gates when each parent it inverts is a clean inversion |
| Accounting.VisitTwoLevelComplementCount | include/mockturtle/algorithms/mig_inv_minimization.hpp:116-127 | in the two-level branch as written the statistic grows by `two_level(n)` while `complement_count` falls by `one_level(n)` plus the realised parent gains; the two agree exactly when the parents realise what `two_level` estimated for them |
| Accounting.VisitCounted | include/mockturtle/algorithms/mig_inv_minimization.hpp:108-131 | the visit that adds the gains it realises makes exactly the graph changes of the visit as written |
| Accounting.VisitCountedComplementCount | include/mockturtle/algorithms/mig_inv_minimization.hpp:108-131 | when every inversion of the visit is clean, the counted visit's statistic grows by exactly the fall of `complement_count`, in both branches |
| Accounting.VisitGates | include/mockturtle/algorithms/mig_inv_minimization.hpp:108-131 | a visit whose inversions are all clean keeps the number of live gates, in both branches |
| Accounting.VisitExactComplementCount | include/mockturtle/algorithms/mig_inv_minimization.hpp:108-131 | the visit as written keeps the same account when its two-level branch, if taken, realises its estimate |
| Accounting.IndexSweepAccounts | include/mockturtle/algorithms/mig_inv_minimization.hpp:101-132 | a sweep whose steps each add the fall of `complement_count` to the statistic adds the total fall |
| Accounting.StepAccountsExact | include/mockturtle/algorithms/mig_inv_minimization.hpp:101-131 | the sweep step as written adds the fall of `complement_count` at every index whose visit is exact |
| Accounting.RunComplementCount | include/mockturtle/algorithms/mig_inv_minimization.hpp:94-135 | `run()` as written reports the fall of `complement_count`, `comp_count_old - comp_count == num_inverters_removed`, when every visit along the sweep is exact |
| Accounting.StepCounted | include/mockturtle/algorithms/mig_inv_minimization.hpp:101-131 | the counted step makes the graph changes of the step as written |
| Accounting.StepCountedAccounts | include/mockturtle/algorithms/mig_inv_minimization.hpp:101-131 | the counted step adds the fall of `complement_count` at every index whose visit is clean |
| Accounting.IndexSweepSameNet | include/mockturtle/algorithms/mig_inv_minimization.hpp:101-132 | two sweeps whose steps make the same graph changes, whatever the statistic, end with the same graph |
| Accounting.RunCounted | include/mockturtle/algorithms/mig_inv_minimization.hpp:94-135 | the counted run ends with the graph the run as written ends with |
| Accounting.RunCountedComplementCount | include/mockturtle/algorithms/mig_inv_minimization.hpp:94-135 | the counted run reports the fall of `complement_count` whenever every visit along the sweep is clean, without the exactness the run as written needs |
| Accounting.IndexSweepGates | include/mockturtle/algorithms/mig_inv_minimization.hpp:101-132 | a sweep whose steps each keep the number of live gates keeps it |
| Accounting.StepKeepsGatesClean | include/mockturtle/algorithms/mig_inv_minimization.hpp:101-131 | the sweep step keeps the number of live gates at every index whose visit is clean |
| Accounting.RunGates | test/algorithms/mig_inv_minimization.cpp:64-114 | `run()`, and the counted run, keep `num_gates` (read as the number of live gates) when every visit along the sweep is clean, the `num_gates() == gates_old` check of both minimization tests |
| Overcount.TwoLevelOvercounts | include/mockturtle/algorithms/mig_inv_minimization.hpp:116-126 | on the graph `G`, the visit of gate 4 as written adds `two_level(4)` = 3 to the statistic while `complement_count` falls by 1; the counted visit adds 1 |
| Propagation.HasCompFanout | include/mockturtle/algorithms/mig_inv_propogation.hpp:130-145 | `has_comp_fanout(n)` holds exactly when some live gate's last fanin on n is complemented, or some primary output reads n complemented |
| Propagation.RewireComp | include/mockturtle/algorithms/mig_inv_propogation.hpp:163-174 | the rewiring loop rewires each live gate that reads n complemented, judged on the graph as it was, and touches no other node, output or reference total |
| Propagation.RewireTurnEffect | include/mockturtle/algorithms/mig_inv_propogation.hpp:164-166 | one turn of the loop changes only the gate whose turn it is |
| Propagation.CondSubstituteEffect | include/mockturtle/algorithms/mig_inv_propogation.hpp:162-177 | only complemented outputs on the live node move to the replacement; every node keeps its kind, and every node but n keeps its liveness |
| Propagation.PropInvNode | include/mockturtle/algorithms/mig_inv_propogation.hpp:146-178 | inputs and the constant are returned unchanged; otherwise the graph stays well formed, grows by at most one node, and the node returned is the replacement's |
| Propagation.PropInvNodeRedirects | include/mockturtle/algorithms/mig_inv_propogation.hpp:160-162 | exactly the complemented outputs on a live gate are redirected to the replacement |
| Propagation.PropInvNodeConsumers | include/mockturtle/algorithms/mig_inv_propogation.hpp:163-174 | a live gate reading n complemented reads the replacement instead, and every other gate keeps its children |
| Propagation.PropInvNodeOutputs | include/mockturtle/algorithms/mig_inv_propogation.hpp:146-178 | afterwards no output reads the gate complemented; the moved outputs read the replacement, uncomplemented whenever it was looked up or allocated, and the others are as they were |
| Propagation.PropInvNodeClears | include/mockturtle/algorithms/mig_inv_propogation.hpp:146-178 | after the conditional inversion of a live gate that no consumer reads twice and that does not read itself, `has_comp_fanout` no longer holds of it |
| Propagation.PropInvNodeBehaviour | include/mockturtle/algorithms/mig_inv_propogation.hpp:146-178 | the conditional inversion keeps the function of the graph |
| Propagation.Seed | include/mockturtle/algorithms/mig_inv_propogation.hpp:96-105 | the initial queue holds the node of every primary output in output order, whatever its polarity |
| Propagation.Turn | include/mockturtle/algorithms/mig_inv_propogation.hpp:113-121 | the turn on a gate keeps the graph well formed, and afterwards a detachable live gate has no complemented reader |
| Propagation.PropStep | include/mockturtle/algorithms/mig_inv_propogation.hpp:107-126 | one turn keeps the graph well formed and the queue in range, and leaves a popped detachable live gate without a complemented reader |
| Propagation.PropStepSkips | include/mockturtle/algorithms/mig_inv_propogation.hpp:109-112 | a popped constant, input or dead node changes nothing and queues nothing |
| Propagation.PropStepQueue | include/mockturtle/algorithms/mig_inv_propogation.hpp:113-125 | a popped live gate is inverted exactly when it has a complemented reader, and its own fanins are queued either way |
| Propagation.WorkLoop | include/mockturtle/algorithms/mig_inv_propogation.hpp:107-126 | the loop keeps the graph well formed and the queue in range, and stops on an empty queue |
| Propagation.SettledGate | include/mockturtle/algorithms/mig_inv_propogation.hpp:130-145 | a gate that no live node and no primary output reads complemented has no complemented fanout |
| Propagation.PropStepSettled | include/mockturtle/algorithms/mig_inv_propogation.hpp:107-126 | on a graph in which no gate is read complemented, any turn leaves the graph as it is |
| Propagation.WorkLoopStill | include/mockturtle/algorithms/mig_inv_propogation.hpp:107-126 | a work loop whose turns all leave the graph as it is leaves it as it is |
| Propagation.WorkLoopSettled | include/mockturtle/algorithms/mig_inv_propogation.hpp:107-126 | the work loop leaves a graph in which no gate is read complemented exactly as it is |
| Propagation.Run | include/mockturtle/algorithms/mig_inv_propogation.hpp:94-127 | the pass keeps the graph well formed without dropping nodes, and changes nothing on a graph whose `complement_count_except_pi` is already 0 |
| Propagation.RunBehaviour | include/mockturtle/algorithms/mig_inv_propogation.hpp:94-127 | the propagation pass keeps the function of the graph |

## Left out

- The host network's `replace_in_node`, `replace_in_outputs`, `take_out_node`, `fanout_size`, fanout view and hash equality are defined in `mig.hpp` and `fanout_view.hpp`, which are not part of this model. `Network` gives them the simplest behaviour consistent with how the passes use them:
  - `ReplaceInNode` redirects the first child reading the old node and moves one reference. It does not re-sort the children, absorb or normalise complements.
  - `TakeOutNode` retires one node and does not cascade to its children.
  - `Fanout` is a fresh scan of the live gates.
  - `FanoutSize` reads `refs`.
- `substitute_node` in the propagation pass (`mig_inv_propogation.hpp:167-172`) only runs when `replace_in_node` reports a collapsed node. The modelled `ReplaceInNode` never does, so that branch is absent.
- The iteration of `foreach_fanout` while `replace_in_node` edits the fanout lists is modelled as iteration over a snapshot taken before the loop.
- Propagation.Run: the work loop is bounded by a `fuel` argument. Termination of the queue is not modelled, because rewiring can give a consumer a child with a larger index, and termination depends on acyclicity guarantees of the host network.
- Propagation.Run: that the pass ends with `complement_count_except_pi` at 0, as the propagation test expects (`test/algorithms/mig_inv_propogation.cpp:89`), is not proved in general. Only the turn on one gate is shown to clear that gate (`Turn`), and only for a gate no consumer reads twice. A trivial creation can also hand back a complemented signal, and the fuel may run out first.
- Propagation.WorkLoop: the contract says nothing about what the queue eventually contains. The properties of single turns are stated by `PropStepSkips` and `PropStepQueue`.
- The propagation pass never writes its statistics record (`num_calls` and `num_inverters_removed` stay 0, and no stopwatch runs). The model therefore returns no statistic for it.
- Minimization.OneLevel: the gain is an unbounded integer. The C++ computes it in `uint32_t` and converts it to `int` (`mig_inv_minimization.hpp:202`), which gives the same value for all realistic counts.
- Reference counts are unbounded integers. The 32-bit `h1` field's wrap-around is not modelled.
- Removal.InvNodeComplementCount: the exact drop by `one_level` is proved only when all of these hold:
  - the inverted gate is freshly allocated;
  - the gate has no constant fanin and does not read itself;
  - no consumer reads it twice;
  - its reference count equals its readers, so it is taken out.

  On a hash hit or a trivial creation the count moves differently. `one_level` does not count constant fanins, while inversion does flip their edges.
- The graphs of the test cases are not modelled, nor is their expected value 2. Their other checks are stated in general: that the statistic equals the fall of `complement_count` by `Accounting.RunComplementCount` and `Accounting.RunCountedComplementCount`, and that `num_gates` is unchanged by `Accounting.RunGates`. `Overcount` models a different graph, one for the two-level branch.
- Metrics.LiveGates: `num_gates` is defined in `mig.hpp`, which is not part of this model. It is read as the number of gates not marked dead.
- Minimization.Visit: the statistic equals the fall of `complement_count` only under `VisitExact`. In general the two-level branch adds the estimate `two_level(n)`, which can exceed what it removes (see Findings).
- Minimization.Run: likewise, the statistic equals the fall of `complement_count` only when every visit is exact (`Accounting.RunComplementCount`). `Accounting.RunCounted` is the corrected run.
- The capacity growth before appending a node (`.9 * capacity`, `3.1415f * index`) only affects performance and is float arithmetic.
- Timing (`stopwatch`), the `INFO`/`DEBUG`/`DEBUG_PRINT_MIG` output, `print_all_fanout`, and the `on_add` event callbacks that notify the fanout view are not modelled.
- `mig_inv_optimization.hpp` and its test are not part of this model. As written, the header lacks a `;` after the `foreach_gate` call at `mig_inv_optimization.hpp:112`.

## Findings

| source | as written | input that shows it | evidently intended | confidence | as-written member | corrected member |
|---|---|---|---|---|---|---|
| include/mockturtle/algorithms/mig_inv_minimization.hpp:116-126 | the two-level branch adds `two_level(n)` to `num_inverters_removed`. That value estimates the parents' gains on the graph before `n` is inverted, and a parent inverted earlier in the parent step can lower a later parent's gain | the graph `Overcount.G`: inputs x1-x3, gates 4 = maj(x1, x2, x3), 5 = maj(!x1, !x2, !4), 6 = maj(!x3, !4, !5), output !6. Visiting 4 adds 3 while `complement_count` falls by 1 | add the gains the branch realises: `one_level(n)` plus each inverted parent's `one_level` when it is inverted. Then `comp_count_old - comp_count == num_inverters_removed` (test/algorithms/mig_inv_minimization.cpp:119) holds. The corrected statistic needs a signed type: when `one_level(n)` is negative and the parents realise less than its magnitude, it falls, which the unsigned `num_inverters_removed` cannot hold | not executed; medium, since it relies on the modelled `replace_in_node`, which does not normalise complements | Overcount.TwoLevelOvercounts | Accounting.VisitCounted, proved by Accounting.VisitCountedComplementCount and Accounting.RunCountedComplementCount |
