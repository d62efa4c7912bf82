# Influence simulator: a verified model of the per-node cascade driver

The influence simulator estimates how far each node of a network would spread
an Independent Cascade contagion if it alone were infected. For every node it
builds a fresh cascade model with that node infected and the rest
susceptible. It steps the model until no node is infected, keeping the peak
number of simultaneously infected nodes and the iteration where that peak
was first reached. It then reduces the final state to a `SimulationResult`
record. The campaign collects one record per node, in node order, either in
process or on a process pool, and writes them as CSV rows under a header.

This Dafny project models that bookkeeping in both versions the repository
contains:

- the current `IndependentCascadeSimulator` with its `InfluenceSimulator` base
  class (`simulators/`);
- the older single-class `InfluenceSimulator`.

It also models two string routines: choosing a graph reader from a file
extension, and cutting the fractional seconds of a rendered duration.

Modules, one per file:

- `Wrappers` (`wrappers.dfy`): `Option` and `Result`.
- `Strings` (`strings.dfy`): Python's `split`/`join` on one separator character, with the round trip between them.
- `Cascade` (`cascade.dfy`): the diffusion library's model as the simulators see it. It has a node-state vector, an iteration counter and a generator state. `step()` recovers every infected node and infects the susceptible nodes that an injected `Transmit` function reports as reached. `terminated` means no node is infected. It also holds the pure run: the trace of post-step snapshots (`Steps`) and the final snapshot (`Final`).
- `InfluenceSimulator` (`influence_simulator.dfy`): the shared records, the running peak, the seeded start state, the reduction of a run to a record, the campaign, the `n_jobs` dispatch and the CSV rows.
- `IndependentCascadeSimulator` (`indepndent_cascade_simulator.dfy`): the current simulator class. Its peak starts at (1, 0).
- `LegacyInfluenceSimulator` (`legacy_influence_simulator.dfy`): the older simulator class. Its peak starts at (0, 0). This module also holds graph-reader selection.
- `Utils` (`utils.dfy`): `format_delta`, starting from the rendered string.

The simulator classes follow the source's imperative form:

- `InitSimulation` writes one entry of a fresh model's state vector.
- `SimulateNode` is a `while` loop over the mutating `Step`. It is proved equal to a pure specification. The loop invariants keep the final snapshot and the peak of the remaining trace constant.
- `Simulate` replaces the `result` field.

Termination is proved rather than assumed: each step of a non-terminated model recovers at least one node.

The model follows the code as written:

- An unknown extension raises `ValueError`.
- An infection probability outside [0, 1] is not rejected.
- Every per-node model gets the simulator's `random_state` unchanged.
- The legacy `simulate` never passes a worker count to the pool, so the pool uses its own default.

## Model

| member | source | states |
|---|---|---|
| Strings.Split | influence_simulator/utils.py:22-24 | `split` yields at least one piece. No piece contains the separator. There is exactly one piece iff the separator is absent. Joining the pieces gives the input back. |
| Strings.SplitJoin | influence_simulator/utils.py:22-24 | Splitting a join of separator-free pieces gives back exactly those pieces (the other half of the round trip). |
| Strings.JoinHead | influence_simulator/utils.py:24 | `Join`, the model of `sep.join(parts)`, gives back a single part unchanged. With two or more parts the result starts with the first part, followed directly by the separator. |
| Utils.FormatDelta | influence_simulator/utils.py:11-26 | The string is unchanged when it has no '.' (for every `digits`) and for any negative `digits`, including the default -1. The result is never longer than the input. |
| Utils.Take | influence_simulator/utils.py:23 | `s[:n]` is the prefix of `s` with exactly min(n, len(s)) characters: the whole of `s` when `s` is no longer than `n`, and its first `n` characters otherwise. |
| Utils.ZeroDigitsKeepsWholeSeconds | influence_simulator/utils.py:18-19 | With `digits == 0` the result is the text before the first '.': a proper prefix of the input, followed in the input by '.', with no '.' of its own. |
| Utils.PositiveDigitsTruncatesFraction | influence_simulator/utils.py:20-24 | With `digits > 0` the text before the first '.' and that '.' are kept. The second piece keeps its first `digits` characters, or all of them when it is shorter. Any further pieces are kept with their separators. |
| Utils.SingleDotIsPrefix | influence_simulator/utils.py:20-24 | For a single-'.' rendering `whole.fraction` the result is `whole.` followed by the first `digits` characters of the fraction, which is a prefix of the input. |
| Utils.FormatDeltaIdempotent | influence_simulator/utils.py:17-24 | Formatting the output again with the same `digits` returns it unchanged. |
| Cascade.Count | influence_simulator/simulators/indepndent_cascade_simulator.py:37 | `state.count(x)` is at most the number of nodes, and it is 0 exactly when no node is in state `x`. |
| Cascade.Terminated | influence_simulator/simulators/indepndent_cascade_simulator.py:34 | `model.terminated` holds exactly when the infected count is 0. |
| Cascade.Spread | influence_simulator/simulators/indepndent_cascade_simulator.py:35 | The new state vector of a step is a legal transition (`IsStep`): every infected node recovers, recovered nodes stay recovered, and a susceptible node never recovers directly. A susceptible node becomes infected exactly when the library reports it as reached. |
| Cascade.Advance | influence_simulator/simulators/indepndent_cascade_simulator.py:35 | One `step()` raises the counter by exactly one, keeps the number of nodes, and changes the states by a legal transition. The generator state becomes the one the library's draw returns for the old generator state. |
| Cascade.StepRecovers | influence_simulator/simulators/indepndent_cascade_simulator.py:34-35 | After any legal step the recovered count equals the recovered count before the step plus the infected count before it. |
| Cascade.CountPartition | influence_simulator/simulators/indepndent_cascade_simulator.py:40-45 | Every node is counted in exactly one of susceptible, infected and recovered. |
| Cascade.CountUpdate | influence_simulator/simulators/indepndent_cascade_simulator.py:26 | Overwriting one node's state moves that node from its old state's count to its new state's count. |
| Cascade.Steps | influence_simulator/simulators/indepndent_cascade_simulator.py:34-35 | The run from a snapshot is finite. It takes no more steps than there are nodes not yet recovered. |
| Cascade.Final | influence_simulator/simulators/indepndent_cascade_simulator.py:34-43 | The run ends in a terminated state (no node infected) of the same size. The final counter equals the start counter plus the number of steps. At least as many nodes are recovered at the end as steps were taken, on top of those recovered at the start. |
| Cascade.StepUnfolds | influence_simulator/simulators/indepndent_cascade_simulator.py:34-35 | A step taken before termination recovers at least one node. The rest of the run is the run from the stepped model. |
| Cascade.StepsIterations | influence_simulator/simulators/indepndent_cascade_simulator.py:38 | The k-th post-step snapshot carries iteration (start + k + 1), so the counter goes up by one per `step()`. |
| Cascade.RecoveredStaysRecovered | influence_simulator/simulators/indepndent_cascade_simulator.py:34-35 | A node that has recovered is still recovered when the run ends. |
| Cascade.CascadeModel.constructor | influence_simulator/simulators/indepndent_cascade_simulator.py:20-25 | A model built with `initially_infected=0` has every node susceptible and its counter at 0. Its generator is seeded with the given `random_state`. |
| Cascade.CascadeModel.IsTerminated | influence_simulator/simulators/indepndent_cascade_simulator.py:34 | The loop test on the model object holds exactly when none of its nodes is infected. |
| Cascade.CascadeModel.Step | influence_simulator/simulators/indepndent_cascade_simulator.py:35 | `step()` moves the model to exactly the next snapshot of the run specification. |
| InfluenceSimulator.Observe | influence_simulator/simulators/indepndent_cascade_simulator.py:37-38 | The peak never decreases and is at least the current infected count. It either stays as it was or becomes (current count, current iteration). It changes exactly when strictly more nodes are infected than the current peak, so a tie keeps the earlier peak. |
| InfluenceSimulator.Track | influence_simulator/simulators/indepndent_cascade_simulator.py:33-38 | The peak kept over a whole run (each post-step snapshot fed to `Observe` in order) is at least its starting value and at least every post-step infected count. |
| InfluenceSimulator.TrackIsFirstMaximum | influence_simulator/simulators/indepndent_cascade_simulator.py:33-38 | The running peak is the maximum of the starting count and every post-step count. When something exceeds the start, the peak sits at the first snapshot reaching that maximum, and every earlier snapshot has strictly fewer infected nodes. |
| InfluenceSimulator.Seeded | influence_simulator/simulators/indepndent_cascade_simulator.py:19-28 | The model `init_simulation` returns has one state per node, counter 0 and the simulator's own `random_state`. |
| InfluenceSimulator.SeededCounts | influence_simulator/simulators/indepndent_cascade_simulator.py:19-28 | After seeding, `state[node]` is infected and every other node is susceptible. That makes N-1 susceptible, 1 infected and 0 recovered. |
| InfluenceSimulator.NodeOutcome | influence_simulator/simulators/indepndent_cascade_simulator.py:40-47 | The record a run reduces to names its node. `exposed` and `not_exposed`, read from the final state, add up to N because no node is infected when the run ends. The peak is at least its starting value. |
| InfluenceSimulator.OutcomeFacts | influence_simulator/simulators/indepndent_cascade_simulator.py:40-47 | The record names its node. It satisfies 1 <= `simulation_length` <= `exposed` <= N, so a run takes at most N steps. `exposed + not_exposed == N`. The peak is at least its start and lies at the start iteration or within the run. |
| InfluenceSimulator.OutcomePeak | influence_simulator/simulators/indepndent_cascade_simulator.py:33-38 | `peak_infected` bounds every post-step infected count. It is either the starting peak or the count at some step k + 1 that exceeds the start, with every earlier step strictly lower (first occurrence). |
| InfluenceSimulator.ZeroProbabilityOutcome | tests/test_ic_simulator.py:21-28 | When the library reaches nobody at probability 0, a run takes one step and exposes only the seed. The peak stays where it started. |
| InfluenceSimulator.Campaign | influence_simulator/simulators/influence_simulator.py:61-78 | The campaign has exactly one record per graph node. |
| InfluenceSimulator.CampaignFacts | influence_simulator/simulators/influence_simulator.py:61-78 | Record i is about node i of the enumeration, so order follows the graph's node order. Every record satisfies `exposed + not_exposed == N` and 1 <= `simulation_length` <= `exposed`. |
| InfluenceSimulator.Dispatch | influence_simulator/simulators/influence_simulator.py:61-78 | The run is in process iff `n_jobs == 1`. Otherwise the pool is always called with an explicit `max_workers`: None iff `n_jobs <= 0`, and `n_jobs` itself when `n_jobs >= 2`. |
| InfluenceSimulator.ResultRows | influence_simulator/simulators/influence_simulator.py:86-87 | The rows handed to the CSV writer are the header followed by exactly one row per record, with row i + 1 encoding record i. |
| InfluenceSimulator.ReadWrittenRows | influence_simulator/simulators/influence_simulator.py:84-87 | Reading back the written rows returns the same records in the same order. The header comes first and each record has exactly one row. |
| IndependentCascadeSimulator.NodeResult | influence_simulator/simulators/indepndent_cascade_simulator.py:30-48 | The record `simulate_node(node)` returns names the node and has `exposed + not_exposed == N`. Because the peak starts at (1, 0), `peak_infected` >= 1, and `peak_iteration` never exceeds `simulation_length`. |
| IndependentCascadeSimulator.NodeResultPeak | influence_simulator/simulators/indepndent_cascade_simulator.py:33-38 | With the peak starting at (1, 0), `peak_infected` >= 1 and equals the maximum of 1 and all post-step counts. `peak_iteration` is the first iteration reaching it, or 0, and never exceeds `simulation_length`. |
| IndependentCascadeSimulator.ZeroProbabilityCampaign | tests/test_ic_simulator.py:21-28 | At infection probability 0 every record has `simulation_length == 1`, `exposed == 1`, `peak_infected == 1` and `peak_iteration == 0`. |
| IndependentCascadeSimulator.IndependentCascadeSimulator.constructor | influence_simulator/simulators/influence_simulator.py:27-35 | The simulator stores the graph, probability and `random_state`. `result` starts empty. |
| IndependentCascadeSimulator.IndependentCascadeSimulator.InitSimulation | influence_simulator/simulators/indepndent_cascade_simulator.py:19-28 | It returns a fresh model built with the simulator's own parameters and an unchanged `random_state`. `state[node]` is infected and N-1 nodes are susceptible. |
| IndependentCascadeSimulator.IndependentCascadeSimulator.SimulateNode | influence_simulator/simulators/indepndent_cascade_simulator.py:30-48 | The loop returns exactly the specified record for (parameters, node). That record names the node, has `exposed + not_exposed == N` and 1 <= `simulation_length` <= `exposed`, and has `peak_infected` >= 1 with `peak_iteration` <= `simulation_length`. |
| IndependentCascadeSimulator.IndependentCascadeSimulator.MapNodes | influence_simulator/simulators/influence_simulator.py:67 | Running `simulate_node` over the nodes gives the campaign: one record per node, with record i about node i. |
| IndependentCascadeSimulator.IndependentCascadeSimulator.Simulate | influence_simulator/simulators/influence_simulator.py:53-78 | `result` is replaced by the campaign, which is the same list whichever branch `n_jobs` selects. The returned mode is `Dispatch(n_jobs)`. |
| IndependentCascadeSimulator.IndependentCascadeSimulator.SaveResult | influence_simulator/simulators/influence_simulator.py:80-87 | The warning is raised iff `result` is empty. The rows are the header followed by one row per record in order, and they read back to `result`. |
| LegacyInfluenceSimulator.LegacyNodeResult | influence_simulator/influence_simulator.py:53-71 | The legacy record names the node and has `exposed + not_exposed == N`. Because the peak starts at (0, 0), `peak_infected` is 0 exactly when `peak_iteration` is 0, which happens when no step left a node infected. |
| LegacyInfluenceSimulator.TrackFromLowerStart | influence_simulator/influence_simulator.py:56-61 | Tracking from a lower start ends in the same peak once the higher start is exceeded. Otherwise it ends no higher than that start. |
| LegacyInfluenceSimulator.LegacyAgreesWithCurrent | influence_simulator/influence_simulator.py:53-71 | The legacy and current records agree on node, length, exposed and not-exposed. They differ in the peak only when no step left more than one node infected; there the current peak is (1, 0) and the legacy one is at most 1. |
| LegacyInfluenceSimulator.LegacyZeroProbabilityPeak | influence_simulator/influence_simulator.py:56-61 | As written, a probability-0 run reports `peak_infected == 0` at iteration 0, although it exposes its seed. |
| LegacyInfluenceSimulator.LegacyDispatch | influence_simulator/influence_simulator.py:73-88 | Legacy `simulate` runs in process iff `n_jobs == 1`. Otherwise the pool is called without a `max_workers` argument and uses its own default. |
| LegacyInfluenceSimulator.DispatchAgreement | influence_simulator/influence_simulator.py:73-88 | Both versions choose the in-process branch for exactly the same `n_jobs`, and `n_jobs == 1` is the only value on which they configure the run the same way. For `n_jobs <= 0` the current one passes `max_workers=None` and for `n_jobs >= 2` it passes `n_jobs`; the legacy one passes nothing in either case. |
| LegacyInfluenceSimulator.Extension | influence_simulator/influence_simulator.py:92 | The extension is a '.'-free suffix of the path. It is preceded by a '.' when the path has one, and is the whole path otherwise. |
| LegacyInfluenceSimulator.ExtensionOfFileName | influence_simulator/influence_simulator.py:92 | The extension of `stem.ext` is `ext`, whatever `stem` contains. |
| LegacyInfluenceSimulator.GetLoadingFunction | influence_simulator/influence_simulator.py:90-100 | It succeeds iff `read_<extension>` is one of the library's readers, and then returns that reader. Otherwise it fails with a ValueError naming the extension. |
| LegacyInfluenceSimulator.FileNameSelectsReader | influence_simulator/influence_simulator.py:91-100 | A file `stem.<format>` gets `read_<format>` when the library has that reader, and otherwise the error naming `format`. |
| LegacyInfluenceSimulator.InfluenceSimulator.constructor | influence_simulator/influence_simulator.py:25-40 | The simulator stores the graph, probability and `random_state`. `result` starts empty. |
| LegacyInfluenceSimulator.InfluenceSimulator.InitSimulation | influence_simulator/influence_simulator.py:42-51 | It returns a fresh model with the simulator's parameters. `state[node]` is infected and N-1 nodes are susceptible. |
| LegacyInfluenceSimulator.InfluenceSimulator.SimulateNode | influence_simulator/influence_simulator.py:53-71 | The loop returns exactly the legacy record (peak starting at (0, 0)) for (parameters, node). It names the node, has `exposed + not_exposed == N`, 1 <= `simulation_length` <= `exposed`, and `peak_iteration` <= `simulation_length`. |
| LegacyInfluenceSimulator.InfluenceSimulator.MapNodes | influence_simulator/influence_simulator.py:77-88 | Running legacy `simulate_node` over the nodes gives one record per node, with record i about node i. |
| LegacyInfluenceSimulator.InfluenceSimulator.Simulate | influence_simulator/influence_simulator.py:73-88 | `result` is replaced by the legacy campaign whichever branch runs. The returned mode is `LegacyDispatch(n_jobs)`. |
| LegacyInfluenceSimulator.InfluenceSimulator.SaveResult | influence_simulator/influence_simulator.py:109-113 | The rows are the header followed by one row per record in order, and they read back to `result`. No warning is given. |

## Left out

- The diffusion library's infection rule is not modelled: its neighbour iteration, its Bernoulli draws, `state_summary` and its random generator. Its source is not part of this model. The `Transmit` parameter stands for it, and the model assumes only the step shape listed for `Cascade`. `SilentAtZero` states the one extra assumption behind the probability-0 lemmas: at probability 0 nobody is reached.
- `random_state=None` is not modelled. With None each model would draw fresh operating-system entropy. The model takes `random_state` as an integer seed, so a run is a function of the simulator's settings and the node.
- Graph loading is not modelled (`load_graph`, networkx's `read_*`/`write_*`, `convert_node_labels_to_integers`). The same goes for the legacy constructor's path-string form that calls it. All of these are library file I/O. Graphs are given with nodes labelled 0..N-1 (`Graph.Labelled`), which is what the library's state indexing needs.
- `InitSimulation`/`SimulateNode` require the node to be one of the graph's labels. The `IndexError` (or Python's negative-index wrap-around) for other integers is not modelled.
- `process_map`, `tqdm`, `verbose` and `chunksize` are not modelled: worker pools, chunking and progress bars. The parallel branch is the same ordered map as the sequential one, because `process_map` yields in input order. The model returns the `max_workers` argument the pool would receive, or `ParallelDefault` when the call gives none; the worker count `process_map` then picks by default (from the processor count) is not modelled.
- The CSV writer and the file handle are not modelled. `save_result` yields the rows it would write: the header as text cells and each record as six integer cells. Python's `str()` rendering of integers is not modelled. `warnings.warn` is a returned flag.
- `format_delta`'s conversion from float seconds to `timedelta` and its `str()` rendering are not modelled (floating point, library formatting). The model starts from the rendered string. `split(".", 1)[0]` is modelled as the first piece of the full split, which is the same text.
- `timer` and `log_memory` in utils.py are not modelled (clock, `getrusage`, logging). Neither is `__main__.py` (argument parsing, JSON configuration, logging set-up, archives).
- An infection probability outside [0, 1] is not rejected, because the source does not check it.

## Findings

| source | as written | input that shows it | evidently intended | confidence | as-written member | corrected member |
|---|---|---|---|---|---|---|
| influence_simulator/influence_simulator.py:56 | The legacy running peak starts at `Peak(0, 0)`, so the seed infected at iteration 0 is not counted. | Infection probability 0 on any graph: the legacy record has `exposed == 1` but `peak_infected == 0`. | Count the seed as a peak of 1 at iteration 0, as the current simulator (`Peak(infected=1, iteration=0)`) and its test expect. | medium, not executed | `LegacyInfluenceSimulator.LegacyZeroProbabilityPeak` | `IndependentCascadeSimulator.ZeroProbabilityCampaign` |
