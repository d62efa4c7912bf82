/** What the simulators have in common (influence_simulator/simulators/
    influence_simulator.py, and the same records in the older
    influence_simulator/influence_simulator.py): the `Peak` and
    `SimulationResult` records, the running peak kept while a model is
    stepped, the model a node's run starts from, the reduction of a finished
    run to a record, the choice between the sequential and the parallel
    branch, and the rows `save_result` writes. */
module InfluenceSimulator {
  import opened Cascade
  import opened Wrappers

  datatype Peak = Peak(infected: nat, iteration: nat)

  datatype SimulationResult = SimulationResult(
    node: nat,
    simulationLength: nat,
    exposed: nat,
    notExposed: nat,
    peakInfected: nat,
    peakIteration: nat)

  // ---------------------------------------------------------------------
  // The running peak

  function Infections(m: Snapshot): nat
  {
    Count(m.state, Infected)
  }

  /** The peak after looking at one post-step snapshot: replaced only when
      strictly more nodes are infected now. */
  function Observe(peak: Peak, m: Snapshot): (p: Peak)
    ensures p.infected >= peak.infected && p.infected >= Infections(m)
    ensures p == peak || p == Peak(Infections(m), m.iteration)
    ensures p != peak <==> Infections(m) > peak.infected
  {
    if Infections(m) > peak.infected then Peak(Infections(m), m.iteration) else peak
  }

  /** The peak after looking at every snapshot of a trace, in order. */
  function Track(peak: Peak, trace: seq<Snapshot>): (p: Peak)
    ensures p.infected >= peak.infected
    ensures forall k :: 0 <= k < |trace| ==> Infections(trace[k]) <= p.infected
    decreases |trace|
  {
    if trace == [] then peak else Track(Observe(peak, trace[0]), trace[1..])
  }

  /** The tracked peak is the largest infected count seen (or the starting
      value when nothing exceeds it), taken at its FIRST occurrence: either
      nothing in the trace exceeds the start and the peak is the start, or
      the peak is the count and iteration of some snapshot k that exceeds
      the start, and every snapshot before k has strictly fewer infected. */
  lemma {:induction false} TrackIsFirstMaximum(start: Peak, trace: seq<Snapshot>)
    ensures var pk := Track(start, trace);
      pk.infected >= start.infected &&
      (forall k :: 0 <= k < |trace| ==> Infections(trace[k]) <= pk.infected) &&
      ((pk == start && forall k :: 0 <= k < |trace| ==> Infections(trace[k]) <= start.infected) ||
       (exists k :: 0 <= k < |trace| && start.infected < Infections(trace[k]) &&
          pk == Peak(Infections(trace[k]), trace[k].iteration) &&
          forall j :: 0 <= j < k ==> Infections(trace[j]) < pk.infected))
    decreases |trace|
  {
    if trace != [] {
      var next := Observe(start, trace[0]);
      var rest := trace[1..];
      TrackIsFirstMaximum(next, rest);
      var pk := Track(start, trace);
      assert pk == Track(next, rest);
      assert forall k :: 1 <= k < |trace| ==> trace[k] == rest[k - 1];
      if pk == next && forall k :: 0 <= k < |rest| ==> Infections(rest[k]) <= next.infected {
        if next == start {
          assert forall k :: 0 <= k < |trace| ==> Infections(trace[k]) <= start.infected;
        } else {
          assert start.infected < Infections(trace[0]) && pk == Peak(Infections(trace[0]), trace[0].iteration);
        }
      } else {
        var k :| 0 <= k < |rest| && next.infected < Infections(rest[k]) &&
          pk == Peak(Infections(rest[k]), rest[k].iteration) &&
          forall j :: 0 <= j < k ==> Infections(rest[j]) < pk.infected;
        assert trace[k + 1] == rest[k];
        assert forall j :: 0 <= j < k + 1 ==> Infections(trace[j]) < pk.infected by {
          forall j | 0 <= j < k + 1 ensures Infections(trace[j]) < pk.infected {
            if j > 0 { assert trace[j] == rest[j - 1]; }
          }
        }
      }
    }
  }

  // ---------------------------------------------------------------------
  // One node's run

  /** The model `init_simulation(node)` returns: all nodes susceptible but
      `node`, which is infected; counter 0; generator seeded with the
      simulator's own `random_state`. */
  function Seeded(p: Params, node: nat): (m: Snapshot)
    requires node < |p.graph.nodes|
    ensures |m.state| == |p.graph.nodes| && m.iteration == 0 && m.rng == p.randomState
  {
    Snapshot(seq(|p.graph.nodes|, _ => Susceptible)[node := Infected], 0, p.randomState)
  }

  /** Exactly `node` is infected after seeding and the other N - 1 nodes are
      susceptible; none is recovered. */
  lemma SeededCounts(p: Params, node: nat)
    requires node < |p.graph.nodes|
    ensures var s := Seeded(p, node).state;
      s[node] == Infected &&
      (forall i :: 0 <= i < |s| && i != node ==> s[i] == Susceptible) &&
      Count(s, Susceptible) == |s| - 1 && Count(s, Infected) == 1 && Count(s, Recovered) == 0
  {
    var all := seq(|p.graph.nodes|, _ => Susceptible);
    AllSusceptibleCounts(all);
    CountUpdate(all, node, Infected, Susceptible);
    CountUpdate(all, node, Infected, Infected);
    CountUpdate(all, node, Infected, Recovered);
  }

  lemma {:induction false} AllSusceptibleCounts(s: seq<State>)
    requires forall i :: 0 <= i < |s| ==> s[i] == Susceptible
    ensures Count(s, Susceptible) == |s| && Count(s, Infected) == 0 && Count(s, Recovered) == 0
    decreases |s|
  {
    if s != [] {
      AllSusceptibleCounts(s[1..]);
    }
  }

  /** The record `simulate_node(node)` returns for a run that starts from the
      seeded model and keeps its peak from `start`. */
  function NodeOutcome(p: Params, node: nat, start: Peak): (r: SimulationResult)
    requires node < |p.graph.nodes|
    ensures r.node == node && r.peakInfected >= start.infected
    ensures r.exposed + r.notExposed == |p.graph.nodes|
  {
    var m0 := Seeded(p, node);
    var last := Final(p, m0);
    CountPartition(last.state);
    var peak := Track(start, Steps(p, m0));
    SimulationResult(node, last.iteration, Count(last.state, Recovered),
                     Count(last.state, Susceptible), peak.infected, peak.iteration)
  }

  /** What every record promises, whatever the diffusion does: it names its
      node; the run took at least one step and at most as many steps as nodes
      it exposed; every node is either exposed or not exposed
      (exposed + not_exposed == N); the peak is at least the starting count;
      and the peak was taken at the starting iteration or during the run. */
  lemma OutcomeFacts(p: Params, node: nat, start: Peak)
    requires node < |p.graph.nodes|
    ensures var r := NodeOutcome(p, node, start);
      r.node == node &&
      1 <= r.simulationLength <= r.exposed <= |p.graph.nodes| &&
      r.exposed + r.notExposed == |p.graph.nodes| &&
      r.peakInfected >= start.infected &&
      (r.peakIteration == start.iteration || 1 <= r.peakIteration <= r.simulationLength)
  {
    var m0 := Seeded(p, node);
    SeededCounts(p, node);
    var last := Final(p, m0);
    CountPartition(last.state);
    var trace := Steps(p, m0);
    TrackIsFirstMaximum(start, trace);
    var pk := Track(start, trace);
    if pk != start {
      var k :| 0 <= k < |trace| && pk == Peak(Infections(trace[k]), trace[k].iteration);
      StepsIterations(p, m0, k);
    }
  }

  /** A run's peak is the largest post-step infected count (or the starting
      count when none exceeds it), first reached at the recorded iteration. */
  lemma OutcomePeak(p: Params, node: nat, start: Peak)
    requires node < |p.graph.nodes|
    ensures var r := NodeOutcome(p, node, start);
      var trace := Steps(p, Seeded(p, node));
      (forall k :: 0 <= k < |trace| ==> Infections(trace[k]) <= r.peakInfected) &&
      ((r.peakInfected == start.infected && r.peakIteration == start.iteration) ||
       (exists k :: 0 <= k < |trace| && r.peakInfected == Infections(trace[k]) > start.infected &&
          r.peakIteration == k + 1 &&
          forall j :: 0 <= j < k ==> Infections(trace[j]) < r.peakInfected))
  {
    var m0 := Seeded(p, node);
    var trace := Steps(p, m0);
    TrackIsFirstMaximum(start, trace);
    var pk := Track(start, trace);
    if pk != start {
      var k :| 0 <= k < |trace| && start.infected < Infections(trace[k]) &&
        pk == Peak(Infections(trace[k]), trace[k].iteration) &&
        forall j :: 0 <= j < k ==> Infections(trace[j]) < pk.infected;
      StepsIterations(p, m0, k);
    }
  }

  /** The library reaches nobody when the infection probability is 0. */
  ghost predicate SilentAtZero(p: Params)
  {
    p.infectionProbability == 0.0 &&
    forall r, s :: p.transmit(p.graph, 0.0, r, s).0 == {}
  }

  /** With infection probability 0 the seed recovers in the first step and
      nothing else happens: one step, one exposed node, no node infected after
      the step, and so the peak stays where it started. */
  lemma ZeroProbabilityOutcome(p: Params, node: nat, start: Peak)
    requires node < |p.graph.nodes| && SilentAtZero(p)
    ensures var r := NodeOutcome(p, node, start);
      r.simulationLength == 1 && r.exposed == 1 && r.notExposed == |p.graph.nodes| - 1 &&
      r.peakInfected == start.infected && r.peakIteration == start.iteration
  {
    var m0 := Seeded(p, node);
    SeededCounts(p, node);
    var m1 := Advance(p, m0);
    assert m1.state == Spread(m0.state, {});
    StepRecovers(m0.state, m1.state);
    assert Terminated(m1.state);
    assert Steps(p, m0) == [m1];
    assert Final(p, m0) == m1;
    CountPartition(m1.state);
    assert Infections(m1) == 0;
    assert Track(start, [m1]) == Track(Observe(start, m1), [m1][1..]);
  }

  // ---------------------------------------------------------------------
  // The campaign over all nodes

  /** One record per node, in the graph's node order: what both the
      list comprehension and `process_map` (which yields in input order)
      produce. */
  function Campaign(p: Params, start: Peak): (rs: seq<SimulationResult>)
    requires p.graph.Labelled()
    ensures |rs| == |p.graph.nodes|
  {
    seq(|p.graph.nodes|, i requires 0 <= i < |p.graph.nodes| => NodeOutcome(p, p.graph.nodes[i], start))
  }

  /** The campaign has exactly one record per node, and record i is about
      node i of the enumeration and satisfies the per-record invariants. */
  lemma CampaignFacts(p: Params, start: Peak)
    requires p.graph.Labelled()
    ensures var rs := Campaign(p, start);
      |rs| == |p.graph.nodes| &&
      forall i :: 0 <= i < |rs| ==>
        rs[i].node == p.graph.nodes[i] &&
        rs[i].exposed + rs[i].notExposed == |p.graph.nodes| &&
        1 <= rs[i].simulationLength <= rs[i].exposed
  {
    var rs := Campaign(p, start);
    forall i | 0 <= i < |rs|
      ensures rs[i].node == p.graph.nodes[i] && rs[i].exposed + rs[i].notExposed == |p.graph.nodes|
      ensures 1 <= rs[i].simulationLength <= rs[i].exposed
    {
      assert rs[i] == NodeOutcome(p, p.graph.nodes[i], start);
      OutcomeFacts(p, p.graph.nodes[i], start);
    }
  }

  /** A prefix one longer is the prefix followed by the next element; kept
      as a lemma so that this sequence identity is proved apart from the
      records it is applied to. */
  lemma PrefixExtends<T>(s: seq<T>, i: nat)
    requires i < |s|
    ensures s[..i + 1] == s[..i] + [s[i]]
  {
  }

  /** How `simulate` runs the nodes: in process, on a pool given an explicit
      `max_workers` argument (which may be None), or on a pool called without
      one, which then uses `process_map`'s own default. */
  datatype Mode = Sequential | Parallel(maxWorkers: Option<int>) | ParallelDefault

  /** The branch `simulate(n_jobs=...)` takes: `n_jobs == 1` runs in process;
      any other value runs on a process pool, where a non-positive value is
      replaced by None ("as many workers as there are processors") and a
      larger one is passed on as the worker count. */
  function Dispatch(nJobs: int): (mode: Mode)
    ensures mode.Sequential? <==> nJobs == 1
    ensures !mode.ParallelDefault?
    ensures mode.Parallel? ==> (mode.maxWorkers.None? <==> nJobs <= 0)
    ensures mode.Parallel? && mode.maxWorkers.Some? ==> mode.maxWorkers.value == nJobs >= 2
  {
    if nJobs == 1 then Sequential
    else Parallel(if nJobs <= 0 then None else Some(nJobs))
  }

  // ---------------------------------------------------------------------
  // The rows save_result writes

  datatype Cell = Text(text: string) | Number(value: int)

  type Row = seq<Cell>

  /** `SimulationResult._fields` */
  const Fields: seq<string> :=
    ["node", "simulation_length", "exposed", "not_exposed", "peak_infected", "peak_iteration"]

  function HeaderRow(): Row
  {
    seq(|Fields|, i requires 0 <= i < |Fields| => Text(Fields[i]))
  }

  function RecordRow(r: SimulationResult): (row: Row)
  {
    [Number(r.node), Number(r.simulationLength), Number(r.exposed),
     Number(r.notExposed), Number(r.peakInfected), Number(r.peakIteration)]
  }

  /** The rows the CSV writer receives: the header, then one row per record
      in list order. */
  function ResultRows(rs: seq<SimulationResult>): (rows: seq<Row>)
    ensures |rows| == |rs| + 1 && rows[0] == HeaderRow()
    ensures forall i :: 0 <= i < |rs| ==> rows[i + 1] == RecordRow(rs[i])
  {
    [HeaderRow()] + seq(|rs|, i requires 0 <= i < |rs| => RecordRow(rs[i]))
  }

  /** A reader of what `save_result` writes: the header, then six
      non-negative numbers per row. */
  function ReadRows(rows: seq<Row>): Option<seq<SimulationResult>>
  {
    if rows == [] || rows[0] != HeaderRow() then None
    else ReadRecords(rows[1..])
  }

  function ReadRecords(rows: seq<Row>): Option<seq<SimulationResult>>
    decreases |rows|
  {
    if rows == [] then Some([])
    else
      match (ReadRecord(rows[0]), ReadRecords(rows[1..]))
      case (Some(r), Some(rs)) => Some([r] + rs)
      case _ => None
  }

  function ReadRecord(row: Row): Option<SimulationResult>
  {
    if |row| == 6 && forall i :: 0 <= i < 6 ==> row[i].Number? && row[i].value >= 0 then
      Some(SimulationResult(row[0].value, row[1].value, row[2].value,
                            row[3].value, row[4].value, row[5].value))
    else None
  }

  /** Reading back what was written gives the same records in the same
      order: the header comes first and every record has exactly one row. */
  lemma {:induction false} ReadWrittenRows(rs: seq<SimulationResult>)
    ensures ReadRows(ResultRows(rs)) == Some(rs)
  {
    RecordsRoundTrip(rs);
    assert ResultRows(rs)[1..] == seq(|rs|, i requires 0 <= i < |rs| => RecordRow(rs[i]));
  }

  lemma {:induction false} RecordsRoundTrip(rs: seq<SimulationResult>)
    ensures ReadRecords(seq(|rs|, i requires 0 <= i < |rs| => RecordRow(rs[i]))) == Some(rs)
    decreases |rs|
  {
    var rows := seq(|rs|, i requires 0 <= i < |rs| => RecordRow(rs[i]));
    if rs != [] {
      assert rows[1..] == seq(|rs[1..]|, i requires 0 <= i < |rs[1..]| => RecordRow(rs[1..][i]));
      RecordsRoundTrip(rs[1..]);
      assert ReadRecord(rows[0]) == Some(rs[0]);
      assert rs == [rs[0]] + rs[1..];
    }
  }
}
