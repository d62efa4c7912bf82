/** The current simulator: `IndependentCascadeSimulator`
    (influence_simulator/simulators/indepndent_cascade_simulator.py) with the
    `simulate` and `save_result` it inherits from the `InfluenceSimulator` base
    class (influence_simulator/simulators/influence_simulator.py). */
module IndependentCascadeSimulator {
  import opened Cascade
  import opened Wrappers
  import opened InfluenceSimulator

  /** The peak a run starts from: the seed itself, infected at iteration 0. */
  const InitialPeak := Peak(1, 0)

  /** The record `simulate_node(node)` returns. */
  function NodeResult(p: Params, node: nat): (r: SimulationResult)
    requires node < |p.graph.nodes|
    ensures r.node == node && r.exposed + r.notExposed == |p.graph.nodes|
    ensures r.peakInfected >= 1 && r.peakIteration <= r.simulationLength
  {
    OutcomeFacts(p, node, InitialPeak);
    NodeOutcome(p, node, InitialPeak)
  }

  /** Because the run counts the seed as a peak of 1 at iteration 0, every
      record has `peak_infected >= 1`, equal to the largest of 1 and every
      post-step infected count, with `peak_iteration` the first iteration it
      was reached (0 when no step infected more than one node), never after
      the run's last iteration. */
  lemma NodeResultPeak(p: Params, node: nat)
    requires node < |p.graph.nodes|
    ensures var r := NodeResult(p, node);
      var trace := Steps(p, Seeded(p, node));
      r.peakInfected >= 1 && r.peakIteration <= r.simulationLength &&
      (forall k :: 0 <= k < |trace| ==> Infections(trace[k]) <= r.peakInfected) &&
      ((r.peakInfected == 1 && r.peakIteration == 0) ||
       (exists k :: 0 <= k < |trace| && r.peakInfected == Infections(trace[k]) > 1 &&
          r.peakIteration == k + 1 &&
          forall j :: 0 <= j < k ==> Infections(trace[j]) < r.peakInfected))
  {
    OutcomeFacts(p, node, InitialPeak);
    OutcomePeak(p, node, InitialPeak);
  }

  /** With infection probability 0 every record of a campaign is
      `simulation_length == 1`, `exposed == 1`, `peak_infected == 1`,
      `peak_iteration == 0`. */
  lemma ZeroProbabilityCampaign(p: Params)
    requires p.graph.Labelled() && SilentAtZero(p)
    ensures forall i :: 0 <= i < |p.graph.nodes| ==>
      var r := Campaign(p, InitialPeak)[i];
      r.simulationLength == 1 && r.exposed == 1 && r.peakInfected == 1 && r.peakIteration == 0
  {
    var rs := Campaign(p, InitialPeak);
    forall i | 0 <= i < |p.graph.nodes|
      ensures rs[i].simulationLength == 1 && rs[i].exposed == 1
      ensures rs[i].peakInfected == 1 && rs[i].peakIteration == 0
    {
      assert rs[i] == NodeOutcome(p, p.graph.nodes[i], InitialPeak);
      ZeroProbabilityOutcome(p, p.graph.nodes[i], InitialPeak);
    }
  }

  class IndependentCascadeSimulator {
    const graph: Graph
    const infectionProbability: real
    const randomState: int
    /** The diffusion library's infection draws. */
    const transmit: Transmit
    var result: seq<SimulationResult>

    predicate Valid()
    {
      graph.Labelled()
    }

    /** The arguments every per-node model is built with. */
    function ModelParams(): Params
    {
      Params(graph, infectionProbability, randomState, transmit)
    }

    constructor (graph: Graph, infectionProbability: real, randomState: int, transmit: Transmit)
      requires graph.Labelled()
      ensures Valid()
      ensures this.graph == graph && this.infectionProbability == infectionProbability
      ensures this.randomState == randomState && this.transmit == transmit
      ensures result == []
    {
      this.graph := graph;
      this.infectionProbability := infectionProbability;
      this.randomState := randomState;
      this.transmit := transmit;
      result := [];
    }

    /** A fresh model with every node susceptible except `node`, which is
        infected. It gets the simulator's own `random_state`, unchanged, so a
        node's run depends on the simulator's settings and the node only. */
    method InitSimulation(node: nat) returns (model: CascadeModel)
      requires Valid() && node < |graph.nodes|
      ensures fresh(model)
      ensures model.params == ModelParams()
      ensures model.Current() == Seeded(ModelParams(), node)
      ensures model.state[node] == Infected
      ensures Count(model.state, Susceptible) == |graph.nodes| - 1
    {
      model := new CascadeModel(ModelParams());
      model.state := model.state[node := Infected];
      SeededCounts(ModelParams(), node);
    }

    /** Step the seeded model until it terminates, keeping the running peak,
        and reduce the final state to a record. */
    method SimulateNode(node: nat) returns (r: SimulationResult)
      requires Valid() && node < |graph.nodes|
      ensures r == NodeResult(ModelParams(), node)
      ensures r.node == node
      ensures r.exposed + r.notExposed == |graph.nodes|
      ensures 1 <= r.simulationLength <= r.exposed
      ensures r.peakInfected >= 1 && r.peakIteration <= r.simulationLength
    {
      var model := InitSimulation(node);
      ghost var p := ModelParams();
      ghost var m0 := model.Current();

      var peak := InitialPeak;
      while !model.IsTerminated()
        invariant model.params == p && |model.state| == |graph.nodes|
        invariant Final(p, model.Current()) == Final(p, m0)
        invariant Track(peak, Steps(p, model.Current())) == Track(InitialPeak, Steps(p, m0))
        decreases |model.state| - Count(model.state, Recovered)
      {
        StepUnfolds(p, model.Current());
        model.Step();
        var infected := Count(model.state, Infected);
        if infected > peak.infected {
          peak := Peak(infected, model.iteration);
        }
      }

      assert Final(p, model.Current()) == model.Current() && Steps(p, model.Current()) == [];
      r := SimulationResult(node, model.iteration, Count(model.state, Recovered),
                            Count(model.state, Susceptible), peak.infected, peak.iteration);
      assert r == NodeResult(p, node);
      OutcomeFacts(p, node, InitialPeak);
    }

    /** `simulate_node` over every node, in the graph's node order: the list
        comprehension of the sequential branch and the ordered result of
        `process_map` in the parallel one. */
    method MapNodes() returns (rs: seq<SimulationResult>)
      requires Valid()
      ensures rs == Campaign(ModelParams(), InitialPeak)
      ensures |rs| == |graph.nodes|
      ensures forall i :: 0 <= i < |rs| ==> rs[i].node == graph.nodes[i]
    {
      ghost var all := Campaign(ModelParams(), InitialPeak);
      rs := [];
      for i := 0 to |graph.nodes|
        invariant rs == all[..i]
      {
        var r := SimulateNode(graph.nodes[i]);
        PrefixExtends(all, i);
        rs := rs + [r];
      }
      assert all[..|graph.nodes|] == all;
      CampaignFacts(ModelParams(), InitialPeak);
    }

    /** `simulate(n_jobs=...)`: the result list is replaced, never extended,
        by one record per node in node order, the same list whichever branch
        `n_jobs` selects. The branch and the worker count handed to the pool
        are returned. */
    method Simulate(nJobs: int) returns (mode: Mode)
      requires Valid()
      modifies this
      ensures Valid()
      ensures mode == Dispatch(nJobs)
      ensures result == Campaign(ModelParams(), InitialPeak)
      ensures |result| == |graph.nodes|
      ensures forall i :: 0 <= i < |result| ==> result[i].node == graph.nodes[i]
    {
      if nJobs == 1 {
        mode := Sequential;
        result := MapNodes();
      } else {
        var workers := if nJobs <= 0 then None else Some(nJobs);
        mode := Parallel(workers);
        result := MapNodes();
      }
    }

    /** `save_result`: the rows written, the header first and then one row
        per record in list order, and whether the empty-result warning is
        raised; an empty list still gets its header row. */
    method SaveResult() returns (rows: seq<Row>, warned: bool)
      ensures warned <==> result == []
      ensures rows == ResultRows(result)
      ensures |rows| == |result| + 1 && rows[0] == HeaderRow()
      ensures ReadRows(rows) == Some(result)
    {
      warned := result == [];
      rows := ResultRows(result);
      ReadWrittenRows(result);
    }
  }
}
