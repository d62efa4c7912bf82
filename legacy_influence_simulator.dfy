/** The older, single-class simulator (influence_simulator/influence_simulator.py):
    the same run and records as the current one, except that the running peak
    starts at (0, 0), `n_jobs` is normalised before the branch and never
    handed to the pool, `save_result` gives no warning, and the graph file's
    reader is chosen from its extension. */
module LegacyInfluenceSimulator {
  import opened Cascade
  import opened Wrappers
  import opened Strings
  import opened Base = InfluenceSimulator
  import Current = IndependentCascadeSimulator

  /** The peak a legacy run starts from: nothing infected at iteration 0. */
  const LegacyPeak := Peak(0, 0)

  /** The record the legacy `simulate_node(node)` returns. */
  function LegacyNodeResult(p: Params, node: nat): (r: SimulationResult)
    requires node < |p.graph.nodes|
    ensures r.node == node && r.exposed + r.notExposed == |p.graph.nodes|
    ensures r.peakInfected == 0 <==> r.peakIteration == 0
  {
    OutcomeFacts(p, node, LegacyPeak);
    OutcomePeak(p, node, LegacyPeak);
    NodeOutcome(p, node, LegacyPeak)
  }

  /** Starting the same trace from a lower peak ends in the same peak as
      soon as the higher start is exceeded somewhere; otherwise it ends no
      higher than that start. */
  lemma {:induction false} TrackFromLowerStart(a: Peak, b: Peak, trace: seq<Snapshot>)
    requires a.infected <= b.infected
    ensures Track(b, trace).infected > b.infected ==> Track(a, trace) == Track(b, trace)
    ensures Track(b, trace) == b ==> Track(a, trace).infected <= b.infected
    decreases |trace|
  {
    if trace != [] {
      var x := trace[0];
      if Infections(x) > b.infected {
        assert Observe(a, x) == Observe(b, x);
      } else {
        TrackFromLowerStart(Observe(a, x), b, trace[1..]);
      }
    }
  }

  /** The legacy and the current simulator give the same record for a node,
      except for the peak when no step left more than one node infected:
      there the current one reports (1, 0), for the seed at iteration 0, and
      the legacy one at most 1 infected. */
  lemma LegacyAgreesWithCurrent(p: Params, node: nat)
    requires node < |p.graph.nodes|
    ensures var legacy := LegacyNodeResult(p, node);
      var current := Current.NodeResult(p, node);
      legacy.node == current.node && legacy.simulationLength == current.simulationLength &&
      legacy.exposed == current.exposed && legacy.notExposed == current.notExposed &&
      (current.peakInfected > 1 ==> legacy == current) &&
      (current.peakInfected == 1 ==> current.peakIteration == 0 && legacy.peakInfected <= 1)
  {
    var trace := Steps(p, Seeded(p, node));
    TrackFromLowerStart(LegacyPeak, Current.InitialPeak, trace);
    Current.NodeResultPeak(p, node);
  }

  /** As written, a legacy run with infection probability 0 reports a peak of
      0 infected nodes at iteration 0, although its seed was infected at
      iteration 0 and is counted in `exposed`. */
  lemma LegacyZeroProbabilityPeak(p: Params, node: nat)
    requires node < |p.graph.nodes| && SilentAtZero(p)
    ensures var r := LegacyNodeResult(p, node);
      r.simulationLength == 1 && r.exposed == 1 && r.peakInfected == 0 && r.peakIteration == 0
  {
    ZeroProbabilityOutcome(p, node, LegacyPeak);
  }

  /** The branch the legacy `simulate(n_jobs=...)` takes: a non-positive
      `n_jobs` becomes None first, which is not 1; only `n_jobs == 1` runs in
      process, and the pool is called without a `max_workers` argument. */
  function LegacyDispatch(nJobs: int): (mode: Mode)
    ensures mode.Sequential? <==> nJobs == 1
    ensures !mode.Sequential? ==> mode == ParallelDefault
  {
    var jobs := if nJobs <= 0 then None else Some(nJobs);
    if jobs == Some(1) then Sequential else ParallelDefault
  }

  /** Both simulators run in process for exactly `n_jobs == 1`, and that is
      the only `n_jobs` on which they configure the run the same way: the
      current one always hands the pool an explicit `max_workers` (None for a
      non-positive `n_jobs`), the legacy one never does. */
  lemma DispatchAgreement(nJobs: int)
    ensures LegacyDispatch(nJobs).Sequential? == Dispatch(nJobs).Sequential?
    ensures LegacyDispatch(nJobs) == Dispatch(nJobs) <==> nJobs == 1
    ensures nJobs >= 2 ==> Dispatch(nJobs) == Parallel(Some(nJobs)) && LegacyDispatch(nJobs) == ParallelDefault
    ensures nJobs <= 0 ==> Dispatch(nJobs) == Parallel(None) && LegacyDispatch(nJobs) == ParallelDefault
  {
  }

  // ---------------------------------------------------------------------
  // Choosing a graph reader

  /** `path.split(".")[-1]`: the text after the last '.', or the whole path
      when it has no '.'. */
  function Extension(path: string): (ext: string)
    ensures '.' !in ext
    ensures |ext| <= |path| && ext == path[|path| - |ext|..]
    ensures '.' in path ==> |ext| < |path| && path[|path| - |ext| - 1] == '.'
    ensures '.' !in path ==> ext == path
  {
    var parts := Split(path, '.');
    if |parts| >= 2 then
      JoinLast(parts, '.');
      parts[|parts| - 1]
    else
      parts[0]
  }

  /** The extension of `stem.ext` is `ext`, whatever the stem holds. */
  lemma ExtensionOfFileName(stem: string, ext: string)
    requires '.' !in ext
    ensures Extension(stem + "." + ext) == ext
  {
    var path := stem + "." + ext;
    assert path[|stem|] == '.';
    var e := Extension(path);
    assert e == path[|stem| + 1..];
  }

  /** The `ValueError` raised for an extension networkx has no reader for. */
  datatype LoadError = ValueError(format: string)

  /** `get_loading_function(path)`: the networkx reader `read_<extension>`
      when the library has one (`readers` are the names it has), and a
      ValueError naming the extension otherwise. */
  function GetLoadingFunction(path: string, readers: set<string>): (r: Result<string, LoadError>)
    ensures r.Ok? <==> "read_" + Extension(path) in readers
    ensures r.Ok? ==> r.value in readers && r.value == "read_" + Extension(path)
    ensures r.Err? ==> r.error.format == Extension(path) && '.' !in r.error.format
  {
    var reader := "read_" + Extension(path);
    if reader in readers then Ok(reader) else Err(ValueError(Extension(path)))
  }

  /** A file `stem.<format>` is read with `read_<format>` when the library has
      that reader (the tests use gml, graphml, pajek, adjlist and edgelist),
      and refused with a ValueError naming `format` when it has not. */
  lemma FileNameSelectsReader(stem: string, format: string, readers: set<string>)
    requires '.' !in format
    ensures var r := GetLoadingFunction(stem + "." + format, readers);
      if "read_" + format in readers then r == Ok("read_" + format)
      else r == Err(ValueError(format))
  {
    ExtensionOfFileName(stem, format);
  }

  class InfluenceSimulator {
    const graph: Graph
    const infectionProbability: real
    const randomState: int
    /** The diffusion library's infection draws. */
    const transmit: Transmit
    var result: seq<SimulationResult>

    predicate Valid()
    {
      graph.Labelled()
    }

    function ModelParams(): Params
    {
      Params(graph, infectionProbability, randomState, transmit)
    }

    constructor (graph: Graph, infectionProbability: real, randomState: int, transmit: Transmit)
      requires graph.Labelled()
      ensures Valid()
      ensures this.graph == graph && this.infectionProbability == infectionProbability
      ensures this.randomState == randomState && this.transmit == transmit
      ensures result == []
    {
      this.graph := graph;
      this.infectionProbability := infectionProbability;
      this.randomState := randomState;
      this.transmit := transmit;
      result := [];
    }

    /** A fresh model seeded with exactly `node` infected and the
        simulator's `random_state`. */
    method InitSimulation(node: nat) returns (model: CascadeModel)
      requires Valid() && node < |graph.nodes|
      ensures fresh(model)
      ensures model.params == ModelParams()
      ensures model.Current() == Seeded(ModelParams(), node)
      ensures model.state[node] == Infected
      ensures Count(model.state, Susceptible) == |graph.nodes| - 1
    {
      model := new CascadeModel(ModelParams());
      model.state := model.state[node := Infected];
      SeededCounts(ModelParams(), node);
    }

    /** Step the seeded model until it terminates, keeping the running peak
        from (0, 0), and reduce the final state to a record. */
    method SimulateNode(node: nat) returns (r: SimulationResult)
      requires Valid() && node < |graph.nodes|
      ensures r == LegacyNodeResult(ModelParams(), node)
      ensures r.node == node
      ensures r.exposed + r.notExposed == |graph.nodes|
      ensures 1 <= r.simulationLength <= r.exposed
      ensures r.peakIteration <= r.simulationLength
    {
      var model := InitSimulation(node);
      ghost var p := ModelParams();
      ghost var m0 := model.Current();

      var peak := LegacyPeak;
      while !model.IsTerminated()
        invariant model.params == p && |model.state| == |graph.nodes|
        invariant Final(p, model.Current()) == Final(p, m0)
        invariant Track(peak, Steps(p, model.Current())) == Track(LegacyPeak, Steps(p, m0))
        decreases |model.state| - Count(model.state, Recovered)
      {
        StepUnfolds(p, model.Current());
        model.Step();
        var infected := Count(model.state, Infected);
        if infected > peak.infected {
          peak := Peak(infected, model.iteration);
        }
      }

      assert Final(p, model.Current()) == model.Current() && Steps(p, model.Current()) == [];
      r := SimulationResult(node, model.iteration, Count(model.state, Recovered),
                            Count(model.state, Susceptible), peak.infected, peak.iteration);
      assert r == LegacyNodeResult(p, node);
      OutcomeFacts(p, node, LegacyPeak);
    }

    /** `simulate_node` over every node in the graph's node order. */
    method MapNodes() returns (rs: seq<SimulationResult>)
      requires Valid()
      ensures rs == Campaign(ModelParams(), LegacyPeak)
      ensures |rs| == |graph.nodes|
      ensures forall i :: 0 <= i < |rs| ==> rs[i].node == graph.nodes[i]
    {
      ghost var all := Campaign(ModelParams(), LegacyPeak);
      rs := [];
      for i := 0 to |graph.nodes|
        invariant rs == all[..i]
      {
        var r := SimulateNode(graph.nodes[i]);
        PrefixExtends(all, i);
        rs := rs + [r];
      }
      assert all[..|graph.nodes|] == all;
      CampaignFacts(ModelParams(), LegacyPeak);
    }

    /** `simulate(n_jobs=...)`: the result list is replaced by one record per
        node in node order, whichever branch `n_jobs` selects. */
    method Simulate(nJobs: int) returns (mode: Mode)
      requires Valid()
      modifies this
      ensures Valid()
      ensures mode == LegacyDispatch(nJobs)
      ensures result == Campaign(ModelParams(), LegacyPeak)
      ensures |result| == |graph.nodes|
      ensures forall i :: 0 <= i < |result| ==> result[i].node == graph.nodes[i]
    {
      var jobs := if nJobs <= 0 then None else Some(nJobs);
      if jobs == Some(1) {
        mode := Sequential;
        result := MapNodes();
      } else {
        mode := ParallelDefault;
        result := MapNodes();
      }
    }

    /** `save_result`: the header row, then one row per record in list
        order; an empty list gives the header alone and no warning. */
    method SaveResult() returns (rows: seq<Row>)
      ensures rows == ResultRows(result)
      ensures |rows| == |result| + 1 && rows[0] == HeaderRow()
      ensures ReadRows(rows) == Some(result)
    {
      rows := ResultRows(result);
      ReadWrittenRows(result);
    }
  }
}
