/** The Independent Cascade model the simulators drive (the diffusion
    library's `IndependentCascadeModel`), seen only through what the
    simulators rely on: a vector of node states, an iteration counter, a
    private random generator, and a step in which every infected node
    recovers and some susceptible nodes become infected. Which susceptible
    nodes are reached is the library's business: a `Transmit` function, fixed
    per model, decides it from the graph, the infection probability, the
    generator state and the current node states. */
module Cascade {

  datatype State = Susceptible | Infected | Recovered

  /** A network: its nodes in enumeration order, and its edges. */
  datatype Graph = Graph(nodes: seq<nat>, edges: set<(nat, nat)>)
  {
    /** The nodes are labelled 0 .. N-1, each label once, so that a node's
        label is its index into the model's state vector. */
    predicate Labelled()
    {
      (forall i :: 0 <= i < |nodes| ==> nodes[i] < |nodes|) &&
      (forall i, j :: 0 <= i < j < |nodes| ==> nodes[i] != nodes[j])
    }
  }

  /** The library's random infection draws: given the graph, the infection
      probability, the generator state and the node states, the set of nodes
      reached in this step and the next generator state. */
  type Transmit = (Graph, real, int, seq<State>) -> (set<nat>, int)

  /** The arguments a model is built with. */
  datatype Params = Params(graph: Graph, infectionProbability: real, randomState: int, transmit: Transmit)

  /** Everything one step reads and writes. */
  datatype Snapshot = Snapshot(state: seq<State>, iteration: nat, rng: int)

  /** Number of nodes in state `x` (Python's `state.count(x)`, the entries
      of `state_summary`). */
  function Count(s: seq<State>, x: State): (n: nat)
    ensures n <= |s|
    ensures n == 0 <==> x !in s
  {
    if s == [] then 0 else (if s[0] == x then 1 else 0) + Count(s[1..], x)
  }

  /** The library's `terminated`: no node is infected. */
  predicate Terminated(s: seq<State>)
    ensures Terminated(s) <==> Count(s, Infected) == 0
  {
    Infected !in s
  }

  /** One node's change in a step, given whether the infected nodes reached it. */
  function NextState(x: State, reached: bool): State
  {
    match x
    case Infected => Recovered
    case Recovered => Recovered
    case Susceptible => if reached then Infected else Susceptible
  }

  /** The state vector after a step in which `reached` are the nodes the
      infected ones reached. */
  function Spread(s: seq<State>, reached: set<nat>): (t: seq<State>)
    ensures IsStep(s, t)
    ensures forall i :: 0 <= i < |s| && s[i] == Susceptible ==> (t[i] == Infected <==> i in reached)
  {
    seq(|s|, i requires 0 <= i < |s| => NextState(s[i], i in reached))
  }

  /** One `step()`: the counter goes up by one and the generator advances. */
  function Advance(p: Params, m: Snapshot): (m': Snapshot)
    ensures m'.iteration == m.iteration + 1
    ensures |m'.state| == |m.state|
    ensures IsStep(m.state, m'.state)
    ensures m'.rng == p.transmit(p.graph, p.infectionProbability, m.rng, m.state).1
  {
    var (reached, rng) := p.transmit(p.graph, p.infectionProbability, m.rng, m.state);
    Snapshot(Spread(m.state, reached), m.iteration + 1, rng)
  }

  /** A state vector `t` that some step can produce from `s`. */
  ghost predicate IsStep(s: seq<State>, t: seq<State>)
  {
    |t| == |s| &&
    forall i :: 0 <= i < |s| ==>
      (s[i] == Infected ==> t[i] == Recovered) &&
      (s[i] == Recovered ==> t[i] == Recovered) &&
      (s[i] == Susceptible ==> t[i] != Recovered)
  }

  /** After a step the recovered are those recovered or infected before it. */
  lemma {:induction false} StepRecovers(s: seq<State>, t: seq<State>)
    requires IsStep(s, t)
    ensures Count(t, Recovered) == Count(s, Recovered) + Count(s, Infected)
    decreases |s|
  {
    if s != [] {
      assert IsStep(s[1..], t[1..]) by {
        forall i | 0 <= i < |s[1..]| ensures t[1..][i] == t[i + 1] && s[1..][i] == s[i + 1] { }
      }
      StepRecovers(s[1..], t[1..]);
    }
  }

  /** Every node is in exactly one of the three states. */
  lemma {:induction false} CountPartition(s: seq<State>)
    ensures Count(s, Susceptible) + Count(s, Infected) + Count(s, Recovered) == |s|
    decreases |s|
  {
    if s != [] {
      CountPartition(s[1..]);
    }
  }

  /** Overwriting one entry moves one node from its old state's count to the
      new state's count. */
  lemma {:induction false} CountUpdate(s: seq<State>, i: nat, x: State, y: State)
    requires i < |s|
    ensures Count(s[i := x], y) + (if s[i] == y then 1 else 0) == Count(s, y) + (if x == y then 1 else 0)
    decreases |s|
  {
    if i > 0 {
      assert s[i := x][1..] == s[1..][i - 1 := x];
      CountUpdate(s[1..], i - 1, x, y);
    } else {
      assert s[i := x][1..] == s[1..];
    }
  }

  /** The snapshots after each step, from `m` until the model terminates.
      Each step recovers at least one node, so there are at most as many
      steps as nodes not yet recovered. */
  function Steps(p: Params, m: Snapshot): (trace: seq<Snapshot>)
    ensures |trace| <= |m.state| - Count(m.state, Recovered)
    decreases |m.state| - Count(m.state, Recovered)
  {
    if Terminated(m.state) then []
    else
      var m' := Advance(p, m);
      StepRecovers(m.state, m'.state);
      [m'] + Steps(p, m')
  }

  /** The snapshot the model terminates in when run from `m`. */
  function Final(p: Params, m: Snapshot): (f: Snapshot)
    ensures Terminated(f.state)
    ensures |f.state| == |m.state|
    ensures f.iteration == m.iteration + |Steps(p, m)|
    ensures Count(f.state, Recovered) >= Count(m.state, Recovered) + |Steps(p, m)|
    decreases |m.state| - Count(m.state, Recovered)
  {
    if Terminated(m.state) then m
    else
      var m' := Advance(p, m);
      StepRecovers(m.state, m'.state);
      Final(p, m')
  }

  /** A step from a model that has not terminated: it recovers at least one
      node, and the rest of the run is the run from the stepped model. */
  lemma StepUnfolds(p: Params, m: Snapshot)
    requires !Terminated(m.state)
    ensures Count(Advance(p, m).state, Recovered) > Count(m.state, Recovered)
    ensures Steps(p, m) == [Advance(p, m)] + Steps(p, Advance(p, m))
    ensures Final(p, m) == Final(p, Advance(p, m))
  {
    StepRecovers(m.state, Advance(p, m).state);
  }

  /** The k-th snapshot of the trace is taken at iteration k + 1 after `m`. */
  lemma {:induction false} StepsIterations(p: Params, m: Snapshot, k: nat)
    requires k < |Steps(p, m)|
    ensures Steps(p, m)[k].iteration == m.iteration + k + 1
    decreases k
  {
    if k > 0 {
      StepsIterations(p, Advance(p, m), k - 1);
    }
  }

  /** A node recovered at `m` is still recovered when the run ends. */
  lemma {:induction false} RecoveredStaysRecovered(p: Params, m: Snapshot, i: nat)
    requires i < |m.state| && m.state[i] == Recovered
    ensures Final(p, m).state[i] == Recovered
    decreases |m.state| - Count(m.state, Recovered)
  {
    if !Terminated(m.state) {
      var m' := Advance(p, m);
      StepRecovers(m.state, m'.state);
      RecoveredStaysRecovered(p, m', i);
    }
  }

  /** A model object of the library: the state vector, the iteration counter
      and the generator state change in place with every `step()`. */
  class CascadeModel {
    const params: Params
    var state: seq<State>
    var iteration: nat
    var rng: int

    /** A new model with `initially_infected=0`: every node susceptible, the
        counter at 0, the generator seeded with `random_state`. */
    constructor (params: Params)
      ensures this.params == params
      ensures state == seq(|params.graph.nodes|, _ => Susceptible)
      ensures iteration == 0 && rng == params.randomState
    {
      this.params := params;
      state := seq(|params.graph.nodes|, _ => Susceptible);
      iteration := 0;
      rng := params.randomState;
    }

    function Current(): Snapshot
      reads this
    {
      Snapshot(state, iteration, rng)
    }

    /** `model.terminated` */
    predicate IsTerminated()
      reads this
      ensures IsTerminated() <==> Count(state, Infected) == 0
    {
      Terminated(state)
    }

    /** `model.step()` */
    method Step()
      modifies this
      ensures Current() == Advance(params, old(Current()))
    {
      var (reached, next) := params.transmit(params.graph, params.infectionProbability, rng, state);
      state := Spread(state, reached);
      iteration := iteration + 1;
      rng := next;
    }
  }
}
