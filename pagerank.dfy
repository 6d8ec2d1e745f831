/** The power-iteration engine (src/engine/pagerank.go). One step pulls the current ranks
    through the transposed link matrix and applies the damped PageRank update; Run repeats
    steps until the L1 change falls below Config.Epsilon or the iteration budget is spent. */
module Engine {
  import opened Vectors
  import opened Matrix
  import Config

  /** The documented update of one node whose incoming rank is x, among n nodes:
      PR = (1 - d) / n + d * (x + dangling / n). */
  function NodeRank(d: real, dangling: real, n: real, x: real): real
    requires n != 0.0
  {
    var auxiliaryConstant := (1.0 - d) / n;
    auxiliaryConstant + d * (x + dangling / n)
  }

  /** The update applied to every node; the number of nodes is the length of the vector. */
  function Update(d: real, dangling: real, incoming: seq<real>): seq<real>
  {
    var n := |incoming|;
    seq(n, i requires 0 <= i < n => NodeRank(d, dangling, n as real, incoming[i]))
  }

  /** Ranks that can be stepped over g: one rank per node, and every access of the
      product is in bounds. */
  predicate Ready(g: Csr, ranks: seq<real>)
  {
    |ranks| == g.rows && g.Accessible(g.rows)
  }

  /** The vector one Step computes from `ranks`. */
  function StepOf(g: Csr, d: real, dangling: real, ranks: seq<real>): (next: seq<real>)
    requires Ready(g, ranks)
    ensures Ready(g, next)
  {
    Update(d, dangling, g.Product(ranks))
  }

  /** The step as a value on all vectors, so that Run can be specified by power iteration
      over it. Vectors that are not Ready make the source index out of range; they are
      left unchanged here, and a run never reaches one (StepFunctionKeepsReady). */
  function StepFunction(g: Csr, d: real, dangling: real): (f: seq<real> -> seq<real>)
    ensures LengthPreserving(f)
  {
    ranks => if Ready(g, ranks) then StepOf(g, d, dangling, ranks) else ranks
  }

  lemma StepFunctionKeepsReady(g: Csr, d: real, dangling: real, ranks: seq<real>)
    requires Ready(g, ranks)
    ensures StepFunction(g, d, dangling)(ranks) == StepOf(g, d, dangling, ranks)
    ensures Ready(g, StepFunction(g, d, dangling)(ranks))
  {
  }

  /** A step keeps the number of nodes. */
  ghost predicate LengthPreserving(step: seq<real> -> seq<real>)
  {
    forall ranks :: |step(ranks)| == |ranks|
  }

  /** The convergence signal of one step from `ranks`: how far it moves them. */
  function Delta(step: seq<real> -> seq<real>, ranks: seq<real>): (r: real)
    requires LengthPreserving(step)
  {
    L1(step(ranks), ranks)
  }

  /** `ranks` after k steps, with no stopping rule: the reference for Run. */
  function Iterates(step: seq<real> -> seq<real>, ranks: seq<real>, k: nat): seq<real>
    decreases k
  {
    if k == 0 then ranks else Iterates(step, step(ranks), k - 1)
  }

  /** What a run ends with: the committed ranks, how many steps ran and whether the last
      one converged. */
  datatype Outcome = Outcome(ranks: seq<real>, steps: nat, converged: bool)

  /** The loop control of Run with `budget` iterations left: step, commit, and stop once
      the delta of the step just committed is below Epsilon. */
  function PowerIterate(step: seq<real> -> seq<real>, ranks: seq<real>, budget: nat): (o: Outcome)
    requires LengthPreserving(step)
    ensures o.steps <= budget
    ensures o.converged ==> 1 <= o.steps
    ensures !o.converged ==> o.steps == budget
    decreases budget
  {
    if budget == 0 then Outcome(ranks, 0, false)
    else
      var next := step(ranks);
      if L1(next, ranks) < Config.Epsilon then Outcome(next, 1, true)
      else
        var rest := PowerIterate(step, next, budget - 1);
        Outcome(rest.ranks, rest.steps + 1, rest.converged)
  }

  /** Run is power iteration stopped at the first step whose delta is below Epsilon:
      its ranks are the iterates after `steps` steps, every step before the last one
      had a delta of at least Epsilon, and it converged exactly when the last one's
      delta was below Epsilon. */
  lemma {:induction false} PowerIterateIsFirstConvergence(step: seq<real> -> seq<real>, ranks: seq<real>, budget: nat)
    requires LengthPreserving(step)
    ensures var o := PowerIterate(step, ranks, budget);
      && o.ranks == Iterates(step, ranks, o.steps)
      && (forall j :: 0 <= j < o.steps - 1 ==> Delta(step, Iterates(step, ranks, j)) >= Config.Epsilon)
      && (o.converged <==> 0 < o.steps && Delta(step, Iterates(step, ranks, o.steps - 1)) < Config.Epsilon)
    decreases budget
  {
    if budget > 0 {
      var next := step(ranks);
      if L1(next, ranks) >= Config.Epsilon {
        var rest := PowerIterate(step, next, budget - 1);
        PowerIterateIsFirstConvergence(step, next, budget - 1);
        IteratesShift(step, ranks, rest.steps);
        forall j | 0 <= j < rest.steps
          ensures Delta(step, Iterates(step, ranks, j)) >= Config.Epsilon
        {
          if j > 0 {
            IteratesShift(step, ranks, j - 1);
          }
        }
        if 0 < rest.steps {
          IteratesShift(step, ranks, rest.steps - 1);
        }
      }
    }
  }

  /** Stepping k + 1 times from `ranks` is stepping k times from the next iterate. */
  lemma IteratesShift(step: seq<real> -> seq<real>, ranks: seq<real>, k: nat)
    ensures Iterates(step, ranks, k + 1) == Iterates(step, step(ranks), k)
  {
  }

  /** Moves the dangling share out of the damped term. */
  lemma Regroup(t: real, d: real, x: real, q: real)
    ensures t + d * (x + q) == (t + d * q) + d * x
  {
  }

  /** The update is affine in the incoming rank: a part `base` shared by all nodes plus
      d times the node's own incoming rank. */
  lemma UpdateIsAffine(d: real, dangling: real, incoming: seq<real>, i: nat, base: real)
    requires i < |incoming|
    requires base == (1.0 - d) / (|incoming| as real) + d * (dangling / (|incoming| as real))
    ensures Update(d, dangling, incoming)[i] == base + d * incoming[i]
  {
    var n := |incoming| as real;
    Regroup((1.0 - d) / n, d, incoming[i], dangling / n);
  }

  /** N copies of the shared part (1 - d)/N + d * (w/N) add up to (1 - d) + d * w. */
  lemma SharedPartTimesN(n: real, d: real, w: real, base: real)
    requires n != 0.0 && base == (1.0 - d) / n + d * (w / n)
    ensures n * base == (1.0 - d) + d * w
  {
    assert base == ((1.0 - d) + d * w) / n;
  }

  /** Total rank after the update: the teleport terms add up to 1 - d, and the damped
      incoming and dangling mass is kept. */
  lemma UpdateMass(d: real, dangling: real, incoming: seq<real>)
    requires |incoming| > 0
    ensures Sum(Update(d, dangling, incoming)) == ((1.0 - d) + d * dangling) + d * Sum(incoming)
  {
    var base := (1.0 - d) / (|incoming| as real) + d * (dangling / (|incoming| as real));
    forall i | 0 <= i < |incoming|
      ensures Update(d, dangling, incoming)[i] == base + d * incoming[i]
    {
      UpdateIsAffine(d, dangling, incoming, i, base);
    }
    SharedPartTimesN(|incoming| as real, d, dangling, base);
    SumScaleShiftBy(incoming, Update(d, dangling, incoming), base, d, (1.0 - d) + d * dangling);
  }

  /** A step with delta 0 has reached a fixed point, so the next step has delta 0 too. */
  lemma FixedPointIsStable(step: seq<real> -> seq<real>, ranks: seq<real>)
    requires LengthPreserving(step) && Delta(step, ranks) == 0.0
    ensures step(ranks) == ranks
    ensures Delta(step, step(ranks)) == 0.0
  {
    L1ZeroIffEqual(step(ranks), ranks);
  }

  /** From Ready ranks every iterate of the engine's step is Ready, so the unchanged
      branch of StepFunction is never taken by a run. */
  lemma {:induction false} IteratesStayReady(g: Csr, d: real, dangling: real, ranks: seq<real>, k: nat)
    requires Ready(g, ranks)
    ensures Ready(g, Iterates(StepFunction(g, d, dangling), ranks, k))
    decreases k
  {
    if k > 0 {
      StepFunctionKeepsReady(g, d, dangling, ranks);
      IteratesStayReady(g, d, dangling, StepOf(g, d, dangling, ranks), k - 1);
    }
  }

  /** The loop of Run over the engine's own step: PowerIterate written out for StepOf on
      Ready ranks. Run is proved against this form rather than against PowerIterate
      directly, because unfolding a call through the function value StepFunction inside
      Run's loop makes each loop step costly for the solver; RunFromIsPowerIterate shows
      the two are the same function. */
  function RunFrom(g: Csr, d: real, dangling: real, ranks: seq<real>, budget: nat): Outcome
    requires Ready(g, ranks)
    decreases budget
  {
    if budget == 0 then Outcome(ranks, 0, false)
    else
      var next := StepOf(g, d, dangling, ranks);
      if L1(next, ranks) < Config.Epsilon then Outcome(next, 1, true)
      else
        var rest := RunFrom(g, d, dangling, next, budget - 1);
        Outcome(rest.ranks, rest.steps + 1, rest.converged)
  }

  /** An outcome reached after k more steps. */
  function Later(o: Outcome, k: nat): Outcome
  {
    Outcome(o.ranks, o.steps + k, o.converged)
  }

  /** `target` is the outcome of a run that has taken `done` of its MaxIterations steps
      and goes on from `ranks`. */
  ghost predicate Remains(g: Csr, d: real, dangling: real, ranks: seq<real>, target: Outcome, done: nat)
  {
    done <= Config.MaxIterations && Ready(g, ranks) &&
    target == Later(RunFrom(g, d, dangling, ranks, Config.MaxIterations - done), done)
  }

  /** `next` and `delta` are what one Step returns from `ranks`: the stepped vector and
      its L1 distance from `ranks`. */
  predicate Stepped(g: Csr, d: real, dangling: real, ranks: seq<real>, next: seq<real>, delta: real)
  {
    Ready(g, ranks) && next == StepOf(g, d, dangling, ranks) && delta == L1(next, ranks)
  }

  /** A step whose delta is below Epsilon ends the run, with the stepped ranks committed. */
  lemma RunFromStops(g: Csr, d: real, dangling: real, ranks: seq<real>, target: Outcome, done: nat,
                     next: seq<real>, delta: real)
    requires Remains(g, d, dangling, ranks, target, done) && done < Config.MaxIterations
    requires Stepped(g, d, dangling, ranks, next, delta) && delta < Config.Epsilon
    ensures target == Outcome(next, done + 1, true)
  {
  }

  /** Any other step is committed and the run goes on from it. */
  lemma RunFromGoesOn(g: Csr, d: real, dangling: real, ranks: seq<real>, target: Outcome, done: nat,
                      next: seq<real>, delta: real)
    requires Remains(g, d, dangling, ranks, target, done) && done < Config.MaxIterations
    requires Stepped(g, d, dangling, ranks, next, delta) && delta >= Config.Epsilon
    ensures Remains(g, d, dangling, next, target, done + 1)
  {
  }

  /** With the budget spent the run ends where it stands, unconverged. */
  lemma RunFromEnds(g: Csr, d: real, dangling: real, ranks: seq<real>, target: Outcome)
    requires Remains(g, d, dangling, ranks, target, Config.MaxIterations)
    ensures target == Outcome(ranks, Config.MaxIterations, false)
  {
  }

  /** The engine's loop is power iteration over its step function, so the properties proved
      for PowerIterate hold for Run. */
  lemma {:induction false} RunFromIsPowerIterate(g: Csr, d: real, dangling: real, ranks: seq<real>, budget: nat)
    requires Ready(g, ranks)
    ensures RunFrom(g, d, dangling, ranks, budget) == PowerIterate(StepFunction(g, d, dangling), ranks, budget)
    decreases budget
  {
    if budget > 0 {
      StepFunctionKeepsReady(g, d, dangling, ranks);
      RunFromIsPowerIterate(g, d, dangling, StepOf(g, d, dangling, ranks), budget - 1);
    }
  }

  /** The Step test: the Multiply test matrix, ranks [1, 1, 1], d = 0.85, no dangling
      weight. */
  lemma StepExample()
    ensures Ready(TestGraph, [1.0, 1.0, 1.0])
    ensures StepOf(TestGraph, 0.85, 0.0, [1.0, 1.0, 1.0]) == [1.325, 0.9, 0.475]
  {
    MultiplyExample();
    var u := StepOf(TestGraph, 0.85, 0.0, [1.0, 1.0, 1.0]);
    assert u[0] == 1.325 && u[1] == 0.9 && u[2] == 0.475;
  }

  /** The 3-cycle 0 -> 1 -> 2 -> 0 of the driver, stored as incoming links. */
  const Cycle: Csr := Csr(3, [1.0, 1.0, 1.0], [2, 0, 1], [0, 1, 2, 3])

  /** On the 3-cycle the uniform start is a fixed point, so Run stops after its first step. */
  lemma CycleConvergesAtOnce()
    ensures Ready(Cycle, Uniform(3))
    ensures StepOf(Cycle, Config.DampingFactor, 0.0, Uniform(3)) == Uniform(3)
    ensures PowerIterate(StepFunction(Cycle, Config.DampingFactor, 0.0), Uniform(3), Config.MaxIterations)
            == Outcome(Uniform(3), 1, true)
  {
    var third := Uniform(3);
    assert third == [1.0 / 3.0, 1.0 / 3.0, 1.0 / 3.0];
    WellFormedIsAccessible(Cycle, 3);
    var p := Cycle.Product(third);
    assert p == third;
    var u := StepOf(Cycle, Config.DampingFactor, 0.0, third);
    assert u == third;
    L1ZeroIffEqual(u, third);
  }

  /** The driver's 3-cycle has out-degree 1 everywhere with weight 1.0, so repeated
      link-following keeps the total rank of any start vector. */
  lemma CycleConservesMass(v: seq<real>, k: nat)
    requires |v| == 3
    ensures Stochastic(Cycle) && Sum(ProductPower(Cycle, v, k)) == Sum(v)
  {
    assert OutWeight(Cycle, 0, 3) == 1.0 && OutWeight(Cycle, 1, 3) == 1.0 && OutWeight(Cycle, 2, 3) == 1.0;
    ProductPowerConservesMass(Cycle, v, k);
  }

  /** PageRankEngine. Step applies the update its documentation states
      (src/engine/pagerank.go:41-63); the loop body in the repository is an unfinished
      stub that leaves the next ranks at zero. */
  class PageRankEngine {
    var Graph: CSRMatrix
    var DampingFactor: real
    var CurrentRanks: array<real>
    /** Total rank of dangling nodes; nothing in the engine ever sets it after construction. */
    var DanglingWeight: real

    /** NewEngine: the configured damping factor, uniform ranks 1/N, no dangling weight. */
    constructor (graph: CSRMatrix)
      ensures Graph == graph && DampingFactor == Config.DampingFactor && DanglingWeight == 0.0
      ensures fresh(CurrentRanks) && CurrentRanks[..] == Uniform(graph.Rows)
    {
      var ranks := InitializeUniform(graph.Rows);
      Graph := graph;
      DampingFactor := Config.DampingFactor;
      CurrentRanks := ranks;
      DanglingWeight := 0.0;
    }

    /** One power-iteration step; it changes no field of the engine. */
    method Step() returns (nextRanks: array<real>, delta: real)
      requires Ready(Graph.Data(), CurrentRanks[..])
      ensures fresh(nextRanks)
      ensures nextRanks[..] == StepOf(Graph.Data(), DampingFactor, DanglingWeight, CurrentRanks[..])
      ensures delta == L1(nextRanks[..], CurrentRanks[..])
    {
      ghost var m := Graph.Data();
      ghost var cur := CurrentRanks[..];
      var numNodes := Graph.Rows as real;
      var incomingRanks := Graph.Multiply(CurrentRanks);
      ghost var incoming := incomingRanks[..];
      nextRanks := new real[incomingRanks.Length](_ => 0.0);
      assert numNodes == |incoming| as real;
      for i := 0 to nextRanks.Length
        invariant incomingRanks[..] == incoming
        invariant forall j :: 0 <= j < i ==> nextRanks[j] == NodeRank(DampingFactor, DanglingWeight, numNodes, incoming[j])
      {
        nextRanks[i] := NodeRank(DampingFactor, DanglingWeight, numNodes, incomingRanks[i]);
      }
      assert nextRanks[..] == Update(DampingFactor, DanglingWeight, incoming);
      assert nextRanks[..] == StepOf(m, DampingFactor, DanglingWeight, cur);
      assert Graph.Data() == m && CurrentRanks[..] == cur;
      delta := L1Difference(nextRanks, CurrentRanks);
    }

    /** Steps at most MaxIterations times, committing every result, and stops after the
        first step whose delta is below Epsilon. The ghost results say how many steps ran
        and whether the run converged. */
    method Run() returns (ghost steps: nat, ghost converged: bool)
      requires Ready(Graph.Data(), CurrentRanks[..])
      modifies this`CurrentRanks
      ensures Outcome(CurrentRanks[..], steps, converged)
              == RunFrom(Graph.Data(), DampingFactor, DanglingWeight, old(CurrentRanks[..]), Config.MaxIterations)
    {
      ghost var g, d, w := Graph.Data(), DampingFactor, DanglingWeight;
      ghost var target := RunFrom(g, d, w, CurrentRanks[..], Config.MaxIterations);
      steps, converged := Config.MaxIterations, false;
      var i := 0;
      while i < Config.MaxIterations
        invariant Graph.Data() == g && DampingFactor == d && DanglingWeight == w
        invariant Remains(g, d, w, CurrentRanks[..], target, i)
      {
        ghost var cur := CurrentRanks[..];
        var next, delta := Step();
        CurrentRanks := next;
        if delta < Config.Epsilon {
          RunFromStops(g, d, w, cur, target, i, next[..], delta);
          steps, converged := i + 1, true;
          break;
        }
        RunFromGoesOn(g, d, w, cur, target, i, next[..], delta);
        i := i + 1;
      }
      if !converged {
        RunFromEnds(g, d, w, CurrentRanks[..], target);
      }
    }
  }
}
