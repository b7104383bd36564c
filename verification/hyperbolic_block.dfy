/** The hyperbolic block as a distributed block: its mesh is the
    characteristic mesh of its configuration, its initial solution and its
    two step hooks are those of the node solver. */
module HyperbolicBlock {
  import opened Common
  import opened Discretization
  import opened CharacteristicMesh
  import opened HyperbolicSolver
  import DB = DistributedBlock

  /** Boundary-condition entries of the generic life cycle are not read by
      this block; they are typed as reals. */
  type Block = DB.Block<real, Value>

  /** `_initialize_solution` as the life cycle's hook: nothing without a mesh. */
  function InitialHook(p: Problem): Block -> Option<Solution> {
    (b: Block) => if b.mesh.Some? then InitialSolution(b.mesh.value, p) else None
  }

  /** `_apply_boundary_conditions` as the life cycle's hook. An empty or
      missing solution returns before the mesh is touched. */
  function ApplyBoundaryOf(p: Problem, b: Block, t: real): (r: Result<Option<Solution>>)
    ensures b.solution.None? || |b.solution.value| == 0 ==> r == Ok(b.solution)
    ensures b.mesh.Some? ==> r == Ok(ApplyBoundary(b.mesh.value, p, b.solution, t))
  {
    if b.solution.None? || |b.solution.value| == 0 then Ok(b.solution)
    else
      match b.mesh
      case Some(m) => Ok(ApplyBoundary(m, p, b.solution, t))
      case None =>
        if p.left.Some? || p.right.Some? then Err(AttributeError("'NoneType' object has no attribute 'nodes'"))
        else Ok(b.solution)
  }

  /** `_solve_step` as the life cycle's hook. Without a solution the loop
      runs until the first node, in its time-sorted order, that touches the
      solution, and raises that node's error; when no node of the step
      touches it the step completes as from any solution. */
  function SolveOf(p: Problem, b: Block, t: real, dt: real): (r: Result<Solution>)
    ensures b.mesh.None? ==> r.Err?
    ensures b.mesh.Some? && b.solution.Some? ==> r == Ok(SolveStep(b.mesh.value, p, b.solution.value, t, dt))
    ensures b.mesh.Some? && b.solution.None? && r.Err? ==>
      exists k :: k in StepDomain(b.mesh.value, t, dt) && MissingSolutionError(b.mesh.value, k.0, k.1) == Some(r.error)
    ensures b.mesh.Some? && b.solution.None? && r.Ok? ==>
      && r.value == SolveStep(b.mesh.value, p, map[], t, dt)
      && forall k :: k in StepDomain(b.mesh.value, t, dt) && k in NodeOrder(b.mesh.value) ==>
           MissingSolutionError(b.mesh.value, k.0, k.1).None?
  {
    match b.mesh
    case None => Err(AttributeError("'NoneType' object has no attribute 'nodes'"))
    case Some(m) =>
      match b.solution
      case Some(sol) => Ok(SolveStep(m, p, sol, t, dt))
      case None =>
        match EarliestFailure(m, NodeOrder(m), t, dt)
        case Some(k) => Err(MissingSolutionError(m, k.0, k.1).value)
        case None =>
          assert forall k :: k in NodeOrder(m) ==> exists n :: 0 <= n < |NodeOrder(m)| && NodeOrder(m)[n] == k;
          Ok(SolveStep(m, p, map[], t, dt))
  }

  /** On a lattice mesh a step that completes without a solution has the
      result any previous solution would have given. */
  lemma MissingSolutionHarmless(p: Problem, b: Block, t: real, dt: real, sol: Solution)
    requires b.mesh.Some? && Lattice(b.mesh.value) && b.solution.None?
    requires SolveOf(p, b, t, dt).Ok?
    ensures SolveOf(p, b, t, dt) == Ok(SolveStep(b.mesh.value, p, sol, t, dt))
  {
    var m := b.mesh.value;
    forall k | k in StepDomain(m, t, dt)
      ensures MissingSolutionError(m, k.0, k.1).None?
    {
      NodeOrdered(m, k);
    }
    SilentStepIgnoresSolution(m, p, map[], sol, t, dt);
  }

  /** `initialize` of a hyperbolic block whose configuration is `cfg`. */
  function Initialize(p: Problem, cfg: Config, b: Block, c: DB.Conditions<real, Value>): (r: Result<Block>)
    requires ValidSpeeds(cfg)
    ensures Make(cfg).Err? <==> r.Err?
    ensures r.Ok? ==> r.value.initialized && r.value.mesh == Some(Make(cfg).value)
    ensures r.Ok? && HasInitial(p) ==>
      r.value.solution == InitialSolution(Make(cfg).value, p)
  {
    DB.Initialize(b, c, Make(cfg), InitialHook(p))
  }

  /** `step` of a hyperbolic block: an initialised block with a mesh and a
      solution always steps, to the solve of its boundary-updated solution
      when that solve is non-empty. */
  function Step(p: Problem, b: Block, t: real, dt: real): (r: Result<(Block, DB.StepOutput<Value>)>)
    ensures !b.initialized ==> r.Err? && r.error.RuntimeError?
    ensures b.initialized && b.mesh.Some? && b.solution.Some? ==>
      var s1 := ApplyBoundary(b.mesh.value, p, b.solution, t);
      var next := SolveStep(b.mesh.value, p, s1.value, t, dt);
      && r.Ok?
      && r.value.0.solution == (if |next| > 0 then Some(next) else s1)
      && r.value.0.mesh == b.mesh
  {
    DB.Step(b, t, dt, (b1: Block, t1: real) => ApplyBoundaryOf(p, b1, t1),
            (b1: Block, t1: real, dt1: real) => SolveOf(p, b1, t1, dt1))
  }

  /** Boundary keys are mesh nodes, so the boundary update keeps a solution
      whose domain is the node set on that set. */
  lemma BoundaryKeepsNodeDomain(m: Mesh, p: Problem, sol: Solution, t: real)
    requires sol.Keys == m.nodes.Keys && |sol| > 0
    ensures ApplyBoundary(m, p, Some(sol), t).value.Keys == m.nodes.Keys
  {
    assert LeftKeys(m, t) <= m.nodes.Keys;
    assert RightKeys(m, t) <= m.nodes.Keys;
  }

  /** A freshly initialised block with an initial function steps without
      error, and its solution afterwards covers exactly the nodes no later
      than `t + dt` (or, when there are none, still every node). */
  lemma {:induction false} FirstStepDomain(p: Problem, m: Mesh, name: string, t: real, dt: real)
    requires HasInitial(p)
    requires |m.nodes| > 0
    ensures var b := DB.Initialize(DB.Fresh(name), DB.Conditions(None, None), Ok(m), InitialHook(p)).value;
      && Step(p, b, t, dt).Ok?
      && Step(p, b, t, dt).value.0.solution.Some?
      && Step(p, b, t, dt).value.0.solution.value.Keys ==
         (if StepDomain(m, t, dt) == {} then m.nodes.Keys else StepDomain(m, t, dt))
  {
    var b := DB.Initialize(DB.Fresh(name), DB.Conditions(None, None), Ok(m), InitialHook(p)).value;
    var sol := InitialSolution(m, p).value;
    assert b.solution == Some(sol) && b.mesh == Some(m);
    assert |sol| > 0 by {
      var k :| k in m.nodes;
      assert k in sol;
    }
    BoundaryKeepsNodeDomain(m, p, sol, t);
    var s1 := ApplyBoundary(m, p, Some(sol), t);
    assert ApplyBoundaryOf(p, b, t) == Ok(s1);
    var next := SolveStep(m, p, s1.value, t, dt);
    assert SolveOf(p, b.(solution := s1), t, dt) == Ok(next);
    if StepDomain(m, t, dt) != {} {
      var k :| k in StepDomain(m, t, dt);
      assert k in next;
    }
  }
}
