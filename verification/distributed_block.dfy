/** The life cycle shared by distributed blocks: a block is created empty,
    `initialize` stores the given conditions, builds the mesh and the initial
    solution, and only then may `step` apply the boundary conditions and
    advance the solution. The mesh construction and the two solver hooks
    belong to the concrete block and are parameters here. */
module DistributedBlock {
  import opened Common
  import opened CharacteristicMesh

  type Key = (int, int)

  /** The block's state. `B` is the type of the boundary-condition entries,
      `V` the value stored per node. */
  datatype Block<B, V> = Block(
    name: string,
    initialized: bool,
    mesh: Option<Mesh>,
    solution: Option<map<Key, V>>,
    boundaryConditions: map<string, B>,
    initialCondition: Option<real -> V>)

  /** The `initialize` argument: each key present or absent. */
  datatype Conditions<B, V> = Conditions(
    initialCondition: Option<real -> V>,
    boundaryConditions: Option<map<string, B>>)

  /** What `step` returns: the current solution and the mesh. */
  datatype StepOutput<V> = StepOutput(solution: Option<map<Key, V>>, mesh: Option<Mesh>)

  /** The constructor: no mesh, no solution, no conditions, not initialised. */
  function Fresh<B, V>(name: string): (b: Block<B, V>)
    ensures b.name == name && !b.initialized
    ensures b.mesh.None? && b.solution.None? && b.initialCondition.None?
    ensures |b.boundaryConditions| == 0
  {
    Block(name, false, None, None, map[], None)
  }

  /** The default `_initialize_solution`: with a mesh and an initial condition,
      every node maps to the initial condition at its `s`; otherwise the
      solution is left as it was. */
  function DefaultSolution<B, V>(b: Block<B, V>): (r: Option<map<Key, V>>)
    ensures r.Some? <==> b.mesh.Some? && b.initialCondition.Some?
    ensures r.Some? ==> r.value.Keys == b.mesh.value.nodes.Keys
    ensures r.Some? ==> forall k :: k in r.value ==>
      r.value[k] == b.initialCondition.value(b.mesh.value.nodes[k].0)
  {
    match (b.mesh, b.initialCondition)
    case (Some(m), Some(ic)) => Some(map k | k in m.nodes :: ic(m.nodes[k].0))
    case _ => None
  }

  /** The part of `initialize` before the mesh is built: only the keys that
      are present overwrite the stored conditions. */
  function StoreConditions<B, V>(b: Block<B, V>, c: Conditions<B, V>): (r: Block<B, V>)
    ensures r.initialCondition == (if c.initialCondition.Some? then c.initialCondition else b.initialCondition)
    ensures r.boundaryConditions == (if c.boundaryConditions.Some? then c.boundaryConditions.value else b.boundaryConditions)
    ensures r.name == b.name && r.initialized == b.initialized && r.mesh == b.mesh && r.solution == b.solution
  {
    var b1 := if c.initialCondition.Some? then b.(initialCondition := c.initialCondition) else b;
    if c.boundaryConditions.Some? then b1.(boundaryConditions := c.boundaryConditions.value) else b1
  }

  /** `initialize`: store the conditions, build the mesh (which may raise),
      initialise the solution through the block's own hook (`None` leaves it
      unchanged), then mark the block initialised. */
  function Initialize<B, V>(b: Block<B, V>, c: Conditions<B, V>, built: Result<Mesh>,
                            initSolution: Block<B, V> -> Option<map<Key, V>>): (r: Result<Block<B, V>>)
    ensures built.Err? ==> r == Err(built.error)
    ensures r.Ok? ==> r.value.initialized && r.value.mesh == Some(built.value) && r.value.name == b.name
    ensures r.Ok? ==> (r.value.initialCondition == StoreConditions(b, c).initialCondition
      && r.value.boundaryConditions == StoreConditions(b, c).boundaryConditions)
    ensures r.Ok? ==> var withMesh := StoreConditions(b, c).(mesh := Some(built.value));
      r.value.solution == (if initSolution(withMesh).Some? then initSolution(withMesh) else b.solution)
  {
    match built
    case Err(e) => Err(e)
    case Ok(m) =>
      var b1 := StoreConditions(b, c).(mesh := Some(m));
      var b2 := match initSolution(b1) case Some(s) => b1.(solution := Some(s)) case None => b1;
      Ok(b2.(initialized := true))
  }

  /** `step`: refuse an uninitialised block; otherwise apply the boundary
      conditions, solve, and replace the solution only by a non-empty new one
      (the boundary-updated solution stays otherwise). */
  function Step<B, V>(b: Block<B, V>, t: real, dt: real,
                      applyBoundary: (Block<B, V>, real) -> Result<Option<map<Key, V>>>,
                      solveStep: (Block<B, V>, real, real) -> Result<map<Key, V>>)
    : (r: Result<(Block<B, V>, StepOutput<V>)>)
    ensures !b.initialized ==> r == Err(RuntimeError("Block " + b.name + " is not initialized"))
    ensures r.Ok? ==> b.initialized && applyBoundary(b, t).Ok?
    ensures r.Ok? ==> var b1 := b.(solution := applyBoundary(b, t).value);
      && solveStep(b1, t, dt).Ok?
      && r.value.0.solution == (if |solveStep(b1, t, dt).value| > 0 then Some(solveStep(b1, t, dt).value) else b1.solution)
    ensures r.Ok? ==> (r.value.1 == StepOutput(r.value.0.solution, b.mesh)
      && r.value.0.mesh == b.mesh && r.value.0.initialized)
  {
    if !b.initialized then Err(RuntimeError("Block " + b.name + " is not initialized"))
    else
      match applyBoundary(b, t)
      case Err(e) => Err(e)
      case Ok(s1) =>
        var b1 := b.(solution := s1);
        match solveStep(b1, t, dt)
        case Err(e) => Err(e)
        case Ok(next) =>
          var b2 := if |next| > 0 then b1.(solution := Some(next)) else b1;
          Ok((b2, StepOutput(b2.solution, b2.mesh)))
  }

  /** Stepping a fresh block fails whatever the hooks do. */
  lemma StepBeforeInitialize<B, V>(name: string, t: real, dt: real,
                                   applyBoundary: (Block<B, V>, real) -> Result<Option<map<Key, V>>>,
                                   solveStep: (Block<B, V>, real, real) -> Result<map<Key, V>>)
    ensures Step(Fresh<B, V>(name), t, dt, applyBoundary, solveStep).Err?
    ensures Step(Fresh<B, V>(name), t, dt, applyBoundary, solveStep).error.RuntimeError?
  {
  }

  /** After a successful `initialize` with the default hook and an initial
      condition, the solution covers exactly the mesh nodes. */
  lemma InitializeDefault<B, V>(b: Block<B, V>, c: Conditions<B, V>, m: Mesh)
    requires c.initialCondition.Some? || b.initialCondition.Some?
    ensures var r := Initialize(b, c, Ok(m), DefaultSolution);
      r.Ok? && r.value.solution.Some? && r.value.solution.value.Keys == m.nodes.Keys
  {
    var withMesh := StoreConditions(b, c).(mesh := Some(m));
    assert DefaultSolution(withMesh).Some?;
  }
}
