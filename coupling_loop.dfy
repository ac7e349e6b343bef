/**
  The bookkeeping of the fluid participant's coupling loop, as functions on
  values: one call of `Step` is one iteration of the `while` loop that runs
  while the coupling peer reports the coupling as ongoing.

  The numerical kernels (mesh-motion optimisation, Newton solve, force
  residual) are opaque functions handed in as `Kernels`; the peer's answers
  for one iteration are handed in as `PeerAnswers`.
*/
module CouplingLoop {

  datatype Option<T> = None | Some(value: T)

  datatype Result<T, E> = Success(value: T) | Failure(error: E)

  /** A DOF vector. */
  type Dofs = seq<real>

  /** The seven `*_checkpoint` variables. */
  datatype Checkpoint = Checkpoint(
    lhs0: Dofs, lhs00: Dofs, t: real, timestep: int,
    oldmeshdofs: Dofs, oldoldmeshdofs: Dofs, oldoldoldmeshdofs: Dofs)

  /**
    The loop's variables. `checkpoint` is `None` while the `*_checkpoint`
    names are still unbound, i.e. before the first write-checkpoint.
  */
  datatype LoopState = LoopState(
    lhs0: Dofs, lhs00: Dofs,
    meshdofs: Dofs, oldmeshdofs: Dofs, oldoldmeshdofs: Dofs, oldoldoldmeshdofs: Dofs,
    t: real, timestep: int, dt: real,
    checkpoint: Option<Checkpoint>)

  /** What the coupling peer answers during one loop iteration. */
  datatype PeerAnswers = PeerAnswers(
    readDataAvailable: bool,
    displacements: Dofs,         // the block read when data is available
    writeCheckpointRequired: bool,
    preciceDt: real,             // returned by `advance`
    readCheckpointRequired: bool)

  /**
    The `arguments` of the Newton solve; `lhs0` is also its initial guess.
    The fields are the values bound to the argument names `TimeShift.Lhs0`,
    `Dt`, `MeshDofs`, `OldMeshDofs`, `OldOldMeshDofs` and `OldOldOldMeshDofs`:
    with the unknown `Lhs` these are exactly the names
    `TimeShift.FlowResidualArgs` proves the flow residual reads.
  */
  datatype NewtonArgs = NewtonArgs(
    lhs0: Dofs, dt: real,
    meshdofs: Dofs, oldmeshdofs: Dofs, oldoldmeshdofs: Dofs, oldoldoldmeshdofs: Dofs)

  /**
    The arguments of the force-residual evaluation: the values bound to
    `TimeShift.Lhs00`, `Lhs0`, `Lhs`, `Dt` and the four mesh-level names,
    exactly the names `TimeShift.ForceResidualArgs` proves it reads.
  */
  datatype ForceArgs = ForceArgs(
    lhs00: Dofs, lhs0: Dofs, lhs: Dofs, dt: real,
    meshdofs: Dofs, oldmeshdofs: Dofs, oldoldmeshdofs: Dofs, oldoldoldmeshdofs: Dofs)

  /** The numerical kernels, left uninterpreted. */
  datatype Kernels = Kernels(
    meshMotion: Dofs -> Dofs,          // the two `solver.optimize` calls on the read data
    newton: NewtonArgs -> Dofs,         // `solver.newton(...).solve(tol=1e-9)`
    forceResidual: ForceArgs -> Dofs)   // `resF.eval(...)`

  /**
    What one accepted or rolled-back iteration leaves behind: the new
    state, the solution, the forces meant for the peer and the step size
    handed to the peer's `advance`.
  */
  datatype Window = Window(state: LoopState, lhs1: Dofs, forces: Dofs, advancedBy: real)

  /**
    A read-checkpoint before any write-checkpoint reads unbound names; the
    run stops there, in the state reached just before the restore.
  */
  datatype LoopError = CheckpointUnbound(at: LoopState)

  // ----- the pieces of one iteration -----

  /** `min(precice_dt, timestepsize)`. */
  function StepSize(preciceDt: real, timestepsize: real): (dt: real)
    ensures dt <= timestepsize && dt <= preciceDt
    ensures dt == timestepsize || dt == preciceDt
  {
    if preciceDt <= timestepsize then preciceDt else timestepsize
  }

  function Zeros(n: nat): (z: Dofs)
    ensures |z| == n && forall i :: 0 <= i < n ==> z[i] == 0.0
  {
    seq(n, _ => 0.0)
  }

  /** The state the loop starts in: every history level seeded with the initial DOFs. */
  function InitialState(meshSize: nat, flowSize: nat, preciceDt: real, timestepsize: real): LoopState
  {
    var meshdofs := Zeros(meshSize);
    var lhs0 := Zeros(flowSize);
    LoopState(lhs0, lhs0, meshdofs, meshdofs, meshdofs, meshdofs,
              0.0, 1, StepSize(preciceDt, timestepsize), None)
  }

  /** The flow levels, newest first: `[lhs0, lhs00]`. */
  function FlowLevels(s: LoopState): seq<Dofs>
  {
    [s.lhs0, s.lhs00]
  }

  /** The mesh levels, newest first: `[meshdofs, oldmeshdofs, oldoldmeshdofs, oldoldoldmeshdofs]`. */
  function MeshLevels(s: LoopState): seq<Dofs>
  {
    [s.meshdofs, s.oldmeshdofs, s.oldoldmeshdofs, s.oldoldoldmeshdofs]
  }

  /** Mesh update from the read displacements, only when the peer has data. */
  function ReadDisplacements(k: Kernels, s: LoopState, p: PeerAnswers): LoopState
  {
    if p.readDataAvailable then s.(meshdofs := k.meshMotion(p.displacements)) else s
  }

  function Snapshot(s: LoopState): Checkpoint
  {
    Checkpoint(s.lhs0, s.lhs00, s.t, s.timestep,
               s.oldmeshdofs, s.oldoldmeshdofs, s.oldoldoldmeshdofs)
  }

  function SaveCheckpoint(s: LoopState): LoopState
  {
    s.(checkpoint := Some(Snapshot(s)))
  }

  function NewtonArgsOf(s: LoopState): NewtonArgs
  {
    NewtonArgs(s.lhs0, s.dt, s.meshdofs, s.oldmeshdofs, s.oldoldmeshdofs, s.oldoldoldmeshdofs)
  }

  function ForceArgsOf(s: LoopState, lhs1: Dofs): ForceArgs
  {
    ForceArgs(s.lhs00, s.lhs0, lhs1, s.dt,
              s.meshdofs, s.oldmeshdofs, s.oldoldmeshdofs, s.oldoldoldmeshdofs)
  }

  /** `R = -resF.eval(...)`. */
  function Negated(r: Dofs): (n: Dofs)
    ensures |n| == |r| && forall i :: 0 <= i < |r| ==> n[i] + r[i] == 0.0
  {
    seq(|r|, i requires 0 <= i < |r| => -r[i])
  }

  /** The new step size, the counters, and the history shifted by one level. */
  function AdvanceVariables(s: LoopState, lhs1: Dofs, dt: real): LoopState
  {
    s.(dt := dt, timestep := s.timestep + 1, t := s.t + dt,
       lhs00 := s.lhs0, lhs0 := lhs1,
       oldoldoldmeshdofs := s.oldoldmeshdofs, oldoldmeshdofs := s.oldmeshdofs,
       oldmeshdofs := s.meshdofs)
  }

  /** Put the seven checkpointed values back; `meshdofs` and `dt` are kept. */
  function Restore(s: LoopState, c: Checkpoint): LoopState
  {
    s.(lhs0 := c.lhs0, lhs00 := c.lhs00, t := c.t, timestep := c.timestep,
       oldmeshdofs := c.oldmeshdofs, oldoldmeshdofs := c.oldoldmeshdofs,
       oldoldoldmeshdofs := c.oldoldoldmeshdofs)
  }

  /** One iteration of the coupling loop. */
  function Step(k: Kernels, timestepsize: real, s: LoopState, p: PeerAnswers): (r: Result<Window, LoopError>)
    ensures r.Failure? <==> p.readCheckpointRequired && !p.writeCheckpointRequired && s.checkpoint.None?
  {
    var read := ReadDisplacements(k, s, p);
    var saved := if p.writeCheckpointRequired then SaveCheckpoint(read) else read;
    var lhs1 := k.newton(NewtonArgsOf(saved));
    var forces := Negated(k.forceResidual(ForceArgsOf(saved, lhs1)));
    var advanced := AdvanceVariables(saved, lhs1, StepSize(p.preciceDt, timestepsize));
    if !p.readCheckpointRequired then
      Success(Window(advanced, lhs1, forces, saved.dt))
    else if advanced.checkpoint.None? then
      Failure(CheckpointUnbound(advanced))
    else
      Success(Window(Restore(advanced, advanced.checkpoint.value), lhs1, forces, saved.dt))
  }

  /** The whole loop, one `PeerAnswers` per iteration, stopping at the first error. */
  function Run(k: Kernels, timestepsize: real, s: LoopState, answers: seq<PeerAnswers>): Result<LoopState, LoopError>
    decreases |answers|
  {
    if answers == [] then Success(s)
    else
      match Step(k, timestepsize, s, answers[0])
      case Failure(e) => Failure(e)
      case Success(w) => Run(k, timestepsize, w.state, answers[1..])
  }

  // ----- properties -----

  /** What every state the loop reaches satisfies. */
  ghost predicate Inv(s: LoopState, timestepsize: real)
  {
    && s.dt <= timestepsize
    && 1 <= s.timestep
    && (s.checkpoint.Some? ==> 1 <= s.checkpoint.value.timestep <= s.timestep)
  }

  /**
    Initialisation seeds every history level with the initial DOFs, so the
    first iteration reads no undefined level, and uses a step size within
    the local limit.
  */
  lemma InitialStateIsSeeded(meshSize: nat, flowSize: nat, preciceDt: real, timestepsize: real)
    ensures var s := InitialState(meshSize, flowSize, preciceDt, timestepsize);
      && MeshLevels(s) == [s.meshdofs, s.meshdofs, s.meshdofs, s.meshdofs]
      && FlowLevels(s) == [s.lhs0, s.lhs0]
      && s.meshdofs == Zeros(meshSize) && s.lhs0 == Zeros(flowSize)
      && s.t == 0.0 && s.timestep == 1 && s.checkpoint.None?
      && s.dt == StepSize(preciceDt, timestepsize)
      && Inv(s, timestepsize)
  {
  }

  /** A write-checkpoint records exactly the seven values and changes no live variable. */
  lemma SaveCheckpointKeepsLiveState(s: LoopState)
    ensures SaveCheckpoint(s).(checkpoint := s.checkpoint) == s
    ensures SaveCheckpoint(s).checkpoint == Some(Snapshot(s))
    ensures Snapshot(s).lhs0 == s.lhs0 && Snapshot(s).lhs00 == s.lhs00
    ensures Snapshot(s).t == s.t && Snapshot(s).timestep == s.timestep
    ensures Snapshot(s).oldmeshdofs == s.oldmeshdofs
    ensures Snapshot(s).oldoldmeshdofs == s.oldoldmeshdofs
    ensures Snapshot(s).oldoldoldmeshdofs == s.oldoldoldmeshdofs
  {
  }

  /** Restoring a snapshot right after taking it changes nothing. */
  lemma RestoreAfterSaveIsIdentity(s: LoopState)
    ensures Restore(SaveCheckpoint(s), Snapshot(s)) == SaveCheckpoint(s)
  {
  }

  /** After a restore the checkpointed values are exactly the checkpoint's. */
  lemma RestoreYieldsCheckpoint(s: LoopState, c: Checkpoint)
    ensures Snapshot(Restore(s, c)) == c
    ensures Restore(s, c).meshdofs == s.meshdofs && Restore(s, c).dt == s.dt
    ensures Restore(s, c).checkpoint == s.checkpoint
  {
  }

  /**
    An accepted window (no read-checkpoint) shifts every history level down
    by exactly one, puts the new solution on top, adds one step and advances
    the time by the new step size. The checkpoint is the one written in this
    iteration, or else the one bound before.
  */
  lemma AcceptedWindowShiftsHistory(k: Kernels, timestepsize: real, s: LoopState, p: PeerAnswers)
    requires !p.readCheckpointRequired
    ensures Step(k, timestepsize, s, p).Success?
    ensures var w := Step(k, timestepsize, s, p).value;
      var read := ReadDisplacements(k, s, p);
      && FlowLevels(w.state) == [w.lhs1] + FlowLevels(s)[..1]
      && MeshLevels(w.state)[1..] == MeshLevels(read)[..3]
      && w.state.meshdofs == read.meshdofs
      && w.state.timestep == s.timestep + 1
      && w.state.dt == StepSize(p.preciceDt, timestepsize)
      && w.state.t == s.t + w.state.dt
      && w.state.checkpoint == (if p.writeCheckpointRequired then Some(Snapshot(read)) else s.checkpoint)
  {
  }

  /**
    A rejected window (read-checkpoint required) after a write-checkpoint
    leaves the seven checkpointed values equal to those saved at the most
    recent write-checkpoint; `meshdofs` and `dt` are not restored.
  */
  lemma RejectedWindowRestoresCheckpoint(k: Kernels, timestepsize: real, s: LoopState, p: PeerAnswers)
    requires p.readCheckpointRequired
    requires p.writeCheckpointRequired || s.checkpoint.Some?
    ensures Step(k, timestepsize, s, p).Success?
    ensures var w := Step(k, timestepsize, s, p).value;
      var read := ReadDisplacements(k, s, p);
      var saved := if p.writeCheckpointRequired then Snapshot(read) else s.checkpoint.value;
      && Snapshot(w.state) == saved
      && w.state.checkpoint == Some(saved)
      && w.state.meshdofs == read.meshdofs
      && w.state.dt == StepSize(p.preciceDt, timestepsize)
  {
  }

  /**
    When the checkpoint is written and read in the same iteration the
    tentative advance is undone: the history and counters are the ones the
    iteration started from.
  */
  lemma SaveAndRejectUndoesAdvance(k: Kernels, timestepsize: real, s: LoopState, p: PeerAnswers)
    requires p.readCheckpointRequired && p.writeCheckpointRequired
    ensures Step(k, timestepsize, s, p).Success?
    ensures var w := Step(k, timestepsize, s, p).value;
      && FlowLevels(w.state) == FlowLevels(s)
      && MeshLevels(w.state)[1..] == MeshLevels(s)[1..]
      && w.state.t == s.t && w.state.timestep == s.timestep
  {
    RejectedWindowRestoresCheckpoint(k, timestepsize, s, p);
  }

  /**
    The Newton solve and the force residual both see the pre-rotation
    history and the step size in use before `advance`, which is also the
    step size handed to `advance`; the force residual sees the freshly
    solved `lhs1`.
  */
  lemma SolveAndForceSeePreRotationHistory(k: Kernels, timestepsize: real, s: LoopState, p: PeerAnswers)
    requires Step(k, timestepsize, s, p).Success?
    ensures var w := Step(k, timestepsize, s, p).value;
      var m := ReadDisplacements(k, s, p).meshdofs;
      && w.lhs1 == k.newton(NewtonArgs(s.lhs0, s.dt, m, s.oldmeshdofs, s.oldoldmeshdofs, s.oldoldoldmeshdofs))
      && w.forces == Negated(k.forceResidual(ForceArgs(s.lhs00, s.lhs0, w.lhs1, s.dt,
                                                       m, s.oldmeshdofs, s.oldoldmeshdofs, s.oldoldoldmeshdofs)))
      && w.advancedBy == s.dt
  {
  }

  /**
    Repeating a rejected window with the same peer data and an unchanged
    step size solves the same problem again: the new solution and the
    forces are the same as in the rejected attempt. The rejected attempt is
    either the first of its window (the checkpoint is written in the same
    iteration) or a later one, started from a state the checkpoint holds.
  */
  lemma RejectedWindowRepeatsSolve(k: Kernels, timestepsize: real, s: LoopState, p: PeerAnswers, q: PeerAnswers)
    requires p.readCheckpointRequired
    requires p.writeCheckpointRequired || (s.checkpoint.Some? && Snapshot(s) == s.checkpoint.value)
    requires q.readDataAvailable == p.readDataAvailable && q.displacements == p.displacements
    requires StepSize(p.preciceDt, timestepsize) == s.dt
    ensures Step(k, timestepsize, s, p).Success?
    ensures var w := Step(k, timestepsize, s, p).value;
      Step(k, timestepsize, w.state, q).Success? ==>
        Step(k, timestepsize, w.state, q).value.lhs1 == w.lhs1
        && Step(k, timestepsize, w.state, q).value.forces == w.forces
  {
    var w := Step(k, timestepsize, s, p).value;
    RejectedWindowRestoresCheckpoint(k, timestepsize, s, p);
    assert Snapshot(w.state) == Snapshot(ReadDisplacements(k, s, p)) == Snapshot(s);
    SolveAndForceSeePreRotationHistory(k, timestepsize, s, p);
    if Step(k, timestepsize, w.state, q).Success? {
      SolveAndForceSeePreRotationHistory(k, timestepsize, w.state, q);
      assert ReadDisplacements(k, w.state, q).meshdofs == ReadDisplacements(k, s, p).meshdofs;
    }
  }

  /** Every iteration keeps the loop invariant, including the step-size bound. */
  lemma StepPreservesInv(k: Kernels, timestepsize: real, s: LoopState, p: PeerAnswers)
    requires Inv(s, timestepsize)
    ensures match Step(k, timestepsize, s, p)
      case Success(w) => Inv(w.state, timestepsize)
      case Failure(e) => Inv(e.at, timestepsize)
  {
  }

  /** The invariant holds of every state a run ends in, or stops in. */
  lemma {:induction false} RunPreservesInv(k: Kernels, timestepsize: real, s: LoopState, answers: seq<PeerAnswers>)
    requires Inv(s, timestepsize)
    ensures match Run(k, timestepsize, s, answers)
      case Success(e) => Inv(e, timestepsize)
      case Failure(e) => Inv(e.at, timestepsize)
    decreases |answers|
  {
    if answers != [] {
      StepPreservesInv(k, timestepsize, s, answers[0]);
      match Step(k, timestepsize, s, answers[0])
      case Failure(_) =>
      case Success(w) => RunPreservesInv(k, timestepsize, w.state, answers[1..]);
    }
  }

  /** The sum of the step sizes a run takes. */
  function ElapsedTime(timestepsize: real, answers: seq<PeerAnswers>): real
    decreases |answers|
  {
    if answers == [] then 0.0
    else StepSize(answers[0].preciceDt, timestepsize) + ElapsedTime(timestepsize, answers[1..])
  }

  /**
    Without read-checkpoints (explicit coupling) every iteration is
    accepted: the step counter grows by the number of iterations and the
    time by the sum of their step sizes.
  */
  lemma {:induction false} ExplicitRunCounts(k: Kernels, timestepsize: real, s: LoopState, answers: seq<PeerAnswers>)
    requires forall i :: 0 <= i < |answers| ==> !answers[i].readCheckpointRequired
    ensures Run(k, timestepsize, s, answers).Success?
    ensures Run(k, timestepsize, s, answers).value.timestep == s.timestep + |answers|
    ensures Run(k, timestepsize, s, answers).value.t == s.t + ElapsedTime(timestepsize, answers)
    decreases |answers|
  {
    if answers != [] {
      AcceptedWindowShiftsHistory(k, timestepsize, s, answers[0]);
      var w := Step(k, timestepsize, s, answers[0]).value;
      ExplicitRunCounts(k, timestepsize, w.state, answers[1..]);
    }
  }
}
