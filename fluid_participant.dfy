/**
  The fluid participant's coupling loop as the source runs it: the loop
  variables and the seven `*_checkpoint` variables are fields that each
  iteration reassigns in place. `State` abstracts the fields to a
  `CouplingLoop.LoopState`, and each method is proved to do what the
  functions of `CouplingLoop` specify.
*/
module FluidParticipant {
  import opened CouplingLoop

  class FluidParticipant {
    // the loop variables
    var lhs0: Dofs
    var lhs00: Dofs
    var meshdofs: Dofs
    var oldmeshdofs: Dofs
    var oldoldmeshdofs: Dofs
    var oldoldoldmeshdofs: Dofs
    var t: real
    var timestep: int
    var dt: real

    /**
      The seven `*_checkpoint` variables, which are only ever assigned
      together; `None` until the first write-checkpoint binds them.
    */
    var checkpoint: Option<Checkpoint>

    // fixed for the whole run
    const timestepsize: real
    const kernels: Kernels

    ghost function State(): LoopState
      reads this
    {
      LoopState(lhs0, lhs00, meshdofs, oldmeshdofs, oldoldmeshdofs, oldoldoldmeshdofs,
                t, timestep, dt, checkpoint)
    }

    ghost predicate Valid()
      reads this
    {
      Inv(State(), timestepsize)
    }

    /** Initialisation: zero DOFs on every history level, first step, time zero. */
    constructor (meshSize: nat, flowSize: nat, preciceDt: real, timestepsize: real, kernels: Kernels)
      ensures Valid()
      ensures State() == InitialState(meshSize, flowSize, preciceDt, timestepsize)
      ensures this.timestepsize == timestepsize && this.kernels == kernels
    {
      this.timestepsize := timestepsize;
      this.kernels := kernels;
      meshdofs := Zeros(meshSize);
      oldmeshdofs := meshdofs;
      oldoldmeshdofs := meshdofs;
      oldoldoldmeshdofs := meshdofs;
      lhs0 := Zeros(flowSize);
      dt := StepSize(preciceDt, timestepsize);
      lhs00 := lhs0;
      timestep := 1;
      t := 0.0;
      checkpoint := None;
      new;
      InitialStateIsSeeded(meshSize, flowSize, preciceDt, timestepsize);
    }

    /** Mesh update from the displacements the peer sent, if it sent any. */
    method ReadDisplacements(p: PeerAnswers)
      requires Valid()
      modifies this
      ensures Valid()
      ensures State() == CouplingLoop.ReadDisplacements(kernels, old(State()), p)
    {
      if p.readDataAvailable {
        meshdofs := kernels.meshMotion(p.displacements);
      }
    }

    /** Write-checkpoint: copy the seven values into the checkpoint variables. */
    method SaveCheckpoint()
      requires Valid()
      modifies this
      ensures Valid()
      ensures State() == CouplingLoop.SaveCheckpoint(old(State()))
    {
      checkpoint := Some(Checkpoint(lhs0, lhs00, t, timestep,
                                    oldmeshdofs, oldoldmeshdofs, oldoldoldmeshdofs));
    }

    /** Take the new step size, count the step and shift the history down one level. */
    method AdvanceVariables(lhs1: Dofs, newDt: real)
      requires Valid()
      requires newDt <= timestepsize
      modifies this
      ensures Valid()
      ensures State() == CouplingLoop.AdvanceVariables(old(State()), lhs1, newDt)
    {
      dt, timestep, t := newDt, timestep + 1, t + newDt;
      lhs00, lhs0 := lhs0, lhs1;
      oldoldoldmeshdofs, oldoldmeshdofs, oldmeshdofs := oldoldmeshdofs, oldmeshdofs, meshdofs;
    }

    /** Read-checkpoint: copy the seven values back from the checkpoint variables. */
    method RestoreCheckpoint()
      requires Valid() && checkpoint.Some?
      modifies this
      ensures Valid()
      ensures State() == Restore(old(State()), old(checkpoint).value)
    {
      var c := checkpoint.value;
      lhs0, lhs00, t, timestep := c.lhs0, c.lhs00, c.t, c.timestep;
      oldmeshdofs, oldoldmeshdofs, oldoldoldmeshdofs := c.oldmeshdofs, c.oldoldmeshdofs, c.oldoldoldmeshdofs;
    }

    /**
      One iteration of the loop. `ok` is false when a read-checkpoint finds
      the checkpoint variables unbound; the fields are then left as they
      were just before the restore.
    */
    method Step(p: PeerAnswers) returns (lhs1: Dofs, forces: Dofs, advancedBy: real, ok: bool)
      requires Valid()
      modifies this
      ensures Valid()
      ensures var spec := CouplingLoop.Step(kernels, timestepsize, old(State()), p);
        && ok == spec.Success?
        && (ok ==> spec.value == Window(State(), lhs1, forces, advancedBy))
        && (!ok ==> spec.error.at == State())
    {
      StepPreservesInv(kernels, timestepsize, State(), p);
      ReadDisplacements(p);
      if p.writeCheckpointRequired {
        SaveCheckpoint();
      }
      lhs1 := kernels.newton(NewtonArgs(lhs0, dt, meshdofs, oldmeshdofs, oldoldmeshdofs, oldoldoldmeshdofs));
      forces := Negated(kernels.forceResidual(
        ForceArgs(lhs00, lhs0, lhs1, dt, meshdofs, oldmeshdofs, oldoldmeshdofs, oldoldoldmeshdofs)));
      advancedBy := dt;
      AdvanceVariables(lhs1, StepSize(p.preciceDt, timestepsize));
      ok := true;
      if p.readCheckpointRequired {
        if checkpoint.None? {
          ok := false;
          return;
        }
        RestoreCheckpoint();
      }
    }

    /**
      The coupling loop, one element of `answers` per iteration while the
      coupling is ongoing; stops at the first unbound read-checkpoint.
    */
    method Run(answers: seq<PeerAnswers>) returns (ok: bool)
      requires Valid()
      modifies this
      ensures Valid()
      ensures var spec := CouplingLoop.Run(kernels, timestepsize, old(State()), answers);
        && ok == spec.Success?
        && (ok ==> spec.value == State())
        && (!ok ==> spec.error.at == State())
    {
      var i := 0;
      while i < |answers|
        invariant 0 <= i <= |answers|
        invariant Valid()
        invariant CouplingLoop.Run(kernels, timestepsize, old(State()), answers)
               == CouplingLoop.Run(kernels, timestepsize, State(), answers[i..])
      {
        assert answers[i..][0] == answers[i] && answers[i..][1..] == answers[i + 1..];
        var _, _, _, stepOk := Step(answers[i]);
        if !stepOk {
          return false;
        }
        i := i + 1;
      }
      return true;
    }
  }
}
