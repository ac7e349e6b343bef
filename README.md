# Fluid participant coupling bookkeeping (perpendicular flap, Nutils ALE solver)

This project models the bookkeeping of the fluid participant in the
perpendicular-flap case: an arbitrary Lagrangian-Eulerian (ALE)
Navier-Stokes solver written with Nutils and coupled to a structure solver
through preCICE. The finite-element numerics are left opaque. What is
modelled is the bookkeeping around them:

- `time_shift.dfy` (module `TimeShift`):
  - the symbolic time-history rules `subs0` and `subs00`, which rename the
    arguments of an expression one or two levels back;
  - the time approximations built on those rules: `t`, `δt`, `tt`, `tp`
    and the mesh velocity `umesh`.

  Expressions are a small real-valued language over the argument names, and
  `function.replace` becomes a structural rewrite of its leaves. The lemmas
  state which history levels each operator reads and with which weights.
  They also show that the weights are consistent, since constant histories
  are reproduced or differentiate to zero. Finally they show how accurate
  the weights are on linear and quadratic histories.
- `coupling_loop.dfy` (module `CouplingLoop`): one iteration of the coupling
  loop as a function on values. An iteration reads displacements, may save a
  checkpoint, runs the Newton solve, computes the forces, takes the new step
  size, rotates the history and may restore the checkpoint. The module also
  has the whole loop as a recursion over the peer's answers, and the lemmas
  about both.
- `fluid_participant.dfy` (module `FluidParticipant`): the loop as the
  source runs it.
  - The loop variables are fields of a class, and each phase of the loop
    body is a method that reassigns them in place.
  - `Step` is one iteration and `Run` is the `while` loop.
  - Each method is proved to produce the state that the matching
    `CouplingLoop` function specifies. Each method also keeps the invariant
    `CouplingLoop.Inv`: the step size is at most the local maximum, and the
    checkpointed step is not ahead of the current one. `AdvanceVariables`
    keeps it only for a new step size within `timestepsize`, which is what
    `Step` hands it.

The solver kernels are parameters of the model: the mesh-motion
optimisation, the Newton solve and the force-residual evaluation. The
coupling peer is modelled as one record of answers per iteration:
- whether read data is available, and the displacements read;
- whether a write-checkpoint is required;
- the step size returned by `advance`;
- whether a read-checkpoint is required.

Points of `nsale.py` that the model keeps as written:
- The loop has no checkpoint state machine: nothing rejects a second save,
  and nothing discards the checkpoint when a window is accepted. The seven
  `*_checkpoint` variables stay bound once written, and a later
  write-checkpoint overwrites them.
- A read-checkpoint before any write-checkpoint reads unbound names, which
  raises a `NameError` in Python. Here this is the error result
  `CheckpointUnbound`, carrying the state reached just before the restore.
- `t` grows by the step size returned by the latest `advance`, not by the
  step size the window was solved with.
- The namespace expressions `δt` and `tt` divide by the step size fixed
  when the weak forms are built, which is the initial `dt`. `umesh` divides
  by the `?dt` argument of each solve.

## Model

| member | source | states |
|---|---|---|
| TimeShift.Subs0Name | perpendicular-flap/fluid-nutils/nsale.py:12-21 | a name is changed exactly when it is `lhs`, `meshdofs`, `oldmeshdofs` or `oldoldmeshdofs`; a changed name stays in the same history (flow or mesh) and moves exactly one level back |
| TimeShift.Subs00Name | perpendicular-flap/fluid-nutils/nsale.py:24-27 | only `lhs` is changed, and it becomes the flow level two steps back (`lhs00`) |
| TimeShift.EvalRename | perpendicular-flap/fluid-nutils/nsale.py:12-27 | evaluating an expression rewritten by `function.replace` with a leaf rule equals evaluating the original expression where every name is bound to the value of its renamed version |
| TimeShift.EvalSubs0 | perpendicular-flap/fluid-nutils/nsale.py:12-21 | `subs0(f)` evaluates to `f` evaluated on the history one level back: `lhs0` for `lhs`, each mesh level shifted by one, `?dt` unchanged |
| TimeShift.EvalSubs00 | perpendicular-flap/fluid-nutils/nsale.py:24-27 | `subs00(f)` evaluates to `f` evaluated with `lhs00` in place of `lhs` and everything else unchanged |
| TimeShift.ArgsOfRename | perpendicular-flap/fluid-nutils/nsale.py:12-27 | the arguments of a rewritten expression are exactly the images of the original arguments under the leaf rule |
| TimeShift.ArgsOfShiftedVelocity | perpendicular-flap/fluid-nutils/nsale.py:80-87 | the total velocity reads `lhs`, `?dt` and three mesh levels; `subs0` of it reads `lhs0` and the three mesh levels one step further back; `subs00` of it reads `lhs00` and the same mesh levels as the total velocity |
| TimeShift.ThetaBlendWeights | perpendicular-flap/fluid-nutils/nsale.py:62 | `t(f)` equals θ times the current value plus (1−θ) times the value one level back |
| TimeShift.FirstDifferenceWeights | perpendicular-flap/fluid-nutils/nsale.py:65 | `δt(f)` equals (current − one level back) / dt |
| TimeShift.SecondDifferenceWeights | perpendicular-flap/fluid-nutils/nsale.py:68 | `tt(f)` equals (1.5·current − 2·one back + 0.5·two back) / dt, where the two-back term is `subs00` (only `lhs` moved) |
| TimeShift.PressureExtrapolationWeights | perpendicular-flap/fluid-nutils/nsale.py:71 | `tp(f)` equals 1.5·current − 0.5·one level back |
| TimeShift.MeshVelocityWeights | perpendicular-flap/fluid-nutils/nsale.py:80 | `umesh` equals (1.5·meshdofs − 2·oldmeshdofs + 0.5·oldoldmeshdofs) / ?dt |
| TimeShift.ConstantHistoryIsShiftInvariant | perpendicular-flap/fluid-nutils/nsale.py:12-27 | when every history level holds the same value, `subs0` and `subs00` leave the value of any expression unchanged |
| TimeShift.ThetaBlendReproducesConstant | perpendicular-flap/fluid-nutils/nsale.py:62 | the weights of `t` sum to one: on a constant history `t(f)` equals `f` |
| TimeShift.PressureExtrapolationReproducesConstant | perpendicular-flap/fluid-nutils/nsale.py:71 | the weights of `tp` sum to one: on a constant history `tp(f)` equals `f` |
| TimeShift.FirstDifferenceVanishesOnConstant | perpendicular-flap/fluid-nutils/nsale.py:65 | the weights of `δt` sum to zero: on a constant history `δt(f)` is 0 |
| TimeShift.SecondDifferenceVanishesOnConstant | perpendicular-flap/fluid-nutils/nsale.py:68 | the weights of `tt` sum to zero: on a constant history `tt(f)` is 0 |
| TimeShift.MeshVelocityVanishesOnConstant | perpendicular-flap/fluid-nutils/nsale.py:80 | the weights of `umesh` sum to zero: a mesh at rest has zero mesh velocity |
| TimeShift.SecondDifferenceExactOnQuadratic | perpendicular-flap/fluid-nutils/nsale.py:68 | `tt` is second-order: on a quadratic flow history it returns the slope at the current level divided by dt |
| TimeShift.FirstDifferenceOnQuadratic | perpendicular-flap/fluid-nutils/nsale.py:65 | `δt` is first-order: on a quadratic flow history its result is off from the current slope by the curvature |
| TimeShift.PressureExtrapolationOnLinear | perpendicular-flap/fluid-nutils/nsale.py:71 | on a linear history `tp` extrapolates half a step beyond the current level |
| TimeShift.ThetaBlendOnLinear | perpendicular-flap/fluid-nutils/nsale.py:62 | on a linear history `t` interpolates (1−θ) steps behind the current level |
| TimeShift.MeshVelocityExactOnQuadratic | perpendicular-flap/fluid-nutils/nsale.py:80 | `umesh` is exact on quadratic mesh motion: it returns the current slope divided by ?dt |
| TimeShift.FlowResidualArgs | perpendicular-flap/fluid-nutils/nsale.py:137-140 | the flow residual's time terms read exactly `lhs`, `lhs0`, `?dt` and all four mesh levels, which are the arguments the Newton solve is given |
| TimeShift.ForceResidualArgs | perpendicular-flap/fluid-nutils/nsale.py:143-147 | the force residual's time terms additionally read `lhs00`, which is why the force evaluation is given the two-levels-back flow DOFs |
| CouplingLoop.StepSize | perpendicular-flap/fluid-nutils/nsale.py:127-128 | the step size is at most both the peer's step size and `timestepsize`, and equals one of them |
| CouplingLoop.Zeros | perpendicular-flap/fluid-nutils/nsale.py:92-96 | the initial DOF vectors have the basis length and are all zero |
| CouplingLoop.Negated | perpendicular-flap/fluid-nutils/nsale.py:192 | the forces are the residual with its sign flipped, entry by entry |
| CouplingLoop.InitialStateIsSeeded | perpendicular-flap/fluid-nutils/nsale.py:92-164 | initialisation seeds all four mesh levels with the zero `meshdofs` and sets `lhs00` to `lhs0`, so the first step reads no undefined level; `t` is 0, `timestep` is 1, no checkpoint is bound, `dt` is the step size limited by `timestepsize`, and the loop invariant holds |
| CouplingLoop.Step | perpendicular-flap/fluid-nutils/nsale.py:166-218 | one iteration fails exactly when a read-checkpoint is required, no write-checkpoint is required in the same iteration, and none was written before |
| CouplingLoop.SaveCheckpointKeepsLiveState | perpendicular-flap/fluid-nutils/nsale.py:178-186 | a write-checkpoint records exactly `lhs0`, `lhs00`, `t`, `timestep` and the three old mesh levels, and changes no live variable |
| CouplingLoop.RestoreAfterSaveIsIdentity | perpendicular-flap/fluid-nutils/nsale.py:178-218 | restoring the snapshot just taken leaves the state as it was |
| CouplingLoop.RestoreYieldsCheckpoint | perpendicular-flap/fluid-nutils/nsale.py:210-218 | after a restore the seven checkpointed values are the checkpoint's; `meshdofs`, `dt` and the checkpoint itself are untouched |
| CouplingLoop.AcceptedWindowShiftsHistory | perpendicular-flap/fluid-nutils/nsale.py:200-207 | an accepted window puts `lhs1` on top of the flow levels and moves `lhs0` to `lhs00`; each mesh level moves down by one; `timestep` grows by 1 and `t` by the new step size, which is at most `timestepsize`; the checkpoint is the one written in this iteration, or else the one bound before |
| CouplingLoop.RejectedWindowRestoresCheckpoint | perpendicular-flap/fluid-nutils/nsale.py:209-218 | a rejected window after a write-checkpoint leaves the seven values equal to those saved at the most recent write-checkpoint; `meshdofs` and `dt` are not restored |
| CouplingLoop.SaveAndRejectUndoesAdvance | perpendicular-flap/fluid-nutils/nsale.py:178-218 | when the checkpoint is written and read in the same iteration, the tentative rotation is undone: the flow levels, the old mesh levels, `t` and `timestep` are those the iteration started from |
| CouplingLoop.SolveAndForceSeePreRotationHistory | perpendicular-flap/fluid-nutils/nsale.py:189-197 | the Newton solve and the force residual see the pre-rotation `lhs0`, `lhs00`, mesh levels and `dt`, and the residual sees the freshly solved `lhs1`; `advance` is handed that same `dt` |
| CouplingLoop.RejectedWindowRepeatsSolve | perpendicular-flap/fluid-nutils/nsale.py:189-218 | after a rejected window, repeating it with the same displacements and an unchanged step size yields the same Newton solution and the same forces; the rejected attempt may be the first of its window (the checkpoint is written in the same iteration) or a later one started from the state the checkpoint holds |
| CouplingLoop.StepPreservesInv | perpendicular-flap/fluid-nutils/nsale.py:197-218 | every iteration keeps `dt <= timestepsize`, `timestep >= 1` and a checkpointed step between 1 and the current step; this holds for the state an error stops in too |
| CouplingLoop.RunPreservesInv | perpendicular-flap/fluid-nutils/nsale.py:166-218 | the invariant holds of every state the whole loop ends or stops in |
| CouplingLoop.ExplicitRunCounts | perpendicular-flap/fluid-nutils/nsale.py:200-202 | without read-checkpoints the loop never fails; `timestep` grows by the number of iterations and `t` by the sum of their step sizes |
| FluidParticipant.FluidParticipant.constructor | perpendicular-flap/fluid-nutils/nsale.py:92-164 | the fields start in `CouplingLoop.InitialState`, and the invariant holds |
| FluidParticipant.FluidParticipant.ReadDisplacements | perpendicular-flap/fluid-nutils/nsale.py:169-175 | `meshdofs` is replaced by the mesh motion of the read displacements exactly when data is available; nothing else changes, and the invariant is kept |
| FluidParticipant.FluidParticipant.SaveCheckpoint | perpendicular-flap/fluid-nutils/nsale.py:178-186 | the checkpoint fields become the snapshot of the seven values; the live fields are unchanged, and the invariant is kept |
| FluidParticipant.FluidParticipant.AdvanceVariables | perpendicular-flap/fluid-nutils/nsale.py:198-207 | the new step size is taken, `timestep` and `t` are advanced, and the history is rotated in place, as `CouplingLoop.AdvanceVariables` specifies; the invariant is kept when the new step size is within `timestepsize` |
| FluidParticipant.FluidParticipant.RestoreCheckpoint | perpendicular-flap/fluid-nutils/nsale.py:210-218 | the seven values are copied back from the checkpoint fields, as `CouplingLoop.Restore` specifies, and the invariant is kept |
| FluidParticipant.FluidParticipant.Step | perpendicular-flap/fluid-nutils/nsale.py:166-218 | one loop iteration in place: it reports failure exactly when `CouplingLoop.Step` fails, it returns that function's solution, forces and `advance` argument, it leaves the fields in that function's new state or error state, and it keeps the invariant |
| FluidParticipant.FluidParticipant.Run | perpendicular-flap/fluid-nutils/nsale.py:166-218 | the `while` loop, one iteration per peer answer; it ends in the state `CouplingLoop.Run` specifies, or stops where that function reports the unbound checkpoint, and it keeps the invariant |

## Left out

- The Nutils numerics are opaque function parameters: mesh and basis construction, the weak-form integrals, the constraint solves, the Newton solve and the force-residual evaluation (nsale.py:36-88, 131-154, 174-175, 189, 192). Floating-point rounding and Newton convergence failure are not modelled.
- preCICE is replaced by the per-iteration `PeerAnswers`: interface set-up, mesh vertices, `initialize`, `advance`, the checkpoint-action queries and `fulfilled_action`. The model does not say what the peer does with the step size it is handed.
- `is_coupling_ongoing` is the length of the answer sequence that `Run` is given.
- The force write at nsale.py:193-194 refers to `where` and `dataIndicesGC`, which nsale.py never defines. As written, line 193 therefore raises `NameError` in every iteration, before `advance` is reached, so the loop never completes an iteration. The model instead continues as if the write had succeeded, and keeps the negated residual `R` as the window's `forces` output. This differs from the unbound checkpoint at line 211, which is modelled as an error: that `NameError` depends on the peer's answers, while this one would stop every run at its first iteration and leave nothing of the loop to state.
- The VTK export of accepted windows (nsale.py:220-222) and `finalize` (nsale.py:225) are output only.
- The `cli.run` entry point and the options of `main` (nsale.py:29-33, 227-228) are not modelled, except `theta` (a parameter of `TimeShift.ThetaBlend`) and `timestepsize`. The commented-out Stokes initial guess (nsale.py:157-159) is not modelled either.
- DOF vectors in `TimeShift` are one real per argument. Shapes and derivatives (`nderiv`) carried by `function.Argument` are not modelled.
- TimeShift.Eval: floating-point division by zero (inf or nan) is not modelled; a zero denominator evaluates to 0. This is why the lemmas about `δt`, `tt` and `umesh` weights require a non-zero step size.
- `FluidParticipant` keeps the seven `*_checkpoint` variables as one `Option<Checkpoint>` field instead of seven separate variables. They are only ever assigned together, and `None` stands for the names not yet being bound.
- `perpendicular-flap/fluid-fake/fake-fluid.py`, a stand-in fluid participant, is not part of this model. Neither are the structure solvers of the case.
