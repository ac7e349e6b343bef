/**
  Symbolic time-history references of the ALE fluid participant.

  The weak forms are written once over the "current" arguments (`?lhs`,
  `?meshdofs`, ...). `subs0` and `subs00` rewrite such an expression so that
  it reads one (resp. two) time levels back, and the time approximations
  `t`, `δt`, `tt`, `tp` and the mesh velocity `umesh` are fixed linear
  combinations of those levels.

  DOF vectors are abstracted to one real per argument. Renaming acts on
  argument names only, and the weights of the time approximations are the
  same for every component, so what is proved about one component holds
  for each.
*/
module TimeShift {

  /** The argument names the expressions are built from. */
  datatype ArgName =
    | Lhs | Lhs0 | Lhs00
    | MeshDofs | OldMeshDofs | OldOldMeshDofs | OldOldOldMeshDofs
    | Dt

  /** Which history a name belongs to. */
  datatype Field = Flow | Mesh | StepSize

  function FieldOf(n: ArgName): Field
  {
    match n
    case Lhs | Lhs0 | Lhs00 => Flow
    case MeshDofs | OldMeshDofs | OldOldMeshDofs | OldOldOldMeshDofs => Mesh
    case Dt => StepSize
  }

  /** How many time steps back a name refers to. */
  function LevelOf(n: ArgName): nat
  {
    match n
    case Lhs | MeshDofs | Dt => 0
    case Lhs0 | OldMeshDofs => 1
    case Lhs00 | OldOldMeshDofs => 2
    case OldOldOldMeshDofs => 3
  }

  /** The leaf rule of `subs0`: rename a history argument one level back. */
  function Subs0Name(n: ArgName): (r: ArgName)
    ensures r != n <==> n in {Lhs, MeshDofs, OldMeshDofs, OldOldMeshDofs}
    ensures r != n ==> FieldOf(r) == FieldOf(n) && LevelOf(r) == LevelOf(n) + 1
  {
    match n
    case Lhs => Lhs0
    case MeshDofs => OldMeshDofs
    case OldMeshDofs => OldOldMeshDofs
    case OldOldMeshDofs => OldOldOldMeshDofs
    case _ => n
  }

  /** The leaf rule of `subs00`: only the flow unknown is moved, two levels back. */
  function Subs00Name(n: ArgName): (r: ArgName)
    ensures r != n <==> n == Lhs
    ensures r != n ==> FieldOf(r) == Flow && LevelOf(r) == LevelOf(n) + 2
  {
    if n == Lhs then Lhs00 else n
  }

  /** Scalar expressions over the named arguments. */
  datatype Expr =
    | Lit(c: real)
    | Arg(name: ArgName)
    | Add(l: Expr, r: Expr)
    | Sub(l: Expr, r: Expr)
    | Mul(l: Expr, r: Expr)
    | Div(l: Expr, r: Expr)

  /** The argument names an expression reads. */
  function ArgsOf(e: Expr): set<ArgName>
  {
    match e
    case Lit(_) => {}
    case Arg(n) => {n}
    case Add(l, r) => ArgsOf(l) + ArgsOf(r)
    case Sub(l, r) => ArgsOf(l) + ArgsOf(r)
    case Mul(l, r) => ArgsOf(l) + ArgsOf(r)
    case Div(l, r) => ArgsOf(l) + ArgsOf(r)
  }

  /** The two leaf rules the source defines. */
  datatype Rule = Subs0Rule | Subs00Rule

  function RuleOf(rule: Rule, n: ArgName): ArgName
  {
    match rule
    case Subs0Rule => Subs0Name(n)
    case Subs00Rule => Subs00Name(n)
  }

  /**
    `function.replace` applied with a leaf rule: every argument leaf is
    rewritten once by the rule, all other nodes are rebuilt unchanged. The
    rewrite is simultaneous, so `meshdofs` and `oldmeshdofs` in one
    expression move to `oldmeshdofs` and `oldoldmeshdofs`, not further.
  */
  function Rename(e: Expr, rule: Rule): Expr
  {
    match e
    case Lit(c) => Lit(c)
    case Arg(n) => Arg(RuleOf(rule, n))
    case Add(l, r) => Add(Rename(l, rule), Rename(r, rule))
    case Sub(l, r) => Sub(Rename(l, rule), Rename(r, rule))
    case Mul(l, r) => Mul(Rename(l, rule), Rename(r, rule))
    case Div(l, r) => Div(Rename(l, rule), Rename(r, rule))
  }

  function Subs0(e: Expr): Expr
  {
    Rename(e, Subs0Rule)
  }

  function Subs00(e: Expr): Expr
  {
    Rename(e, Subs00Rule)
  }

  /** Values bound to the argument names, as in an `arguments=dict(...)`. */
  datatype Args = Args(
    lhs: real, lhs0: real, lhs00: real,
    meshdofs: real, oldmeshdofs: real, oldoldmeshdofs: real, oldoldoldmeshdofs: real,
    dt: real)

  function Get(a: Args, n: ArgName): real
  {
    match n
    case Lhs => a.lhs
    case Lhs0 => a.lhs0
    case Lhs00 => a.lhs00
    case MeshDofs => a.meshdofs
    case OldMeshDofs => a.oldmeshdofs
    case OldOldMeshDofs => a.oldoldmeshdofs
    case OldOldOldMeshDofs => a.oldoldoldmeshdofs
    case Dt => a.dt
  }

  /**
    Real-valued evaluation. Floating-point division by zero is not modelled:
    a zero denominator evaluates to 0.
  */
  function Eval(e: Expr, a: Args): real
  {
    match e
    case Lit(c) => c
    case Arg(n) => Get(a, n)
    case Add(l, r) => Eval(l, a) + Eval(r, a)
    case Sub(l, r) => Eval(l, a) - Eval(r, a)
    case Mul(l, r) => Eval(l, a) * Eval(r, a)
    case Div(l, r) => if Eval(r, a) == 0.0 then 0.0 else Eval(l, a) / Eval(r, a)
  }

  /** Reading a name in the pulled-back binding reads its renamed version. */
  lemma PullReadsRenamed(a: Args, rule: Rule, n: ArgName)
    ensures Get(Pull(a, rule), n) == Get(a, RuleOf(rule, n))
  {
  }

  /**
    The substitution lemma: evaluating a renamed expression is evaluating the
    original one in the binding pulled back along the rule. For `subs0` this
    says the shifted expression reads exactly the one-level-back values.
  */
  lemma {:induction false} EvalRename(e: Expr, rule: Rule, a: Args)
    ensures Eval(Rename(e, rule), a) == Eval(e, Pull(a, rule))
  {
    match e
    case Lit(_) =>
    case Arg(n) => PullReadsRenamed(a, rule, n);
    case Add(l, r) => EvalRename(l, rule, a); EvalRename(r, rule, a);
    case Sub(l, r) => EvalRename(l, rule, a); EvalRename(r, rule, a);
    case Mul(l, r) => EvalRename(l, rule, a); EvalRename(r, rule, a);
    case Div(l, r) => EvalRename(l, rule, a); EvalRename(r, rule, a);
  }

  /** The binding `subs0` makes an expression read: every name one level back. */
  function Back1(a: Args): Args
  {
    a.(lhs := a.lhs0, meshdofs := a.oldmeshdofs, oldmeshdofs := a.oldoldmeshdofs,
       oldoldmeshdofs := a.oldoldoldmeshdofs)
  }

  /** The binding `subs00` makes an expression read: only `lhs` two levels back. */
  function Back2(a: Args): Args
  {
    a.(lhs := a.lhs00)
  }

  function Pull(a: Args, rule: Rule): Args
  {
    match rule
    case Subs0Rule => Back1(a)
    case Subs00Rule => Back2(a)
  }

  lemma EvalSubs0(e: Expr, a: Args)
    ensures Eval(Subs0(e), a) == Eval(e, Back1(a))
  {
    EvalRename(e, Subs0Rule, a);
  }

  lemma EvalSubs00(e: Expr, a: Args)
    ensures Eval(Subs00(e), a) == Eval(e, Back2(a))
  {
    EvalRename(e, Subs00Rule, a);
  }

  // ----- the time approximations of the namespace -----

  /** `t`: the theta-method blend of the current and the previous level. */
  function ThetaBlend(theta: real, f: Expr): Expr
  {
    Add(Mul(Lit(theta), f), Mul(Lit(1.0 - theta), Subs0(f)))
  }

  /** `δt`: first-order backward difference over the step size `dt` it was built with. */
  function FirstDifference(dt: real, f: Expr): Expr
  {
    Div(Sub(f, Subs0(f)), Lit(dt))
  }

  /** `tt`: second-order backward difference; the two-levels-back term goes through `subs00`. */
  function SecondDifference(dt: real, f: Expr): Expr
  {
    Div(Add(Sub(Mul(Lit(1.5), f), Mul(Lit(2.0), Subs0(f))), Mul(Lit(0.5), Subs00(f))), Lit(dt))
  }

  /** `tp`: linear extrapolation used for the pressure in the force residual. */
  function PressureExtrapolation(f: Expr): Expr
  {
    Sub(Mul(Lit(1.5), f), Mul(Lit(0.5), Subs0(f)))
  }

  /** `umesh` (per basis function): second-order difference of the mesh DOFs over `?dt`. */
  function MeshVelocity(): Expr
  {
    Div(Add(Sub(Mul(Lit(1.5), Arg(MeshDofs)), Mul(Lit(2.0), Arg(OldMeshDofs))),
            Mul(Lit(0.5), Arg(OldOldMeshDofs))),
        Arg(Dt))
  }

  /** Total velocity `u = umesh + urel`, with `urel` read from `?lhs`. */
  function TotalVelocity(): Expr
  {
    Add(MeshVelocity(), Arg(Lhs))
  }

  // ----- what each operator means, in terms of history levels -----

  lemma EvalScaled(c: real, e: Expr, a: Args)
    ensures Eval(Mul(Lit(c), e), a) == c * Eval(e, a)
  {
  }

  lemma ThetaBlendWeights(theta: real, f: Expr, a: Args)
    ensures Eval(ThetaBlend(theta, f), a) == theta * Eval(f, a) + (1.0 - theta) * Eval(f, Back1(a))
  {
    var g := Subs0(f);
    EvalSubs0(f, a);
    EvalScaled(theta, f, a);
    EvalScaled(1.0 - theta, g, a);
    assert ThetaBlend(theta, f) == Add(Mul(Lit(theta), f), Mul(Lit(1.0 - theta), g));
  }

  lemma FirstDifferenceWeights(dt: real, f: Expr, a: Args)
    requires dt != 0.0
    ensures Eval(FirstDifference(dt, f), a) == (Eval(f, a) - Eval(f, Back1(a))) / dt
  {
    EvalSubs0(f, a);
    var g := Subs0(f);
    assert Eval(Div(Sub(f, g), Lit(dt)), a) == Eval(Sub(f, g), a) / dt;
    assert Eval(Sub(f, g), a) == Eval(f, a) - Eval(g, a);
  }

  lemma SecondDifferenceWeights(dt: real, f: Expr, a: Args)
    requires dt != 0.0
    ensures Eval(SecondDifference(dt, f), a)
         == (1.5 * Eval(f, a) - 2.0 * Eval(f, Back1(a)) + 0.5 * Eval(f, Back2(a))) / dt
  {
    EvalSubs0(f, a);
    EvalSubs00(f, a);
    var g, h := Subs0(f), Subs00(f);
    var n := Add(Sub(Mul(Lit(1.5), f), Mul(Lit(2.0), g)), Mul(Lit(0.5), h));
    assert Eval(Div(n, Lit(dt)), a) == Eval(n, a) / dt;
    assert Eval(n, a) == Eval(Sub(Mul(Lit(1.5), f), Mul(Lit(2.0), g)), a) + Eval(Mul(Lit(0.5), h), a);
    assert Eval(Sub(Mul(Lit(1.5), f), Mul(Lit(2.0), g)), a)
        == Eval(Mul(Lit(1.5), f), a) - Eval(Mul(Lit(2.0), g), a);
    assert Eval(Mul(Lit(1.5), f), a) == 1.5 * Eval(f, a);
    assert Eval(Mul(Lit(2.0), g), a) == 2.0 * Eval(g, a);
    assert Eval(Mul(Lit(0.5), h), a) == 0.5 * Eval(h, a);
  }

  lemma PressureExtrapolationWeights(f: Expr, a: Args)
    ensures Eval(PressureExtrapolation(f), a) == 1.5 * Eval(f, a) - 0.5 * Eval(f, Back1(a))
  {
    EvalSubs0(f, a);
    var g := Subs0(f);
    assert Eval(Sub(Mul(Lit(1.5), f), Mul(Lit(0.5), g)), a)
        == Eval(Mul(Lit(1.5), f), a) - Eval(Mul(Lit(0.5), g), a);
    assert Eval(Mul(Lit(1.5), f), a) == 1.5 * Eval(f, a);
    assert Eval(Mul(Lit(0.5), g), a) == 0.5 * Eval(g, a);
  }

  /** What `umesh` computes from the mesh levels and `?dt`. */
  lemma MeshVelocityWeights(a: Args)
    requires a.dt != 0.0
    ensures Eval(MeshVelocity(), a)
         == (1.5 * a.meshdofs - 2.0 * a.oldmeshdofs + 0.5 * a.oldoldmeshdofs) / a.dt
  {
    var l := Sub(Mul(Lit(1.5), Arg(MeshDofs)), Mul(Lit(2.0), Arg(OldMeshDofs)));
    var n := Add(l, Mul(Lit(0.5), Arg(OldOldMeshDofs)));
    assert Eval(Div(n, Arg(Dt)), a) == Eval(n, a) / a.dt;
    assert Eval(n, a) == Eval(l, a) + Eval(Mul(Lit(0.5), Arg(OldOldMeshDofs)), a);
    assert Eval(l, a) == Eval(Mul(Lit(1.5), Arg(MeshDofs)), a) - Eval(Mul(Lit(2.0), Arg(OldMeshDofs)), a);
    assert Eval(Mul(Lit(1.5), Arg(MeshDofs)), a) == 1.5 * a.meshdofs;
    assert Eval(Mul(Lit(2.0), Arg(OldMeshDofs)), a) == 2.0 * a.oldmeshdofs;
    assert Eval(Mul(Lit(0.5), Arg(OldOldMeshDofs)), a) == 0.5 * a.oldoldmeshdofs;
  }

  // ----- consistency: constant histories -----

  /** Every history level holds the same value. */
  predicate ConstantHistory(a: Args)
  {
    && a.lhs0 == a.lhs && a.lhs00 == a.lhs
    && a.oldmeshdofs == a.meshdofs && a.oldoldmeshdofs == a.meshdofs
    && a.oldoldoldmeshdofs == a.meshdofs
  }

  /** On a constant history, reading one or two levels back reads the same values. */
  lemma ConstantHistoryIsShiftInvariant(f: Expr, a: Args)
    requires ConstantHistory(a)
    ensures Eval(f, Back1(a)) == Eval(f, a) && Eval(f, Back2(a)) == Eval(f, a)
  {
    assert Back1(a) == a && Back2(a) == a;
  }

  lemma BlendOfEqualValues(theta: real, x: real)
    ensures theta * x + (1.0 - theta) * x == x
  {
  }

  /** The weights of `t` sum to one: a constant history is reproduced. */
  lemma ThetaBlendReproducesConstant(theta: real, f: Expr, a: Args)
    requires ConstantHistory(a)
    ensures Eval(ThetaBlend(theta, f), a) == Eval(f, a)
  {
    var g := Subs0(f);
    EvalSubs0(f, a);
    ConstantHistoryIsShiftInvariant(f, a);
    var x := Eval(f, a);
    assert Eval(g, a) == x;
    assert Eval(Add(Mul(Lit(theta), f), Mul(Lit(1.0 - theta), g)), a)
        == Eval(Mul(Lit(theta), f), a) + Eval(Mul(Lit(1.0 - theta), g), a);
    assert Eval(Mul(Lit(theta), f), a) == theta * x;
    assert Eval(Mul(Lit(1.0 - theta), g), a) == (1.0 - theta) * x;
    BlendOfEqualValues(theta, x);
  }

  /** The weights of `tp` sum to one: a constant history is reproduced. */
  lemma PressureExtrapolationReproducesConstant(f: Expr, a: Args)
    requires ConstantHistory(a)
    ensures Eval(PressureExtrapolation(f), a) == Eval(f, a)
  {
    PressureExtrapolationWeights(f, a);
    ConstantHistoryIsShiftInvariant(f, a);
  }

  /** The weights of `δt` sum to zero: a constant history has no derivative. */
  lemma FirstDifferenceVanishesOnConstant(dt: real, f: Expr, a: Args)
    requires ConstantHistory(a)
    ensures Eval(FirstDifference(dt, f), a) == 0.0
  {
    if dt != 0.0 {
      FirstDifferenceWeights(dt, f, a);
      ConstantHistoryIsShiftInvariant(f, a);
      var x := Eval(f, a);
      assert (x - x) / dt == 0.0 / dt == 0.0;
    }
  }

  /** The weights of `tt` sum to zero: a constant history has no derivative. */
  lemma SecondDifferenceVanishesOnConstant(dt: real, f: Expr, a: Args)
    requires ConstantHistory(a)
    ensures Eval(SecondDifference(dt, f), a) == 0.0
  {
    if dt != 0.0 {
      SecondDifferenceWeights(dt, f, a);
      ConstantHistoryIsShiftInvariant(f, a);
      var x := Eval(f, a);
      assert 1.5 * x - 2.0 * x + 0.5 * x == 0.0;
      assert 0.0 / dt == 0.0;
    }
  }

  /** The weights of `umesh` sum to zero: a mesh at rest has no velocity. */
  lemma MeshVelocityVanishesOnConstant(a: Args)
    requires ConstantHistory(a)
    ensures Eval(MeshVelocity(), a) == 0.0
  {
    if a.dt != 0.0 {
      MeshVelocityWeights(a);
    }
  }

  // ----- accuracy: polynomial histories -----

  /**
    The flow history samples `v + d*s + q*s*s` at steps s = 0, -1, -2:
    `d` is the slope per step, `q` the curvature.
  */
  predicate QuadraticFlowHistory(a: Args, d: real, q: real)
  {
    a.lhs0 == a.lhs - d + q && a.lhs00 == a.lhs - 2.0 * d + 4.0 * q
  }

  /** `tt` is exact for quadratic histories: it returns the slope at the current level. */
  lemma SecondDifferenceExactOnQuadratic(dt: real, a: Args, d: real, q: real)
    requires dt != 0.0 && QuadraticFlowHistory(a, d, q)
    ensures Eval(SecondDifference(dt, Arg(Lhs)), a) == d / dt
  {
    SecondDifferenceWeights(dt, Arg(Lhs), a);
  }

  /** `δt` is only first order: its error on a quadratic history is the curvature. */
  lemma FirstDifferenceOnQuadratic(dt: real, a: Args, d: real, q: real)
    requires dt != 0.0 && QuadraticFlowHistory(a, d, q)
    ensures Eval(FirstDifference(dt, Arg(Lhs)), a) == (d - q) / dt
  {
    FirstDifferenceWeights(dt, Arg(Lhs), a);
  }

  /** `tp` on a linear history lands half a step beyond the current level. */
  lemma PressureExtrapolationOnLinear(a: Args, d: real)
    requires QuadraticFlowHistory(a, d, 0.0)
    ensures Eval(PressureExtrapolation(Arg(Lhs)), a) == a.lhs + 0.5 * d
  {
    PressureExtrapolationWeights(Arg(Lhs), a);
  }

  /** `t` on a linear history lands (1 - theta) steps behind the current level. */
  lemma ThetaBlendOnLinear(theta: real, a: Args, d: real)
    requires QuadraticFlowHistory(a, d, 0.0)
    ensures Eval(ThetaBlend(theta, Arg(Lhs)), a) == a.lhs - (1.0 - theta) * d
  {
    ThetaBlendWeights(theta, Arg(Lhs), a);
  }

  /** The mesh-DOF levels sample `m + d*s + q*s*s` at steps s = 0, -1, -2. */
  predicate QuadraticMeshHistory(a: Args, d: real, q: real)
  {
    a.oldmeshdofs == a.meshdofs - d + q && a.oldoldmeshdofs == a.meshdofs - 2.0 * d + 4.0 * q
  }

  /** `umesh` is exact for quadratic mesh motion. */
  lemma MeshVelocityExactOnQuadratic(a: Args, d: real, q: real)
    requires a.dt != 0.0 && QuadraticMeshHistory(a, d, q)
    ensures Eval(MeshVelocity(), a) == d / a.dt
  {
    MeshVelocityWeights(a);
    assert 1.5 * a.meshdofs - 2.0 * a.oldmeshdofs + 0.5 * a.oldoldmeshdofs == d;
  }

  // ----- which history levels the residuals read -----

  /** A renamed expression reads exactly the renamed arguments. */
  lemma {:induction false} ArgsOfRename(e: Expr, rule: Rule)
    ensures ArgsOf(Rename(e, rule)) == set n | n in ArgsOf(e) :: RuleOf(rule, n)
  {
    match e
    case Lit(_) =>
    case Arg(_) =>
    case Add(l, r) => ArgsOfRename(l, rule); ArgsOfRename(r, rule);
    case Sub(l, r) => ArgsOfRename(l, rule); ArgsOfRename(r, rule);
    case Mul(l, r) => ArgsOfRename(l, rule); ArgsOfRename(r, rule);
    case Div(l, r) => ArgsOfRename(l, rule); ArgsOfRename(r, rule);
  }

  /** `subs0` of the total velocity: the mesh levels one step back, `lhs0`, and `?dt` kept. */
  lemma ArgsOfShiftedVelocity()
    ensures ArgsOf(TotalVelocity()) == {MeshDofs, OldMeshDofs, OldOldMeshDofs, Dt, Lhs}
    ensures ArgsOf(Subs0(TotalVelocity())) == {OldMeshDofs, OldOldMeshDofs, OldOldOldMeshDofs, Dt, Lhs0}
    ensures ArgsOf(Subs00(TotalVelocity())) == {MeshDofs, OldMeshDofs, OldOldMeshDofs, Dt, Lhs00}
  {
    var u := TotalVelocity();
    ArgsOfRename(u, Subs0Rule);
    ArgsOfRename(u, Subs00Rule);
  }

  /**
    The flow residual blends `u` with `t(...)` and differentiates it with
    `δt(...)`: besides the unknown `lhs` it reads `lhs0`, `dt` and all four
    mesh levels, the oldest through `subs0` of `umesh`. These are exactly the
    arguments the Newton solve is given.
  */
  lemma FlowResidualArgs(theta: real, dt: real)
    ensures ArgsOf(Add(ThetaBlend(theta, TotalVelocity()), FirstDifference(dt, TotalVelocity())))
         == {Lhs, Lhs0, MeshDofs, OldMeshDofs, OldOldMeshDofs, OldOldOldMeshDofs, Dt}
  {
    ArgsOfShiftedVelocity();
    var u := TotalVelocity();
    assert ArgsOf(Mul(Lit(theta), u)) == ArgsOf(u);
    assert ArgsOf(Mul(Lit(1.0 - theta), Subs0(u))) == ArgsOf(Subs0(u));
    assert ArgsOf(ThetaBlend(theta, u)) == ArgsOf(u) + ArgsOf(Subs0(u));
    assert ArgsOf(FirstDifference(dt, u)) == ArgsOf(u) + ArgsOf(Subs0(u));
  }

  /**
    The force residual uses `tt(u)` and `tp(p)`: it additionally reads
    `lhs00`, so it must be given the two-levels-back flow DOFs.
  */
  lemma ForceResidualArgs(dt: real)
    ensures ArgsOf(Add(SecondDifference(dt, TotalVelocity()), PressureExtrapolation(Arg(Lhs))))
         == {Lhs, Lhs0, Lhs00, MeshDofs, OldMeshDofs, OldOldMeshDofs, OldOldOldMeshDofs, Dt}
  {
    ArgsOfShiftedVelocity();
    var u := TotalVelocity();
    assert ArgsOf(SecondDifference(dt, u)) == ArgsOf(u) + ArgsOf(Subs0(u)) + ArgsOf(Subs00(u));
    assert ArgsOf(PressureExtrapolation(Arg(Lhs))) == {Lhs, Lhs0};
  }
}
