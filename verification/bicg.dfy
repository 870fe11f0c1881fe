/**
 * The BiCG Krylov driver (bicg.c): setup checks on the preconditioning
 * side, the initial residuals, and the iteration with its breakdown test,
 * its convergence test and its iteration limit.  The operator, its
 * transpose, the preconditioner and its transpose are abstract functions on
 * vectors, and so is the convergence test, which sees the iteration number
 * and the vector whose 2-norm the C code hands it.
 */
module BiCG {
  import opened Dense
  import opened Results

  /** The side on which the preconditioner is applied. */
  datatype PcSide = PcLeft | PcRight | PcSymmetric

  /** The two setup errors (error code 2). */
  datatype SetupError = NoRightPreconditioning | NoSymmetricPreconditioning

  /** The solver object as far as BiCG sets it up: preconditioning side, residual flag, number of work vectors held. */
  datatype Ksp = Ksp(pcSide: PcSide, calcRes: bool, work: nat)

  /** `KSPCreate_BiCG`: left preconditioning and true residuals by default, no work vectors yet. */
  function Create(): (k: Ksp)
    ensures k.pcSide == PcLeft && k.calcRes && k.work == 0
  {
    Ksp(PcLeft, true, 0)
  }

  /** `KSPSetUp_BiCG`: right and symmetric preconditioning are refused before any work vector is taken; otherwise six are. */
  function SetUp(k: Ksp): (r: Result<Ksp, SetupError>)
    ensures r.Ok? <==> k.pcSide == PcLeft
    ensures k.pcSide == PcRight ==> r == Err(NoRightPreconditioning)
    ensures k.pcSide == PcSymmetric ==> r == Err(NoSymmetricPreconditioning)
    ensures r.Ok? ==> r.value == k.(work := 6)
  {
    match k.pcSide
    case PcRight => Err(NoRightPreconditioning)
    case PcSymmetric => Err(NoSymmetricPreconditioning)
    case PcLeft => Ok(k.(work := 6))
  }

  /** A freshly created BiCG solver always sets up. */
  lemma CreatedSetsUp()
    ensures SetUp(Create()) == Ok(Ksp(PcLeft, true, 6))
  {
  }

  /** The operator `A`, its transpose, the preconditioner `M` and its transpose. */
  datatype Operators = Operators(A: Vector -> Vector, At: Vector -> Vector, M: Vector -> Vector, Mt: Vector -> Vector)

  /** All four operators map vectors of length `n` to vectors of length `n`. */
  ghost predicate Preserves(ops: Operators, n: nat)
  {
    forall v: Vector :: |v| == n ==>
      |ops.A(v)| == n && |ops.At(v)| == n && |ops.M(v)| == n && |ops.Mt(v)| == n
  }

  /** The convergence test: iteration number and tested vector to a reason code, 0 meaning "keep going". */
  type Test = (int, Vector) -> int

  /** Why the solve stopped: not at all (a negative limit), a reason the test set, breakdown, or the iteration limit. */
  datatype Reason = Iterating | Stopped(code: int) | DivergedBreakdownBicg | DivergedIts

  /** The six work vectors, the solution and the previous `beta`. */
  datatype Work = Work(x: Vector, rl: Vector, zl: Vector, pl: Vector, rr: Vector, zr: Vector, pr: Vector, betaold: real)

  /** Every vector of the state has length `n`. */
  predicate Sized(w: Work, n: nat)
  {
    |w.x| == n && |w.rl| == n && |w.zl| == n && |w.pl| == n && |w.rr| == n && |w.zr| == n && |w.pr| == n
  }

  /**
   * The result of a solve: the final state, the count returned in `*its`, the
   * count left in the solver's own `its` field, and the reason.
   */
  datatype Outcome = Outcome(work: Work, its: int, recorded: int, reason: Reason)

  /**
   * The initial state: `Rr` is `b` when the guess is zero and `b - A x`
   * otherwise, `Rl` is `Rr`, and `Zr`, `Zl` are the preconditioned residuals.
   * The direction vectors are written before they are read, so their initial
   * contents are immaterial; they are zero here.
   */
  function Initial(ops: Operators, b: Vector, x0: Vector, guessZero: bool): (w: Work)
    requires Preserves(ops, |b|) && |x0| == |b|
    ensures Sized(w, |b|)
  {
    var rr := if guessZero then b else Aypx(-1.0, b, ops.A(x0));
    Work(x0, rr, ops.Mt(rr), Zeros(|b|), rr, ops.M(rr), Zeros(|b|), 1.0)
  }

  /** The vector whose norm is tested: the preconditioned residual or the residual. */
  function Measured(w: Work, pres: bool): Vector
  {
    if pres then w.zr else w.rr
  }

  /** `beta = Zr . Rl`. */
  function Beta(w: Work): real
    requires |w.zr| == |w.rl|
  {
    Dot(w.zr, w.rl)
  }

  /** The new directions: `P = Z` on the first iteration and `P = Z + (beta / betaold) P` later, for both streams. */
  function Directions(w: Work, i: int, beta: real): (r: Work)
    requires Sized(w, |w.x|)
    ensures Sized(r, |w.x|) && r.x == w.x && r.rr == w.rr && r.rl == w.rl && r.betaold == beta
  {
    if i == 0 then w.(pr := w.zr, pl := w.zl, betaold := beta)
    else
      var c := Quot(beta, w.betaold);
      w.(pr := Aypx(c, w.zr, w.pr), pl := Aypx(c, w.zl, w.pl), betaold := beta)
  }

  /** The step `a = beta / (Pl . A Pr)`, after which `x += a Pr`, `Rr -= a A Pr`, `Rl -= a A' Pl`. */
  function Update(ops: Operators, w: Work, beta: real): (r: Work)
    requires Sized(w, |w.x|) && Preserves(ops, |w.x|)
    ensures Sized(r, |w.x|)
  {
    var zr := ops.A(w.pr);
    var zl := ops.At(w.pl);
    var a := Quot(beta, Dot(w.pl, zr));
    w.(zr := zr, zl := zl, x := Axpy(a, w.pr, w.x), rr := Axpy(-a, zr, w.rr), rl := Axpy(-a, zl, w.rl))
  }

  /** `Zr = M Rr` and `Zl = M' Rl`. */
  function Precondition(ops: Operators, w: Work): (r: Work)
    requires Sized(w, |w.x|) && Preserves(ops, |w.x|)
    ensures Sized(r, |w.x|) && r.x == w.x && r.rr == w.rr && r.rl == w.rl
  {
    w.(zr := ops.M(w.rr), zl := ops.Mt(w.rl))
  }

  /** The state in which iteration `i` runs its convergence test. */
  function Tested(ops: Operators, pres: bool, w: Work, i: int): (r: Work)
    requires Sized(w, |w.x|) && Preserves(ops, |w.x|)
    ensures Sized(r, |w.x|)
  {
    var w1 := Update(ops, Directions(w, i, Beta(w)), Beta(w));
    if pres then Precondition(ops, w1) else w1
  }

  /** The state iteration `i` hands to iteration `i + 1`. */
  function Next(ops: Operators, w: Work, i: int): (r: Work)
    requires Sized(w, |w.x|) && Preserves(ops, |w.x|)
    ensures Sized(r, |w.x|)
  {
    Precondition(ops, Update(ops, Directions(w, i, Beta(w)), Beta(w)))
  }

  /** The iterations from `i` on, as a recursive reference definition of the loop. */
  function Loop(ops: Operators, test: Test, pres: bool, w: Work, i: nat, maxit: int): Outcome
    requires Sized(w, |w.x|) && Preserves(ops, |w.x|)
    decreases maxit - i
  {
    if maxit <= i then
      if i == maxit then Outcome(w, i, i - 1, DivergedIts) else Outcome(w, i + 1, 0, Iterating)
    else if i == 0 && Beta(w) == 0.0 then
      Outcome(w, 0, 0, DivergedBreakdownBicg)
    else
      var wt := Tested(ops, pres, w, i);
      var code := test(i + 1, Measured(wt, pres));
      if code != 0 then Outcome(wt, i + 1, i + 1, Stopped(code))
      else Loop(ops, test, pres, Next(ops, w, i), i + 1, maxit)
  }

  /** The whole solve: the test at iteration 0, then the loop. */
  function Solve(ops: Operators, test: Test, pres: bool, b: Vector, x0: Vector, guessZero: bool, maxit: int, itsBefore: int): Outcome
    requires Preserves(ops, |b|) && |x0| == |b|
  {
    var w := Initial(ops, b, x0, guessZero);
    var code := test(0, Measured(w, pres));
    if code != 0 then Outcome(w, 0, itsBefore, Stopped(code))
    else Loop(ops, test, pres, w, 0, maxit)
  }

  /**
   * `KSPSolve_BiCG`.  The returned count is `i + 1` for the iteration `i`
   * whose test set a reason, 0 on a stop at iteration 0 or a breakdown, and
   * the limit when the limit is reached.
   */
  method KSPSolve(ops: Operators, test: Test, pres: bool, b: Vector, x0: Vector, guessZero: bool, maxit: int, itsBefore: int)
    returns (r: Outcome)
    requires Preserves(ops, |b|) && |x0| == |b|
    ensures r == Solve(ops, test, pres, b, x0, guessZero, maxit, itsBefore)
  {
    var n := |b|;
    var rr;
    if !guessZero {
      rr := Aypx(-1.0, b, ops.A(x0));
    } else {
      rr := b;
    }
    var w := Work(x0, rr, ops.Mt(rr), Zeros(n), rr, ops.M(rr), Zeros(n), 1.0);
    var code := test(0, Measured(w, pres));
    if code != 0 {
      return Outcome(w, 0, itsBefore, Stopped(code));
    }
    ghost var w0 := w;
    var recorded := 0;
    var i := 0;
    while i < maxit
      invariant 0 <= i && (0 <= maxit ==> i <= maxit) && recorded == i
      invariant Sized(w, n) && (i == 0 ==> w == w0)
      invariant Loop(ops, test, pres, w, i, maxit) == Loop(ops, test, pres, w0, 0, maxit)
    {
      var beta := Dot(w.zr, w.rl);
      if i == 0 && beta == 0.0 {
        return Outcome(w, 0, 0, DivergedBreakdownBicg);
      }
      w := Update(ops, Directions(w, i, beta), beta);
      if pres {
        w := Precondition(ops, w);
      }
      recorded := i + 1;
      code := test(i + 1, Measured(w, pres));
      if code != 0 {
        return Outcome(w, i + 1, recorded, Stopped(code));
      }
      if !pres {
        w := Precondition(ops, w);
      }
      i := i + 1;
    }
    var reason := Iterating;
    if i == maxit {
      i := i - 1;
      recorded := recorded - 1;
      reason := DivergedIts;
    }
    r := Outcome(w, i + 1, recorded, reason);
  }

  /** The loop breaks down exactly when `beta` vanishes at iteration 0, before any step. */
  lemma {:induction false} LoopBreakdown(ops: Operators, test: Test, pres: bool, w: Work, i: nat, maxit: int)
    requires Sized(w, |w.x|) && Preserves(ops, |w.x|)
    ensures var r := Loop(ops, test, pres, w, i, maxit);
      && (r.reason == DivergedBreakdownBicg <==> i == 0 < maxit && Beta(w) == 0.0)
      && (r.reason == DivergedBreakdownBicg ==> r.its == 0 && r.work == w)
    decreases maxit - i
  {
    if i < maxit && !(i == 0 && Beta(w) == 0.0) {
      LoopBreakdown(ops, test, pres, Next(ops, w, i), i + 1, maxit);
    }
  }

  /** The loop leaves the reason unset, with a count of `i + 1`, exactly when the limit lies below its start. */
  lemma {:induction false} LoopIterating(ops: Operators, test: Test, pres: bool, w: Work, i: nat, maxit: int)
    requires Sized(w, |w.x|) && Preserves(ops, |w.x|)
    ensures var r := Loop(ops, test, pres, w, i, maxit);
      (r.reason == Iterating <==> maxit < i) && (maxit < i ==> r.its == i + 1)
    decreases maxit - i
  {
    if i < maxit && !(i == 0 && Beta(w) == 0.0) {
      LoopIterating(ops, test, pres, Next(ops, w, i), i + 1, maxit);
    }
  }

  /**
   * A stop comes from an iteration up to the limit whose test, applied to the
   * state returned, set a nonzero reason; the iteration is counted.
   */
  lemma {:induction false} LoopStopped(ops: Operators, test: Test, pres: bool, w: Work, i: nat, maxit: int)
    requires Sized(w, |w.x|) && Preserves(ops, |w.x|)
    ensures var r := Loop(ops, test, pres, w, i, maxit);
      r.reason.Stopped? ==>
        && i < r.its <= maxit && r.recorded == r.its
        && r.reason.code == test(r.its, Measured(r.work, pres)) && r.reason.code != 0
    decreases maxit - i
  {
    if i < maxit && !(i == 0 && Beta(w) == 0.0) {
      LoopStopped(ops, test, pres, Next(ops, w, i), i + 1, maxit);
    }
  }

  /** The loop reaches its limit only when it starts at or below it; the returned count is then the limit and the solver's own count one less. */
  lemma {:induction false} LoopLimit(ops: Operators, test: Test, pres: bool, w: Work, i: nat, maxit: int)
    requires Sized(w, |w.x|) && Preserves(ops, |w.x|)
    ensures var r := Loop(ops, test, pres, w, i, maxit);
      r.reason == DivergedIts ==> i <= maxit && r.its == maxit && r.recorded == maxit - 1
    decreases maxit - i
  {
    if i < maxit && !(i == 0 && Beta(w) == 0.0) {
      LoopLimit(ops, test, pres, Next(ops, w, i), i + 1, maxit);
    }
  }

  /**
   * When every test passes and `beta` does not vanish at iteration 0, the
   * loop runs to its limit.
   */
  lemma {:induction false} LoopRunsOut(ops: Operators, test: Test, pres: bool, w: Work, i: nat, maxit: int)
    requires Sized(w, |w.x|) && Preserves(ops, |w.x|)
    requires forall j: int, v: Vector :: test(j, v) == 0
    requires i <= maxit && !(i == 0 < maxit && Beta(w) == 0.0)
    ensures Loop(ops, test, pres, w, i, maxit).reason == DivergedIts
    decreases maxit - i
  {
    if i < maxit {
      LoopRunsOut(ops, test, pres, Next(ops, w, i), i + 1, maxit);
    }
  }

  /**
   * How a solve ends.  A stop with count 0 happens exactly when the test at
   * iteration 0 sets a reason, and leaves the solver's count as it was;
   * breakdown exactly when that test passes, the limit is positive and
   * `beta` vanishes; an unset reason exactly when the test passes and the
   * limit is negative.  Any stop carries the nonzero code the test gave on
   * the returned state, and reaching the limit returns the limit.
   */
  lemma SolveOutcome(ops: Operators, test: Test, pres: bool, b: Vector, x0: Vector, guessZero: bool, maxit: int, itsBefore: int)
    requires Preserves(ops, |b|) && |x0| == |b|
    ensures var w0 := Initial(ops, b, x0, guessZero);
      var code0 := test(0, Measured(w0, pres));
      var r := Solve(ops, test, pres, b, x0, guessZero, maxit, itsBefore);
      && (r.reason.Stopped? && r.its == 0 <==> code0 != 0)
      && (code0 != 0 ==> r.recorded == itsBefore && r.work == w0)
      && (r.reason == DivergedBreakdownBicg <==> code0 == 0 && 0 < maxit && Beta(w0) == 0.0)
      && (r.reason == DivergedBreakdownBicg ==> r.its == 0 && r.work == w0)
      && (r.reason == Iterating <==> code0 == 0 && maxit < 0)
      && (r.reason.Stopped? ==> r.reason.code == test(r.its, Measured(r.work, pres)) != 0)
      && (r.reason.Stopped? && r.its != 0 ==> r.its <= maxit && r.recorded == r.its)
      && (r.reason == DivergedIts ==> r.its == maxit && r.recorded == maxit - 1)
  {
    var w0 := Initial(ops, b, x0, guessZero);
    LoopBreakdown(ops, test, pres, w0, 0, maxit);
    LoopIterating(ops, test, pres, w0, 0, maxit);
    LoopStopped(ops, test, pres, w0, 0, maxit);
    LoopLimit(ops, test, pres, w0, 0, maxit);
  }

  /** The solution update and the residual update agree: `Rr = b - A x` when `A` is linear. */
  ghost predicate TrueResidual(ops: Operators, b: Vector, w: Work)
  {
    |w.x| == |b| && |ops.A(w.x)| == |b| && w.rr == Sub(b, ops.A(w.x))
  }

  /** `A` is linear on vectors of length `n`. */
  ghost predicate Linear(A: Vector -> Vector, n: nat)
  {
    forall a: real, u: Vector, v: Vector :: |u| == n && |v| == n && |A(u)| == |A(v)| ==> A(Axpy(a, u, v)) == Axpy(a, A(u), A(v))
  }

  /** The BiCG step keeps the residual true: `x += a Pr` and `Rr -= a A Pr` move together. */
  lemma UpdateKeepsResidual(ops: Operators, b: Vector, w: Work, beta: real)
    requires Sized(w, |b|) && Preserves(ops, |b|) && Linear(ops.A, |b|)
    requires TrueResidual(ops, b, w)
    ensures TrueResidual(ops, b, Update(ops, w, beta))
  {
    var a := Quot(beta, Dot(w.pl, ops.A(w.pr)));
    var w' := Update(ops, w, beta);
    var p, ax := ops.A(w.pr), ops.A(w.x);
    assert ops.A(w'.x) == Axpy(a, p, ax);
    forall k | 0 <= k < |b|
      ensures w'.rr[k] == Sub(b, Axpy(a, p, ax))[k]
    {
      assert w'.rr[k] == -a * p[k] + (b[k] - ax[k]);
    }
  }

  /** Every state the loop passes through, and the one it ends in, keeps the residual true. */
  lemma {:induction false} LoopKeepsResidual(ops: Operators, test: Test, pres: bool, b: Vector, w: Work, i: nat, maxit: int)
    requires Sized(w, |b|) && Preserves(ops, |b|) && Linear(ops.A, |b|)
    requires TrueResidual(ops, b, w)
    ensures TrueResidual(ops, b, Loop(ops, test, pres, w, i, maxit).work)
    decreases maxit - i
  {
    if i < maxit && !(i == 0 && Beta(w) == 0.0) {
      UpdateKeepsResidual(ops, b, Directions(w, i, Beta(w)), Beta(w));
      LoopKeepsResidual(ops, test, pres, b, Next(ops, w, i), i + 1, maxit);
    }
  }

  /** A linear operator maps the zero vector to zero. */
  lemma LinearZero(A: Vector -> Vector, n: nat)
    requires Linear(A, n) && |A(Zeros(n))| == n
    ensures A(Zeros(n)) == Zeros(n)
  {
    assert Axpy(-1.0, Zeros(n), Zeros(n)) == Zeros(n);
  }

  /**
   * However the solve ends, its residual is the true residual `b - A x` of
   * its solution, when `A` is linear and a zero guess is the zero vector.
   */
  lemma SolveKeepsResidual(ops: Operators, test: Test, pres: bool, b: Vector, x0: Vector, guessZero: bool, maxit: int, itsBefore: int)
    requires Preserves(ops, |b|) && |x0| == |b| && Linear(ops.A, |b|)
    requires guessZero ==> x0 == Zeros(|b|)
    ensures TrueResidual(ops, b, Solve(ops, test, pres, b, x0, guessZero, maxit, itsBefore).work)
  {
    var w0 := Initial(ops, b, x0, guessZero);
    if guessZero {
      LinearZero(ops.A, |b|);
    }
    LoopKeepsResidual(ops, test, pres, b, w0, 0, maxit);
  }
}
