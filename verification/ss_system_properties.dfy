/** Properties of the steady-state residual systems: which collaborator each
    regime calls, with which arguments and in what order, how the result is
    assembled, and how the fixed-dose and variable-dose systems relate. */
module SsSystemProperties {
  import opened Results
  import opened Collaborators
  import opened SsSystem

  /** Every component of `r` is zero. */
  predicate AllZero(r: seq<real>) {
    forall i :: 0 <= i < |r| ==> r[i] == 0.0
  }

  /** The residual vanishes exactly when the prediction reproduces the candidate:
      its root is a state that repeats after one dosing cycle. */
  lemma ResidualZeroIffFixedPoint(x: seq<real>, pred: seq<real>)
    requires |x| <= |pred|
    ensures Residual(x, pred).Success?
    ensures AllZero(Residual(x, pred).value) <==> x == pred[..|x|]
  {
    var r := Residual(x, pred).value;
    if AllZero(r) {
      forall i | 0 <= i < |x| ensures x[i] == pred[..|x|][i] {
        assert r[i] == x[i] - pred[i];
      }
    }
  }

  // ---------------------------------------------------------------------------
  // Fixed-dose system

  /** Bolus into compartment `cmt`: one integrator call over one interval, starting
      from `x` with the amount added to component `cmt - 1`, receiving the
      parameters `y` and the real data without its last entry; the result is the
      residual against that call's output. */
  lemma DdBolus(env: Env, sys: System, reading: Reading, x: seq<real>, y: seq<real>,
                dat: seq<real>, datInt: seq<int>)
    requires 1 <= sys.cmt <= |dat| && sys.cmt <= |x|
    requires dat[sys.cmt - 1] == 0.0
    ensures var amt := dat[|dat| - 1];
            var call := Integrate(x[sys.cmt - 1 := x[sys.cmt - 1] + amt], 0.0, [sys.ii], y, dat[..|dat| - 1], datInt);
            var e := EvaluateDd(env, sys, reading, x, y, dat, datInt);
            && e.calls == [call]
            && (IntegrateFirst(env, call).Failure? ==> e.outcome == Failure(IntegrateFirst(env, call).error))
            && (IntegrateFirst(env, call).Success? ==> e.outcome == Residual(x, IntegrateFirst(env, call).value))
  {
  }

  /** Bolus into a compartment beyond the state but within the real data: the
      dose reads outside the state and nothing is called, in both systems. */
  lemma BolusOutsideState(env: Env, sys: System, reading: Reading, x: seq<real>, y: seq<real>,
                          dat: seq<real>, datInt: seq<int>)
    requires |x| < sys.cmt <= |dat|
    requires dat[sys.cmt - 1] == 0.0
    ensures EvaluateDd(env, sys, reading, x, y, dat, datInt)
            == Eval([], Failure(IndexOutOfRange(sys.cmt - 1, |x|)))
    ensures |y| >= 1 ==>
              EvaluateVd(env, sys, reading, x, y, dat, datInt)
              == Eval([], Failure(IndexOutOfRange(sys.cmt - 1, |x|)))
  {
  }

  /** Bolus without a dosing compartment (`cmt < 0`): the integrator starts from `x` itself. */
  lemma DdBolusWithoutCompartment(env: Env, sys: System, reading: Reading, x: seq<real>, y: seq<real>,
                                  dat: seq<real>, datInt: seq<int>)
    requires sys.cmt < 0 && |dat| >= 1
    ensures var call := Integrate(x, 0.0, [sys.ii], y, dat[..|dat| - 1], datInt);
            var e := EvaluateDd(env, sys, reading, x, y, dat, datInt);
            && e.calls == [call]
            && (IntegrateFirst(env, call).Failure? ==> e.outcome == Failure(IntegrateFirst(env, call).error))
            && (IntegrateFirst(env, call).Success? ==> e.outcome == Residual(x, IntegrateFirst(env, call).value))
  {
  }

  /** A truncated infusion calls `check_mti` before anything else, with the amount,
      the infusion time `amt / rate` and the interval; when the check raises, that
      failure is the result and nothing is integrated. */
  lemma DdTruncatedChecksFirst(env: Env, sys: System, reading: Reading, x: seq<real>, y: seq<real>,
                               dat: seq<real>, datInt: seq<int>)
    requires 1 <= sys.cmt <= |dat|
    requires dat[sys.cmt - 1] != 0.0 && sys.ii > 0.0
    ensures var amt := dat[|dat| - 1];
            var delta := amt / dat[sys.cmt - 1];
            var e := EvaluateDd(env, sys, reading, x, y, dat, datInt);
            && |e.calls| >= 1
            && e.calls[0] == CheckMti(amt, delta, sys.ii, SteadyStateEvent)
            && (env.checkMti(amt, delta, sys.ii, SteadyStateEvent).Fail? ==>
                  e == Eval([e.calls[0]], Failure(env.checkMti(amt, delta, sys.ii, SteadyStateEvent).error)))
  {
  }

  /** Once the check passes, a truncated infusion integrates twice: first from `x`
      (not dosed) over the infusion time, then from the first output over the rest
      of the interval. Both legs receive the parameters `y`; as written they also
      receive the same real data, the data without its last entry. A failing leg's
      error is the result. */
  lemma DdTruncatedLegs(env: Env, sys: System, reading: Reading, x: seq<real>, y: seq<real>,
                        dat: seq<real>, datInt: seq<int>)
    requires 1 <= sys.cmt <= |dat|
    requires dat[sys.cmt - 1] != 0.0 && sys.ii > 0.0
    requires env.checkMti(dat[|dat| - 1], dat[|dat| - 1] / dat[sys.cmt - 1], sys.ii, SteadyStateEvent).Pass?
    ensures var delta := dat[|dat| - 1] / dat[sys.cmt - 1];
            var datOde := dat[..|dat| - 1];
            var first := Integrate(x, 0.0, [delta], y, datOde, datInt);
            var e := EvaluateDd(env, sys, reading, x, y, dat, datInt);
            && |e.calls| >= 2
            && e.calls[1] == first
            && (IntegrateFirst(env, first).Failure? ==>
                  e.calls == e.calls[..2] && e.outcome == Failure(IntegrateFirst(env, first).error))
            && (IntegrateFirst(env, first).Success? ==>
                  && |e.calls| == 3
                  && e.calls[2] == Integrate(IntegrateFirst(env, first).value, 0.0, [sys.ii - delta], y,
                                             SecondLegData(reading, datOde, |dat|), datInt)
                  && (reading == AsWritten ==> e.calls[2].xR == e.calls[1].xR)
                  && (IntegrateFirst(env, e.calls[2]).Failure? ==>
                        e.outcome == Failure(IntegrateFirst(env, e.calls[2]).error)))
  {
  }

  /** A truncated infusion whose two legs succeed returns the residual against the
      second leg's output. */
  lemma DdTruncatedResidual(env: Env, sys: System, reading: Reading, x: seq<real>, y: seq<real>,
                            dat: seq<real>, datInt: seq<int>, pred: seq<real>)
    requires 1 <= sys.cmt <= |dat|
    requires dat[sys.cmt - 1] != 0.0 && sys.ii > 0.0
    requires env.checkMti(dat[|dat| - 1], dat[|dat| - 1] / dat[sys.cmt - 1], sys.ii, SteadyStateEvent).Pass?
    requires var e := EvaluateDd(env, sys, reading, x, y, dat, datInt);
             |e.calls| == 3 && IntegrateFirst(env, e.calls[2]) == Success(pred)
    ensures EvaluateDd(env, sys, reading, x, y, dat, datInt).outcome == Residual(x, pred)
  {
  }

  /** A constant infusion makes exactly one call, to the right-hand side at time
      zero on `x`, and returns its value unchanged; the integrator is never called. */
  lemma DdConstantInfusion(env: Env, sys: System, reading: Reading, x: seq<real>, y: seq<real>,
                           dat: seq<real>, datInt: seq<int>)
    requires 1 <= sys.cmt <= |dat|
    requires dat[sys.cmt - 1] != 0.0 && sys.ii <= 0.0
    ensures EvaluateDd(env, sys, reading, x, y, dat, datInt)
            == Eval([Rhs(0.0, x, y, dat[..|dat| - 1], datInt)], env.rhs(0.0, x, y, dat[..|dat| - 1], datInt))
  {
  }

  /** An evaluation that succeeds without calling the right-hand side returns the
      residual against the output of its last call, an integrator call. */
  lemma DdResultFromLastIntegration(env: Env, sys: System, reading: Reading, x: seq<real>, y: seq<real>,
                                    dat: seq<real>, datInt: seq<int>)
    ensures var e := EvaluateDd(env, sys, reading, x, y, dat, datInt);
            e.outcome.Success? && IntegratesOnly(e.calls) ==>
              && |e.calls| >= 1
              && e.calls[|e.calls| - 1].Integrate?
              && IntegrateFirst(env, e.calls[|e.calls| - 1]).Success?
              && e.outcome == Residual(x, IntegrateFirst(env, e.calls[|e.calls| - 1]).value)
  {
  }

  /** A fixed-dose residual that succeeds without the right-hand side is zero
      exactly when the last integration returns `x`: `x` is then a steady state. */
  lemma DdZeroResidualIsSteadyState(env: Env, sys: System, reading: Reading, x: seq<real>, y: seq<real>,
                                    dat: seq<real>, datInt: seq<int>)
    requires var e := EvaluateDd(env, sys, reading, x, y, dat, datInt);
             e.outcome.Success? && IntegratesOnly(e.calls)
    ensures var e := EvaluateDd(env, sys, reading, x, y, dat, datInt);
            && |e.calls| >= 1
            && IntegrateFirst(env, e.calls[|e.calls| - 1]).Success?
            && var pred := IntegrateFirst(env, e.calls[|e.calls| - 1]).value;
               |x| <= |pred| && (AllZero(e.outcome.value) <==> x == pred[..|x|])
  {
    var e := EvaluateDd(env, sys, reading, x, y, dat, datInt);
    DdResultFromLastIntegration(env, sys, reading, x, y, dat, datInt);
    var pred := IntegrateFirst(env, e.calls[|e.calls| - 1]).value;
    ResidualZeroIffFixedPoint(x, pred);
  }

  // ---------------------------------------------------------------------------
  // Variable-dose system

  /** Bolus in the variable-dose system: the amount is the last parameter, the
      integrator receives the parameters before it and the real data unchanged. */
  lemma VdBolus(env: Env, sys: System, reading: Reading, x: seq<real>, y: seq<real>,
                dat: seq<real>, datInt: seq<int>)
    requires |y| >= 1
    requires 1 <= sys.cmt <= |dat| && sys.cmt <= |x|
    requires dat[sys.cmt - 1] == 0.0
    ensures var amt := y[|y| - 1];
            var call := Integrate(x[sys.cmt - 1 := x[sys.cmt - 1] + amt], 0.0, [sys.ii], y[..|y| - 1], dat, datInt);
            var e := EvaluateVd(env, sys, reading, x, y, dat, datInt);
            && e.calls == [call]
            && (IntegrateFirst(env, call).Failure? ==> e.outcome == Failure(IntegrateFirst(env, call).error))
            && (IntegrateFirst(env, call).Success? ==> e.outcome == Residual(x, IntegrateFirst(env, call).value))
  {
  }

  /** The variable-dose system refuses a truncated infusion with an invalid-argument
      error and calls nothing. */
  lemma VdRejectsTruncated(env: Env, sys: System, reading: Reading, x: seq<real>, y: seq<real>,
                           dat: seq<real>, datInt: seq<int>)
    requires |y| >= 1
    requires 1 <= sys.cmt <= |dat|
    requires dat[sys.cmt - 1] != 0.0 && sys.ii > 0.0
    ensures EvaluateVd(env, sys, reading, x, y, dat, datInt)
            == Eval([], Failure(InvalidArgument(SteadyStateEvent, TruncatedUnsupported)))
  {
  }

  /** A constant infusion in the variable-dose system returns the right-hand side
      on `x`, the parameters before the amount and the real data unchanged. */
  lemma VdConstantInfusion(env: Env, sys: System, reading: Reading, x: seq<real>, y: seq<real>,
                           dat: seq<real>, datInt: seq<int>)
    requires |y| >= 1
    requires 1 <= sys.cmt <= |dat|
    requires dat[sys.cmt - 1] != 0.0 && sys.ii <= 0.0
    ensures EvaluateVd(env, sys, reading, x, y, dat, datInt)
            == Eval([Rhs(0.0, x, y[..|y| - 1], dat, datInt)], env.rhs(0.0, x, y[..|y| - 1], dat, datInt))
  {
  }

  /** Outside a truncated infusion the two systems agree: moving the amount from
      the end of the real data to the end of the parameters changes neither the
      calls made nor the result. */
  lemma VariantsAgree(env: Env, sys: System, reading: Reading, x: seq<real>, y: seq<real>,
                      dat: seq<real>, datInt: seq<int>, amt: real)
    requires sys.cmt <= |dat|
    requires SelectRegime(RateOf(sys.cmt, dat).value, sys.ii) != TruncatedInfusion
    ensures EvaluateDd(env, sys, reading, x, y, dat + [amt], datInt)
            == EvaluateVd(env, sys, reading, x, y + [amt], dat, datInt)
  {
    assert (dat + [amt])[..|dat + [amt]| - 1] == dat;
    assert (y + [amt])[..|y + [amt]| - 1] == y;
    assert RateOf(sys.cmt, dat + [amt]) == RateOf(sys.cmt, dat);
  }

  // ---------------------------------------------------------------------------
  // Output length

  /** The right-hand side keeps the length of the state it is given, as the
      interface of `f_` requires of a derivative vector. */
  ghost predicate RhsKeepsLength(env: Env) {
    forall t, s, theta, xR, xI ::
      env.rhs(t, s, theta, xR, xI).Success? ==> |env.rhs(t, s, theta, xR, xI).value| == |s|
  }

  /** When the right-hand side keeps the state length, every successful evaluation
      of either system returns a residual of the length of the candidate state. */
  lemma OutputLengthIsStateLength(env: Env, sys: System, reading: Reading, x: seq<real>, y: seq<real>,
                                  dat: seq<real>, datInt: seq<int>)
    requires RhsKeepsLength(env)
    ensures EvaluateDd(env, sys, reading, x, y, dat, datInt).outcome.Success? ==>
              |EvaluateDd(env, sys, reading, x, y, dat, datInt).outcome.value| == |x|
    ensures EvaluateVd(env, sys, reading, x, y, dat, datInt).outcome.Success? ==>
              |EvaluateVd(env, sys, reading, x, y, dat, datInt).outcome.value| == |x|
  {
  }

  // ---------------------------------------------------------------------------
  // Findings: the bolus guard and the second truncated-infusion leg

  /** As written, the bolus guard admits compartment 0 and the dose reads index -1. */
  lemma AsWrittenDoseReadsIndexMinusOne(x: seq<real>, amt: real)
    ensures Dose(AsWritten, 0, x, amt) == Failure(IndexOutOfRange(-1, |x|))
  {
  }

  /** As written, a fixed-dose system with `cmt == 0` selects the bolus (its rate
      is zero) and stops on the read at index -1 of the state, for every input. */
  lemma AsWrittenCompartmentZeroFails(env: Env, ii: real, x: seq<real>, y: seq<real>,
                                      dat: seq<real>, datInt: seq<int>)
    requires |dat| >= 1
    ensures EvaluateDd(env, System(ii, 0), AsWritten, x, y, dat, datInt)
            == Eval([], Failure(IndexOutOfRange(-1, |x|)))
    ensures |y| >= 1 ==>
              EvaluateVd(env, System(ii, 0), AsWritten, x, y, dat, datInt)
              == Eval([], Failure(IndexOutOfRange(-1, |x|)))
  {
  }

  /** With the intended guard `cmt >= 1` the dose never reads outside the state. */
  lemma IntendedDoseInRange(cmt: int, x: seq<real>, amt: real)
    requires cmt <= |x|
    ensures Dose(Intended, cmt, x, amt).Success?
    ensures |Dose(Intended, cmt, x, amt).value| == |x|
  {
  }

  /** With the intended guard, compartment 0 means no dosing compartment, exactly
      as the rate guard already treats it. */
  lemma IntendedCompartmentZeroIsNoCompartment(env: Env, ii: real, x: seq<real>, y: seq<real>,
                                               dat: seq<real>, datInt: seq<int>)
    ensures EvaluateDd(env, System(ii, 0), Intended, x, y, dat, datInt)
            == EvaluateDd(env, System(ii, -1), Intended, x, y, dat, datInt)
    ensures EvaluateVd(env, System(ii, 0), Intended, x, y, dat, datInt)
            == EvaluateVd(env, System(ii, -1), Intended, x, y, dat, datInt)
  {
  }

  /** Away from compartment 0 and outside a truncated infusion, the intended
      reading is the code as written. */
  lemma IntendedAgreesAwayFromZero(env: Env, sys: System, x: seq<real>, y: seq<real>,
                                   dat: seq<real>, datInt: seq<int>)
    requires sys.cmt != 0 && sys.cmt <= |dat|
    requires SelectRegime(RateOf(sys.cmt, dat).value, sys.ii) != TruncatedInfusion
    ensures EvaluateDd(env, sys, Intended, x, y, dat, datInt) == EvaluateDd(env, sys, AsWritten, x, y, dat, datInt)
    ensures EvaluateVd(env, sys, Intended, x, y, dat, datInt) == EvaluateVd(env, sys, AsWritten, x, y, dat, datInt)
  {
  }

  /** As written, the second truncated-infusion leg still carries the non-zero rate
      of the dosing compartment in its real data, so the infusion does not stop at
      `delta`. */
  lemma AsWrittenSecondLegKeepsRate(env: Env, sys: System, x: seq<real>, y: seq<real>,
                                    dat: seq<real>, datInt: seq<int>)
    requires 1 <= sys.cmt < |dat|
    requires dat[sys.cmt - 1] != 0.0 && sys.ii > 0.0
    requires env.checkMti(dat[|dat| - 1], dat[|dat| - 1] / dat[sys.cmt - 1], sys.ii, SteadyStateEvent).Pass?
    requires IntegrateFirst(env, EvaluateDd(env, sys, AsWritten, x, y, dat, datInt).calls[1]).Success?
    ensures var e := EvaluateDd(env, sys, AsWritten, x, y, dat, datInt);
            |e.calls| == 3 && e.calls[2].xR[sys.cmt - 1] == dat[sys.cmt - 1] != 0.0
  {
    DdTruncatedLegs(env, sys, AsWritten, x, y, dat, datInt);
  }

  /** With the intended data, the second leg receives a zero rate in every compartment. */
  lemma IntendedSecondLegStopsInfusion(env: Env, sys: System, x: seq<real>, y: seq<real>,
                                       dat: seq<real>, datInt: seq<int>)
    requires 1 <= sys.cmt <= |dat|
    requires dat[sys.cmt - 1] != 0.0 && sys.ii > 0.0
    requires env.checkMti(dat[|dat| - 1], dat[|dat| - 1] / dat[sys.cmt - 1], sys.ii, SteadyStateEvent).Pass?
    requires IntegrateFirst(env, EvaluateDd(env, sys, Intended, x, y, dat, datInt).calls[1]).Success?
    ensures var e := EvaluateDd(env, sys, Intended, x, y, dat, datInt);
            && |e.calls| == 3
            && |e.calls[2].xR| == |dat|
            && forall i :: 0 <= i < |dat| ==> e.calls[2].xR[i] == 0.0
  {
    DdTruncatedLegs(env, sys, Intended, x, y, dat, datInt);
  }
}
