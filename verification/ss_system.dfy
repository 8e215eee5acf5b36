/** The steady-state residual systems `SS_system_dd` and `SS_system_vd`.

    A root solver drives a residual system to zero over the candidate
    pre-dose state `x`. One evaluation reads the dose amount and the infusion
    rate into the dosing compartment, selects one of three dosing regimes from
    the rate and the inter-dose interval, calls the integrator zero, one or two
    times (or the right-hand side once), and returns either `x - pred` (the
    candidate minus the state one dosing cycle later) or the right-hand side
    itself. Values are `real`; the scalar promotion and automatic
    differentiation of the C++ are not modelled. */
module SsSystem {
  import opened Results
  import opened Collaborators

  /** The configuration a residual system closes over, besides its collaborators:
      the inter-dose interval `ii_` and the 1-based dosing compartment `cmt_`. */
  datatype System = System(ii: real, cmt: int)

  /** Which definition of the two questionable steps is used.
      `AsWritten` is the code as it stands; `Intended` applies the two corrections
      recorded in the README findings: a bolus only into a compartment `cmt >= 1`,
      and a second truncated-infusion leg with zero real data (the unused `rate_v`). */
  datatype Reading = AsWritten | Intended

  /** The three dosing regimes. */
  datatype Regime = Bolus | TruncatedInfusion | ConstantInfusion

  /** The function label handed to `check_mti` and to `invalid_argument`. */
  const SteadyStateEvent: string := "Steady State Event"

  /** The message pieces the variable-dose system passes to `invalid_argument`. */
  const TruncatedUnsupported: string :=
    "Current version does not handle the case of multiple truncated infusions "
    + "(i.e ii > 0 and rate > 0) when F * amt is a parameter."

  /** The regime is chosen from the rate and the interval alone: a zero rate is a
      bolus, a non-zero rate with a positive interval a truncated infusion, and
      any other non-zero rate a constant infusion. */
  function SelectRegime(rate: real, ii: real): (g: Regime)
    ensures g == Bolus <==> rate == 0.0
    ensures g == TruncatedInfusion <==> rate != 0.0 && ii > 0.0
    ensures g == ConstantInfusion <==> rate != 0.0 && ii <= 0.0
  {
    if rate == 0.0 then Bolus
    else if ii > 0.0 then TruncatedInfusion
    else ConstantInfusion
  }

  /** The infusion rate into the dosing compartment: entry `cmt - 1` of the real
      data, or zero when there is no dosing compartment (`cmt <= 0`). */
  function RateOf(cmt: int, dat: seq<real>): (r: Result<real>)
    ensures cmt <= 0 ==> r == Success(0.0)
    ensures 1 <= cmt <= |dat| ==> r == Success(dat[cmt - 1])
    ensures cmt > |dat| ==> r == Failure(IndexOutOfRange(cmt - 1, |dat|))
  {
    if cmt - 1 >= 0 then At(dat, cmt - 1) else Success(0.0)
  }

  /** Whether the bolus is added to a compartment at all. With `cmt == 0` the as-written
      guard admits a read at `cmt - 1`, recorded as index -1 (the C++ index is unsigned). */
  predicate BolusGuard(reading: Reading, cmt: int) {
    match reading
    case AsWritten => cmt >= 0
    case Intended => cmt >= 1
  }

  /** The post-dose state: `amt` added to component `cmt - 1` of `x` when the guard
      admits `cmt`, and `x` itself otherwise. */
  function Dose(reading: Reading, cmt: int, x: seq<real>, amt: real): (r: Result<seq<real>>)
    ensures !BolusGuard(reading, cmt) ==> r == Success(x)
    ensures BolusGuard(reading, cmt) && 1 <= cmt <= |x| ==>
              && r.Success? && |r.value| == |x|
              && r.value[cmt - 1] == x[cmt - 1] + amt
              && forall i :: 0 <= i < |x| && i != cmt - 1 ==> r.value[i] == x[i]
    ensures BolusGuard(reading, cmt) && !(1 <= cmt <= |x|) ==>
              r == Failure(IndexOutOfRange(cmt - 1, |x|))
  {
    if !BolusGuard(reading, cmt) then Success(x)
    else if 0 <= cmt - 1 < |x| then Success(x[cmt - 1 := x[cmt - 1] + amt])
    else Failure(IndexOutOfRange(cmt - 1, |x|))
  }

  /** Component-wise difference over the components of `x`; later components of
      `pred` are ignored. */
  function Diff(x: seq<real>, pred: seq<real>): (r: seq<real>)
    requires |x| <= |pred|
    ensures |r| == |x|
    ensures forall i :: 0 <= i < |x| ==> r[i] == x[i] - pred[i]
    decreases |x|
  {
    if |x| == 0 then [] else [x[0] - pred[0]] + Diff(x[1..], pred[1..])
  }

  /** The residual of the bolus and truncated-infusion regimes: `pred[i]` is read
      for every component of `x`, so a prediction shorter than `x` is a read
      outside it. */
  function Residual(x: seq<real>, pred: seq<real>): (r: Result<seq<real>>)
    ensures |pred| < |x| ==> r == Failure(IndexOutOfRange(|pred|, |pred|))
    ensures |x| <= |pred| ==>
              && r.Success? && |r.value| == |x|
              && forall i :: 0 <= i < |x| ==> r.value[i] == x[i] - pred[i]
  {
    if |pred| < |x| then Failure(IndexOutOfRange(|pred|, |pred|)) else Success(Diff(x, pred))
  }

  /** The calls an evaluation made, in order, and what it returned. */
  datatype Eval = Eval(calls: seq<Call>, outcome: Result<seq<real>>)

  /** Every integrator and right-hand-side call in `calls` receives parameters `theta`. */
  predicate PassesParameters(calls: seq<Call>, theta: seq<real>) {
    forall k :: 0 <= k < |calls| && !calls[k].CheckMti? ==> calls[k].theta == theta
  }

  /** Every integrator and right-hand-side call in `calls` receives real data `xR`. */
  predicate PassesRealData(calls: seq<Call>, xR: seq<real>) {
    forall k :: 0 <= k < |calls| && !calls[k].CheckMti? ==> calls[k].xR == xR
  }

  /** No call in `calls` is to the right-hand side. */
  predicate IntegratesOnly(calls: seq<Call>) {
    forall k :: 0 <= k < |calls| ==> !calls[k].Rhs?
  }

  /** The bolus regime: dose, integrate over one interval from the post-dose
      state, and return the residual against the candidate `x`. */
  function BolusStep(env: Env, sys: System, reading: Reading, x: seq<real>, amt: real,
                     theta: seq<real>, xR: seq<real>, xI: seq<int>): (e: Eval)
    ensures |e.calls| <= 1
    ensures forall k :: 0 <= k < |e.calls| ==> e.calls[k].Integrate? && e.calls[k].ts == [sys.ii]
    ensures PassesParameters(e.calls, theta) && PassesRealData(e.calls, xR)
    ensures e.outcome.Success? ==> |e.outcome.value| == |x|
    ensures Dose(reading, sys.cmt, x, amt).Failure? ==>
              e == Eval([], Failure(Dose(reading, sys.cmt, x, amt).error))
    ensures Dose(reading, sys.cmt, x, amt).Success? ==>
              e.calls == [Integrate(Dose(reading, sys.cmt, x, amt).value, 0.0, [sys.ii], theta, xR, xI)]
    ensures |e.calls| == 1 && IntegrateFirst(env, e.calls[0]).Failure? ==>
              e.outcome == Failure(IntegrateFirst(env, e.calls[0]).error)
    ensures |e.calls| == 1 && IntegrateFirst(env, e.calls[0]).Success? ==>
              e.outcome == Residual(x, IntegrateFirst(env, e.calls[0]).value)
  {
    match Dose(reading, sys.cmt, x, amt)
    case Failure(err) => Eval([], Failure(err))
    case Success(x0) =>
      var call := Integrate(x0, 0.0, [sys.ii], theta, xR, xI);
      match IntegrateFirst(env, call)
      case Failure(err) => Eval([call], Failure(err))
      case Success(pred) => Eval([call], Residual(x, pred))
  }

  /** The real data of the second truncated-infusion leg: as written it is the
      data of the first leg; the intended data is the zero vector `rate_v` of the
      full real-data length. */
  function SecondLegData(reading: Reading, xR: seq<real>, width: nat): (d: seq<real>)
    ensures reading == AsWritten ==> d == xR
    ensures reading == Intended ==> |d| == width && forall i :: 0 <= i < width ==> d[i] == 0.0
  {
    match reading
    case AsWritten => xR
    case Intended => seq(width, _ => 0.0)
  }

  /** The truncated-infusion regime of the fixed-dose system: check the infusion,
      integrate from `x` while the infusion runs (`delta = amt / rate`), integrate
      the rest of the interval from there, and return the residual against `x`. */
  function TruncatedStep(env: Env, sys: System, reading: Reading, x: seq<real>, amt: real, rate: real,
                         theta: seq<real>, xR: seq<real>, width: nat, xI: seq<int>): (e: Eval)
    requires rate != 0.0
    ensures 1 <= |e.calls| <= 3
    ensures e.calls[0] == CheckMti(amt, amt / rate, sys.ii, SteadyStateEvent)
    ensures forall k :: 1 <= k < |e.calls| ==> e.calls[k].Integrate? && e.calls[k].theta == theta
    ensures e.outcome.Success? ==> |e.outcome.value| == |x|
    ensures env.checkMti(amt, amt / rate, sys.ii, SteadyStateEvent).Fail? ==>
              e.calls == [e.calls[0]] && e.outcome == Failure(env.checkMti(amt, amt / rate, sys.ii, SteadyStateEvent).error)
    ensures env.checkMti(amt, amt / rate, sys.ii, SteadyStateEvent).Pass? ==>
              |e.calls| >= 2 && e.calls[1] == Integrate(x, 0.0, [amt / rate], theta, xR, xI)
    ensures |e.calls| == 2 ==> IntegrateFirst(env, e.calls[1]).Failure?
                               && e.outcome == Failure(IntegrateFirst(env, e.calls[1]).error)
    ensures |e.calls| == 3 ==>
              && IntegrateFirst(env, e.calls[1]).Success?
              && e.calls[2] == Integrate(IntegrateFirst(env, e.calls[1]).value, 0.0, [sys.ii - amt / rate], theta,
                                         SecondLegData(reading, xR, width), xI)
              && (IntegrateFirst(env, e.calls[2]).Failure? ==> e.outcome == Failure(IntegrateFirst(env, e.calls[2]).error))
              && (IntegrateFirst(env, e.calls[2]).Success? ==> e.outcome == Residual(x, IntegrateFirst(env, e.calls[2]).value))
  {
    var delta := amt / rate;
    var check := CheckMti(amt, delta, sys.ii, SteadyStateEvent);
    match env.checkMti(amt, delta, sys.ii, SteadyStateEvent)
    case Fail(err) => Eval([check], Failure(err))
    case Pass =>
      var first := Integrate(x, 0.0, [delta], theta, xR, xI);
      match IntegrateFirst(env, first)
      case Failure(err) => Eval([check, first], Failure(err))
      case Success(x1) =>
        var second := Integrate(x1, 0.0, [sys.ii - delta], theta, SecondLegData(reading, xR, width), xI);
        match IntegrateFirst(env, second)
        case Failure(err) => Eval([check, first, second], Failure(err))
        case Success(pred) => Eval([check, first, second], Residual(x, pred))
  }

  /** The constant-infusion regime: the right-hand side at time zero, returned as is. */
  function ConstantStep(env: Env, x: seq<real>, theta: seq<real>, xR: seq<real>, xI: seq<int>): (e: Eval)
    ensures e.calls == [Rhs(0.0, x, theta, xR, xI)]
    ensures e.outcome == env.rhs(0.0, x, theta, xR, xI)
    ensures !IntegratesOnly(e.calls)
  {
    var call := Rhs(0.0, x, theta, xR, xI);
    assert [call][0].Rhs?;
    Eval([call], EvaluateRhs(env, call))
  }

  /** `SS_system_dd::operator()`: the dose amount is the last entry of the real
      data `dat`, which the integrator and the right-hand side receive without it.
      An empty `dat` stops on the read of its last entry, recorded as index -1. */
  function EvaluateDd(env: Env, sys: System, reading: Reading, x: seq<real>, y: seq<real>,
                      dat: seq<real>, datInt: seq<int>): (e: Eval)
    ensures |dat| == 0 ==> e == Eval([], Failure(IndexOutOfRange(-1, 0)))
    ensures 1 <= |dat| < sys.cmt ==> e == Eval([], Failure(IndexOutOfRange(sys.cmt - 1, |dat|)))
    ensures |e.calls| <= 3
    ensures PassesParameters(e.calls, y)
    ensures reading == AsWritten && |dat| >= 1 ==> PassesRealData(e.calls, dat[..|dat| - 1])
    ensures e.outcome.Success? && IntegratesOnly(e.calls) ==> |e.outcome.value| == |x|
  {
    match At(dat, |dat| - 1)
    case Failure(err) => Eval([], Failure(err))
    case Success(amt) =>
      match RateOf(sys.cmt, dat)
      case Failure(err) => Eval([], Failure(err))
      case Success(rate) =>
        var datOde := dat[..|dat| - 1];
        match SelectRegime(rate, sys.ii)
        case Bolus => BolusStep(env, sys, reading, x, amt, y, datOde, datInt)
        case TruncatedInfusion => TruncatedStep(env, sys, reading, x, amt, rate, y, datOde, |dat|, datInt)
        case ConstantInfusion => ConstantStep(env, x, y, datOde, datInt)
  }

  /** `SS_system_vd::operator()`: the dose amount is the last entry of the
      parameters `y`, the model parameters are the entries before it, and the
      real data `dat` is passed on unchanged. A truncated infusion is refused. */
  function EvaluateVd(env: Env, sys: System, reading: Reading, x: seq<real>, y: seq<real>,
                      dat: seq<real>, datInt: seq<int>): (e: Eval)
    ensures |y| == 0 ==> e == Eval([], Failure(IndexOutOfRange(-1, 0)))
    ensures 1 <= |y| && |dat| < sys.cmt ==> e == Eval([], Failure(IndexOutOfRange(sys.cmt - 1, |dat|)))
    ensures |e.calls| <= 1
    ensures forall k :: 0 <= k < |e.calls| ==> !e.calls[k].CheckMti?
    ensures |y| >= 1 ==> PassesParameters(e.calls, y[..|y| - 1]) && PassesRealData(e.calls, dat)
    ensures e.outcome.Success? && IntegratesOnly(e.calls) ==> |e.outcome.value| == |x|
  {
    match At(y, |y| - 1)
    case Failure(err) => Eval([], Failure(err))
    case Success(amt) =>
      match RateOf(sys.cmt, dat)
      case Failure(err) => Eval([], Failure(err))
      case Success(rate) =>
        var parms := y[..|y| - 1];
        match SelectRegime(rate, sys.ii)
        case Bolus => BolusStep(env, sys, reading, x, amt, parms, dat, datInt)
        case TruncatedInfusion => Eval([], Failure(InvalidArgument(SteadyStateEvent, TruncatedUnsupported)))
        case ConstantInfusion => ConstantStep(env, x, parms, dat, datInt)
  }
}
