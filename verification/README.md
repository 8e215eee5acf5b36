# Steady-state residual systems of the Torsten PK model

This project models `SS_system_dd` and `SS_system_vd`, the two residual functors whose root is the
steady state of a compartmental pharmacokinetic model under repeated dosing
(`stan/math/torsten/PKModel/functors/SS_system.hpp`). A root solver evaluates a functor at a candidate
pre-dose state `x` with parameters `y`, real data `dat` and integer data `dat_int`. One evaluation:

- reads the dose amount, which is the last entry of `dat` for `dd` and the last entry of `y` for `vd`;
- reads the infusion rate `dat[cmt_ - 1]`, or 0 when `cmt_ <= 0`;
- selects one of three regimes: bolus (rate 0), truncated infusion (rate non-zero and `ii_ > 0`), or
  constant infusion (any other case);
- makes zero, one or two integrator calls, or one call to the right-hand side;
- returns `x - pred` or the right-hand side itself.

The right-hand side `f_`, the integrator `integrator_` and the infusion check `check_mti` are
uninterpreted. They are function-valued fields of `Collaborators.Env`. Each may fail, and any failure
is passed on unchanged. An evaluation returns `SsSystem.Eval`, which holds two things:

- the ordered list of collaborator calls, with their arguments;
- the outcome, a `Results.Result`.

So the properties can say which collaborator is called, with what, and in which order.

The C++ reads vectors without bounds checks. Every such read is modelled as a checked read, and a read
outside the vector stops the evaluation with `IndexOutOfRange(index, size)`. The reads concerned are
the amount, the rate, the bolus target, the integrator's first output and each `pred[i]`. Because of
this, the evaluators are total and have no preconditions.

`SsSystem.Reading` selects between two versions of the model. `AsWritten` is the code as it stands.
`Intended` applies the two corrections listed under Findings. Every lemma about the regimes holds for
both readings.

Two points of the code that the model keeps as they are:

- The code tests `rate == 0`, then `ii_ > 0`, and otherwise falls through. So a negative rate with
  `ii_ > 0` is a truncated infusion, and any non-zero rate with `ii_ <= 0` is a constant infusion.
- The second truncated-infusion leg receives the same real data as the first leg (SS_system.hpp:96).
  Two things in the source point to zero rates being meant for that leg: the zero vector `rate_v` built
  at :95 and never used, and the commented-out superposition at :113-115, which scales the rates by
  `N - 1` and so gives zero rates when there is a single infusion (see Findings).

Files: `results.dfy` (errors and checked reads), `collaborators.dfy` (collaborator types and the call
record), `ss_system.dfy` (the two functors), `ss_system_properties.dfy` (lemmas).

## Model

| member | source | states |
|---|---|---|
| SsSystem.SelectRegime | stan/math/torsten/PKModel/functors/SS_system.hpp:76-125 | The regime depends on the rate and `ii_` alone. A zero rate means bolus. A non-zero rate with `ii_ > 0` means truncated infusion. A non-zero rate with `ii_ <= 0` means constant infusion. Each case is stated in both directions. |
| SsSystem.RateOf | stan/math/torsten/PKModel/functors/SS_system.hpp:66 | The rate is `dat[cmt_-1]` when `1 <= cmt_ <= |dat|` and 0 when `cmt_ <= 0`. Beyond the data it is a read out of range. |
| SsSystem.Dose | stan/math/torsten/PKModel/functors/SS_system.hpp:77 | The guard is `cmt_ >= 0` as written and `cmt_ >= 1` in the intended version. When the guard admits `cmt_`, the post-dose state equals `x` except that component `cmt_-1` is increased by the amount, and a target outside `x` is a read out of range. When the guard does not admit `cmt_`, the state is `x` itself. |
| SsSystem.Diff | stan/math/torsten/PKModel/functors/SS_system.hpp:81-82 | The residual has length `|x|`, and component `i` is `x[i] - pred[i]`. |
| SsSystem.Residual | stan/math/torsten/PKModel/functors/SS_system.hpp:122-123 | If the prediction is at least as long as `x`, the residual is `x - pred` component-wise with length `|x|`. Otherwise it fails at the first missing component. |
| SsSystem.SecondLegData | stan/math/torsten/PKModel/functors/SS_system.hpp:94-96 | As written, the second leg gets the first leg's real data. In the intended version it gets zeros of length `|dat|`. |
| Results.At | stan/math/torsten/PKModel/functors/SS_system.hpp:65-66 | A read inside the vector yields the element; a read outside it, which the C++ performs unchecked, yields `IndexOutOfRange(index, size)`. |
| SsSystem.BolusStep | stan/math/torsten/PKModel/functors/SS_system.hpp:76-82 | A failing dose is the result, with no call. Otherwise exactly one integrator call is made, from the post-dose state over `[ii_]` with the given parameters and real data. Its failure is the result; its success gives the residual of `x` against its output, of length `|x|`. |
| SsSystem.TruncatedStep | stan/math/torsten/PKModel/functors/SS_system.hpp:84-123 | The first call is `check_mti(amt, amt/rate, ii_, "Steady State Event")`, and its failure is the result. After it passes, the first integrator call starts from `x` over `[amt/rate]`; its failure is the result. After it succeeds, the second starts from its output over `[ii_ - amt/rate]`, with the same parameters and the second-leg data; its failure is the result, and its success gives the residual of `x` against its output. |
| SsSystem.ConstantStep | stan/math/torsten/PKModel/functors/SS_system.hpp:125-128 | The only call is to the right-hand side at time 0 on `x`, and its value, failure included, is returned unchanged; no integrator call is made. |
| Collaborators.IntegrateFirst | stan/math/torsten/PKModel/functors/SS_system.hpp:79-80 | An integrator failure is passed on unchanged; a successful output yields its first state; an empty output is a read out of range at index 0. |
| SsSystem.EvaluateDd | stan/math/torsten/PKModel/functors/SS_system.hpp:39-132 | Empty `dat` fails on the read of its last entry. A `cmt_` beyond `dat` fails reading the rate. At most three calls are made. Every integrator and right-hand-side call gets the parameters `y`. As written, every integrator and right-hand-side call gets `dat` without its last entry. A success with no right-hand-side call has length `|x|`. |
| SsSystem.EvaluateVd | stan/math/torsten/PKModel/functors/SS_system.hpp:165-220 | Empty `y` fails on the read of its last entry, index -1. At most one call is made, and `check_mti` is never called. Every integrator and right-hand-side call gets `y` without its last entry and `dat` unchanged. A success with no right-hand-side call has length `|x|`. |
| SsSystemProperties.ResidualZeroIffFixedPoint | stan/math/torsten/PKModel/functors/SS_system.hpp:81-82 | The residual is all zeros exactly when the first `|x|` components of the prediction equal `x`; later components of the prediction are not read. |
| SsSystemProperties.DdBolus | stan/math/torsten/PKModel/functors/SS_system.hpp:65-82 | For `dd`, a bolus into compartment `cmt_` makes exactly one integrator call. It starts from `x` with `amt = dat[last]` added at `cmt_-1`, over horizon `ii_`, with `y` and `dat` minus its last entry. The result is that call's failure or the residual against its output. |
| SsSystemProperties.DdBolusWithoutCompartment | stan/math/torsten/PKModel/functors/SS_system.hpp:76-80 | With `cmt_ < 0`, the single integrator call starts from `x` unchanged; its failure is the result, and its success gives the residual against its output. |
| SsSystemProperties.BolusOutsideState | stan/math/torsten/PKModel/functors/SS_system.hpp:76-77 | A bolus into a compartment `cmt_` with `|x| < cmt_ <= |dat|` reads outside the state at `cmt_ - 1`; both systems stop there and call nothing. |
| SsSystemProperties.DdTruncatedChecksFirst | stan/math/torsten/PKModel/functors/SS_system.hpp:84-88 | In a truncated infusion, `check_mti(amt, amt/rate, ii_, "Steady State Event")` is the first call. If it raises, that error is the result and nothing is integrated. |
| SsSystemProperties.DdTruncatedLegs | stan/math/torsten/PKModel/functors/SS_system.hpp:90-96 | After the check, the first integrator call starts from `x`, not dosed, over `delta`. If it succeeds, the second starts from its output over `ii_ - delta`. Both legs get `y`, and as written both get the same real data. A failing leg's error is the result. |
| SsSystemProperties.DdTruncatedResidual | stan/math/torsten/PKModel/functors/SS_system.hpp:96-123 | When both legs succeed, the result is the residual against the second leg's output. |
| SsSystemProperties.DdConstantInfusion | stan/math/torsten/PKModel/functors/SS_system.hpp:125-128 | A constant infusion's result is exactly `f_(0, x, y, dat minus its last entry, dat_int)`. That is the only call made. |
| SsSystemProperties.DdResultFromLastIntegration | stan/math/torsten/PKModel/functors/SS_system.hpp:79-96 | A success with no right-hand-side call is the residual against the output of the last call, which is an integrator call. |
| SsSystemProperties.DdZeroResidualIsSteadyState | stan/math/torsten/PKModel/functors/SS_system.hpp:79-123 | Such a residual is all zeros exactly when the first `|x|` components of the last integration's output equal `x`, so `x` repeats after one dosing cycle. |
| SsSystemProperties.VdBolus | stan/math/torsten/PKModel/functors/SS_system.hpp:185-204 | For `vd`, a bolus adds the last entry of `y` at `cmt_-1`. It integrates over `ii_` with `y` without its last entry and `dat` unchanged. |
| SsSystemProperties.VdRejectsTruncated | stan/math/torsten/PKModel/functors/SS_system.hpp:206-211 | For `vd`, a non-zero rate with `ii_ > 0` always fails with the invalid-argument error and calls nothing. |
| SsSystemProperties.VdConstantInfusion | stan/math/torsten/PKModel/functors/SS_system.hpp:213-216 | For `vd`, a constant infusion's result is `f_(0, x, y without its last entry, dat, dat_int)`. |
| SsSystemProperties.VariantsAgree | stan/math/torsten/PKModel/functors/SS_system.hpp:190-216 | Outside a truncated infusion, and when `cmt_ <= |dat|`, `dd(x, y, dat ++ [a])` and `vd(x, y ++ [a], dat)` make the same calls and return the same result. |
| SsSystemProperties.OutputLengthIsStateLength | stan/math/torsten/PKModel/functors/SS_system.hpp:74-128 | If the right-hand side returns a derivative of the length of the state it is given, every successful evaluation of either system has length `|x|`. In the constant-infusion branch the length is the right-hand side's, because `result = to_vector(derivative)` resizes the result. |
| SsSystemProperties.AsWrittenDoseReadsIndexMinusOne | stan/math/torsten/PKModel/functors/SS_system.hpp:77 | As written, the guard admits `cmt_ == 0`, and the dose reads outside `x`, recorded as index -1 (in the C++ the unsigned index wraps to the largest `size_t` value). |
| SsSystemProperties.AsWrittenCompartmentZeroFails | stan/math/torsten/PKModel/functors/SS_system.hpp:66-77 | As written, with `cmt_ == 0` both systems select the bolus and stop on the read at index -1 of the state. |
| SsSystemProperties.IntendedDoseInRange | stan/math/torsten/PKModel/functors/SS_system.hpp:77 | With the guard `cmt_ >= 1`, the dose succeeds with a state of length `|x|` for every `cmt_ <= |x|`; it never reads outside the state at compartment 0 or below. |
| SsSystemProperties.IntendedCompartmentZeroIsNoCompartment | stan/math/torsten/PKModel/functors/SS_system.hpp:66-77 | With the intended guard, `cmt_ == 0` behaves exactly like "no dosing compartment" (`cmt_ == -1`) in both systems. |
| SsSystemProperties.IntendedAgreesAwayFromZero | stan/math/torsten/PKModel/functors/SS_system.hpp:77 | Outside compartment 0 and truncated infusions, the intended model equals the code as written. |
| SsSystemProperties.AsWrittenSecondLegKeepsRate | stan/math/torsten/PKModel/functors/SS_system.hpp:94-96 | As written, the second leg's real data still holds the non-zero rate of the dosing compartment. |
| SsSystemProperties.IntendedSecondLegStopsInfusion | stan/math/torsten/PKModel/functors/SS_system.hpp:95 | In the intended version, the second leg's real data is zero in every entry of the full data length. |

## Findings

| source | as written | input that shows it | evidently intended | confidence | as-written member | corrected member |
|---|---|---|---|---|---|---|
| stan/math/torsten/PKModel/functors/SS_system.hpp:77 | The bolus guard is `cmt_ >= 0`, but the rate guard at :66 (and :191) treats `cmt_ == 0` as "no compartment". So `cmt_ == 0` gives rate 0, selects the bolus and adds the dose at `x0[cmt_ - 1]`, outside the state: the unsigned index wraps to the largest `size_t` value (recorded in the model as index -1). | `cmt_ = 0`, any `dat` of length at least 1 (`vd`: any `y` of length at least 1) | guard `cmt_ >= 1`: compartment 0 means no dose | not executed; high | SsSystemProperties.AsWrittenCompartmentZeroFails | SsSystemProperties.IntendedCompartmentZeroIsNoCompartment |
| stan/math/torsten/PKModel/functors/SS_system.hpp:94-96 | The second truncated-infusion leg gets the same `dat_ode` as the first, so it still carries the compartment rates. The zero vector `rate_v` built on the line in between is never used. | `cmt_ = 1`, `dat = [10, 100]`, `ii_ = 24`: `delta = 10`, and the second leg's data still has rate 10 in compartment 1 | the second leg receives the zero rates `rate_v`; the width `|dat|` follows the declaration at :95, and `|dat| - 1` zeros (the width of the first leg's data, which the comment at :68-70 says must not carry the amount) is the other plausible correction | not executed; medium (the rate adaptor checked in test/unit/math/torsten/pmx_onecpt_model_test.cpp:17-28 adds the real data to the derivative, so non-zero data keeps infusing; `f_` itself is not part of this model) | SsSystemProperties.AsWrittenSecondLegKeepsRate | SsSystemProperties.IntendedSecondLegStopsInfusion |

## Left out

- Floating point: values are `real`. There is no NaN, no infinity and no rounding, and `amt / rate` is exact.
- Scalar promotion and automatic differentiation (`promote_args`, `return_type`, forward and reverse mode): the model computes values only.
- Internals of `f_`, `integrator_` and `check_mti`: these are uninterpreted, and `check_mti.hpp` is not part of this model. Only the arguments passed to them and the use of their results are modelled.
- The `msgs` stream and the null message pointer passed to `f_`: they are diagnostics only.
- The commented-out overlapping-infusion code (SS_system.hpp:98-120): it is not compiled.
- The unused copy `rate_v` of `dat` in `vd` (SS_system.hpp:185-186): it is never read.
- The exact text stan's `invalid_argument` builds from its pieces: the model keeps the function label and the concatenated message pieces.
- SsSystem.EvaluateDd: an empty `dat` is recorded as a read at index -1; the C++ computes `dat.size() - 1` as an unsigned `size_t`, so its read is at the largest `size_t` value. For `vd` the index -1 is exact, because Eigen's `y.size() - 1` is signed.
- SsSystem.Dose: with `cmt_ == 0` the dose is recorded as a read at index -1, in both systems; `x0` is a `std::vector` whose index type is unsigned, so the C++ index `cmt_ - 1` converts to the largest `size_t` value.
- Collaborators.IntegrateFirst: the integrator's output length is not constrained, so a zero residual says only that the first `|x|` components of the prediction equal `x`.
- Undefined behaviour on unchecked reads: modelled as an `IndexOutOfRange` failure rather than whatever the C++ would do.
- SsSystem.EvaluateDd: its own contract covers only the read failures, the call count and the data every call receives. The behaviour of each regime is stated by the lemmas `DdBolus`, `DdBolusWithoutCompartment`, `BolusOutsideState`, `DdTruncatedChecksFirst`, `DdTruncatedLegs`, `DdTruncatedResidual` and `DdConstantInfusion`.
- SsSystem.EvaluateVd: its own contract covers only the read failures, the call count and the data every call receives. The behaviour of each regime is stated by the lemmas `VdBolus`, `BolusOutsideState`, `VdRejectsTruncated` and `VdConstantInfusion`.
- The root solver, implicit differentiation and the C++ functor constructors: these are outside the residual functors.
