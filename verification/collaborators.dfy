/** The collaborators a residual system calls but does not define: the ODE
    right-hand side `f_`, the integrator `integrator_` and the infusion check
    `check_mti`. They are uninterpreted: the model only passes them arguments
    and uses whatever they return, failures included. */
module Collaborators {
  import opened Results

  /** `f_(t, state, parameters, realData, intData)`: the state derivative. */
  type Rhs = (real, seq<real>, seq<real>, seq<real>, seq<int>) -> Result<seq<real>>

  /** `integrator_(f, init, t0, outputTimes, parameters, realData, intData)`:
      one state per requested output time. */
  type Integrator = (Rhs, seq<real>, real, seq<real>, seq<real>, seq<real>, seq<int>) -> Result<seq<seq<real>>>

  /** `check_mti(amt, delta, ii, label)`: passes or raises. */
  type MtiCheck = (real, real, real, string) -> Outcome

  /** The collaborators bound into one residual system. */
  datatype Env = Env(rhs: Rhs, integrate: Integrator, checkMti: MtiCheck)

  /** One call a residual evaluation makes, with the arguments it passes.
      The right-hand side handed to the integrator is always `Env.rhs` and is not recorded. */
  datatype Call =
    | CheckMti(amt: real, delta: real, ii: real, context: string)
    | Integrate(init: seq<real>, t0: real, ts: seq<real>, theta: seq<real>, xR: seq<real>, xI: seq<int>)
    | Rhs(t: real, state: seq<real>, theta: seq<real>, xR: seq<real>, xI: seq<int>)

  /** Performs an `Integrate` call and keeps its first output state, as `integrator_(...)[0]` does. */
  function IntegrateFirst(env: Env, c: Call): (r: Result<seq<real>>)
    requires c.Integrate?
    ensures var out := env.integrate(env.rhs, c.init, c.t0, c.ts, c.theta, c.xR, c.xI);
            && (out.Failure? ==> r == Failure(out.error))
            && (out.Success? && |out.value| >= 1 ==> r == Success(out.value[0]))
            && (out.Success? && |out.value| == 0 ==> r == Failure(IndexOutOfRange(0, 0)))
  {
    match env.integrate(env.rhs, c.init, c.t0, c.ts, c.theta, c.xR, c.xI)
    case Failure(e) => Failure(e)
    case Success(states) => At(states, 0)
  }

  /** Performs an `Rhs` call. */
  function EvaluateRhs(env: Env, c: Call): Result<seq<real>>
    requires c.Rhs?
  {
    env.rhs(c.t, c.state, c.theta, c.xR, c.xI)
  }
}
