/** The PID controller of pid.c: the fields of pid_type updated in place by
    Pid_Reset and Pid_Update.  The C doubles are modelled as `real` (no
    rounding, no NaN or infinities). */
module Pid {

  /** The anti-windup clamp of Pid_Update, as written: below -guard becomes
      -guard, otherwise above guard becomes guard. */
  function ClampIntegral(x: real, guard: real): real
  {
    if x < -guard then -guard
    else if x > guard then guard
    else x
  }

  /** With a non-negative guard the integral always lands in
      [-guard, guard], and a value already inside is left alone. */
  lemma ClampBounds(x: real, guard: real)
    requires guard >= 0.0
    ensures -guard <= ClampIntegral(x, guard) <= guard
    ensures -guard <= x <= guard ==> ClampIntegral(x, guard) == x
    ensures x < -guard ==> ClampIntegral(x, guard) == -guard
    ensures x > guard ==> ClampIntegral(x, guard) == guard
  {
  }

  /** With a negative guard the clamp, as written, always yields one of the
      two bounds: the first test moves everything below -guard up to -guard
      and everything else is above guard. */
  lemma ClampNegativeGuard(x: real, guard: real)
    requires guard < 0.0
    ensures ClampIntegral(x, guard) == -guard || ClampIntegral(x, guard) == guard
  {
  }

  /** The integral after a sequence of updates, each an (error, dt) pair. */
  function IntegralAfter(integral: real, guard: real, steps: seq<(real, real)>): real
    decreases |steps|
  {
    if steps == [] then integral
    else IntegralAfter(ClampIntegral(integral + steps[0].0 * steps[0].1, guard), guard, steps[1..])
  }

  /** The anti-windup invariant over any run of updates, whatever the errors
      and time steps (dt = 0 included): once at least one update has run with
      a non-negative guard, the integral stays in [-guard, guard]. */
  lemma {:induction false} IntegralStaysBounded(integral: real, guard: real, steps: seq<(real, real)>)
    requires guard >= 0.0 && steps != []
    ensures -guard <= IntegralAfter(integral, guard, steps) <= guard
    decreases |steps|
  {
    var next := ClampIntegral(integral + steps[0].0 * steps[0].1, guard);
    ClampBounds(integral + steps[0].0 * steps[0].1, guard);
    if |steps| > 1 {
      IntegralStaysBounded(next, guard, steps[1..]);
    } else {
      assert steps[1..] == [];
    }
  }

  /** The output law: `Kp*error + Ki*integral + Kd*diff`. */
  function Output(kp: real, ki: real, kd: real, error: real, integral: real, diff: real): real
  {
    kp * error + ki * integral + kd * diff
  }

  /** pid_type. */
  class PidController {
    var windupGuard: real
    var proportionalGain: real
    var integralGain: real
    var derivativeGain: real
    var prevError: real
    var intError: real
    var control: real

    /** A controller whose fields hold the given values. */
    constructor (guard: real, kp: real, ki: real, kd: real)
      ensures windupGuard == guard && proportionalGain == kp
      ensures integralGain == ki && derivativeGain == kd
      ensures prevError == 0.0 && intError == 0.0 && control == 0.0
    {
      windupGuard, proportionalGain, integralGain, derivativeGain := guard, kp, ki, kd;
      prevError, intError, control := 0.0, 0.0, 0.0;
    }

    /** Pid_Reset: zero the previous and the integrated error; the gains,
        the guard and the last output are untouched. */
    method Reset()
      modifies this`prevError, this`intError
      ensures prevError == 0.0 && intError == 0.0
    {
      prevError := 0.0;
      intError := 0.0;
    }

    /** Pid_Update(pid, error, dt).  The integral grows by error*dt and is
        clamped; the derivative is (error - prevError)/dt when dt != 0.  When
        dt == 0 the C code assigns dt instead of diff and leaves diff
        uninitialised, so the derivative term is then an arbitrary value.
        Gains and guard are never changed. */
    method Update(error: real, dt: real)
      modifies this`intError, this`control, this`prevError
      ensures intError == ClampIntegral(old(intError) + error * dt, windupGuard)
      ensures windupGuard >= 0.0 ==> -windupGuard <= intError <= windupGuard
      ensures dt != 0.0 ==>
        control == Output(proportionalGain, integralGain, derivativeGain,
                          error, intError, (error - old(prevError)) / dt)
      ensures dt == 0.0 && derivativeGain == 0.0 ==>
        control == Output(proportionalGain, integralGain, 0.0, error, intError, 0.0)
      ensures prevError == error
    {
      intError := intError + error * dt;
      if intError < -windupGuard {
        intError := -windupGuard;
      } else if intError > windupGuard {
        intError := windupGuard;
      }
      var diff: real :| true;
      if dt != 0.0 {
        diff := (error - prevError) / dt;
      }
      var pTerm := proportionalGain * error;
      var iTerm := integralGain * intError;
      var dTerm := derivativeGain * diff;
      assert pTerm + iTerm + dTerm == Output(proportionalGain, integralGain, derivativeGain, error, intError, diff);
      assert derivativeGain == 0.0 ==> dTerm == 0.0;
      control := pTerm + iTerm + dTerm;
      prevError := error;
    }
  }
}
