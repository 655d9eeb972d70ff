/** The servo stepping controller of servo.c: every pass of the Servo_Service
    loop compares the cabinet temperature (channel 0) with a fixed target of
    250 deg F and moves the propane needle valve by full travel or by steps
    of 20 counts, inside a +-1 deg F deadband, clamped to the valve's
    physical travel.  `real` stands for the C `float` (NaN is not modelled);
    positions are the loop's uint16 counts, which stay in [600, 1200] and so
    never wrap. */
module Servo {

  /** Near the physical limits of the needle valve. */
  const MaxPosition: int := 1200
  const MinPosition: int := 600
  /** Lowest setting at which the fire is reliably present. */
  const MinPositionForFire: int := 620
  /** Step size of the small corrections. */
  const Increment: int := 20
  /** Fixed cabinet target (deg F). */
  const DesiredTemperature: real := 250.0
  /** Initial value of local_servo_position: the middle of the travel. */
  const InitialPosition: int := (MaxPosition - MinPosition) / 2 + MinPosition

  /** GPIO pin that carries the servo pulse. */
  const ServoPin: int := 18

  /** The new position and drive-enable flag chosen in one pass, before the
      final clamp. */
  datatype Decision = Decision(position: int, enable: bool)

  /** The if/else chain of one loop pass on `error = 250 - cabinet`.  The last
      branch (neither hot, cold, nor in the deadband) cannot be taken by a
      real error; it keeps the old flag, as the C loop does when no branch
      assigns it. */
  function Decide(position: int, enable: bool, error: real): Decision
  {
    if error > 50.0 then
      if position == MaxPosition then Decision(position, false)
      else Decision(MaxPosition, true)
    else if error < -50.0 then
      if position == MinPositionForFire then Decision(position, false)
      else Decision(MinPositionForFire, true)
    else if error < 1.0 && error > -1.0 then
      Decision(position, false)
    else if error > 0.0 then
      if position == MaxPosition then Decision(position, false)
      else Decision(position + Increment, true)
    else if error < 0.0 then
      if position == MinPositionForFire then Decision(position, false)
      else
        var p := position - Increment;
        Decision(if p < MinPositionForFire then MinPositionForFire else p, true)
    else
      Decision(position, enable)
  }

  /** The clamp to the physical travel applied after every decision. */
  function Clamp(position: int): (r: int)
    ensures MinPosition <= r <= MaxPosition
    ensures MinPosition <= position <= MaxPosition ==> r == position
  {
    if position > MaxPosition then MaxPosition
    else if position < MinPosition then MinPosition
    else position
  }

  /** The `gpioServo(18, ...)` pulse width: 0 switches the drive off. */
  function DriveCommand(position: int, enable: bool): int
  {
    if enable then position else 0
  }

  /** The loop-carried state of Servo_Service and the position it publishes
      to the shared data. */
  class ServoController {
    var position: int
    var enable: bool
    var published: int

    ghost predicate Valid()
      reads this
    {
      MinPosition <= position <= MaxPosition
    }

    /** The locals before the first pass: the middle position, drive off;
        the zero-initialised shared data holds position 0. */
    constructor ()
      ensures Valid()
      ensures position == InitialPosition && !enable && published == 0
    {
      position := InitialPosition;
      enable := false;
      published := 0;
    }

    /** One pass of the Servo_Service loop with the cabinet temperature read
        from channel 0 of the shared data; returns the pulse width written to
        pin 18. */
    method Step(cabinetTemperature: real) returns (drive: int)
      requires Valid()
      modifies this
      ensures Valid()
      ensures position == Clamp(Decide(old(position), old(enable), DesiredTemperature - cabinetTemperature).position)
      ensures enable == Decide(old(position), old(enable), DesiredTemperature - cabinetTemperature).enable
      ensures drive == DriveCommand(position, enable)
      ensures published == position
    {
      var error := DesiredTemperature - cabinetTemperature;
      if error > 50.0 {
        if position == MaxPosition {
          enable := false;
        } else {
          enable := true;
          position := MaxPosition;
        }
      } else if error < -50.0 {
        if position == MinPositionForFire {
          enable := false;
        } else {
          enable := true;
          position := MinPositionForFire;
        }
      } else if error < 1.0 && error > -1.0 {
        enable := false;
      } else if error > 0.0 {
        if position == MaxPosition {
          enable := false;
        } else {
          enable := true;
          position := position + Increment;
        }
      } else if error < 0.0 {
        if position == MinPositionForFire {
          enable := false;
        } else {
          enable := true;
          position := position - Increment;
          if position < MinPositionForFire {
            position := MinPositionForFire;
          }
        }
      }
      position := if position > MaxPosition then MaxPosition
                  else if position < MinPosition then MinPosition
                  else position;
      drive := if !enable then 0 else position;
      published := position;
    }
  }

  /** The position and flag one pass leaves, clamp included. */
  function Next(position: int, enable: bool, error: real): Decision
  {
    var d := Decide(position, enable, error);
    Decision(Clamp(d.position), d.enable)
  }

  /** Every branch assigns the drive flag, so its old value never matters. */
  lemma EnableNotCarried(position: int, error: real)
    ensures Next(position, false, error) == Next(position, true, error)
  {
  }

  /** Within the travel, the drive is enabled exactly on the passes that
      change the commanded position. */
  lemma EnabledIffMoved(position: int, enable: bool, error: real)
    requires MinPosition <= position <= MaxPosition
    ensures Next(position, enable, error).enable <==> Next(position, enable, error).position != position
  {
  }

  /** Direction of each move: far too cold opens fully, far too hot goes to
      the lowest setting that keeps the fire, inside the deadband nothing
      moves, otherwise a cold cabinet never closes the valve and a hot one
      never opens it. */
  lemma MovesTowardTarget(position: int, enable: bool, error: real)
    requires MinPosition <= position <= MaxPosition
    ensures error > 50.0 ==> Next(position, enable, error).position == MaxPosition
    ensures error < -50.0 ==> Next(position, enable, error).position == MinPositionForFire
    ensures -1.0 < error < 1.0 ==> Next(position, enable, error) == Decision(position, false)
    ensures 1.0 <= error ==> Next(position, enable, error).position >= position
    ensures error <= -1.0 && position >= MinPositionForFire ==>
      Next(position, enable, error).position <= position
    ensures 1.0 <= error <= 50.0 && position < MaxPosition ==>
      Next(position, enable, error).position == Clamp(position + Increment)
    ensures -50.0 <= error <= -1.0 && position > MinPositionForFire ==>
      Next(position, enable, error).position ==
        (if position - Increment < MinPositionForFire then MinPositionForFire else position - Increment)
  {
  }

  /** The positions the loop can reach from its initial 900: multiples of the
      20-count step between 620 and 1200. */
  ghost predicate Reachable(position: int)
  {
    MinPositionForFire <= position <= MaxPosition && position % Increment == 0
  }

  /** Reachable positions are closed under a pass, so from 900 the valve never
      goes below 620: neither the floor at 620 nor the clamp ever fires. */
  lemma ReachableStep(position: int, enable: bool, error: real)
    requires Reachable(position)
    ensures Reachable(Next(position, enable, error).position)
    ensures Next(position, enable, error).position == Decide(position, enable, error).position
  {
    if position < MaxPosition {
      assert position + Increment <= MaxPosition;
    }
    if position > MinPositionForFire {
      assert position - Increment >= MinPositionForFire;
    }
  }

  /** The initial position is reachable. */
  lemma InitialReachable()
    ensures Reachable(InitialPosition)
  {
  }

  /** The pulse width sent to pin 18 is 0 or a position inside the travel,
      never beyond the physical maximum. */
  lemma DriveWithinTravel(position: int, enable: bool, error: real)
    ensures var n := Next(position, enable, error);
      DriveCommand(n.position, n.enable) == 0 ||
      MinPosition <= DriveCommand(n.position, n.enable) <= MaxPosition
  {
  }

  /** The loop run over a sequence of passes, one temperature error each. */
  function Run(position: int, enable: bool, errors: seq<real>): Decision
    decreases |errors|
  {
    if errors == [] then Decision(position, enable)
    else
      var n := Next(position, enable, errors[0]);
      Run(n.position, n.enable, errors[1..])
  }

  /** Over any sequence of cabinet temperatures, a loop started at 900 keeps
      the valve on a 20-count step between 620 and 1200. */
  lemma {:induction false} RunStaysReachable(position: int, enable: bool, errors: seq<real>)
    requires Reachable(position)
    ensures Reachable(Run(position, enable, errors).position)
    decreases |errors|
  {
    if errors != [] {
      ReachableStep(position, enable, errors[0]);
      var n := Next(position, enable, errors[0]);
      RunStaysReachable(n.position, n.enable, errors[1..]);
    }
  }
}
