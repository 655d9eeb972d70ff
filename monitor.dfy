/** The flame-loss monitor (monitor.c): a debounced three-state machine run
    once per monitor tick (every 100 ms) over the flame temperature, which
    sends a notification on each transition and publishes its state to the
    shared control data.  Temperatures are only compared with constants, so
    `real` stands for the C `float` (NaN is not modelled). */
module FlameMonitor {

  /** Period of the monitor task, in milliseconds. */
  const ServiceRateMs: nat := 100
  /** Debounce: consecutive ticks a condition must hold (10 s). */
  const DetectStateTime: nat := 10000 / ServiceRateMs
  /** Ticks between repeated fire-lost warnings (5 min). */
  const NotifyFireLostRepeatTime: nat := 5 * 60000 / ServiceRateMs
  /** Fire is detected above this flame temperature (deg F). */
  const FireDetectedTemp: real := 250.0
  /** Fire is lost below this flame temperature (deg F). */
  const FireLostTemp: real := 150.0

  /** A value of the underlying C enum other than the codes 0, 1 and 2 of
      the three named states. */
  type OtherCode = c: int | c < 0 || 2 < c witness 3

  /** fire_detect_state_type.  `Unknown` stands for any other value of the
      underlying C enum, which the `default:` branch treats like FireLost. */
  datatype FireState = WaitingForFire | FireDetected | FireLost | Unknown(code: OtherCode)

  /** One call of Monitor_Send_Notification(subject, message). */
  datatype Notification = Notification(subject: string, message: string)

  const StartingNotice := Notification("Notice", "Application is starting")
  const LightingNotice := Notification("Notice", "Opening valve for lighting")
  const FireDetectedNotice := Notification("Notice", "Fire detected")
  const FireLostWarning := Notification("Warning", "Loss of fire has been detected")

  /** What one tick leaves behind: the new state, the new debounce timer and
      the notifications sent during the tick. */
  datatype Outcome = Outcome(state: FireState, timer: nat, notices: seq<Notification>)

  /** The switch of _Monitor_Service_Fire_Loss_Detection for one tick. */
  function Step(state: FireState, timer: nat, fireTemp: real): (o: Outcome)
    ensures timer < NotifyFireLostRepeatTime ==> o.timer < NotifyFireLostRepeatTime
  {
    match state
    case WaitingForFire =>
      if fireTemp > FireDetectedTemp then
        if timer + 1 >= DetectStateTime then Outcome(FireDetected, 0, [FireDetectedNotice])
        else Outcome(WaitingForFire, timer + 1, [])
      else Outcome(WaitingForFire, 0, [])
    case FireDetected =>
      if fireTemp < FireLostTemp then
        if timer + 1 >= DetectStateTime then Outcome(FireLost, 0, [FireLostWarning])
        else Outcome(FireDetected, timer + 1, [])
      else Outcome(FireDetected, 0, [])
    case _ =>
      if timer + 1 >= NotifyFireLostRepeatTime then Outcome(state, 0, [FireLostWarning])
      else Outcome(state, timer + 1, [])
  }

  /** The monitor run over a sequence of ticks, one flame temperature each. */
  function Run(state: FireState, timer: nat, temps: seq<real>): Outcome
    decreases |temps|
  {
    if temps == [] then Outcome(state, timer, [])
    else
      var o := Step(state, timer, temps[0]);
      var r := Run(o.state, o.timer, temps[1..]);
      Outcome(r.state, r.timer, o.notices + r.notices)
  }

  /** The monitor's file-static state, its function-static debounce timer
      and the copy of the state published in the shared data. */
  class Monitor {
    var state: FireState
    var timer: nat
    var published: FireState

    /** The timer is a uint32; it never gets near wrapping because every
        branch resets it before it reaches the repeat interval. */
    ghost predicate Valid()
      reads this
    {
      timer < NotifyFireLostRepeatTime
    }

    /** Static initialisation: the state starts as WaitingForFire, the timer
        at 0, and the zero-initialised shared data reads as WaitingForFire. */
    constructor ()
      ensures Valid()
      ensures state == WaitingForFire && timer == 0 && published == WaitingForFire
    {
      state := WaitingForFire;
      timer := 0;
      published := WaitingForFire;
    }

    /** Monitor_Init: publish the state and announce the start-up. */
    method Init() returns (notices: seq<Notification>)
      requires Valid()
      modifies this`published
      ensures Valid()
      ensures published == state
      ensures notices == [StartingNotice]
    {
      published := state;
      notices := [StartingNotice];
    }

    /** Monitor_Light_Fire: force WaitingForFire and send one notice.  The
        debounce timer is left as it is and nothing is published. */
    method LightFire() returns (notices: seq<Notification>)
      requires Valid()
      modifies this`state
      ensures Valid()
      ensures state == WaitingForFire
      ensures notices == [LightingNotice]
    {
      notices := [LightingNotice];
      state := WaitingForFire;
    }

    /** One tick of _Monitor_Service_Fire_Loss_Detection with the flame
        temperature read from the shared data. */
    method Tick(fireTemp: real) returns (notices: seq<Notification>)
      requires Valid()
      modifies this
      ensures Valid()
      ensures state == Step(old(state), old(timer), fireTemp).state
      ensures timer == Step(old(state), old(timer), fireTemp).timer
      ensures notices == Step(old(state), old(timer), fireTemp).notices
      ensures published == state
    {
      notices := [];
      match state {
      case WaitingForFire =>
        if fireTemp > FireDetectedTemp {
          timer := timer + 1;
          if timer >= DetectStateTime {
            timer := 0;
            notices := [FireDetectedNotice];
            state := FireDetected;
          }
        } else {
          timer := 0;
        }
      case FireDetected =>
        if fireTemp < FireLostTemp {
          timer := timer + 1;
          if timer >= DetectStateTime {
            timer := 0;
            notices := [FireLostWarning];
            state := FireLost;
          }
        } else {
          timer := 0;
        }
      case _ =>
        timer := timer + 1;
        if timer >= NotifyFireLostRepeatTime {
          notices := [FireLostWarning];
          timer := 0;
        }
      }
      published := state;
    }
  }

  /** Waiting with `timer` ticks already counted: while the flame stays above
      the detect threshold and the debounce is not complete, the monitor keeps
      waiting, counts the ticks and stays silent. */
  lemma {:induction false} WaitingCounts(timer: nat, temps: seq<real>)
    requires timer + |temps| < DetectStateTime
    requires forall k :: 0 <= k < |temps| ==> temps[k] > FireDetectedTemp
    ensures Run(WaitingForFire, timer, temps) == Outcome(WaitingForFire, timer + |temps|, [])
    decreases |temps|
  {
    if temps != [] {
      WaitingCounts(timer + 1, temps[1..]);
    }
  }

  /** Waiting with `timer` ticks counted: exactly the ticks that complete the
      debounce move the monitor to FireDetected, with exactly one notice, and
      the timer back at 0. */
  lemma {:induction false} WaitingDetects(timer: nat, temps: seq<real>)
    requires timer < DetectStateTime && timer + |temps| == DetectStateTime
    requires forall k :: 0 <= k < |temps| ==> temps[k] > FireDetectedTemp
    ensures Run(WaitingForFire, timer, temps) == Outcome(FireDetected, 0, [FireDetectedNotice])
    decreases |temps|
  {
    if timer + 1 == DetectStateTime {
      assert temps[1..] == [];
    } else {
      WaitingDetects(timer + 1, temps[1..]);
    }
  }

  /** From a fresh WaitingForFire, 100 consecutive ticks above 250 deg F move
      the state to FireDetected on the 100th tick with one "Fire detected"
      notice, and 99 such ticks do not. */
  lemma FireDetectedAfterDebounce(temps: seq<real>)
    requires |temps| == DetectStateTime
    requires forall k :: 0 <= k < |temps| ==> temps[k] > FireDetectedTemp
    ensures Run(WaitingForFire, 0, temps) == Outcome(FireDetected, 0, [FireDetectedNotice])
    ensures Run(WaitingForFire, 0, temps[..DetectStateTime - 1]).state == WaitingForFire
  {
    WaitingDetects(0, temps);
    WaitingCounts(0, temps[..DetectStateTime - 1]);
  }

  /** Detected with `timer` ticks counted below the lost threshold: the ticks
      that complete the debounce move the monitor to FireLost with exactly one
      warning. */
  lemma {:induction false} DetectedLoses(timer: nat, temps: seq<real>)
    requires timer < DetectStateTime && timer + |temps| == DetectStateTime
    requires forall k :: 0 <= k < |temps| ==> temps[k] < FireLostTemp
    ensures Run(FireDetected, timer, temps) == Outcome(FireLost, 0, [FireLostWarning])
    decreases |temps|
  {
    if timer + 1 == DetectStateTime {
      assert temps[1..] == [];
    } else {
      DetectedLoses(timer + 1, temps[1..]);
    }
  }

  /** A tick at or above the lost threshold while FireDetected resets the
      debounce timer and changes nothing else; below the detect threshold
      while waiting does the same. */
  lemma DebounceReset(timer: nat, fireTemp: real)
    ensures fireTemp >= FireLostTemp ==>
      Step(FireDetected, timer, fireTemp) == Outcome(FireDetected, 0, [])
    ensures fireTemp <= FireDetectedTemp ==>
      Step(WaitingForFire, timer, fireTemp) == Outcome(WaitingForFire, 0, [])
  {
  }

  /** The hysteresis band: over any run of flame temperatures within
      [150, 250] neither WaitingForFire nor FireDetected changes state or
      notifies, and the timer ends at 0 once at least one tick has passed. */
  lemma {:induction false} HysteresisBand(state: FireState, timer: nat, temps: seq<real>)
    requires state == WaitingForFire || state == FireDetected
    requires forall k :: 0 <= k < |temps| ==> FireLostTemp <= temps[k] <= FireDetectedTemp
    ensures Run(state, timer, temps).state == state
    ensures Run(state, timer, temps).notices == []
    ensures temps != [] ==> Run(state, timer, temps).timer == 0
    decreases |temps|
  {
    if temps != [] {
      HysteresisBand(state, 0, temps[1..]);
    }
  }

  /** A flame that never exceeds the detect threshold never leaves
      WaitingForFire and never triggers a notification. */
  lemma {:induction false} StaysWaitingWhenCold(timer: nat, temps: seq<real>)
    requires forall k :: 0 <= k < |temps| ==> temps[k] <= FireDetectedTemp
    ensures Run(WaitingForFire, timer, temps).state == WaitingForFire
    ensures Run(WaitingForFire, timer, temps).notices == []
    decreases |temps|
  {
    if temps != [] {
      StaysWaitingWhenCold(0, temps[1..]);
    }
  }

  /** FireLost (and any out-of-range state) never leaves by itself: over n
      ticks it repeats the warning once per 3000 ticks (the k warnings and the
      final timer t satisfy k * 3000 + t == timer + n with t < 3000, so k is
      (timer + n) / 3000 and t is (timer + n) % 3000). */
  lemma {:induction false} LostRepeats(state: FireState, timer: nat, temps: seq<real>)
    requires state != WaitingForFire && state != FireDetected
    requires timer < NotifyFireLostRepeatTime
    ensures Run(state, timer, temps).state == state
    ensures Run(state, timer, temps).timer < NotifyFireLostRepeatTime
    ensures |Run(state, timer, temps).notices| * NotifyFireLostRepeatTime + Run(state, timer, temps).timer
      == timer + |temps|
    ensures forall k :: 0 <= k < |Run(state, timer, temps).notices| ==>
      Run(state, timer, temps).notices[k] == FireLostWarning
    decreases |temps|
  {
    if temps != [] {
      var o := Step(state, timer, temps[0]);
      var r := Run(o.state, o.timer, temps[1..]);
      LostRepeats(state, o.timer, temps[1..]);
      assert o.state == state && |o.notices| <= 1;
      assert |o.notices| * NotifyFireLostRepeatTime + o.timer == timer + 1;
      assert forall k :: 0 <= k < |o.notices| ==> o.notices[k] == FireLostWarning;
      var all := o.notices + r.notices;
      assert Run(state, timer, temps) == Outcome(r.state, r.timer, all);
      assert |all| * NotifyFireLostRepeatTime
          == |o.notices| * NotifyFireLostRepeatTime + |r.notices| * NotifyFireLostRepeatTime;
    }
  }

  /** Because Monitor_Light_Fire does not reset the debounce timer, a count
      left over from an earlier state shortens the next debounce: with 99 or
      more ticks already counted, a single hot tick detects the fire. */
  lemma LeftoverTimerShortensDebounce(timer: nat, fireTemp: real)
    requires timer >= DetectStateTime - 1 && fireTemp > FireDetectedTemp
    ensures Step(WaitingForFire, timer, fireTemp) == Outcome(FireDetected, 0, [FireDetectedNotice])
  {
  }

  /** A client run: start, light the fire, then 100 hot ticks. */
  method LightThenHeat(temps: seq<real>) returns (m: Monitor, notices: seq<Notification>)
    requires |temps| == DetectStateTime
    requires forall k :: 0 <= k < |temps| ==> temps[k] > FireDetectedTemp
    ensures m.state == FireDetected && m.published == FireDetected
    ensures notices == [StartingNotice, LightingNotice, FireDetectedNotice]
  {
    m := new Monitor();
    notices := m.Init();
    var n := m.LightFire();
    notices := notices + n;
    var i := 0;
    while i < |temps|
      invariant 0 <= i <= |temps|
      invariant m.Valid() && m.published == m.state
      invariant m.timer == if i == |temps| then 0 else i
      invariant i < |temps| ==> m.state == WaitingForFire
      invariant i == |temps| ==> m.state == FireDetected
      invariant notices == [StartingNotice, LightingNotice] + (if i == |temps| then [FireDetectedNotice] else [])
    {
      n := m.Tick(temps[i]);
      notices := notices + n;
      i := i + 1;
    }
  }
}
