/** The countdown dialog of components/workout-timer.tsx. The React state
    (duration in minutes, timeLeft in seconds, isActive) is a class; the two
    effects become methods: Open for the effect on opening, Tick for one
    firing of the one-second interval, and Settle for the branch that stops a
    timer at zero, which runs after every change of isActive or timeLeft. */
module WorkoutTimer {
  import Decimal

  class Timer {
    var duration: nat
    var timeLeft: nat
    var isActive: bool

    /** timeLeft never exceeds the selected duration, and a timer at zero is
        not running. */
    predicate Valid()
      reads this
    {
      timeLeft <= duration * 60 && (timeLeft == 0 ==> !isActive)
    }

    /** Seconds already counted down. */
    function Elapsed(): (e: nat)
      reads this
      requires Valid()
      ensures e + timeLeft == duration * 60
    {
      duration * 60 - timeLeft
    }

    /** The initial state: `useState(initialDuration)`, `useState(initialDuration * 60)`,
        `useState(false)`. */
    constructor (initialDuration: nat)
      ensures Valid()
      ensures duration == initialDuration && timeLeft == initialDuration * 60 && !isActive
    {
      duration := initialDuration;
      timeLeft := initialDuration * 60;
      isActive := false;
    }

    /** The effect on opening the dialog: start over from initialDuration, stopped. */
    method Open(initialDuration: nat)
      modifies this
      ensures Valid()
      ensures duration == initialDuration && timeLeft == initialDuration * 60 && !isActive
    {
      duration := initialDuration;
      timeLeft := initialDuration * 60;
      isActive := false;
    }

    /** The stopping branch of the countdown effect: at zero the timer stops. */
    method Settle()
      modifies this
      ensures duration == old(duration) && timeLeft == old(timeLeft)
      ensures isActive == (old(isActive) && timeLeft > 0)
    {
      if timeLeft == 0 {
        isActive := false;
      }
    }

    /** One interval firing: one second off a running timer with time left,
        nothing otherwise; reaching zero stops it. */
    method Tick()
      requires Valid()
      modifies this
      ensures Valid()
      ensures duration == old(duration)
      ensures timeLeft == if old(isActive) && old(timeLeft) > 0 then old(timeLeft) - 1 else old(timeLeft)
      ensures isActive == (old(isActive) && timeLeft > 0)
      ensures Elapsed() == old(Elapsed()) + if old(isActive) then 1 else 0
    {
      if isActive && timeLeft > 0 {
        timeLeft := timeLeft - 1;
      }
      Settle();
    }

    /** `toggleTimer`: flip isActive; a timer at zero is stopped again at once. */
    method Toggle()
      requires Valid()
      modifies this
      ensures Valid()
      ensures duration == old(duration) && timeLeft == old(timeLeft)
      ensures isActive == (!old(isActive) && timeLeft > 0)
    {
      isActive := !isActive;
      Settle();
    }

    /** `resetTimer`: stop and refill to the selected duration. */
    method Reset()
      modifies this
      ensures Valid()
      ensures duration == old(duration) && timeLeft == duration * 60 && !isActive
    {
      isActive := false;
      timeLeft := duration * 60;
    }

    /** `handleDurationChange`: select a new duration, refill, stop. */
    method ChangeDuration(newDuration: nat)
      modifies this
      ensures Valid()
      ensures duration == newDuration && timeLeft == newDuration * 60 && !isActive
    {
      duration := newDuration;
      timeLeft := newDuration * 60;
      isActive := false;
    }

    /** `handleFinish`: report the selected duration in minutes, however much
        of it has been counted down. */
    method Finish() returns (minutes: nat)
      requires Valid()
      ensures minutes == duration && minutes * 60 == Elapsed() + timeLeft
    {
      minutes := duration;
    }
  }

  /** Toggling a timer with time left starts or pauses it; toggling twice
      restores the state. */
  method ToggleTwice(t: Timer)
    requires t.Valid() && t.timeLeft > 0
    modifies t
    ensures t.duration == old(t.duration) && t.timeLeft == old(t.timeLeft)
    ensures t.isActive == old(t.isActive)
  {
    t.Toggle();
    assert t.isActive == !old(t.isActive);
    t.Toggle();
  }

  /** A running timer reaches zero after exactly as many ticks as it has
      seconds left, and then stands still. */
  method RunDown(t: Timer)
    requires t.Valid() && t.isActive
    modifies t
    ensures t.Valid() && t.timeLeft == 0 && !t.isActive
    ensures t.duration == old(t.duration) && t.Elapsed() == t.duration * 60
  {
    var n := t.timeLeft;
    var k := 0;
    while k < n
      invariant 0 <= k <= n
      invariant t.Valid() && t.duration == old(t.duration)
      invariant t.timeLeft == n - k && (k < n ==> t.isActive)
      decreases n - k
    {
      t.Tick();
      k := k + 1;
    }
  }

  /** `formatTime`: zero-padded minutes and seconds joined by ':'. */
  function FormatTime(seconds: nat): string
  {
    var mins := seconds / 60;
    var secs := seconds % 60;
    Decimal.PadStart2(Decimal.NatToString(mins)) + ":" + Decimal.PadStart2(Decimal.NatToString(secs))
  }

  /** The text reads back as the time: the digits before ':' give the whole
      minutes, the two after it the remaining seconds; below 100 minutes the
      text is exactly "mm:ss". */
  lemma FormatTimeReadsBack(seconds: nat)
    ensures var r := FormatTime(seconds);
            && |r| >= 5 && r[|r| - 3] == ':'
            && Decimal.IsDigits(r[..|r| - 3]) && Decimal.IsDigits(r[|r| - 2..])
            && Decimal.Value(r[|r| - 2..]) < 60
            && 60 * Decimal.Value(r[..|r| - 3]) + Decimal.Value(r[|r| - 2..]) == seconds
            && (seconds < 6000 ==> |r| == 5)
  {
    var q, rem := seconds / 60, seconds % 60;
    assert 60 * q + rem == seconds && rem < 60;
    assert seconds < 6000 ==> q < 100;
    Decimal.TwoDigits(rem);
    Decimal.NatToStringRoundTrip(q);
    Decimal.PadStart2Value(Decimal.NatToString(q));
    JoinFields(Decimal.PadStart2(Decimal.NatToString(q)), Decimal.PadStart2(Decimal.NatToString(rem)));
  }

  lemma JoinFields(m: string, s: string)
    requires |s| == 2
    ensures var r := m + ":" + s;
            |r| == |m| + 3 && r[|r| - 3] == ':' && r[..|r| - 3] == m && r[|r| - 2..] == s
  {
    var r := m + ":" + s;
    assert r[..|r| - 3] == m;
    assert r[|r| - 2..] == s;
  }
}
