/** The timer component's state: a target fixed when the component mounts,
    thirty days after that instant, and the remaining time on display, which
    every interval callback overwrites. Instants are whole milliseconds since
    the epoch and are passed in; the clock is never read here. */
module Timer {
  import opened Countdown

  /** How far ahead of the mount instant the target lies. */
  const TargetOffsetMs: int := 30 * MsPerDay

  class CountdownTimer {
    /** Set once at mount and never changed afterwards. */
    const target: int
    /** The record currently shown. */
    var timeLeft: TimeLeft

    /** Mounting reads the clock twice: once for the target (`mountedAt`) and
        once more for the first remaining time (`firstReading`). */
    constructor (mountedAt: int, firstReading: int)
      ensures target == mountedAt + TargetOffsetMs
      ensures timeLeft == CalculateTimeLeft(target, firstReading)
      ensures InRange(timeLeft)
    {
      target := mountedAt + TargetOffsetMs;
      timeLeft := CalculateTimeLeft(mountedAt + TargetOffsetMs, firstReading);
    }

    /** One interval callback at instant `now`: the display is recomputed from
        the fixed target, so it stays in range and reads zero once the target
        is reached. */
    method Tick(now: int)
      modifies this
      ensures timeLeft == CalculateTimeLeft(target, now)
      ensures InRange(timeLeft)
      ensures target <= now ==> timeLeft == Zero
    {
      timeLeft := CalculateTimeLeft(target, now);
    }
  }

  /** When both clock readings at mount give the same instant, the first
      display is exactly thirty days. */
  lemma MountShowsThirtyDays(mountedAt: int)
    ensures CalculateTimeLeft(mountedAt + TargetOffsetMs, mountedAt) == TimeLeft(30, 0, 0, 0)
  {
    CalculateTimeLeftIsUnique(mountedAt + TargetOffsetMs, mountedAt, TimeLeft(30, 0, 0, 0));
  }

  /** When the second reading at mount is up to one second later, the first
      display is one second short of thirty days. */
  lemma LateFirstReadingShowsOneSecondLess(mountedAt: int, firstReading: int)
    requires mountedAt < firstReading <= mountedAt + MsPerSecond
    ensures CalculateTimeLeft(mountedAt + TargetOffsetMs, firstReading) == TimeLeft(29, 23, 59, 59)
  {
    var lag := firstReading - mountedAt;
    var d := TargetOffsetMs - lag;
    DivModUnique(d, MsPerSecond, 30 * 86400 - 1, MsPerSecond - lag);
    CalculateTimeLeftIsUnique(mountedAt + TargetOffsetMs, firstReading, TimeLeft(29, 23, 59, 59));
  }

  /** Once a tick shows all zeros, every later tick does too, including
      when the zeros first appeared up to a second before the target. */
  lemma ZeroStaysZero(target: int, shownAt: int, later: int)
    requires shownAt <= later && CalculateTimeLeft(target, shownAt) == Zero
    ensures CalculateTimeLeft(target, later) == Zero
  {
    ZeroExactlyUnderOneSecond(target, shownAt);
    ZeroExactlyUnderOneSecond(target, later);
  }
}
