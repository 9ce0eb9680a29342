/** The XAML dispatcher timer both animated decoders drive, and the
    arithmetic of counting its ticks in whole loops over a frame list. */
module DispatchTimer {

  /** `TimeSpan` ticks (100 ns) in a millisecond. */
  const TICKS_PER_MS: int := 10000

  /** No timer yet, a stopped one, or a running one; intervals are in
      `TimeSpan` ticks. */
  datatype Timer = NoTimer | Stopped(interval: int) | Running(interval: int)

  /** `timer?.Stop()`. */
  function StopTimer(t: Timer): (r: Timer)
    ensures !r.Running?
    ensures t.Running? ==> r == Stopped(t.interval)
    ensures !t.Running? ==> r == t
  {
    match t
    case Running(i) => Stopped(i)
    case _ => t
  }

  /** Setting `Interval` changes the interval and leaves the timer running or
      stopped as it was. */
  function SetInterval(t: Timer, interval: int): (r: Timer)
    ensures r.Running? <==> t.Running?
    ensures r.NoTimer? <==> t.NoTimer?
    ensures !r.NoTimer? ==> r.interval == interval
  {
    match t
    case Running(_) => Running(interval)
    case Stopped(_) => Stopped(interval)
    case NoTimer => NoTimer
  }

  /** Counting ticks as loops times frames plus index: with `n` frames and
      `l` loops, the count stays below `l * n` exactly while loops remain. */
  lemma LoopsBelowLimit(loops: int, index: int, n: int, l: int, k: int)
    requires n > 0 && 0 <= index < n && loops >= 0 && l >= 0
    requires loops * n + index == k
    ensures loops < l <==> k < l * n
  {
    if loops < l {
      MulMonotone(loops, l - 1, n);
      assert (l - 1) * n + n == l * n;
    } else {
      MulMonotone(l, loops, n);
    }
  }

  /** Multiplying by a non-negative number keeps the order. */
  lemma {:induction false} MulMonotone(a: int, b: int, n: int)
    requires a <= b && n >= 0
    ensures a * n <= b * n
    decreases b - a
  {
    if a < b {
      MulMonotone(a, b - 1, n);
      assert b * n == (b - 1) * n + n;
    }
  }

  /** When the count reaches exactly `l * n`, the index is back at 0 and `l`
      loops are complete. */
  lemma CountAtLimit(loops: int, index: int, n: int, l: int)
    requires n > 0 && 0 <= index < n && loops >= 0 && l >= 0
    requires loops * n + index == l * n
    ensures index == 0 && loops == l
  {
    LoopsBelowLimit(loops, index, n, l, l * n);
    assert loops <= l by {
      assert (loops - l) * n <= index;
    }
  }
}
