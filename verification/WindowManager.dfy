/** The sliding-window index as the detector runs it: a deque that forgets records
    from its front. Every call is proved to behave like the reference that forgets nothing. */
module Windowing {
  import opened Types
  import opened History
  import opened Reference

  const NANOS_PER_MILLI := 1_000_000

  class WindowManager {
    const windowSize: int
    const stepSize: int
    var buffer: seq<Record>
    var nextEmitTime: Time
    var lastTime: Time
    var initialized: bool

    /** The reference log of everything this manager has been given. */
    ghost var log: Log

    ghost const grid: Grid := Grid(windowSize, stepSize)

    ghost predicate Valid()
      reads this
    {
      && Coherent(grid, log)
      && initialized == (log.accepted != [])
      && (initialized ==> lastTime == Last(log) && nextEmitTime == Due(grid, log))
      && log.dropped <= |log.accepted| && buffer == log.accepted[log.dropped..]
    }

    constructor (windowMillis: int, stepMillis: int)
      ensures Valid() && log == EMPTY
      ensures grid == Grid(windowMillis * NANOS_PER_MILLI, stepMillis * NANOS_PER_MILLI)
    {
      windowSize := windowMillis * NANOS_PER_MILLI;
      stepSize := stepMillis * NANOS_PER_MILLI;
      buffer := [];
      nextEmitTime, lastTime, initialized := 0, 0, false;
      log := EMPTY;
    }

    /** Takes one record; returns whether a window was cut, and the caller's window
        variable, overwritten only when it was. */
    method AddRecord(record: Record, outWindow: Window) returns (emitted: bool, window: Window)
      requires Valid()
      modifies this
      ensures Valid()
      ensures log == Observe(grid, old(log), record)
      ensures emitted == Emission(grid, old(log), record).Some?
      ensures emitted ==> window == Emission(grid, old(log), record).value
      ensures !emitted ==> window == outWindow
    {
      window := outWindow;
      if initialized && record.timestamp < lastTime {
        return false, window;
      }
      Push(record);
      if record.timestamp >= nextEmitTime {
        window := Emit();
        emitted := true;
      } else {
        emitted := false;
      }
    }

    /** Appends an accepted record to the deque; the first one fixes the grid. */
    method Push(record: Record)
      requires Valid() && Accepts(log, record)
      modifies this
      ensures Valid() && log == Grow(old(log), record)
    {
      AcceptCoherent(grid, log, record);
      log := Grow(log, record);
      lastTime := record.timestamp;
      if !initialized {
        nextEmitTime := record.timestamp + windowSize;
        initialized := true;
      }
      buffer := buffer + [record];
    }

    /** Cuts the window that is due, moves the grid one step and prunes the deque. */
    method Emit() returns (window: Window)
      requires Valid() && log.accepted != [] && nextEmitTime <= lastTime
      modifies this`buffer, this`log, this`nextEmitTime
      ensures Valid()
      ensures window == WindowOf(log.accepted, old(nextEmitTime) - windowSize, old(nextEmitTime))
      ensures log == Cut(grid, old(log))
    {
      var startTime, endTime := nextEmitTime - windowSize, nextEmitTime;
      var records := Collect(startTime, endTime);
      PrunedFilter(grid, log, endTime);
      window := Window(startTime, endTime, records);

      CutCoherent(grid, log);
      nextEmitTime := nextEmitTime + stepSize;
      Prune(nextEmitTime - windowSize);
      log := Cut(grid, log);
    }

    /** The buffered records stamped in [startTime, endTime]. */
    method Collect(startTime: Time, endTime: Time) returns (records: seq<Record>)
      ensures records == Between(buffer, startTime, endTime)
    {
      records := [];
      for i := 0 to |buffer|
        invariant records == Between(buffer[..i], startTime, endTime)
      {
        assert buffer[..i + 1] == buffer[..i] + [buffer[i]];
        BetweenSnoc(buffer[..i], buffer[i], startTime, endTime);
        if startTime <= buffer[i].timestamp && buffer[i].timestamp <= endTime {
          records := records + [buffer[i]];
        }
      }
      assert buffer[..|buffer|] == buffer;
    }

    /** Pops the front of the deque while it is older than `oldestNeeded`. */
    method Prune(oldestNeeded: Time)
      requires Sorted(log.accepted) && log.dropped <= CountBefore(log.accepted, oldestNeeded) <= |log.accepted|
      requires buffer == log.accepted[log.dropped..]
      modifies this`buffer
      ensures buffer == log.accepted[CountBefore(log.accepted, oldestNeeded)..]
    {
      ghost var h := log.accepted;
      ghost var dropped: nat := log.dropped;
      CountBeforeSplits(h, oldestNeeded);
      while buffer != [] && buffer[0].timestamp < oldestNeeded
        invariant dropped <= CountBefore(h, oldestNeeded) <= |h|
        invariant buffer == h[dropped..]
        decreases |buffer|
      {
        assert buffer[0] == h[dropped];
        buffer := buffer[1..];
        dropped := dropped + 1;
      }
      assert dropped < |h| ==> buffer[0] == h[dropped];
    }
  }
}
