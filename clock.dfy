/** The system clock as the worker reads it: `DateTime.UtcNow.Ticks` (100 ns
    units since 0001-01-01), converted to whole milliseconds since the Unix
    epoch. The real clock is replaced by a fixed list of readings that are
    handed out one per query. */
module Clock {
  import opened Int64

  /** The tick count of 1970-01-01T00:00:00Z. */
  const GREENWICH_TICKS: int := 621355968000000000
  const TICKS_PER_MILLISECOND: int := 10000
  /** `DateTime.MaxValue.Ticks`: no `DateTime` has more ticks. */
  const MAX_TICKS: int := 3155378975999999999

  type Ticks = t: int | 0 <= t <= MAX_TICKS

  /** `(ticks - GREENWICH_TICKS) / 10000`: the milliseconds since the Unix
      epoch, rounded toward zero as C#'s integer division does. */
  function GetTimestamp(ticks: Ticks): (ms: Long)
    ensures ticks >= GREENWICH_TICKS ==>
      ms * TICKS_PER_MILLISECOND <= ticks - GREENWICH_TICKS < ms * TICKS_PER_MILLISECOND + TICKS_PER_MILLISECOND
    ensures ticks < GREENWICH_TICKS ==>
      ms * TICKS_PER_MILLISECOND - TICKS_PER_MILLISECOND < ticks - GREENWICH_TICKS <= ms * TICKS_PER_MILLISECOND
  {
    Div(ticks - GREENWICH_TICKS, TICKS_PER_MILLISECOND)
  }

  /** A later reading never converts to an earlier millisecond. */
  lemma GetTimestampMonotone(t1: Ticks, t2: Ticks)
    requires t1 <= t2
    ensures GetTimestamp(t1) <= GetTimestamp(t2)
  {
  }

  /** Every tick that lies less than a millisecond from ms * 10000 ticks past the
      epoch, on the side away from the epoch, converts to ms; around the epoch
      itself that is either side, since C# truncates toward zero. */
  lemma GetTimestampOfMillisecond(ms: int, offset: int)
    requires -TICKS_PER_MILLISECOND < offset < TICKS_PER_MILLISECOND
    requires ms > 0 ==> offset >= 0
    requires ms < 0 ==> offset <= 0
    requires 0 <= GREENWICH_TICKS + ms * TICKS_PER_MILLISECOND + offset <= MAX_TICKS
    ensures GetTimestamp(GREENWICH_TICKS + ms * TICKS_PER_MILLISECOND + offset) == ms
  {
  }

  /** No reading converts to `long.MinValue`, the worker's initial last timestamp. */
  lemma GetTimestampAboveMin(t: Ticks)
    ensures MIN_VALUE < GetTimestamp(t)
  {
    GetTimestampMonotone(0, t);
  }

  /** The readings converted to milliseconds. */
  function Millis(ticks: seq<Ticks>): (ms: seq<Long>)
    ensures |ms| == |ticks|
    ensures forall i :: 0 <= i < |ticks| ==> ms[i] == GetTimestamp(ticks[i])
  {
    seq(|ticks|, i requires 0 <= i < |ticks| => GetTimestamp(ticks[i]))
  }

  /** The source of `DateTime.UtcNow.Ticks`. */
  class SystemClock {
    /** Every reading the clock will give, in order. */
    const readings: seq<Ticks>
    /** How many readings have been taken so far. */
    var cursor: nat

    ghost predicate Valid()
      reads this
    {
      cursor <= |readings|
    }

    constructor (readings: seq<Ticks>)
      ensures Valid()
      ensures this.readings == readings && cursor == 0
    {
      this.readings := readings;
      cursor := 0;
    }

    method UtcNowTicks() returns (t: Ticks)
      requires Valid() && cursor < |readings|
      modifies this
      ensures Valid()
      ensures t == readings[old(cursor)] && cursor == old(cursor) + 1
    {
      t := readings[cursor];
      cursor := cursor + 1;
    }
  }
}
