/** `SnowflakeIdWorker`: a node's identifier generator, holding its start
    timestamp and node ids, and the timestamp and sequence of the last
    identifier it issued. */
module Worker {
  import opened Int64
  import opened Layout
  import opened Clock
  import opened Sequencing

  /** `GetDatacenterId` / `GetMachineId`: a given id that is not negative is
      kept as it is (without a range check); a negative one is replaced by
      `random`, the value of `Random.Next(0, max + 1)`. */
  function GetNodeId(given: Long, random: int, max: Long): (id: Long)
    requires 0 <= random <= max
    ensures 0 <= id
    ensures given >= 0 ==> id == given
    ensures given < 0 ==> id == random
    ensures id <= max <==> given <= max
  {
    if given > -1 then given else random
  }

  class SnowflakeIdWorker {
    const startTimestamp: Long
    const datacenterId: Long
    const machineId: Long
    var lastIdTimestamp: Long
    var lastSequence: Long

    function State(): WorkerState
      reads this
    {
      WorkerState(lastIdTimestamp, lastSequence)
    }

    ghost predicate Valid()
      reads this
    {
      ValidState(State())
    }

    /** The worker for a start timestamp in milliseconds since the Unix epoch;
        a negative node id asks for a random one. */
    constructor (startTimestamp: Long, randomDatacenter: int, randomMachine: int,
                 datacenterId: Long := -1, machineId: Long := -1)
      requires 0 <= randomDatacenter <= MAX_DATA_CENTER_COUNT
      requires 0 <= randomMachine <= MAX_MACHINE_NODE
      ensures Valid() && State() == Initial
      ensures this.startTimestamp == startTimestamp
      ensures this.datacenterId == GetNodeId(datacenterId, randomDatacenter, MAX_DATA_CENTER_COUNT)
      ensures this.machineId == GetNodeId(machineId, randomMachine, MAX_MACHINE_NODE)
    {
      this.startTimestamp := startTimestamp;
      this.datacenterId := GetNodeId(datacenterId, randomDatacenter, MAX_DATA_CENTER_COUNT);
      this.machineId := GetNodeId(machineId, randomMachine, MAX_MACHINE_NODE);
      lastIdTimestamp := MIN_VALUE;
      lastSequence := 0;
    }

    /** The worker for a start time given as UTC ticks. */
    constructor FromStartTime(startTime: Ticks, randomDatacenter: int, randomMachine: int,
                              datacenterId: Long := -1, machineId: Long := -1)
      requires 0 <= randomDatacenter <= MAX_DATA_CENTER_COUNT
      requires 0 <= randomMachine <= MAX_MACHINE_NODE
      ensures Valid() && State() == Initial
      ensures this.startTimestamp == GetTimestamp(startTime)
      ensures this.datacenterId == GetNodeId(datacenterId, randomDatacenter, MAX_DATA_CENTER_COUNT)
      ensures this.machineId == GetNodeId(machineId, randomMachine, MAX_MACHINE_NODE)
    {
      this.startTimestamp := GetTimestamp(startTime);
      this.datacenterId := GetNodeId(datacenterId, randomDatacenter, MAX_DATA_CENTER_COUNT);
      this.machineId := GetNodeId(machineId, randomMachine, MAX_MACHINE_NODE);
      lastIdTimestamp := MIN_VALUE;
      lastSequence := 0;
    }

    /** The current time in milliseconds since the Unix epoch: the next reading. */
    method GetSystemTimestamp(clock: SystemClock) returns (ms: Long)
      requires clock.Valid() && clock.cursor < |clock.readings|
      modifies clock
      ensures clock.Valid() && clock.cursor == old(clock.cursor) + 1
      ensures ms == Millis(clock.readings)[old(clock.cursor)]
    {
      var ticks := clock.UtcNowTicks();
      ms := GetTimestamp(ticks);
    }

    /** Reads the clock until it shows a millisecond after `timestamp`, and
        returns that millisecond: the first such reading. */
    method SpinWaitNextMillisecond(timestamp: Long, clock: SystemClock) returns (newTimestamp: Long)
      requires clock.Valid()
      requires exists j :: clock.cursor <= j < |clock.readings| && Millis(clock.readings)[j] > timestamp
      modifies clock
      ensures clock.Valid()
      ensures clock.cursor == FirstAbove(Millis(clock.readings), timestamp, old(clock.cursor)) + 1
      ensures newTimestamp == Millis(clock.readings)[clock.cursor - 1] > timestamp
    {
      ghost var ms := Millis(clock.readings);
      ghost var first := FirstAbove(ms, timestamp, clock.cursor);
      newTimestamp := GetSystemTimestamp(clock);
      while timestamp >= newTimestamp
        invariant clock.Valid() && old(clock.cursor) < clock.cursor <= first + 1
        invariant newTimestamp == ms[clock.cursor - 1]
        decreases first + 1 - clock.cursor
      {
        newTimestamp := GetSystemTimestamp(clock);
      }
    }

    /** Issues the next identifier, or fails with `TimeRegression` when the
        clock reads earlier than the last identifier's millisecond. */
    method NextId(clock: SystemClock) returns (r: Result<Long>)
      requires Valid() && clock.Valid()
      requires CanAdvance(State(), Millis(clock.readings), clock.cursor)
      modifies this, clock
      ensures Valid() && clock.Valid()
      ensures Advance(old(State()), Millis(clock.readings), old(clock.cursor)).Err? ==>
        r == Err(TimeRegression) && State() == old(State()) && clock.cursor == old(clock.cursor) + 1
      ensures Advance(old(State()), Millis(clock.readings), old(clock.cursor)).Ok? ==>
        State() == Advance(old(State()), Millis(clock.readings), old(clock.cursor)).value.state &&
        clock.cursor == Advance(old(State()), Millis(clock.readings), old(clock.cursor)).value.next &&
        r == Ok(IdFor(startTimestamp, datacenterId, machineId, State()))
    {
      ghost var before, ms, at := State(), Millis(clock.readings), clock.cursor;
      ghost var advanced := Advance(before, ms, at);
      var currentTimestamp := GetSystemTimestamp(clock);
      if currentTimestamp < lastIdTimestamp {
        return Err(TimeRegression);
      }
      if currentTimestamp == lastIdTimestamp {
        lastSequence := NextSequence(lastSequence);
        assert lastSequence == (before.lastSequence + 1) % 4096;
        if 0 == lastSequence {
          currentTimestamp := SpinWaitNextMillisecond(lastIdTimestamp, clock);
        }
      } else {
        lastSequence := 0;
      }
      lastIdTimestamp := currentTimestamp;
      assert State() == advanced.value.state && clock.cursor == advanced.value.next;
      r := Ok(IdFor(startTimestamp, datacenterId, machineId, State()));
    }
  }
}
