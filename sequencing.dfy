/** The per-worker sequence state machine behind `NextId`, as functions over an
    explicit list of clock readings (milliseconds), and what it guarantees over
    any number of consecutive calls. */
module Sequencing {
  import opened Int64
  import opened Layout

  datatype Error = TimeRegression

  datatype Result<T> = Ok(value: T) | Err(error: Error)

  /** `_lastIdTimestamp` and `_lastSequence`. */
  datatype WorkerState = WorkerState(lastIdTimestamp: Long, lastSequence: Long)

  /** A fresh worker: no identifier issued yet. */
  const Initial: WorkerState := WorkerState(MIN_VALUE, 0)

  predicate ValidState(s: WorkerState)
  {
    0 <= s.lastSequence <= MAX_SEQUENCE
  }

  /** `MAX_SEQUENCE & (sequence + 1)`: the successor modulo 4096. */
  function NextSequence(sequence: Long): (r: Long)
    ensures r == (sequence + 1) % 4096
    ensures 0 <= r <= MAX_SEQUENCE
  {
    LayoutConstants();
    Pow2Values();
    AndLowMask(Wrap(sequence + 1), 12, 4096);
    WrapSuccessorLowBits(sequence);
    And(MAX_SEQUENCE, Wrap(sequence + 1))
  }

  /** Wrapping `long.MaxValue + 1` round to `long.MinValue` keeps the low 12 bits. */
  lemma WrapSuccessorLowBits(sequence: Long)
    ensures Wrap(sequence + 1) % 4096 == (sequence + 1) % 4096
  {
    if sequence == MAX_VALUE {
      assert Wrap(sequence + 1) == MIN_VALUE;
    }
  }

  /** The position of the first reading above t, searching from position `from`. */
  function FirstAbove(clock: seq<Long>, t: int, from: nat): (k: nat)
    requires from <= |clock|
    requires exists j :: from <= j < |clock| && clock[j] > t
    ensures from <= k < |clock| && clock[k] > t
    ensures forall j :: from <= j < k ==> clock[j] <= t
    decreases |clock| - from
  {
    if clock[from] > t then from else FirstAbove(clock, t, from + 1)
  }

  /** The first reading above t is the only position with a reading above t
      and none above t before it. */
  lemma {:induction false} FirstAboveUnique(clock: seq<Long>, t: int, from: nat, k: nat)
    requires from <= k < |clock| && clock[k] > t
    requires forall j :: from <= j < k ==> clock[j] <= t
    ensures FirstAbove(clock, t, from) == k
    decreases k - from
  {
    if from < k {
      FirstAboveUnique(clock, t, from + 1, k);
    }
  }

  /** The readings a call starting at position `at` consumes exist: one for the
      call itself and, when the millisecond's sequence is exhausted, a later one
      above the last timestamp for the spin-wait to end on. */
  predicate CanAdvance(s: WorkerState, clock: seq<Long>, at: nat)
  {
    at < |clock| &&
    (clock[at] == s.lastIdTimestamp && (s.lastSequence + 1) % 4096 == 0 ==>
       exists j :: at < j < |clock| && clock[j] > s.lastIdTimestamp)
  }

  /** The new state of a successful call, and the position of the next unread reading. */
  datatype Issue = Issue(state: WorkerState, next: nat)

  /** One call of `NextId` taking its readings from position `at`. */
  function Advance(s: WorkerState, clock: seq<Long>, at: nat): (r: Result<Issue>)
    requires CanAdvance(s, clock, at)
    // the clock went backwards: an error, and nothing else is read
    ensures r.Err? <==> clock[at] < s.lastIdTimestamp
    ensures r.Ok? ==> at < r.value.next <= |clock|
    // the timestamp kept is the last reading taken, never below the previous one
    ensures r.Ok? ==> r.value.state.lastIdTimestamp == clock[r.value.next - 1] >= s.lastIdTimestamp
    // a new millisecond restarts the sequence at 0
    ensures clock[at] > s.lastIdTimestamp ==> r == Ok(Issue(WorkerState(clock[at], 0), at + 1))
    // the same millisecond takes the next sequence number, modulo 4096
    ensures clock[at] == s.lastIdTimestamp && (s.lastSequence + 1) % 4096 != 0 ==>
      r == Ok(Issue(WorkerState(s.lastIdTimestamp, (s.lastSequence + 1) % 4096), at + 1))
    // an exhausted millisecond waits for the first later reading above it, with sequence 0
    ensures clock[at] == s.lastIdTimestamp && (s.lastSequence + 1) % 4096 == 0 ==>
      r.Ok? && r.value.state.lastSequence == 0 &&
      r.value.state.lastIdTimestamp > s.lastIdTimestamp &&
      r.value.next == FirstAbove(clock, s.lastIdTimestamp, at + 1) + 1 &&
      forall j :: at < j < r.value.next - 1 ==> clock[j] <= s.lastIdTimestamp
  {
    var current := clock[at];
    if current < s.lastIdTimestamp then
      Err(TimeRegression)
    else if current == s.lastIdTimestamp then
      var sequence := (s.lastSequence + 1) % 4096;
      if sequence == 0 then
        var k := FirstAbove(clock, s.lastIdTimestamp, at + 1);
        Ok(Issue(WorkerState(clock[k], 0), k + 1))
      else
        Ok(Issue(WorkerState(current, sequence), at + 1))
    else
      Ok(Issue(WorkerState(current, 0), at + 1))
  }

  /** (timestamp, sequence) pairs in lexicographic order. */
  predicate Before(a: WorkerState, b: WorkerState)
  {
    a.lastIdTimestamp < b.lastIdTimestamp ||
    (a.lastIdTimestamp == b.lastIdTimestamp && a.lastSequence < b.lastSequence)
  }

  lemma BeforeTransitive(a: WorkerState, b: WorkerState, c: WorkerState)
    requires Before(a, b) && Before(b, c)
    ensures Before(a, c)
  {
  }

  /** A successful call moves a valid state strictly forward and keeps it valid;
      within one millisecond the sequence goes up by exactly one. */
  lemma AdvanceProgresses(s: WorkerState, clock: seq<Long>, at: nat)
    requires ValidState(s) && CanAdvance(s, clock, at)
    requires Advance(s, clock, at).Ok?
    ensures var t := Advance(s, clock, at).value.state;
      ValidState(t) && Before(s, t) &&
      (t.lastIdTimestamp == s.lastIdTimestamp ==> t.lastSequence == s.lastSequence + 1)
  {
    var t := Advance(s, clock, at).value.state;
    if clock[at] == s.lastIdTimestamp && (s.lastSequence + 1) % 4096 != 0 {
      assert s.lastSequence < 4095 by {
        if s.lastSequence == 4095 {
          DivModUnique(s.lastSequence + 1, 4096, 1, 0);
        }
      }
      DivModUnique(s.lastSequence + 1, 4096, 0, s.lastSequence + 1);
      assert t.lastSequence == s.lastSequence + 1;
    }
  }

  /** The first call on a fresh worker issues sequence 0 at the time it reads. */
  lemma FirstCallStartsAtZero(clock: seq<Long>, at: nat)
    requires at < |clock| && clock[at] > MIN_VALUE
    ensures CanAdvance(Initial, clock, at)
    ensures Advance(Initial, clock, at) == Ok(Issue(WorkerState(clock[at], 0), at + 1))
  {
  }

  /** `calls` consecutive calls starting at position `at` find every reading they need. */
  predicate Feasible(s: WorkerState, clock: seq<Long>, at: nat, calls: nat)
    decreases calls
  {
    calls == 0 ||
    (CanAdvance(s, clock, at) &&
     match Advance(s, clock, at)
     case Err(_) => Feasible(s, clock, at + 1, calls - 1)
     case Ok(issue) => Feasible(issue.state, clock, issue.next, calls - 1))
  }

  /** The states after each successful call among `calls` consecutive calls; a
      call that fails leaves the state as it was and issues nothing. */
  function Issued(s: WorkerState, clock: seq<Long>, at: nat, calls: nat): seq<WorkerState>
    requires Feasible(s, clock, at, calls)
    decreases calls
  {
    if calls == 0 then []
    else
      match Advance(s, clock, at)
      case Err(_) => Issued(s, clock, at + 1, calls - 1)
      case Ok(issue) => [issue.state] + Issued(issue.state, clock, issue.next, calls - 1)
  }

  /** Every state in `issued` is valid and comes after s. */
  predicate AllValidAfter(s: WorkerState, issued: seq<WorkerState>)
  {
    forall i :: 0 <= i < |issued| ==> ValidState(issued[i]) && Before(s, issued[i])
  }

  predicate StrictlyIncreasing(issued: seq<WorkerState>)
  {
    forall i, j :: 0 <= i < j < |issued| ==> Before(issued[i], issued[j])
  }

  /** Over any run of calls, the issued (timestamp, sequence) pairs are valid and
      strictly increasing, so no two of them are equal. */
  lemma {:induction false} IssuedIncreasing(s: WorkerState, clock: seq<Long>, at: nat, calls: nat)
    requires ValidState(s) && Feasible(s, clock, at, calls)
    ensures AllValidAfter(s, Issued(s, clock, at, calls))
    ensures StrictlyIncreasing(Issued(s, clock, at, calls))
    decreases calls
  {
    if calls > 0 {
      var r := Advance(s, clock, at);
      if r.Err? {
        IssuedIncreasing(s, clock, at + 1, calls - 1);
        assert Issued(s, clock, at, calls) == Issued(s, clock, at + 1, calls - 1);
      } else {
        var issue := r.value;
        AdvanceProgresses(s, clock, at);
        assert Before(s, issue.state) && ValidState(issue.state);
        IssuedIncreasing(issue.state, clock, issue.next, calls - 1);
        var rest := Issued(issue.state, clock, issue.next, calls - 1);
        var issued := Issued(s, clock, at, calls);
        assert issued == [issue.state] + rest;
        assert forall k :: 0 <= k < |rest| ==> Before(issue.state, rest[k]);
        forall i | 0 < i < |issued|
          ensures issued[i] == rest[i - 1] && Before(s, issued[i])
        {
          BeforeTransitive(s, issue.state, rest[i - 1]);
        }
      }
    }
  }

  /** The identifier a worker with these settings packs for state s. */
  function IdFor(startTimestamp: Long, datacenterId: Long, machineId: Long, s: WorkerState): Long
  {
    Pack(Sub(s.lastIdTimestamp, startTimestamp), datacenterId, machineId, s.lastSequence)
  }

  /** The timestamp lies in the 41-bit window after the start timestamp. */
  predicate InWindow(startTimestamp: Long, s: WorkerState)
  {
    0 <= s.lastIdTimestamp - startTimestamp < Pow2(TIME_LEN)
  }

  /** The identifier carries the state it was issued in: its fields read back
      as the timestamp's offset from the start, the node ids and the sequence. */
  lemma IdForFields(startTimestamp: Long, datacenterId: Long, machineId: Long, s: WorkerState)
    requires 0 <= datacenterId <= MAX_DATA_CENTER_COUNT && 0 <= machineId <= MAX_MACHINE_NODE
    requires ValidState(s) && InWindow(startTimestamp, s)
    ensures var id := IdFor(startTimestamp, datacenterId, machineId, s);
      0 <= id &&
      TimestampOf(id) == s.lastIdTimestamp - startTimestamp &&
      DatacenterOf(id) == datacenterId && MachineOf(id) == machineId &&
      SequenceOf(id) == s.lastSequence
  {
    LayoutConstants();
    var delta := s.lastIdTimestamp - startTimestamp;
    assert Sub(s.lastIdTimestamp, startTimestamp) == delta;
    PackIsSum(delta, datacenterId, machineId, s.lastSequence);
    PackRoundTrip(delta, datacenterId, machineId, s.lastSequence);
  }

  /** For one node, identifiers follow the order of their (timestamp, sequence) pairs. */
  lemma IdForOrdered(startTimestamp: Long, datacenterId: Long, machineId: Long, a: WorkerState, b: WorkerState)
    requires 0 <= datacenterId <= MAX_DATA_CENTER_COUNT && 0 <= machineId <= MAX_MACHINE_NODE
    requires ValidState(a) && ValidState(b)
    requires InWindow(startTimestamp, a) && InWindow(startTimestamp, b)
    requires Before(a, b)
    ensures IdFor(startTimestamp, datacenterId, machineId, a) < IdFor(startTimestamp, datacenterId, machineId, b)
  {
    LayoutConstants();
    var deltaA := a.lastIdTimestamp - startTimestamp;
    var deltaB := b.lastIdTimestamp - startTimestamp;
    assert Sub(a.lastIdTimestamp, startTimestamp) == deltaA;
    assert Sub(b.lastIdTimestamp, startTimestamp) == deltaB;
    PackOrdered(datacenterId, machineId, deltaA, a.lastSequence, deltaB, b.lastSequence);
  }

  predicate AllInWindow(startTimestamp: Long, issued: seq<WorkerState>)
  {
    forall i :: 0 <= i < |issued| ==> InWindow(startTimestamp, issued[i])
  }

  /** The identifiers packed for `issued` strictly increase. */
  predicate IdsIncreasing(startTimestamp: Long, datacenterId: Long, machineId: Long, issued: seq<WorkerState>)
  {
    forall i, j :: 0 <= i < j < |issued| ==>
      IdFor(startTimestamp, datacenterId, machineId, issued[i]) <
      IdFor(startTimestamp, datacenterId, machineId, issued[j])
  }

  /** Per-worker uniqueness: with in-range node ids and timestamps inside the
      41-bit window, the identifiers of a run of calls strictly increase, so
      they are pairwise distinct. */
  lemma IssuedIdsIncreasing(startTimestamp: Long, datacenterId: Long, machineId: Long,
                            s: WorkerState, clock: seq<Long>, at: nat, calls: nat)
    requires ValidState(s) && Feasible(s, clock, at, calls)
    requires 0 <= datacenterId <= MAX_DATA_CENTER_COUNT && 0 <= machineId <= MAX_MACHINE_NODE
    requires AllInWindow(startTimestamp, Issued(s, clock, at, calls))
    ensures IdsIncreasing(startTimestamp, datacenterId, machineId, Issued(s, clock, at, calls))
  {
    var issued := Issued(s, clock, at, calls);
    IssuedIncreasing(s, clock, at, calls);
    forall i, j | 0 <= i < j < |issued|
      ensures IdFor(startTimestamp, datacenterId, machineId, issued[i]) <
              IdFor(startTimestamp, datacenterId, machineId, issued[j])
    {
      IdForOrdered(startTimestamp, datacenterId, machineId, issued[i], issued[j]);
    }
  }
}
