# Snowflake identifier worker, modelled in Dafny

This project models `SnowflakeIdWorker`, a C# generator of 63-bit "snowflake"
identifiers. Each identifier packs four fields into a non-negative `long`:
- 41 bits of milliseconds since a start timestamp;
- 5 bits of datacenter id;
- 5 bits of machine id;
- 12 bits of per-millisecond sequence.

A worker remembers the millisecond and the sequence of the last identifier it
issued. On each call of `NextId` it does the following:
- it reads the clock;
- it rejects a clock that went backwards;
- within the same millisecond, it bumps the sequence modulo 4096;
- in a new millisecond, it restarts the sequence at 0;
- when a millisecond's 4096 sequence numbers are used up, it spins until the clock shows a later millisecond.

The modules:

- `Int64` (`int64.dfy`) models C#'s `long`: unchecked arithmetic wraps modulo 2^64.
  - `|`, `&` and `~` act on the 64-bit two's-complement pattern.
  - `<<` keeps the low 64 bits.
  - `>>` is the arithmetic shift.
  - `/` truncates toward zero.
  - Lemmas prove when these agree with plain arithmetic: an or of disjoint bit ranges is a sum, and a low mask is a remainder.
- `Layout` (`layout.dfy`) holds the field widths, the shift distances and the field maxima.
  - It also holds the packing expression of `NextId` and the shift-and-mask extractors of each field.
  - Lemmas prove that in-range fields occupy disjoint bits and that the identifier is non-negative.
  - They also prove that every field reads back, that packing is injective, and that it is ordered for one node.
- `Clock` (`clock.dfy`) converts `DateTime` ticks to milliseconds since the Unix epoch.
  - `SystemClock` stands for `DateTime.UtcNow`. It hands out a fixed list of tick readings, one per query.
- `Sequencing` (`sequencing.dfy`) is the per-call state machine as a function, `Advance`.
  - Its input is the worker's (last timestamp, last sequence) state and the list of millisecond readings.
  - It returns the new state and how many readings the call consumed, or the `TimeRegression` error.
  - Over any run of calls (`Issued`), it proves that the issued (timestamp, sequence) pairs are valid and strictly increasing. So are the identifiers, when the node ids are in [0, 31] and every issued timestamp lies in [start, start + 2^41) ms.
- `Worker` (`worker.dfy`) is the class `SnowflakeIdWorker`.
  - It has its fields, its two constructors, `GetSystemTimestamp` and the spin loop `SpinWaitNextMillisecond`.
  - `NextId` updates the fields in place. It is proved to do exactly what `Sequencing.Advance` says.

`GetDatacenterId` and `GetMachineId` do not range-check a non-negative id
(`IDWorker/SnowflakeIdWorker.cs:140,150`); only a negative id is replaced by a
random value in [0, 31].
- `Worker.GetNodeId` passes a non-negative id through unchanged, as the code does.
- `Layout.DatacenterOverflowCollides` shows the consequence: datacenter id 32 spills into the timestamp field.
- The uniqueness lemmas therefore require node ids in [0, 31].

## Model

| member | source | states |
|---|---|---|
| Int64.Wrap | IDWorker/SnowflakeIdWorker.cs:235 | unchecked `long` arithmetic leaves a value in the `long` range unchanged; `WrapCongruent` and `WrapUnique` give the general case |
| Int64.WrapCongruent | IDWorker/SnowflakeIdWorker.cs:235 | the wrapped result is congruent to the mathematical value modulo 2^64, as unchecked C# arithmetic is |
| Int64.WrapUnique | IDWorker/SnowflakeIdWorker.cs:235 | the wrapped result is the only `long` congruent to the mathematical value modulo 2^64, so Wrap is fully determined |
| Int64.Or | IDWorker/SnowflakeIdWorker.cs:235 | C# `long` or, taken bit by bit on the 64-bit two's-complement patterns; `OrOfDisjoint` proves it adds disjoint bit ranges |
| Int64.And | IDWorker/SnowflakeIdWorker.cs:215 | C# `long` and, bit by bit on the 64-bit patterns; `AndLowMask` proves a low mask takes the remainder |
| Int64.Not | IDWorker/SnowflakeIdWorker.cs:68-78 | C# `~` flips all 64 bits; `NotShiftedMinusOne` evaluates the field maxima with it |
| Int64.ShiftLeft | IDWorker/SnowflakeIdWorker.cs:235 | C# `<<` on `long` keeps the low 64 bits of x * 2^k; `PackIsSum` and `NotShiftedMinusOne` use it on the fields and on -1 |
| Int64.ShiftRight | IDWorker/SnowflakeIdWorker.cs:9-14 | C# `>>` on `long`, rounding toward minus infinity; it reads the fields back in `PackRoundTrip` |
| Int64.Sub | IDWorker/SnowflakeIdWorker.cs:235 | the unchecked `currentTimestamp - _startTimestamp`; `IdForFields` proves it is the plain difference inside the 2^41 ms window |
| Int64.Div | IDWorker/SnowflakeIdWorker.cs:163 | `/` on `long` with a positive divisor truncates toward zero: the quotient brackets the dividend from below for non-negative and from above for negative dividends |
| Int64.OrOfDisjoint | IDWorker/SnowflakeIdWorker.cs:235 | the bitwise or of x and y is x + y when x is a multiple of 2^k and 0 <= y < 2^k, their sum a non-negative `long` |
| Int64.AndLowMask | IDWorker/SnowflakeIdWorker.cs:215 | `(2^k - 1) & x` is x mod 2^k for every `long` x, negative ones included, when 2^k <= 2^63 |
| Layout.LayoutConstants | IDWorker/SnowflakeIdWorker.cs:24-78 | the shifts are 22, 17 and 12; the widths 41+5+5+12 sum to 63; each maximum is 2^width - 1 (4095, 31, 31); the time field spans 2^41 values |
| Layout.MaxFieldValues | IDWorker/SnowflakeIdWorker.cs:68-78 | `~(-1 << len)` evaluates to 4095 for the sequence and 31 for each node id |
| Layout.NotShiftedMinusOne | IDWorker/SnowflakeIdWorker.cs:68 | `~(-1 << len)` is 2^len - 1 for every width below 63 |
| Layout.Pack | IDWorker/SnowflakeIdWorker.cs:235 | the packing expression with unchecked fields; `PackIsSum`, `PackRoundTrip`, `PackInjective` and `PackOrdered` state what it yields for in-range fields, `DatacenterOverflowCollides` what it yields outside them |
| Layout.TimestampOf | IDWorker/SnowflakeIdWorker.cs:9-14 | the 41 bits of timestamp delta read back by shifting; `PackRoundTrip` proves it recovers the packed delta |
| Layout.DatacenterOf | IDWorker/SnowflakeIdWorker.cs:9-14 | the 5 datacenter bits read back by shifting and masking; `PackRoundTrip` proves it recovers the packed id |
| Layout.MachineOf | IDWorker/SnowflakeIdWorker.cs:9-14 | the 5 machine bits read back by shifting and masking; `PackRoundTrip` proves it recovers the packed id |
| Layout.SequenceOf | IDWorker/SnowflakeIdWorker.cs:9-14 | the 12 sequence bits read back by masking; `PackRoundTrip` proves it recovers the packed sequence |
| Layout.PackIsSum | IDWorker/SnowflakeIdWorker.cs:235 | with every field in range the four shifted fields occupy disjoint bits: the or is the sum delta*2^22 + dc*2^17 + m*2^12 + seq, and the id lies in [0, 2^63) |
| Layout.PackRoundTrip | IDWorker/SnowflakeIdWorker.cs:9-14 | shifting and masking an in-range identifier recovers its timestamp delta, datacenter id, machine id and sequence |
| Layout.PackInjective | IDWorker/SnowflakeIdWorker.cs:9-14 | distinct in-range field tuples give distinct identifiers |
| Layout.PackOrdered | IDWorker/SnowflakeIdWorker.cs:235 | for one node, identifiers are ordered as their (delta, sequence) pairs are ordered lexicographically |
| Layout.DatacenterOverflowCollides | IDWorker/SnowflakeIdWorker.cs:138-141 | the unchecked datacenter id 32 packs to the same identifier as datacenter 0 one millisecond later |
| Clock.GetTimestamp | IDWorker/SnowflakeIdWorker.cs:166-169 | `(ticks - 621355968000000000) / 10000` is the whole number of milliseconds between the Unix epoch and the ticks, rounded toward zero |
| Clock.GetTimestampMonotone | IDWorker/SnowflakeIdWorker.cs:163 | a later tick reading never converts to an earlier millisecond |
| Clock.GetTimestampOfMillisecond | IDWorker.Test/UnitTest1.cs:40-47 | every tick less than a millisecond from ms * 10000 ticks past the epoch, on the side away from the epoch, converts to ms; for ms = 0 that includes the ticks just before the epoch, since the division truncates toward zero |
| Clock.GetTimestampAboveMin | IDWorker/SnowflakeIdWorker.cs:91 | no reading converts to `long.MinValue`, the initial last timestamp |
| Clock.SystemClock.UtcNowTicks | IDWorker/SnowflakeIdWorker.cs:163 | each query of the clock returns the next reading and consumes it |
| Sequencing.NextSequence | IDWorker/SnowflakeIdWorker.cs:215 | `MAX_SEQUENCE & (sequence + 1)` is (sequence + 1) mod 4096, in [0, 4095], for every `long` including `long.MaxValue` |
| Sequencing.WrapSuccessorLowBits | IDWorker/SnowflakeIdWorker.cs:215 | the wrap-around of `sequence + 1` keeps its value modulo 4096 |
| Sequencing.FirstAbove | IDWorker/SnowflakeIdWorker.cs:177-186 | the reading the spin loop stops at is above the timestamp, and every reading it skips is at or below it |
| Sequencing.FirstAboveUnique | IDWorker/SnowflakeIdWorker.cs:180 | any position with a reading above the timestamp and none before it is the one the spin loop stops at |
| Sequencing.Advance | IDWorker/SnowflakeIdWorker.cs:203-232 | a call fails exactly when the reading is below the last timestamp. A later reading restarts the sequence at 0. An equal reading takes sequence (last sequence + 1) mod 4096; when that is 0 it takes the first later reading above the last timestamp instead, skipping none above it, with sequence 0. The kept timestamp is the last reading taken and never decreases |
| Sequencing.AdvanceProgresses | IDWorker/SnowflakeIdWorker.cs:212-232 | a successful call keeps the sequence in [0, 4095], moves the (timestamp, sequence) pair strictly forward, and within one millisecond raises the sequence by exactly one |
| Sequencing.FirstCallStartsAtZero | IDWorker/SnowflakeIdWorker.cs:225-229 | on a fresh worker (last timestamp `long.MinValue`, sequence 0) the first call succeeds with sequence 0 at the time it reads |
| Sequencing.IssuedIncreasing | IDWorker/SnowflakeIdWorker.cs:206-232 | over any run of calls, failed ones included, every issued (timestamp, sequence) pair is valid, comes after the start state, and the pairs strictly increase |
| Sequencing.IdFor | IDWorker/SnowflakeIdWorker.cs:235 | the identifier returned for a state: the unchecked difference from the start timestamp packed with the node ids and the sequence; `IdForFields` and `IdForOrdered` state its fields and its order |
| Sequencing.IdForFields | IDWorker/SnowflakeIdWorker.cs:232-235 | an issued identifier is non-negative and its fields read back as the kept timestamp minus the start, the node ids and the sequence |
| Sequencing.IdForOrdered | IDWorker/SnowflakeIdWorker.cs:235 | for one node, a later (timestamp, sequence) pair packs to a larger identifier |
| Sequencing.IssuedIdsIncreasing | IDWorker.Test/UnitTest1.cs:50-95 | with in-range node ids and timestamps within 2^41 ms of the start, the identifiers of any run of calls strictly increase, so they are pairwise distinct |
| Worker.GetNodeId | IDWorker/SnowflakeIdWorker.cs:138-151 | a non-negative id is kept unchanged and a negative one becomes the random value; the result is never negative, and it is at most the field maximum exactly when the given id is |
| Worker.SnowflakeIdWorker.constructor | IDWorker/SnowflakeIdWorker.cs:125-130 | the worker starts with the given start timestamp, the resolved node ids (both -1, a request for a random id, by default), last timestamp `long.MinValue` and sequence 0 |
| Worker.SnowflakeIdWorker.FromStartTime | IDWorker/SnowflakeIdWorker.cs:120-123 | as the constructor above, with the start timestamp converted from the start time's ticks |
| Worker.SnowflakeIdWorker.GetSystemTimestamp | IDWorker/SnowflakeIdWorker.cs:158-164 | returns the next clock reading converted to milliseconds |
| Worker.SnowflakeIdWorker.SpinWaitNextMillisecond | IDWorker/SnowflakeIdWorker.cs:177-186 | the loop reads the clock until the first reading above the timestamp and returns that reading |
| Worker.SnowflakeIdWorker.NextId | IDWorker/SnowflakeIdWorker.cs:198-237 | on a regression it returns the error and leaves the timestamp and sequence unchanged. Otherwise the fields become `Advance`'s new state and the result is the identifier packed from it, so the id's timestamp is the new last timestamp. The sequence stays in [0, 4095] |

## Left out

- The `lock` on a static object (`IDWorker/SnowflakeIdWorker.cs:117,200`) only serialises concurrent callers. `NextId` is modelled as one atomic step.
- `DateTime.UtcNow` is replaced by `SystemClock`, a fixed list of tick readings handed out in order. `NextId` and `SpinWaitNextMillisecond` require that the readings they will consume exist. The real clock is unbounded, so the spin loop's termination rests on time eventually passing.
- `DateTime.ToUniversalTime()` in `GetTimestamp(DateTime)` is left out: time zones are a foreign library. The start time is given as UTC ticks.
- `new Random().Next(0, max + 1)` is replaced by a parameter constrained to [0, max].
- `TimeRegressionException` (`IDWorker/TimeRegressionException.cs`) and its message are modelled as the error value `Err(TimeRegression)`.
- The `IIDWorker` interface is not part of this model.
- The layout constants are C# `int` in the source. Their values are the same as the `long` values used here, so the model computes the maxima on `long`.
- The unit tests' thread pool, console output and hash set are not modelled. Their uniqueness assertion is stated as `Sequencing.IssuedIdsIncreasing`.
- Sequencing.IssuedIdsIncreasing: it requires node ids in [0, 31] and timestamps within 2^41 ms of the start. The source checks neither, and outside those bounds identifiers can collide (`Layout.DatacenterOverflowCollides`).
