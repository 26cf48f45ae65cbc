/** The bit layout of a snowflake identifier: a 63-bit non-negative `long`
    holding, from the most significant bit down, 41 bits of timestamp delta,
    5 bits of datacenter id, 5 bits of machine id and 12 bits of sequence. */
module Layout {
  import opened Int64

  const TIME_LEN: nat := 41
  const DATA_CENTER_LEN: nat := 5
  const MACHINE_LEN: nat := 5
  const SEQUENCE_LEN: nat := 12
  /** All fields together, the sign bit excluded. */
  const FULL_LEN: nat := 63

  const TIME_LEFT_BIT: nat := FULL_LEN - TIME_LEN
  const DATA_CENTER_LEFT_BIT: nat := TIME_LEFT_BIT - DATA_CENTER_LEN
  const MACHINE_LEFT_BIT: nat := DATA_CENTER_LEFT_BIT - MACHINE_LEN

  /** The largest value each field holds; `MaxFieldValues` proves each equal to
      the expression `~(-1 << len)` that computes it. */
  const MAX_SEQUENCE: Long := 4095
  const MAX_DATA_CENTER_COUNT: Long := 31
  const MAX_MACHINE_NODE: Long := 31

  lemma LayoutConstants()
    ensures TIME_LEFT_BIT == 22 && DATA_CENTER_LEFT_BIT == 17 && MACHINE_LEFT_BIT == 12
    ensures TIME_LEN + DATA_CENTER_LEN + MACHINE_LEN + SEQUENCE_LEN == FULL_LEN
    ensures MAX_SEQUENCE == Pow2(SEQUENCE_LEN) - 1
    ensures MAX_DATA_CENTER_COUNT == Pow2(DATA_CENTER_LEN) - 1
    ensures MAX_MACHINE_NODE == Pow2(MACHINE_LEN) - 1
    ensures Pow2(TIME_LEN) == 0x200_0000_0000
  {
    Pow2Values();
  }

  /** `~(-1 << len)` is `2^len - 1`, the all-ones pattern of len bits. */
  lemma NotShiftedMinusOne(len: nat)
    requires len < 63
    ensures Not(ShiftLeft(-1, len)) == Pow2(len) - 1
  {
    var p := Pow2(len);
    assert 1 <= p <= TWO_63 by {
      Pow2Monotone(len, 63);
      Pow2Values();
    }
    assert ShiftLeft(-1, len) == -p;
    assert Unsigned(-p) == TWO_64 - p;
  }

  lemma MaxFieldValues()
    ensures MAX_SEQUENCE == Not(ShiftLeft(-1, SEQUENCE_LEN))
    ensures MAX_DATA_CENTER_COUNT == Not(ShiftLeft(-1, DATA_CENTER_LEN))
    ensures MAX_MACHINE_NODE == Not(ShiftLeft(-1, MACHINE_LEN))
  {
    Pow2Values();
    NotShiftedMinusOne(SEQUENCE_LEN);
    NotShiftedMinusOne(DATA_CENTER_LEN);
  }

  /** The identifier `(delta << 22) | (datacenterId << 17) | (machineId << 12) | sequence`,
      with C#'s `long` semantics: nothing is range-checked, so an out-of-range
      field spills into its neighbours. */
  function Pack(delta: Long, datacenterId: Long, machineId: Long, sequence: Long): Long
  {
    Or(Or(Or(ShiftLeft(delta, TIME_LEFT_BIT), ShiftLeft(datacenterId, DATA_CENTER_LEFT_BIT)),
          ShiftLeft(machineId, MACHINE_LEFT_BIT)),
       sequence)
  }

  /** Each field fits its width. */
  predicate FieldsInRange(delta: Long, datacenterId: Long, machineId: Long, sequence: Long)
  {
    0 <= delta < Pow2(TIME_LEN) &&
    0 <= datacenterId <= MAX_DATA_CENTER_COUNT &&
    0 <= machineId <= MAX_MACHINE_NODE &&
    0 <= sequence <= MAX_SEQUENCE
  }

  /** The fields read back from an identifier by shifting and masking. */
  function TimestampOf(id: Long): Long
  {
    ShiftRight(id, TIME_LEFT_BIT)
  }

  function DatacenterOf(id: Long): Long
  {
    And(MAX_DATA_CENTER_COUNT, ShiftRight(id, DATA_CENTER_LEFT_BIT))
  }

  function MachineOf(id: Long): Long
  {
    And(MAX_MACHINE_NODE, ShiftRight(id, MACHINE_LEFT_BIT))
  }

  function SequenceOf(id: Long): Long
  {
    And(MAX_SEQUENCE, id)
  }

  /** With every field in range the fields occupy disjoint bits: the bitwise or
      is the plain sum, and the identifier is non-negative (the sign bit stays 0). */
  lemma PackIsSum(delta: Long, datacenterId: Long, machineId: Long, sequence: Long)
    requires FieldsInRange(delta, datacenterId, machineId, sequence)
    ensures Pack(delta, datacenterId, machineId, sequence)
         == delta * 0x40_0000 + datacenterId * 0x2_0000 + machineId * 0x1000 + sequence
    ensures 0 <= Pack(delta, datacenterId, machineId, sequence) < TWO_63
  {
    var t := ShiftLeft(delta, TIME_LEFT_BIT);
    var d := ShiftLeft(datacenterId, DATA_CENTER_LEFT_BIT);
    var m := ShiftLeft(machineId, MACHINE_LEFT_BIT);
    assert delta < 0x200_0000_0000 && datacenterId < 32 && machineId < 32 && sequence < 0x1000 by {
      LayoutConstants();
    }
    assert t == delta * 0x40_0000 && d == datacenterId * 0x2_0000 && m == machineId * 0x1000 by {
      LayoutConstants();
      Pow2Values();
    }
    OrFields(t, d, m, sequence, delta, datacenterId, machineId);
  }

  /** The or of the shifted in-range fields t, d and m and the sequence s, one
      disjoint pair at a time. */
  lemma OrFields(t: Long, d: Long, m: Long, s: Long, delta: nat, datacenterId: nat, machineId: nat)
    requires delta < 0x200_0000_0000 && datacenterId < 32 && machineId < 32 && 0 <= s < 0x1000
    requires t == delta * 0x40_0000 && d == datacenterId * 0x2_0000 && m == machineId * 0x1000
    ensures Or(Or(Or(t, d), m), s) == t + d + m + s
  {
    var high := delta * 32 + datacenterId;
    var higher := high * 32 + machineId;
    OrBelow(t, d, delta, 0x40_0000, 22);
    OrBelow(Or(t, d), m, high, 0x2_0000, 17);
    OrBelow(Or(Or(t, d), m), s, higher, 0x1000, 12);
  }

  /** `x | b` for x = a << k and b below bit k, at the three field boundaries of the layout. */
  lemma OrBelow(x: Long, b: Long, a: nat, p: nat, k: nat)
    requires (p, k) in {(0x40_0000, 22), (0x2_0000, 17), (0x1000, 12)}
    requires x == a * p && 0 <= b < p && x + b <= MAX_VALUE
    ensures Or(x, b) == x + b
  {
    assert p == Pow2(k) by {
      Pow2Values();
    }
    OrOfDisjoint(x, b, a, k, p);
  }

  /** Shifting and masking recovers every field of an in-range identifier. */
  lemma PackRoundTrip(delta: Long, datacenterId: Long, machineId: Long, sequence: Long)
    requires FieldsInRange(delta, datacenterId, machineId, sequence)
    ensures var id := Pack(delta, datacenterId, machineId, sequence);
      TimestampOf(id) == delta && DatacenterOf(id) == datacenterId &&
      MachineOf(id) == machineId && SequenceOf(id) == sequence
  {
    LayoutConstants();
    Pow2Values();
    PackIsSum(delta, datacenterId, machineId, sequence);
    var id := Pack(delta, datacenterId, machineId, sequence);
    var low := datacenterId * 0x2_0000 + machineId * 0x1000 + sequence;
    DivModUnique(id, 0x40_0000, delta, low);
    assert TimestampOf(id) == delta;
    DatacenterRoundTrip(id, delta, datacenterId, machineId * 0x1000 + sequence);
    MachineRoundTrip(id, delta * 32 + datacenterId, machineId, sequence);
    DivModUnique(id, 0x1000, delta * 1024 + datacenterId * 32 + machineId, sequence);
    AndLowMask(id, 12, 0x1000);
  }

  lemma DatacenterRoundTrip(id: Long, above: int, field: int, below: int)
    requires 0 <= above && 0 <= field < 32 && 0 <= below < 0x2_0000
    requires id == (above * 32 + field) * 0x2_0000 + below
    ensures DatacenterOf(id) == field
  {
    LayoutConstants();
    Pow2Values();
    var high := above * 32 + field;
    DivModUnique(id, 0x2_0000, high, below);
    assert ShiftRight(id, DATA_CENTER_LEFT_BIT) == high;
    AndLowMask(high, 5, 32);
    DivModUnique(high, 32, above, field);
  }

  lemma MachineRoundTrip(id: Long, above: int, field: int, below: int)
    requires 0 <= above && 0 <= field < 32 && 0 <= below < 0x1000
    requires id == (above * 32 + field) * 0x1000 + below
    ensures MachineOf(id) == field
  {
    LayoutConstants();
    Pow2Values();
    var high := above * 32 + field;
    DivModUnique(id, 0x1000, high, below);
    assert ShiftRight(id, MACHINE_LEFT_BIT) == high;
    AndLowMask(high, 5, 32);
    DivModUnique(high, 32, above, field);
  }

  /** Distinct in-range field tuples give distinct identifiers. */
  lemma PackInjective(delta1: Long, datacenterId1: Long, machineId1: Long, sequence1: Long,
                      delta2: Long, datacenterId2: Long, machineId2: Long, sequence2: Long)
    requires FieldsInRange(delta1, datacenterId1, machineId1, sequence1)
    requires FieldsInRange(delta2, datacenterId2, machineId2, sequence2)
    requires Pack(delta1, datacenterId1, machineId1, sequence1) == Pack(delta2, datacenterId2, machineId2, sequence2)
    ensures delta1 == delta2 && datacenterId1 == datacenterId2
    ensures machineId1 == machineId2 && sequence1 == sequence2
  {
    PackRoundTrip(delta1, datacenterId1, machineId1, sequence1);
    PackRoundTrip(delta2, datacenterId2, machineId2, sequence2);
  }

  /** For one node, identifiers are ordered as their (delta, sequence) pairs are. */
  lemma PackOrdered(datacenterId: Long, machineId: Long,
                    delta1: Long, sequence1: Long, delta2: Long, sequence2: Long)
    requires FieldsInRange(delta1, datacenterId, machineId, sequence1)
    requires FieldsInRange(delta2, datacenterId, machineId, sequence2)
    requires delta1 < delta2 || (delta1 == delta2 && sequence1 < sequence2)
    ensures Pack(delta1, datacenterId, machineId, sequence1) < Pack(delta2, datacenterId, machineId, sequence2)
  {
    LayoutConstants();
    PackIsSum(delta1, datacenterId, machineId, sequence1);
    PackIsSum(delta2, datacenterId, machineId, sequence2);
  }

  /** The datacenter id is not range-checked: 32 overflows into the timestamp
      field, and a node with datacenter id 32 issues the identifier that a node
      with datacenter id 0 issues one millisecond later. */
  lemma DatacenterOverflowCollides()
    ensures FieldsInRange(1, 0, 0, 0) && !FieldsInRange(0, 32, 0, 0)
    ensures Pack(0, 32, 0, 0) == Pack(1, 0, 0, 0)
  {
    LayoutConstants();
    PackDatacenter32();
    PackIsSum(1, 0, 0, 0);
  }

  /** Datacenter id 32 shifted by 17 lands on bit 22, the lowest timestamp bit. */
  lemma PackDatacenter32()
    ensures Pack(0, 32, 0, 0) == 0x40_0000
  {
    var t := ShiftLeft(0, TIME_LEFT_BIT);
    var d := ShiftLeft(32, DATA_CENTER_LEFT_BIT);
    var m := ShiftLeft(0, MACHINE_LEFT_BIT);
    assert t == 0 && d == 0x40_0000 && m == 0 by {
      LayoutConstants();
      Pow2Values();
    }
    assert Or(t, d) == 0x40_0000 by {
      assert Pow2(23) == 0x80_0000 by {
        Pow2Values();
      }
      OrOfDisjoint(t, d, 0, 23, 0x80_0000);
    }
    OrBelow(Or(t, d), m, 1, 0x40_0000, 22);
    OrBelow(Or(Or(t, d), m), 0, 1, 0x40_0000, 22);
  }

}
