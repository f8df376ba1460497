/** SnowFlake: a 64-bit id generator that packs the milliseconds since a fixed epoch,
    a datacenter id, a worker id and a per-millisecond sequence number into one long.
    The system clock is an input: the readings timeGen would return, in order. */
module Snowflake {
  import opened Results

  /** The epoch ids count milliseconds from. The layout, from the low bits up: 12 bits
      of sequence, 5 of worker id, 5 of datacenter id, then the timestamp offset, so the
      shifts are 12, 17 and 22. */
  const Twepoch: int := 1038834974657

  /** maxWorkerId and maxDatacenterId, `-1 ^ (-1 << 5)`. */
  const MaxWorkerId: int := 31
  const MaxDatacenterId: int := 31
  /** sequenceMask, `-1 ^ (-1 << 12)`. */
  const SequenceMask: int := 4095

  /** Java's long. */
  type int64 = x: int | -0x8000_0000_0000_0000 <= x <= 0x7fff_ffff_ffff_ffff

  const AllOnes: bv64 := 0xffff_ffff_ffff_ffff

  /** The masks in the source are what the constants above say: `-1` is all ones in
      two's complement, and `-1 ^ (-1 << n)` keeps the low n bits. */
  lemma MasksAreLowBits()
    ensures AllOnes ^ (AllOnes << 5) == MaxWorkerId as bv64
    ensures AllOnes ^ (AllOnes << 5) == MaxDatacenterId as bv64
    ensures AllOnes ^ (AllOnes << 12) == SequenceMask as bv64
  {
  }

  /** `x & sequenceMask` is `x` modulo 4096 on the bits of a long. */
  lemma MaskIsModulo(x: bv64)
    ensures x & 0xfff == x % 0x1000
  {
  }

  /** Narrowing to long: keeps the low 64 bits, read as a two's-complement number. */
  function ToLong(x: int): (r: int64)
    ensures -0x8000_0000_0000_0000 <= x <= 0x7fff_ffff_ffff_ffff ==> r == x
    ensures (x - r) % 0x1_0000_0000_0000_0000 == 0
  {
    var m := x % 0x1_0000_0000_0000_0000;
    if m <= 0x7fff_ffff_ffff_ffff then m else m - 0x1_0000_0000_0000_0000
  }

  /** The id of nextId as bits: the four fields shifted into place and or-ed. */
  function IdBits(delta: bv64, datacenterId: bv64, workerId: bv64, sequence: bv64): bv64
  {
    (delta << 22) | (datacenterId << 17) | (workerId << 12) | sequence
  }

  /** The fields do not overlap, so or-ing them is adding them, shifting is
      multiplying, and each field comes back by shifting and masking. */
  lemma IdBitsLayout(delta: bv64, datacenterId: bv64, workerId: bv64, sequence: bv64)
    requires datacenterId <= 31 && workerId <= 31 && sequence <= 4095
    ensures IdBits(delta, datacenterId, workerId, sequence)
         == delta * 0x40_0000 + datacenterId * 0x2_0000 + workerId * 0x1000 + sequence
    ensures IdBits(delta, datacenterId, workerId, sequence) & 0xfff == sequence
    ensures (IdBits(delta, datacenterId, workerId, sequence) >> 12) & 31 == workerId
    ensures (IdBits(delta, datacenterId, workerId, sequence) >> 17) & 31 == datacenterId
    ensures IdBits(delta, datacenterId, workerId, sequence) >> 22 == delta & 0x3ff_ffff_ffff
  {
  }

  /** The id of nextId as the long it denotes: the fields placed by multiplication, the
      timestamp part wrapping like a 64-bit shift (IdBitsLayout). */
  function Id(timestamp: int, datacenterId: int, workerId: int, sequence: int): (r: int64)
    ensures (InRange(timestamp) && 0 <= datacenterId <= MaxDatacenterId && 0 <= workerId <= MaxWorkerId
             && 0 <= sequence <= SequenceMask) ==> 0 <= r
  {
    ToLong((timestamp - Twepoch) * 0x40_0000 + datacenterId * 0x2_0000 + workerId * 0x1000 + sequence)
  }

  /** Whether a timestamp is one whose offset from the epoch fits the 41 bits of the id
      left for it, so that the id is a non-negative long. */
  predicate InRange(timestamp: int)
  {
    0 <= timestamp - Twepoch < 0x200_0000_0000
  }

  /** Within the 41-bit range the fields come back out of the id. */
  lemma IdFields(timestamp: int, datacenterId: int, workerId: int, sequence: int)
    requires InRange(timestamp)
    requires 0 <= datacenterId <= MaxDatacenterId && 0 <= workerId <= MaxWorkerId && 0 <= sequence <= SequenceMask
    ensures var id := Id(timestamp, datacenterId, workerId, sequence);
      && 0 <= id
      && id % 0x1000 == sequence
      && (id / 0x1000) % 32 == workerId
      && (id / 0x2_0000) % 32 == datacenterId
      && id / 0x40_0000 == timestamp - Twepoch
  {
    var delta := timestamp - Twepoch;
    var node := delta * 32 + datacenterId;
    var upper := node * 32 + workerId;
    var x := upper * 0x1000 + sequence;
    assert x == delta * 0x40_0000 + datacenterId * 0x2_0000 + workerId * 0x1000 + sequence;
    assert 0 <= x <= 0x7fff_ffff_ffff_ffff;
    assert Id(timestamp, datacenterId, workerId, sequence) == x;
    assert x % 0x1000 == sequence && x / 0x1000 == upper;
    assert upper % 32 == workerId && upper / 32 == node;
    assert x / 0x2_0000 == node by {
      assert x == node * 0x2_0000 + (workerId * 0x1000 + sequence);
    }
    assert node % 32 == datacenterId;
    assert x / 0x40_0000 == delta by {
      assert x == delta * 0x40_0000 + (datacenterId * 0x2_0000 + workerId * 0x1000 + sequence);
    }
  }

  /** Ids of one generator order like (timestamp, sequence) pairs. */
  lemma IdOrder(t1: int, s1: int, t2: int, s2: int, datacenterId: int, workerId: int)
    requires InRange(t1) && InRange(t2)
    requires 0 <= datacenterId <= MaxDatacenterId && 0 <= workerId <= MaxWorkerId
    requires 0 <= s1 <= SequenceMask && 0 <= s2 <= SequenceMask
    requires t1 < t2 || (t1 == t2 && s1 < s2)
    ensures Id(t1, datacenterId, workerId, s1) < Id(t2, datacenterId, workerId, s2)
  {
    var node := datacenterId * 0x2_0000 + workerId * 0x1000;
    assert Id(t1, datacenterId, workerId, s1) == (t1 - Twepoch) * 0x40_0000 + node + s1;
    assert Id(t2, datacenterId, workerId, s2) == (t2 - Twepoch) * 0x40_0000 + node + s2;
    if t1 < t2 {
      assert (t1 - Twepoch) * 0x40_0000 + 0x40_0000 <= (t2 - Twepoch) * 0x40_0000;
    }
  }

  /** The index of the first reading after `last`. */
  function FirstAfter(last: int, clock: seq<int>): (k: nat)
    requires exists i :: 0 <= i < |clock| && clock[i] > last
    ensures k < |clock| && clock[k] > last
    ensures forall i :: 0 <= i < k ==> clock[i] <= last
  {
    if clock[0] > last then 0
    else
      assert exists i :: 0 <= i < |clock[1..]| && clock[1..][i] > last by {
        var i :| 0 <= i < |clock| && clock[i] > last;
        assert clock[1..][i - 1] == clock[i];
      }
      1 + FirstAfter(last, clock[1..])
  }

  /** tilNextMillis: reads the clock until it shows a time after `last` and returns that
      reading. The readings are those the loop would see, in order. */
  method TilNextMillis(last: int, clock: seq<int>) returns (timestamp: int)
    requires exists i :: 0 <= i < |clock| && clock[i] > last
    ensures timestamp > last
    ensures timestamp == clock[FirstAfter(last, clock)]
  {
    var k := 0;
    timestamp := clock[k];
    while timestamp <= last
      invariant 0 <= k <= FirstAfter(last, clock)
      invariant timestamp == clock[k]
      decreases FirstAfter(last, clock) - k
    {
      k := k + 1;
      timestamp := clock[k];
    }
  }

  class SnowFlake {
    const workerId: int
    const datacenterId: int
    var sequence: int
    var lastTimestamp: int

    /** Ids in range; once an id has been issued its sequence number is in [0, 4095]
        and its timestamp is a clock reading (not negative). */
    ghost predicate Valid()
      reads this
    {
      && 0 <= workerId <= MaxWorkerId
      && 0 <= datacenterId <= MaxDatacenterId
      && (lastTimestamp == -1 || (0 <= lastTimestamp && 0 <= sequence <= SequenceMask))
    }

    /** The id nextId returned last time, while one has been issued. */
    ghost function LastId(): int
      reads this
    {
      Id(lastTimestamp, datacenterId, workerId, sequence)
    }

    /** The private constructor, once its range checks have passed. The initial
        sequence is not checked; it is overwritten by the first nextId. */
    constructor (workerId: int64, datacenterId: int64, sequence: int64)
      requires 0 <= workerId <= MaxWorkerId && 0 <= datacenterId <= MaxDatacenterId
      ensures Valid()
      ensures this.workerId == workerId && this.datacenterId == datacenterId
      ensures this.sequence == sequence && lastTimestamp == -1
    {
      this.workerId := workerId;
      this.datacenterId := datacenterId;
      this.sequence := sequence;
      this.lastTimestamp := -1;
    }

    /** nextId. `clock` holds the readings timeGen returns from now on (milliseconds,
        not negative); some later reading must pass lastTimestamp when the sequence
        wraps.
        A reading below lastTimestamp fails with the number of milliseconds it is
        behind and changes nothing. Otherwise the same millisecond increments the
        sequence modulo 4096 (waiting for the next millisecond when it wraps to 0), a
        new one resets it to 0, and the id encodes the new timestamp and sequence. */
    method NextId(clock: seq<int>) returns (r: Result<int64, int>)
      requires Valid()
      requires |clock| > 0 && forall i :: 0 <= i < |clock| ==> clock[i] >= 0
      requires clock[0] == lastTimestamp && (sequence + 1) % 4096 == 0 ==>
                 exists i :: 0 <= i < |clock[1..]| && clock[1..][i] > lastTimestamp
      modifies this
      ensures Valid()
      ensures clock[0] < old(lastTimestamp) ==>
                r == Err(old(lastTimestamp) - clock[0]) && sequence == old(sequence) && lastTimestamp == old(lastTimestamp)
      ensures clock[0] >= old(lastTimestamp) ==>
                && r == Ok(Id(lastTimestamp, datacenterId, workerId, sequence))
                && sequence == (if clock[0] == old(lastTimestamp) then (old(sequence) + 1) % 4096 else 0)
                && lastTimestamp == (if clock[0] == old(lastTimestamp) && sequence == 0
                                     then clock[1 + FirstAfter(old(lastTimestamp), clock[1..])]
                                     else clock[0])
      ensures clock[0] >= old(lastTimestamp) && old(lastTimestamp) >= 0 && InRange(old(lastTimestamp)) && InRange(lastTimestamp) ==>
                r.value > old(LastId())
    {
      var timestamp := clock[0];
      if timestamp < lastTimestamp {
        return Err(lastTimestamp - timestamp);
      }
      ghost var previous := lastTimestamp;
      ghost var previousSequence := sequence;
      if lastTimestamp == timestamp {
        sequence := (sequence + 1) % 4096;
        if sequence == 0 {
          timestamp := TilNextMillis(lastTimestamp, clock[1..]);
        }
      } else {
        sequence := 0;
      }
      lastTimestamp := timestamp;
      if previous >= 0 && InRange(previous) && InRange(timestamp) {
        IdOrder(previous, previousSequence, timestamp, sequence, datacenterId, workerId);
      }
      return Ok(Id(timestamp, datacenterId, workerId, sequence));
    }
  }

  /** newInstance: the range checks of the constructor, None standing for the
      IllegalArgumentException. */
  method NewInstance(workerId: int64, datacenterId: int64, sequence: int64) returns (r: Option<SnowFlake>)
    ensures r.None? <==> !(0 <= workerId <= MaxWorkerId) || !(0 <= datacenterId <= MaxDatacenterId)
    ensures r.Some? ==>
              && fresh(r.value)
              && r.value.Valid()
              && r.value.lastTimestamp == -1
              && r.value.workerId == workerId
              && r.value.datacenterId == datacenterId
  {
    if workerId > MaxWorkerId || workerId < 0 {
      return None;
    }
    if datacenterId > MaxDatacenterId || datacenterId < 0 {
      return None;
    }
    var g := new SnowFlake(workerId, datacenterId, sequence);
    return Some(g);
  }
}
