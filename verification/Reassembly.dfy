/** The receiving application: reading data packets, counting what was lost, and putting the
    file together (src/packets.c, built without APPLICATION_LAYER_DEBUG_MODE). */
module Reassembly {
  import opened Bits
  import opened Codes
  import opened Packets
  import ControlPacket

  /** The expected packet number, and the statistics. */
  datatype Counters = Counters(sequence: nat, lost: nat, duplicated: nat)

  /** The length announced in a data packet. */
  function DataLength(buffer: seq<Byte>): nat
    requires |buffer| >= DATA_HEADER_SIZE
  {
    buffer[2] as int * 256 + buffer[3] as int
  }

  /** A receive buffer holding a data packet some sender made: its length field stays inside the
      buffer, and its number is a remainder modulo 255. */
  predicate Readable(buffer: seq<Byte>) {
    && |buffer| >= DATA_HEADER_SIZE && |buffer| >= DATA_HEADER_SIZE + DataLength(buffer)
    && buffer[1] < SEQUENCE_MODULUS
  }

  /** The counters after a data packet carrying number `received`. */
  function Account(c: Counters, received: nat): Counters {
    var expected := c.sequence % SEQUENCE_MODULUS;
    if received == expected then c
    else if received > expected then
      c.(sequence := c.sequence + (received - expected), lost := c.lost + (received - expected))
    else c.(duplicated := c.duplicated + 1, sequence := expected)
  }

  /** parse_data_packet; the counters are the number and the two global statistics. */
  class Statistics {
    var lostPackets: nat
    var duplicatedPackets: nat

    constructor ()
      ensures lostPackets == duplicatedPackets == 0
    {
      lostPackets, duplicatedPackets := 0, 0;
    }

    function Snapshot(sequence: nat): Counters
      reads this
    {
      Counters(sequence, lostPackets, duplicatedPackets)
    }

    /** The catch-up loop terminates for every number below 255 and adds exactly the difference. */
    method ParseDataPacket(buffer: seq<Byte>, sequenceNumber: nat) returns (data: seq<Byte>, sequence: nat)
      requires Readable(buffer)
      modifies this
      ensures data == buffer[DATA_HEADER_SIZE..DATA_HEADER_SIZE + DataLength(buffer)]
      ensures Snapshot(sequence) == Account(old(Snapshot(sequenceNumber)), buffer[1])
    {
      var dataSize := buffer[2] as int * 256 + buffer[3] as int;
      data := buffer[DATA_HEADER_SIZE..DATA_HEADER_SIZE + dataSize];
      var received := buffer[1];
      var expected := sequenceNumber % SEQUENCE_MODULUS;
      sequence := sequenceNumber;
      if received != expected {
        if received > expected {
          ghost var steps := 0;
          while sequence % SEQUENCE_MODULUS != received
            invariant sequence == sequenceNumber + steps && lostPackets == old(lostPackets) + steps
            invariant 0 <= steps <= received - expected
            invariant sequence % SEQUENCE_MODULUS == expected + steps
            invariant duplicatedPackets == old(duplicatedPackets)
            decreases received - expected - steps
          {
            sequence := sequence + 1;
            lostPackets := lostPackets + 1;
            steps := steps + 1;
          }
        } else {
          duplicatedPackets := duplicatedPackets + 1;
          sequence := expected;
        }
      }
    }
  }

  /** One delivery counts right, so that the next number expected is the one after it, exactly
      when no multiple of 255 lies between the number expected and the one delivered. */
  lemma DeliveryCountsIff(c: Counters, n: nat)
    requires n >= c.sequence
    ensures Account(c, n % SEQUENCE_MODULUS).sequence == n <==> n / SEQUENCE_MODULUS == c.sequence / SEQUENCE_MODULUS
    ensures n / SEQUENCE_MODULUS == c.sequence / SEQUENCE_MODULUS ==>
              Account(c, n % SEQUENCE_MODULUS).lost == c.lost + (n - c.sequence)
  {}

  /** The counters after delivering the packets numbered `numbers`, each followed by the increment
      in receive_data_packets. */
  function Deliver(c: Counters, numbers: seq<nat>): Counters
    decreases |numbers|
  {
    if numbers == [] then c
    else
      var d := Account(c, numbers[0] % SEQUENCE_MODULUS);
      Deliver(d.(sequence := d.sequence + 1), numbers[1..])
  }

  /** Increasing numbers from `next` on, with no gap across a multiple of 255. */
  predicate SmallGaps(next: nat, numbers: seq<nat>)
    decreases |numbers|
  {
    numbers == []
    || (numbers[0] >= next && numbers[0] / SEQUENCE_MODULUS == next / SEQUENCE_MODULUS
        && SmallGaps(numbers[0] + 1, numbers[1..]))
  }

  /** Every delivery of an increasing run counts right. */
  predicate CountedRight(c: Counters, numbers: seq<nat>)
    decreases |numbers|
  {
    numbers == []
    || (var d := Account(c, numbers[0] % SEQUENCE_MODULUS);
        && d.sequence == numbers[0]
        && CountedRight(d.(sequence := d.sequence + 1), numbers[1..]))
  }

  predicate Increasing(next: nat, numbers: seq<nat>) {
    && (forall i :: 0 <= i < |numbers| ==> numbers[i] >= next)
    && (forall i, j :: 0 <= i < j < |numbers| ==> numbers[i] < numbers[j])
  }

  /** Over any increasing run the counting is right throughout exactly when no gap crosses a
      multiple of 255. */
  lemma {:induction false} CountedRightIff(c: Counters, numbers: seq<nat>)
    requires Increasing(c.sequence, numbers)
    ensures CountedRight(c, numbers) <==> SmallGaps(c.sequence, numbers)
    decreases |numbers|
  {
    if numbers != [] {
      DeliveryCountsIff(c, numbers[0]);
      var d := Account(c, numbers[0] % SEQUENCE_MODULUS);
      if d.sequence == numbers[0] {
        CountedRightIff(d.(sequence := d.sequence + 1), numbers[1..]);
      }
    }
  }

  /** Sequence accounting: over a run of such deliveries the counter ends behind the last packet,
      nothing counts as duplicated, and delivered and lost packets add up. */
  lemma {:induction false} DeliveredPlusLost(c: Counters, numbers: seq<nat>)
    requires SmallGaps(c.sequence, numbers)
    ensures var d := Deliver(c, numbers);
            && d.sequence == (if numbers == [] then c.sequence else numbers[|numbers| - 1] + 1)
            && d.duplicated == c.duplicated
            && |numbers| + (d.lost - c.lost) == d.sequence - c.sequence
    decreases |numbers|
  {
    if numbers != [] {
      DeliveryCountsIff(c, numbers[0]);
      DeliveredPlusLost(Account(c, numbers[0] % SEQUENCE_MODULUS).(sequence := numbers[0] + 1), numbers[1..]);
    }
  }

  /** What the counters should be after the packets `numbers`, of which none came twice. */
  predicate TotalsRight(c: Counters, numbers: seq<nat>) {
    var d := Deliver(c, numbers);
    && d.sequence == (if numbers == [] then c.sequence else numbers[|numbers| - 1] + 1)
    && d.duplicated == c.duplicated
    && |numbers| + (d.lost - c.lost) == d.sequence - c.sequence
  }

  /** Over any increasing run the final counters are right exactly when no gap crosses a multiple
      of 255. */
  lemma {:induction false} TotalsRightIff(c: Counters, numbers: seq<nat>)
    requires Increasing(c.sequence, numbers)
    ensures TotalsRight(c, numbers) <==> SmallGaps(c.sequence, numbers)
    decreases |numbers|
  {
    if SmallGaps(c.sequence, numbers) {
      DeliveredPlusLost(c, numbers);
    } else {
      var n, rest := numbers[0], numbers[1..];
      var d := Account(c, n % SEQUENCE_MODULUS);
      DeliveryCountsIff(c, n);
      assert forall i :: 0 <= i < |rest| ==> rest[i] == numbers[i + 1];
      if d.sequence == n {
        TotalsRightIff(d.(sequence := n + 1), rest);
      } else if d.duplicated > c.duplicated {
        DuplicatesGrow(d.(sequence := d.sequence + 1), rest);
      } else {
        Behind(c.sequence, n);
        StaysBehind(d.(sequence := d.sequence + 1), n + 1, rest);
      }
    }
  }

  lemma {:induction false} DuplicatesGrow(c: Counters, numbers: seq<nat>)
    ensures Deliver(c, numbers).duplicated >= c.duplicated
    decreases |numbers|
  {
    if numbers != [] {
      var d := Account(c, numbers[0] % SEQUENCE_MODULUS);
      DuplicatesGrow(d.(sequence := d.sequence + 1), numbers[1..]);
    }
  }

  /** `s` lags behind `next` by one or more whole rounds of 255. */
  predicate Lags(s: nat, next: nat) {
    s + SEQUENCE_MODULUS <= next && s % SEQUENCE_MODULUS == next % SEQUENCE_MODULUS
  }

  /** Catching up from `s` to the remainder of a number `n` in a later round falls short. */
  lemma Behind(s: nat, n: nat)
    requires n / SEQUENCE_MODULUS > s / SEQUENCE_MODULUS && n % SEQUENCE_MODULUS >= s % SEQUENCE_MODULUS
    ensures Lags(s + (n % SEQUENCE_MODULUS - s % SEQUENCE_MODULUS) + 1, n + 1)
  {}

  lemma {:induction false} StaysBehind(c: Counters, next: nat, numbers: seq<nat>)
    requires Lags(c.sequence, next) && Increasing(next, numbers)
    ensures var d := Deliver(c, numbers);
            d.duplicated > c.duplicated || Lags(d.sequence, if numbers == [] then next else numbers[|numbers| - 1] + 1)
    decreases |numbers|
  {
    if numbers != [] {
      var n, rest := numbers[0], numbers[1..];
      var d := Account(c, n % SEQUENCE_MODULUS);
      assert forall i :: 0 <= i < |rest| ==> rest[i] == numbers[i + 1];
      if d.duplicated > c.duplicated {
        DuplicatesGrow(d.(sequence := d.sequence + 1), rest);
      } else {
        Behind(c.sequence, n);
        StaysBehind(d.(sequence := d.sequence + 1), n + 1, rest);
      }
    }
  }

  /** A number counted as duplicated can hide a crossing: here delivered and lost packets add up
      and the next number is right again. */
  lemma HiddenCrossing()
    ensures Increasing(254, [255, 256]) && !SmallGaps(254, [255, 256])
    ensures Deliver(Counters(254, 0, 0), [255, 256]) == Counters(257, 1, 1)
  {
    var numbers: seq<nat> := [255, 256];
    assert numbers[1..] == [256] && [256][1..] == [];
    assert Account(Counters(254, 0, 0), 0) == Counters(254, 0, 1);
    assert Account(Counters(255, 0, 1), 1) == Counters(256, 1, 1);
    assert Deliver(Counters(255, 0, 1), [256]) == Counters(257, 1, 1);
  }

  /** A number below the one expected counts as duplicated and throws all whole rounds of 255 out of
      the counter, which is so kept if and only if there were none. */
  lemma DuplicateFallsBack(c: Counters, received: nat)
    requires received < c.sequence % 255
    ensures Account(c, received) == Counters(c.sequence - 255 * (c.sequence / 255), c.lost, c.duplicated + 1)
    ensures Account(c, received).sequence == c.sequence <==> c.sequence < 255
  {}

  /** From the second round on such a crossing is never made good: with 509 expected, packets 510
      and 511 leave the counter at 257. */
  lemma LostRounds()
    ensures Increasing(509, [510, 511]) && !SmallGaps(509, [510, 511])
    ensures Deliver(Counters(509, 0, 0), [510, 511]) == Counters(257, 1, 1)
  {
    var numbers: seq<nat> := [510, 511];
    assert numbers[1..] == [511] && [511][1..] == [];
    assert Account(Counters(509, 0, 0), 0) == Counters(254, 0, 1);
    assert Account(Counters(255, 0, 1), 1) == Counters(256, 1, 1);
    assert Deliver(Counters(255, 0, 1), [511]) == Counters(257, 1, 1);
  }

  /** After `k` rounds the catch-up loop of parse_data_packet finds the number it waits for. */
  predicate CaughtUp(sequence: nat, k: nat, received: Byte) {
    (sequence + k) % SEQUENCE_MODULUS == received
  }

  /** The loop ends exactly for the numbers below 255. */
  lemma CatchUpEndsIff(sequence: nat, received: Byte)
    ensures (exists k: nat :: CaughtUp(sequence, k, received)) <==> received < SEQUENCE_MODULUS
  {
    if received < SEQUENCE_MODULUS {
      var k := (received + SEQUENCE_MODULUS - sequence % SEQUENCE_MODULUS) % SEQUENCE_MODULUS;
      assert CaughtUp(sequence, k, received);
    }
  }

  /** A sender's packet is readable and gives back its payload, whatever follows it in the buffer. */
  lemma ReadBack(number: nat, payload: seq<Byte>, buffer: seq<Byte>)
    requires |payload| < 65536 && DataPacket(number, payload) <= buffer
    ensures Readable(buffer) && buffer[0] == CONTROL_FIELD_DATA
    ensures buffer[1] == number % SEQUENCE_MODULUS && DataLength(buffer) == |payload|
    ensures buffer[DATA_HEADER_SIZE..DATA_HEADER_SIZE + DataLength(buffer)] == payload
  {
    var p := DataPacket(number, payload);
    assert forall i :: 0 <= i < |p| ==> buffer[i] == p[i];
    assert p[DATA_HEADER_SIZE..] == payload;
  }

  // ---------------------------------------------------------------------------
  // receive_data_packets

  /** What llread brings: an error, or a buffer with a received packet. */
  datatype Arrival = ReadFails | Packet(buffer: seq<Byte>)

  predicate Legible(a: Arrival) {
    a.Packet? ==> |a.buffer| >= ControlPacket.PARSE_CELLS
                  && (a.buffer[0] == CONTROL_FIELD_DATA ==> Readable(a.buffer))
  }

  /** receive_data_packet: -1, or the number of data bytes, which is 0 for an end packet. */
  function Take(a: Arrival, c: Counters): (r: (int, seq<Byte>, Counters))
    requires Legible(a)
    ensures r.0 == |r.1| || (r.0 == -1 && r.1 == [] && r.2 == c)
  {
    if a.ReadFails? then (-1, [], c)
    else if a.buffer[0] == CONTROL_FIELD_DATA then
      var k := DataLength(a.buffer);
      (k, a.buffer[DATA_HEADER_SIZE..DATA_HEADER_SIZE + k], Account(c, a.buffer[1]))
    else if a.buffer[0] == CONTROL_FIELD_END && ControlPacket.Parse(a.buffer).Some? then (0, [], c)
    else (-1, [], c)
  }

  /** Result of a reception: the return code, none while it still waits, what was written to the
      file, and the counters. */
  datatype Outcome = Outcome(ret: Option<int>, written: seq<Byte>, counters: Counters)

  function Collect(arrivals: seq<Arrival>, attempts: int, c: Counters): Outcome
    requires forall a :: a in arrivals ==> Legible(a)
    decreases |arrivals|
  {
    if attempts <= 0 then Outcome(Some(-1), [], c)
    else if arrivals == [] then Outcome(None, [], c)
    else
      var (r, data, d) := Take(arrivals[0], c);
      if r < 0 then Collect(arrivals[1..], attempts - 1, c)
      else if r == 0 then Outcome(Some(0), [], d.(sequence := d.sequence + 1))
      else
        var o := Collect(arrivals[1..], attempts, d.(sequence := d.sequence + 1));
        o.(written := data + o.written)
  }

  /** receive_data_packets on the packets that llread will bring; appends to `file`. */
  class FileReceiver {
    const statistics: Statistics
    var file: seq<Byte>
    var receivedFileBytes: nat

    constructor (statistics: Statistics)
      ensures this.statistics == statistics && file == [] && receivedFileBytes == 0
    {
      this.statistics, file, receivedFileBytes := statistics, [], 0;
    }

    /** Returns None when the packets run out while it still waits for more. */
    method ReceiveDataPackets(arrivals: seq<Arrival>, attempts: int) returns (ret: Option<int>)
      requires forall a :: a in arrivals ==> Legible(a)
      modifies this, statistics
      ensures var o := Collect(arrivals, attempts, old(statistics.Snapshot(0)));
              && ret == o.ret && file == old(file) + o.written
              && receivedFileBytes == old(receivedFileBytes) + |o.written|
              && statistics.lostPackets == o.counters.lost && statistics.duplicatedPackets == o.counters.duplicated
    {
      var returned, attemptsLeft, sequence, i := 1, attempts, 0, 0;
      ghost var goal := Collect(arrivals, attempts, statistics.Snapshot(0));
      assert arrivals[0..] == arrivals;
      while returned > 0 && attemptsLeft > 0
        invariant 0 <= i <= |arrivals| && returned >= 0
        invariant returned > 0 ==>
                    (var o := Collect(arrivals[i..], attemptsLeft, statistics.Snapshot(sequence));
                     && goal.ret == o.ret && old(file) + goal.written == file + o.written
                     && goal.counters == o.counters)
        invariant returned == 0 ==> attemptsLeft > 0 && goal.ret == Some(0) && old(file) + goal.written == file
                                    && goal.counters == statistics.Snapshot(sequence)
        invariant receivedFileBytes == old(receivedFileBytes) + |file| - |old(file)|
        decreases |arrivals| - i, returned
      {
        if i == |arrivals| {
          return None;
        }
        ghost var before := statistics.Snapshot(sequence);
        var data;
        returned, data, sequence := ReceiveDataPacket(arrivals[i], sequence);
        assert arrivals[i..][0] == arrivals[i] && arrivals[i..][1..] == arrivals[i + 1..];
        i := i + 1;
        if returned < 0 {
          attemptsLeft := attemptsLeft - 1;
          returned := 1;
        } else {
          sequence := sequence + 1;
          receivedFileBytes := receivedFileBytes + returned;
          file := file + data;
        }
      }
      return if attemptsLeft <= 0 then Some(-1) else Some(0);
    }

    /** receive_data_packet on what llread brought. */
    method ReceiveDataPacket(a: Arrival, sequenceNumber: nat) returns (r: int, data: seq<Byte>, sequence: nat)
      requires Legible(a)
      modifies statistics
      ensures (r, data, statistics.Snapshot(sequence)) == Take(a, old(statistics.Snapshot(sequenceNumber)))
    {
      if a.ReadFails? {
        return -1, [], sequenceNumber;
      }
      if a.buffer[0] == CONTROL_FIELD_DATA {
        data, sequence := statistics.ParseDataPacket(a.buffer, sequenceNumber);
        r := |data|;
      } else if a.buffer[0] == CONTROL_FIELD_END {
        r := if ControlPacket.Parse(a.buffer).Some? then 0 else -1;
        data, sequence := [], sequenceNumber;
      } else {
        return -1, [], sequenceNumber;
      }
    }
  }

  /** Receiving the expected data packet at the head of a buffer. */
  lemma TakeData(payload: seq<Byte>, a: Arrival, c: Counters)
    requires Legible(a) && a.Packet? && |payload| < 65536 && DataPacket(c.sequence, payload) <= a.buffer
    ensures Take(a, c) == (|payload|, payload, c)
  {
    ReadBack(c.sequence, payload, a.buffer);
  }

  /** The arrivals bring the packets of `payloads`, numbered from `first` on. */
  ghost predicate Bring(arrivals: seq<Arrival>, payloads: seq<seq<Byte>>, first: nat) {
    && |arrivals| >= |payloads| && (forall a :: a in arrivals ==> Legible(a))
    && forall i :: 0 <= i < |payloads| ==>
         && 0 < |payloads[i]| < 65536 && arrivals[i].Packet?
         && DataPacket(first + i, payloads[i]) <= arrivals[i].buffer
  }

  /** The first of them is received and the others remain. */
  lemma CollectOne(payloads: seq<seq<Byte>>, first: nat, arrivals: seq<Arrival>, attempts: int, c: Counters)
    requires Bring(arrivals, payloads, first) && payloads != [] && attempts > 0 && c.sequence == first
    ensures Bring(arrivals[1..], payloads[1..], first + 1)
    ensures var o := Collect(arrivals[1..], attempts, c.(sequence := first + 1));
            Collect(arrivals, attempts, c) == o.(written := payloads[0] + o.written)
  {
    assert DataPacket(first + 0, payloads[0]) <= arrivals[0].buffer;
    TakeData(payloads[0], arrivals[0], c);
    forall i | 0 <= i < |payloads| - 1
      ensures arrivals[1..][i].Packet? && DataPacket(first + 1 + i, payloads[1..][i]) <= arrivals[1..][i].buffer
    {
      assert payloads[1..][i] == payloads[i + 1] && arrivals[1..][i] == arrivals[i + 1];
      assert DataPacket(first + (i + 1), payloads[i + 1]) <= arrivals[i + 1].buffer;
    }
  }

  /** A receiver that gets packets numbered from `first` on, each with its payload at the head of
      its buffer, and then an end packet, writes exactly those payloads and loses nothing. */
  lemma {:induction false} CollectInOrder(payloads: seq<seq<Byte>>, first: nat, arrivals: seq<Arrival>,
                                          attempts: int, c: Counters)
    requires attempts > 0 && c.sequence == first
    requires Bring(arrivals, payloads, first) && |arrivals| == |payloads| + 1
    requires var e := arrivals[|payloads|];
             e.Packet? && |e.buffer| >= ControlPacket.PARSE_CELLS && e.buffer[0] == CONTROL_FIELD_END
             && ControlPacket.Parse(e.buffer).Some?
    ensures Collect(arrivals, attempts, c)
         == Outcome(Some(0), Concat(payloads), c.(sequence := first + |payloads| + 1))
    decreases |payloads|
  {
    if payloads != [] {
      CollectOne(payloads, first, arrivals, attempts, c);
      CollectInOrder(payloads[1..], first + 1, arrivals[1..], attempts, c.(sequence := first + 1));
    }
  }

  /** As long as no end packet has come, the receiver has written the payloads it got so far. */
  lemma {:induction false} CollectSoFar(payloads: seq<seq<Byte>>, first: nat, arrivals: seq<Arrival>,
                                        attempts: int, c: Counters)
    requires attempts > 0 && c.sequence == first
    requires Bring(arrivals, payloads, first) && |arrivals| == |payloads|
    ensures Collect(arrivals, attempts, c)
         == Outcome(None, Concat(payloads), c.(sequence := first + |payloads|))
    decreases |payloads|
  {
    if payloads != [] {
      CollectOne(payloads, first, arrivals, attempts, c);
      CollectSoFar(payloads[1..], first + 1, arrivals[1..], attempts, c.(sequence := first + 1));
    }
  }
}
