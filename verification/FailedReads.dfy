/** Receiving data packets when some reads fail: where the reception ends, with which result, and
    what has been written then (src/packets.c). */
module FailedReads {
  import opened Bits
  import opened Codes
  import opened Packets
  import opened Reassembly
  import ControlPacket

  /** A failed read, a packet with a foreign control field, or an end packet that cannot be parsed. */
  predicate Failing(a: Arrival)
    requires Legible(a)
  {
    || a.ReadFails?
    || (a.buffer[0] != 1 && a.buffer[0] != 3)
    || (a.buffer[0] == 3 && ControlPacket.Parse(a.buffer) == None)
  }

  /** An end packet, or a data packet without data, which the code cannot tell from one. */
  predicate Ending(a: Arrival)
    requires Legible(a)
  {
    a.Packet? && !Failing(a) && (a.buffer[0] == 1 ==> DataLength(a.buffer) == 0)
  }

  predicate AllLegible(arrivals: seq<Arrival>) {
    forall a :: a in arrivals ==> Legible(a)
  }

  function Failures(arrivals: seq<Arrival>): nat
    requires AllLegible(arrivals)
  {
    if arrivals == [] then 0 else (if Failing(arrivals[0]) then 1 else 0) + Failures(arrivals[1..])
  }

  /** The data of a data packet. */
  function HeldIn(a: Arrival): seq<Byte>
    requires Legible(a)
  {
    if Failing(a) || Ending(a) then [] else a.buffer[4..4 + DataLength(a.buffer)]
  }

  /** What the packets among the arrivals hold, one after the other. */
  function Held(arrivals: seq<Arrival>): seq<Byte>
    requires AllLegible(arrivals)
  {
    if arrivals == [] then [] else HeldIn(arrivals[0]) + Held(arrivals[1..])
  }

  function NumberIn(a: Arrival): seq<nat>
    requires Legible(a)
  {
    if a.Packet? && a.buffer[0] == 1 then [a.buffer[1]] else []
  }

  /** The numbers of the data packets among the arrivals. */
  function Numbers(arrivals: seq<Arrival>): seq<nat>
    requires AllLegible(arrivals)
  {
    if arrivals == [] then [] else NumberIn(arrivals[0]) + Numbers(arrivals[1..])
  }

  /** Where the reception stops: at the first ending packet, at the failure that uses up the last
      attempt, or not at all. */
  ghost predicate StopsAt(arrivals: seq<Arrival>, attempts: nat, k: nat)
    requires AllLegible(arrivals)
  {
    && k <= |arrivals| && (forall i :: 0 <= i < k ==> !Ending(arrivals[i])) && Failures(arrivals[..k]) < attempts
    && (k < |arrivals| ==> Ending(arrivals[k]) || (Failing(arrivals[k]) && Failures(arrivals[..k]) + 1 == attempts))
  }

  /** The result of stopping there. */
  function ResultAt(arrivals: seq<Arrival>, k: nat): Option<int>
    requires AllLegible(arrivals) && k <= |arrivals|
  {
    if k == |arrivals| then None else if Ending(arrivals[k]) then Some(0) else Some(-1)
  }

  function CountersAt(c: Counters, arrivals: seq<Arrival>, k: nat): Counters
    requires AllLegible(arrivals) && k <= |arrivals|
  {
    var d := Deliver(c, Numbers(arrivals[..k]));
    if k == |arrivals| || Failing(arrivals[k]) then d
    else if arrivals[k].buffer[0] == 1 then Deliver(d, [arrivals[k].buffer[1]])
    else d.(sequence := d.sequence + 1)
  }

  // ---------------------------------------------------------------------------
  // The result

  /** Receiving data packets stops at the place described, with the result described, and has
      written exactly what the packets before it hold; the counters are those of the packets. */
  lemma {:induction false} CollectStops(arrivals: seq<Arrival>, attempts: nat, c: Counters) returns (k: nat)
    requires AllLegible(arrivals) && attempts > 0
    ensures StopsAt(arrivals, attempts, k)
    ensures Collect(arrivals, attempts, c)
         == Outcome(ResultAt(arrivals, k), Held(arrivals[..k]), CountersAt(c, arrivals, k))
    decreases |arrivals|
  {
    if arrivals == [] {
      k := 0;
    } else {
      var a, rest := arrivals[0], arrivals[1..];
      assert arrivals[..0] == [];
      if Ending(a) || (Failing(a) && attempts == 1) {
        k := 0;
        StopsNow(arrivals, attempts, c);
      } else {
        var left := if Failing(a) then attempts - 1 else attempts;
        var d := if Failing(a) then c else Deliver(c, [a.buffer[1]]);
        var j := CollectStops(rest, left, d);
        k := j + 1;
        StopsLater(a, rest, attempts, left, c, d, j);
        assert arrivals == [a] + rest;
      }
    }
  }

  lemma DeliverOne(c: Counters, n: nat)
    requires n < SEQUENCE_MODULUS
    ensures Deliver(c, [n]) == Account(c, n).(sequence := Account(c, n).sequence + 1)
  {
    assert [n][1..] == [];
  }

  lemma StopsNow(arrivals: seq<Arrival>, attempts: nat, c: Counters)
    requires AllLegible(arrivals) && arrivals != [] && attempts > 0
    requires Ending(arrivals[0]) || (Failing(arrivals[0]) && attempts == 1)
    ensures StopsAt(arrivals, attempts, 0)
    ensures Collect(arrivals, attempts, c) == Outcome(ResultAt(arrivals, 0), [], CountersAt(c, arrivals, 0))
  {
    assert arrivals[..0] == [];
    var a := arrivals[0];
    if Ending(a) && a.buffer[0] == 1 {
      DeliverOne(c, a.buffer[1]);
    }
  }

  /** One arrival in front that does not end the reception. */
  lemma StopsLater(a: Arrival, rest: seq<Arrival>, attempts: nat, left: nat, c: Counters, d: Counters, j: nat)
    requires Legible(a) && AllLegible(rest) && !Ending(a) && attempts > 0 && left > 0
    requires left == if Failing(a) then attempts - 1 else attempts
    requires d == if Failing(a) then c else Deliver(c, [a.buffer[1]])
    requires StopsAt(rest, left, j)
    requires Collect(rest, left, d) == Outcome(ResultAt(rest, j), Held(rest[..j]), CountersAt(d, rest, j))
    ensures AllLegible([a] + rest) && StopsAt([a] + rest, attempts, j + 1)
    ensures Collect([a] + rest, attempts, c)
         == Outcome(ResultAt([a] + rest, j + 1), Held(([a] + rest)[..j + 1]), CountersAt(c, [a] + rest, j + 1))
  {
    var all := [a] + rest;
    Prefixes(a, rest, j);
    CountersLater(a, rest, c, d, j);
    OneCollected(a, rest, attempts, left, c, d);
    assert forall i :: 0 < i <= j ==> all[i] == rest[i - 1];
    assert j < |rest| ==> all[j + 1] == rest[j];
  }

  lemma Prefixes(a: Arrival, rest: seq<Arrival>, j: nat)
    requires Legible(a) && AllLegible(rest) && j <= |rest|
    ensures var all := [a] + rest;
            && AllLegible(all) && Failures(all[..j + 1]) == (if Failing(a) then 1 else 0) + Failures(rest[..j])
            && Held(all[..j + 1]) == HeldIn(a) + Held(rest[..j])
            && Numbers(all[..j + 1]) == NumberIn(a) + Numbers(rest[..j])
  {
    var part := ([a] + rest)[..j + 1];
    assert part[0] == a && part[1..] == rest[..j];
  }

  lemma OneCollected(a: Arrival, rest: seq<Arrival>, attempts: nat, left: nat, c: Counters, d: Counters)
    requires Legible(a) && AllLegible(rest) && !Ending(a) && attempts > 0 && left > 0
    requires left == if Failing(a) then attempts - 1 else attempts
    requires d == if Failing(a) then c else Deliver(c, [a.buffer[1]])
    ensures AllLegible([a] + rest)
    ensures var o := Collect(rest, left, d);
            Collect([a] + rest, attempts, c) == o.(written := HeldIn(a) + o.written)
  {
    var all := [a] + rest;
    assert all[0] == a && all[1..] == rest;
    if Failing(a) {
      assert HeldIn(a) + Collect(rest, left, d).written == Collect(rest, left, d).written;
    } else {
      DeliverOne(c, a.buffer[1]);
    }
  }

  lemma CountersLater(a: Arrival, rest: seq<Arrival>, c: Counters, d: Counters, j: nat)
    requires Legible(a) && AllLegible(rest) && !Ending(a) && j <= |rest|
    requires d == if Failing(a) then c else Deliver(c, [a.buffer[1]])
    ensures AllLegible([a] + rest) && CountersAt(c, [a] + rest, j + 1) == CountersAt(d, rest, j)
  {
    Prefixes(a, rest, j);
    if Failing(a) {
      assert NumberIn(a) == [] && [] + Numbers(rest[..j]) == Numbers(rest[..j]);
    } else {
      DeliverCons(c, a.buffer[1], Numbers(rest[..j]));
    }
    assert j < |rest| ==> ([a] + rest)[j + 1] == rest[j];
  }

  lemma DeliverCons(c: Counters, n: nat, numbers: seq<nat>)
    ensures Deliver(c, [n] + numbers) == Deliver(Deliver(c, [n]), numbers)
  {
    assert ([n] + numbers)[1..] == numbers && [n][1..] == [];
  }

  /** So the reception returns 0 if and only if an ending packet comes before the attempts are used
      up, and -1 if and only if the attempts are used up before an ending packet. */
  lemma CollectIff(arrivals: seq<Arrival>, attempts: nat, c: Counters)
    requires AllLegible(arrivals) && attempts > 0
    ensures Collect(arrivals, attempts, c).ret == Some(0) <==>
            exists k: nat :: k < |arrivals| && Ending(arrivals[k]) && StopsAt(arrivals, attempts, k)
    ensures Collect(arrivals, attempts, c).ret == Some(-1) <==>
            exists k: nat :: k < |arrivals| && Failing(arrivals[k]) && StopsAt(arrivals, attempts, k)
  {
    var j := CollectStops(arrivals, attempts, c);
    forall k: nat ensures StopsAt(arrivals, attempts, k) ==> k == j {
      OneStop(arrivals, attempts, j, k);
      if StopsAt(arrivals, attempts, k) {
        OneStop(arrivals, attempts, k, j);
      }
    }
  }

  /** Without attempts nothing is received. */
  lemma NoAttempts(arrivals: seq<Arrival>, attempts: int, c: Counters)
    requires AllLegible(arrivals) && attempts <= 0
    ensures Collect(arrivals, attempts, c) == Outcome(Some(-1), [], c)
  {}

  lemma OneStop(arrivals: seq<Arrival>, attempts: nat, j: nat, k: nat)
    requires AllLegible(arrivals) && StopsAt(arrivals, attempts, j)
    ensures StopsAt(arrivals, attempts, k) ==> k <= j
  {
    if j < k <= |arrivals| && !Ending(arrivals[j]) {
      FailuresSnoc(arrivals, j);
      FailuresGrow(arrivals, j + 1, k);
    }
  }

  lemma {:induction false} FailuresSnoc(arrivals: seq<Arrival>, i: nat)
    requires AllLegible(arrivals) && i < |arrivals|
    ensures Failures(arrivals[..i + 1]) == Failures(arrivals[..i]) + (if Failing(arrivals[i]) then 1 else 0)
    decreases i
  {
    if i > 0 {
      assert arrivals[..i + 1][1..] == arrivals[1..][..i] && arrivals[..i][1..] == arrivals[1..][..i - 1];
      FailuresSnoc(arrivals[1..], i - 1);
    }
  }

  lemma {:induction false} FailuresGrow(arrivals: seq<Arrival>, i: nat, k: nat)
    requires AllLegible(arrivals) && i <= k <= |arrivals|
    ensures Failures(arrivals[..i]) <= Failures(arrivals[..k])
    decreases k
  {
    if i < k {
      FailuresSnoc(arrivals, k - 1);
      FailuresGrow(arrivals, i, k - 1);
    }
  }

  // ---------------------------------------------------------------------------
  // Packets in order, with failures anywhere between them

  /** The packets of `payloads`, numbered from `first` on, with failing arrivals anywhere. */
  ghost predicate BringAmong(arrivals: seq<Arrival>, payloads: seq<seq<Byte>>, first: nat)
    requires AllLegible(arrivals)
    decreases |arrivals|
  {
    if arrivals == [] then payloads == []
    else if Failing(arrivals[0]) then BringAmong(arrivals[1..], payloads, first)
    else
      && payloads != [] && 0 < |payloads[0]| < 65536 && DataPacket(first, payloads[0]) <= arrivals[0].buffer
      && BringAmong(arrivals[1..], payloads[1..], first + 1)
  }

  /** The reception of `more`, with `payloads` received before it. */
  function Behind(payloads: seq<seq<Byte>>, first: nat, more: seq<Arrival>, attempts: int, c: Counters): Outcome
    requires AllLegible(more)
  {
    var o := Collect(more, attempts, c.(sequence := first + |payloads|));
    o.(written := Concat(payloads) + o.written)
  }

  lemma BehindOne(payloads: seq<seq<Byte>>, first: nat, more: seq<Arrival>, attempts: int, c: Counters)
    requires AllLegible(more) && payloads != []
    ensures var o := Behind(payloads[1..], first + 1, more, attempts, c.(sequence := first + 1));
            Behind(payloads, first, more, attempts, c) == o.(written := payloads[0] + o.written)
  {
    var o := Collect(more, attempts, c.(sequence := first + |payloads|));
    assert c.(sequence := first + 1).(sequence := first + 1 + |payloads[1..]|) == c.(sequence := first + |payloads|);
    Assoc(payloads[0], Concat(payloads[1..]), o.written);
  }

  lemma BehindNone(more: seq<Arrival>, attempts: int, c: Counters)
    requires AllLegible(more)
    ensures Behind([], c.sequence, more, attempts, c) == Collect(more, attempts, c)
  {
    assert c.(sequence := c.sequence) == c;
    assert [] + Collect(more, attempts, c).written == Collect(more, attempts, c).written;
  }

  /** With fewer failures than attempts, the reception comes behind all these packets with exactly
      their payloads written, nothing counted as lost, and the other attempts left. */
  lemma {:induction false} InOrderDespiteFailures(arrivals: seq<Arrival>, more: seq<Arrival>, payloads: seq<seq<Byte>>,
                                                  first: nat, attempts: nat, c: Counters)
    requires AllLegible(arrivals) && AllLegible(more) && BringAmong(arrivals, payloads, first)
    requires Failures(arrivals) < attempts && c.sequence == first
    ensures AllLegible(arrivals + more)
    ensures Collect(arrivals + more, attempts, c) == Behind(payloads, first, more, attempts - Failures(arrivals), c)
    decreases |arrivals|
  {
    if arrivals == [] {
      assert arrivals + more == more;
      BehindNone(more, attempts, c);
    } else {
      var a, rest := arrivals[0], arrivals[1..];
      assert arrivals + more == [a] + (rest + more);
      if Failing(a) {
        InOrderDespiteFailures(rest, more, payloads, first, attempts - 1, c);
        FailedOne(a, rest + more, attempts, c);
      } else {
        InOrderDespiteFailures(rest, more, payloads[1..], first + 1, attempts, c.(sequence := first + 1));
        PacketInOrder(a, rest + more, payloads, first, more, attempts, attempts - Failures(rest), c);
      }
    }
  }

  lemma FailedOne(a: Arrival, tail: seq<Arrival>, attempts: nat, c: Counters)
    requires Legible(a) && AllLegible(tail) && Failing(a) && attempts > 1
    ensures AllLegible([a] + tail) && Collect([a] + tail, attempts, c) == Collect(tail, attempts - 1, c)
  {
    OneCollected(a, tail, attempts, attempts - 1, c, c);
    var o := Collect(tail, attempts - 1, c);
    assert [] + o.written == o.written;
  }

  lemma PacketInOrder(a: Arrival, tail: seq<Arrival>, payloads: seq<seq<Byte>>, first: nat, more: seq<Arrival>,
                      attempts: nat, left: int, c: Counters)
    requires Legible(a) && AllLegible(tail) && AllLegible(more) && !Failing(a) && attempts > 0 && c.sequence == first
    requires payloads != [] && 0 < |payloads[0]| < 65536 && DataPacket(first, payloads[0]) <= a.buffer
    requires var d := c.(sequence := first + 1);
             Collect(tail, attempts, d) == Behind(payloads[1..], first + 1, more, left, d)
    ensures AllLegible([a] + tail)
    ensures Collect([a] + tail, attempts, c) == Behind(payloads, first, more, left, c)
  {
    NextInOrder(a, payloads[0], c);
    OneCollected(a, tail, attempts, attempts, c, c.(sequence := first + 1));
    BehindOne(payloads, first, more, left, c);
  }

  /** The expected packet, not empty. */
  lemma NextInOrder(a: Arrival, payload: seq<Byte>, c: Counters)
    requires Legible(a) && !Failing(a) && 0 < |payload| < 65536 && DataPacket(c.sequence, payload) <= a.buffer
    ensures !Ending(a) && HeldIn(a) == payload && Deliver(c, [a.buffer[1]]) == c.(sequence := c.sequence + 1)
  {
    ReadBack(c.sequence, payload, a.buffer);
    DeliverOne(c, a.buffer[1]);
  }

  /** And then an end packet makes it return 0 with exactly the payloads. */
  lemma CompleteDespiteFailures(arrivals: seq<Arrival>, end: Arrival, payloads: seq<seq<Byte>>, first: nat,
                                attempts: nat, c: Counters)
    requires AllLegible(arrivals) && BringAmong(arrivals, payloads, first)
    requires Failures(arrivals) < attempts && c.sequence == first
    requires Legible(end) && end.Packet? && end.buffer[0] == 3 && ControlPacket.Parse(end.buffer).Some?
    ensures AllLegible(arrivals + [end])
    ensures Collect(arrivals + [end], attempts, c)
         == Outcome(Some(0), Concat(payloads), c.(sequence := first + |payloads| + 1))
  {
    InOrderDespiteFailures(arrivals, [end], payloads, first, attempts, c);
    assert Concat(payloads) + [] == Concat(payloads);
  }
}
