/** The two attempt-bounded state machines that send and receive a file (src/packets.c). What an
    outer step calls is abstracted to its success or failure, given by a script. */
module Sessions {
  import opened Codes

  const SND_OPEN_CONNECTION: nat := 0
  const SND_START_CONTROL_PACKET: nat := 1
  const SND_DATA_PACKETS: nat := 2
  const SND_CLOSE_CONTROL_PACKET: nat := 3
  const SND_CLOSE_CONNECTION: nat := 4

  const RCV_OPEN_CONNECTION: nat := 0
  const RCV_START_CONTROL_PACKET: nat := 1
  const RCV_DATA_PACKETS: nat := 2
  const RCV_CLOSE_CONNECTION: nat := 3

  datatype Operation = Open | StartPacket | DataPackets | EndPacket | CloseLink

  /** Result of a run: the return code, none while the script ends first, the successful
      operations in order, and the number of outer steps. */
  datatype Run = Run(ret: Option<int>, done: seq<Operation>, steps: nat)

  function Then(op: Operation, r: Run): Run {
    Run(r.ret, [op] + r.done, r.steps + 1)
  }

  function Failed(r: Run): Run {
    r.(steps := r.steps + 1)
  }

  /** send_file from a given state. A failed close goes to RCV_CLOSE_CONNECTION, which is 3, the
      state that sends the end packet. */
  function Send(script: seq<bool>, state: nat, attempts: int, max: int): Run
    requires state <= SND_CLOSE_CONNECTION
    decreases |script|
  {
    if attempts == 0 then Run(Some(-1), [], 0)
    else if script == [] then Run(None, [], 0)
    else
      var ok, rest := script[0], script[1..];
      if !ok then
        Failed(Send(rest, if state == SND_CLOSE_CONNECTION then RCV_CLOSE_CONNECTION else state, attempts - 1, max))
      else if state == SND_OPEN_CONNECTION then Then(Open, Send(rest, SND_START_CONTROL_PACKET, max, max))
      else if state == SND_START_CONTROL_PACKET then Then(StartPacket, Send(rest, SND_DATA_PACKETS, max, max))
      else if state == SND_DATA_PACKETS then Then(DataPackets, Send(rest, SND_CLOSE_CONTROL_PACKET, max, max))
      else if state == SND_CLOSE_CONTROL_PACKET then Then(EndPacket, Send(rest, SND_CLOSE_CONNECTION, max, max))
      else Run(Some(0), [CloseLink], 1)
  }

  function EndPackets(k: nat): seq<Operation> {
    seq(k, _ => EndPacket)
  }

  /** What a successful send has done from each state on: the operations before it are never
      repeated, except that end packets may be. */
  ghost predicate Complete(state: nat, done: seq<Operation>, k: nat) {
    done == (if state == SND_OPEN_CONNECTION then [Open, StartPacket, DataPackets]
             else if state == SND_START_CONTROL_PACKET then [StartPacket, DataPackets]
             else if state == SND_DATA_PACKETS then [DataPackets]
             else [])
            + EndPackets(k) + [CloseLink]
    && (state != SND_CLOSE_CONNECTION ==> k >= 1)
  }

  /** Ordering: every run of send_file that returns 0 opened the connection, sent the start packet
      and the data, then one or more end packets, and closed, in that order. */
  lemma {:induction false} SendOrder(script: seq<bool>, state: nat, attempts: int, max: int) returns (k: nat)
    requires state <= SND_CLOSE_CONNECTION && Send(script, state, attempts, max).ret == Some(0)
    ensures Complete(state, Send(script, state, attempts, max).done, k)
    decreases |script|
  {
    var ok, rest := script[0], script[1..];
    var r := Send(script, state, attempts, max);
    if !ok {
      var next := if state == SND_CLOSE_CONNECTION then RCV_CLOSE_CONNECTION else state;
      k := SendOrder(rest, next, attempts - 1, max);
    } else if state == SND_CLOSE_CONNECTION {
      k := 0;
    } else {
      k := SendOrder(rest, state + 1, max, max);
      var tail := Send(rest, state + 1, max, max).done;
      assert r.done == [r.done[0]] + tail;
      if state == SND_CLOSE_CONTROL_PACKET {
        assert EndPackets(k + 1) == [EndPacket] + EndPackets(k);
        k := k + 1;
      }
    }
  }

  /** send_file; the five outcomes it switches on come from `script`. */
  method SendFile(script: seq<bool>, maxSendAttempts: int) returns (ret: Option<int>, done: seq<Operation>)
    ensures var r := Send(script, SND_OPEN_CONNECTION, maxSendAttempts, maxSendAttempts);
            ret == r.ret && done == r.done
  {
    var attemptsLeft, i := maxSendAttempts, 0;
    var state: nat := SND_OPEN_CONNECTION;
    done := [];
    ghost var goal := Send(script, SND_OPEN_CONNECTION, maxSendAttempts, maxSendAttempts);
    assert script[0..] == script;
    while attemptsLeft != 0
      invariant 0 <= i <= |script| && state <= SND_CLOSE_CONNECTION
      invariant var r := Send(script[i..], state, attemptsLeft, maxSendAttempts);
                goal.ret == r.ret && goal.done == done + r.done
      decreases |script| - i
    {
      if i == |script| {
        return None, done;
      }
      var ok := script[i];
      assert script[i..][1..] == script[i + 1..];
      i := i + 1;
      match state {
        case 0 =>
          if ok {
            done := done + [Open];
            attemptsLeft := maxSendAttempts;
            state := SND_START_CONTROL_PACKET;
          } else {
            attemptsLeft := attemptsLeft - 1;
          }
        case 1 =>
          if ok {
            done := done + [StartPacket];
            attemptsLeft := maxSendAttempts;
            state := SND_DATA_PACKETS;
          } else {
            attemptsLeft := attemptsLeft - 1;
          }
        case 2 =>
          if ok {
            done := done + [DataPackets];
            attemptsLeft := maxSendAttempts;
            state := SND_CLOSE_CONTROL_PACKET;
          } else {
            attemptsLeft := attemptsLeft - 1;
          }
        case 3 =>
          if ok {
            done := done + [EndPacket];
            attemptsLeft := maxSendAttempts;
            state := SND_CLOSE_CONNECTION;
          } else {
            attemptsLeft := attemptsLeft - 1;
          }
        case _ =>
          if ok {
            done := done + [CloseLink];
            return Some(0), done;
          } else {
            state := RCV_CLOSE_CONNECTION;
            attemptsLeft := attemptsLeft - 1;
          }
      }
    }
    return Some(-1), done;
  }

  /** End packet acknowledged, close failed, `n` times over. */
  function Alternate(n: nat): seq<bool> {
    if n == 0 then [] else [true, false] + Alternate(n - 1)
  }

  lemma {:induction false} AlternateKeepsRunning(n: nat, attempts: int, max: int)
    requires max >= 2 && attempts >= 1
    ensures |Alternate(n)| == 2 * n
    ensures Send(Alternate(n), SND_CLOSE_CONTROL_PACKET, attempts, max).ret == None
    decreases n
  {
    if n > 0 {
      var s := Alternate(n);
      assert s[1..][0] == false && s[1..][1..] == Alternate(n - 1);
      AlternateKeepsRunning(n - 1, max - 1, max);
    }
  }

  lemma {:induction false} OneAttemptEnds(script: seq<bool>, state: nat)
    requires state <= SND_CLOSE_CONNECTION && |script| > SND_CLOSE_CONNECTION - state
    ensures Send(script, state, 1, 1).ret.Some?
    decreases |script|
  {
    if script[0] && state < SND_CLOSE_CONNECTION {
      OneAttemptEnds(script[1..], state + 1);
    }
  }

  /** A negative number of attempts never counts down to zero. */
  lemma {:induction false} NegativeKeepsRunning(n: nat, attempts: int, max: int)
    requires attempts < 0
    ensures Send(seq(n, _ => false), SND_OPEN_CONNECTION, attempts, max).ret == None
    decreases n
  {
    if n > 0 {
      assert seq(n, _ => false)[1..] == seq(n - 1, _ => false);
      NegativeKeepsRunning(n - 1, attempts - 1, max);
    }
  }

  /** send_file is sure to end within some number of outer steps exactly when it is allowed no
      attempt or a single one: otherwise failing closes and acknowledged end packets can alternate
      for ever, and a negative number of attempts never runs out. */
  lemma SendEndsIff(max: int)
    ensures (exists bound: nat :: Bounded(bound, max)) <==> max == 0 || max == 1
  {
    if max == 0 {
      assert Bounded(0, max);
    } else if max == 1 {
      forall script: seq<bool> | |script| >= 5 ensures Send(script, 0, max, max).ret.Some? {
        OneAttemptEnds(script, 0);
      }
      assert Bounded(5, max);
    } else if max < 0 {
      forall bound: nat ensures !Bounded(bound, max) {
        NegativeKeepsRunning(bound, max, max);
        assert |seq(bound, _ => false)| >= bound;
      }
    } else {
      forall bound: nat ensures !Bounded(bound, max) {
        var s := [true, true, true] + Alternate(bound);
        AlternateKeepsRunning(bound, max, max);
        assert s[0] && s[1..][0] && s[1..][1..][0] && s[1..][1..][1..] == Alternate(bound);
        assert Send(s[1..][1..], SND_DATA_PACKETS, max, max).ret == None;
        assert Send(s[1..], SND_START_CONTROL_PACKET, max, max).ret == None;
        assert Send(s, SND_OPEN_CONNECTION, max, max).ret == None;
        assert |s| >= bound;
      }
    }
  }

  /** Every script of at least `bound` steps lets send_file return. */
  ghost predicate Bounded(bound: nat, max: int) {
    forall script: seq<bool> :: |script| >= bound ==> Send(script, SND_OPEN_CONNECTION, max, max).ret.Some?
  }

  // ---------------------------------------------------------------------------
  // receive_file

  /** receive_file from a given state: the return code, none while the script ends first, and the
      number of outer steps. */
  function Receive(script: seq<bool>, state: nat, attempts: int, max: int): (Option<int>, nat)
    requires state <= RCV_CLOSE_CONNECTION
    decreases |script|
  {
    if attempts == 0 then (Some(-1), 0)
    else if script == [] then (None, 0)
    else
      var ok, rest := script[0], script[1..];
      if state == RCV_DATA_PACKETS && !ok then (Some(-1), 1)
      else if state == RCV_CLOSE_CONNECTION && ok then (Some(0), 1)
      else
        var r := if ok then Receive(rest, state + 1, max, max) else Receive(rest, state, attempts - 1, max);
        (r.0, r.1 + 1)
  }

  /** Outer steps that are still possible. */
  function StepsLeft(state: nat, attempts: nat, max: nat): nat {
    if state == RCV_OPEN_CONNECTION then attempts + 2 * max + 1
    else if state == RCV_START_CONTROL_PACKET then attempts + max + 1
    else if state == RCV_DATA_PACKETS then max + 1
    else attempts
  }

  lemma {:induction false} ReceiveBounded(script: seq<bool>, state: nat, attempts: nat, max: nat)
    requires state <= RCV_CLOSE_CONNECTION && max >= 1
    ensures Receive(script, state, attempts, max).1 <= StepsLeft(state, attempts, max)
    ensures |script| >= StepsLeft(state, attempts, max) ==> Receive(script, state, attempts, max).0.Some?
    decreases |script|
  {
    if attempts > 0 && script != [] {
      if script[0] && state < RCV_CLOSE_CONNECTION {
        ReceiveBounded(script[1..], state + 1, max, max);
      } else if !script[0] && state != RCV_DATA_PACKETS {
        ReceiveBounded(script[1..], state, attempts - 1, max);
      }
    }
  }

  /** receive_file ends within 3 N + 1 outer steps for N >= 1 attempts, and at once for none; given
      the outcomes of that many, it returns. */
  method ReceiveFile(script: seq<bool>, maxReceiveAttempts: int) returns (ret: Option<int>, steps: nat)
    ensures (ret, steps) == Receive(script, RCV_OPEN_CONNECTION, maxReceiveAttempts, maxReceiveAttempts)
    ensures steps <= |script| && (maxReceiveAttempts == 0 ==> ret == Some(-1) && steps == 0)
    ensures maxReceiveAttempts >= 1 ==> steps <= 3 * maxReceiveAttempts + 1
    ensures maxReceiveAttempts >= 1 && |script| >= 3 * maxReceiveAttempts + 1 ==> ret.Some?
  {
    if maxReceiveAttempts >= 1 {
      ReceiveBounded(script, RCV_OPEN_CONNECTION, maxReceiveAttempts, maxReceiveAttempts);
    }
    ghost var goal := Receive(script, RCV_OPEN_CONNECTION, maxReceiveAttempts, maxReceiveAttempts);
    var attemptsLeft := maxReceiveAttempts;
    var state: nat := RCV_OPEN_CONNECTION;
    steps := 0;
    assert script[0..] == script;
    while attemptsLeft != 0
      invariant 0 <= steps <= |script| && state <= RCV_CLOSE_CONNECTION
      invariant var r := Receive(script[steps..], state, attemptsLeft, maxReceiveAttempts);
                goal == (r.0, steps + r.1)
      decreases |script| - steps
    {
      if steps == |script| {
        return None, steps;
      }
      var ok := script[steps];
      assert script[steps..][1..] == script[steps + 1..];
      steps := steps + 1;
      match state {
        case 0 =>
          if ok {
            state := RCV_START_CONTROL_PACKET;
            attemptsLeft := maxReceiveAttempts;
          } else {
            attemptsLeft := attemptsLeft - 1;
          }
        case 1 =>
          if !ok {
            attemptsLeft := attemptsLeft - 1;
          } else {
            state := RCV_DATA_PACKETS;
            attemptsLeft := maxReceiveAttempts;
          }
        case 2 =>
          if !ok {
            return Some(-1), steps;
          } else {
            state := RCV_CLOSE_CONNECTION;
            attemptsLeft := maxReceiveAttempts;
          }
        case _ =>
          if ok {
            return Some(0), steps;
          } else {
            attemptsLeft := attemptsLeft - 1;
          }
      }
    }
    return Some(-1), steps;
  }

  /** `n` failures and then a success. */
  function Late(n: nat): seq<bool> {
    seq(n, _ => false) + [true]
  }

  lemma {:induction false} LateStep(n: nat, state: nat, rest: seq<bool>, max: nat)
    requires n < max && state < RCV_DATA_PACKETS
    ensures Receive(Late(n) + rest, state, n + 1, max)
         == (Receive(rest, state + 1, max, max).0, Receive(rest, state + 1, max, max).1 + n + 1)
    decreases n
  {
    var s := Late(n) + rest;
    if n == 0 {
      assert Late(0) == [true] && s[1..] == rest;
    } else {
      assert s[1..] == Late(n - 1) + rest && !s[0];
      LateStep(n - 1, state, rest, max);
    }
  }

  lemma {:induction false} LateClose(n: nat, attempts: nat, max: nat)
    requires attempts == n + 1
    ensures Receive(Late(n), RCV_CLOSE_CONNECTION, attempts, max) == (Some(0), n + 1)
    decreases n
  {
    var s := Late(n);
    if n == 0 {
      assert s == [true];
    } else {
      assert s[1..] == Late(n - 1) && !s[0];
      LateClose(n - 1, attempts - 1, max);
    }
  }

  /** The bound is reached: success on the last attempt of every state takes 3 N + 1 steps. */
  lemma BoundReached(max: nat) returns (script: seq<bool>)
    requires max >= 1
    ensures Receive(script, RCV_OPEN_CONNECTION, max, max) == (Some(0), 3 * max + 1)
  {
    var n := max - 1;
    var close := [true] + Late(n);
    assert close[1..] == Late(n);
    LateClose(n, max, max);
    LateStep(n, RCV_START_CONTROL_PACKET, close, max);
    LateStep(n, RCV_OPEN_CONNECTION, Late(n) + close, max);
    script := Late(n) + (Late(n) + close);
  }
}
