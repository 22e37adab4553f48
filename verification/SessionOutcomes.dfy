/** When send_file and receive_file succeed and when they give up: the return code as a property
    of the outcomes of the single steps, without running the state machines (src/packets.c). */
module SessionOutcomes {
  import opened Codes
  import opened Sessions

  /** `fails` failures leave an attempt. A negative number of attempts never runs out. */
  predicate Within(fails: int, tries: int) {
    tries < 0 || fails < tries
  }

  /** From outcome `i` on, the operation fails fewer than `tries` times and then succeeds, with
      outcome `j - 1`. */
  predicate Passes(script: seq<bool>, i: nat, j: nat, tries: int) {
    && i < j <= |script| && script[j - 1] && Within(j - 1 - i, tries)
    && forall k :: i <= k < j - 1 ==> !script[k]
  }

  /** From outcome `i` on, the operation fails `tries` times. */
  predicate Exhausts(script: seq<bool>, i: nat, tries: int) {
    0 <= tries && i + tries <= |script| && forall k :: i <= k < i + tries ==> !script[k]
  }

  ghost predicate CanPass(script: seq<bool>, i: nat, tries: int) {
    exists j: nat :: Passes(script, i, j, tries)
  }

  lemma CanPassLater(script: seq<bool>, i: nat, tries: int)
    requires i < |script| && !script[i] && tries != 0 && !CanPass(script, i, tries)
    ensures !CanPass(script, i + 1, tries - 1)
  {
    var n := i + 1;
    if CanPass(script, n, tries - 1) {
      var j: nat :| Passes(script, n, j, tries - 1);
      assert Passes(script, i, j, tries);
    }
  }

  lemma PassesLater(script: seq<bool>, i: nat, j: nat, tries: int)
    requires i < |script| && !script[i] && tries != 0
    ensures Passes(script, i, j, tries) <==> i + 1 < j && Passes(script, i + 1, j, tries - 1)
  {}

  // ---------------------------------------------------------------------------
  // receive_file

  /** Open, start packet, data and close succeed in this order, with fewer than `max` failures of
      each but the data step, which may not fail at all. */
  ghost predicate Receives(script: seq<bool>, max: int, k: nat) {
    exists i: nat, j: nat ::
      && Passes(script, 0, i, max) && Passes(script, i, j, max)
      && j < |script| && script[j] && Passes(script, j + 1, k, max)
  }

  /** The attempts run out in one of the other steps, or the data step fails. */
  ghost predicate Abandons(script: seq<bool>, max: int, k: nat) {
    || (Exhausts(script, 0, max) && k == max)
    || (exists i: nat :: Passes(script, 0, i, max) && Exhausts(script, i, max) && k == i + max)
    || (exists i: nat, j: nat ::
          && Passes(script, 0, i, max) && Passes(script, i, j, max) && j < |script|
          && if script[j] then Exhausts(script, j + 1, max) && k == j + 1 + max else k == j + 1)
  }

  function Later(r: (Option<int>, nat), n: nat): (Option<int>, nat) {
    (r.0, r.1 + n)
  }

  lemma {:induction false} ReceivePasses(script: seq<bool>, i: nat, j: nat, state: nat, tries: int, max: int)
    requires Passes(script, i, j, tries) && state <= RCV_CLOSE_CONNECTION && state != RCV_DATA_PACKETS
    ensures Receive(script[i..], state, tries, max)
         == if state == RCV_CLOSE_CONNECTION then (Some(0), j - i)
            else Later(Receive(script[j..], state + 1, max, max), j - i)
    decreases j - i
  {
    assert script[i..][0] == script[i] && script[i..][1..] == script[i + 1..];
    if i + 1 < j {
      PassesLater(script, i, j, tries);
      ReceivePasses(script, i + 1, j, state, tries - 1, max);
    }
  }

  /** Without such a success the machine gives up when the attempts run out, or the script ends. */
  lemma {:induction false} ReceiveStuck(script: seq<bool>, i: nat, state: nat, tries: int, max: int)
    requires i <= |script| && state <= RCV_CLOSE_CONNECTION && state != RCV_DATA_PACKETS
    requires !CanPass(script, i, tries)
    ensures var r := Receive(script[i..], state, tries, max);
            if Exhausts(script, i, tries) then r == (Some(-1), tries) else r.0 == None
    decreases |script| - i
  {
    if tries != 0 && i < |script| {
      assert script[i..][0] == script[i] && script[i..][1..] == script[i + 1..];
      assert !Passes(script, i, i + 1, tries);
      CanPassLater(script, i, tries);
      ReceiveStuck(script, i + 1, state, tries - 1, max);
    }
  }

  lemma ExhaustsNotPasses(script: seq<bool>, i: nat, tries: int)
    requires Exhausts(script, i, tries)
    ensures !CanPass(script, i, tries)
  {}

  /** receive_file returns 0, or -1, after `k` outer steps if and only if the outcomes are so. */
  lemma ReceiveIff(script: seq<bool>, max: int, k: nat)
    ensures Receive(script, RCV_OPEN_CONNECTION, max, max) == (Some(0), k) <==> Receives(script, max, k)
    ensures Receive(script, RCV_OPEN_CONNECTION, max, max) == (Some(-1), k) <==> Abandons(script, max, k)
  {
    ReceiveIf(script, max, k);
    ReceiveOnlyIf(script, max, k);
  }

  lemma ReceiveIf(script: seq<bool>, max: int, k: nat)
    ensures Receives(script, max, k) ==> Receive(script, RCV_OPEN_CONNECTION, max, max) == (Some(0), k)
    ensures Abandons(script, max, k) ==> Receive(script, RCV_OPEN_CONNECTION, max, max) == (Some(-1), k)
  {
    if Receives(script, max, k) {
      var i: nat, j: nat :| Passes(script, 0, i, max) && Passes(script, i, j, max)
                            && j < |script| && script[j] && Passes(script, j + 1, k, max);
      ReceivesAt(script, i, j, max, k);
    }
    if Exhausts(script, 0, max) && k == max {
      AbandonsOpen(script, max);
    } else if i: nat :| Passes(script, 0, i, max) && Exhausts(script, i, max) && k == i + max {
      AbandonsStart(script, i, max);
    } else if Abandons(script, max, k) {
      var i: nat, j: nat :|
        && Passes(script, 0, i, max) && Passes(script, i, j, max) && j < |script|
        && if script[j] then Exhausts(script, j + 1, max) && k == j + 1 + max else k == j + 1;
      AbandonsLater(script, i, j, max);
    }
  }

  lemma ReceivesAt(script: seq<bool>, i: nat, j: nat, max: int, k: nat)
    requires Passes(script, 0, i, max) && Passes(script, i, j, max)
    requires j < |script| && script[j] && Passes(script, j + 1, k, max)
    ensures Receive(script, RCV_OPEN_CONNECTION, max, max) == (Some(0), k)
  {
    ReceiveToData(script, i, j, max);
    ReceivePasses(script, j + 1, k, RCV_CLOSE_CONNECTION, max, max);
  }

  lemma AbandonsLater(script: seq<bool>, i: nat, j: nat, max: int)
    requires Passes(script, 0, i, max) && Passes(script, i, j, max)
    requires j < |script| && (script[j] ==> Exhausts(script, j + 1, max))
    ensures Receive(script, RCV_OPEN_CONNECTION, max, max) == (Some(-1), if script[j] then j + 1 + max else j + 1)
  {
    ReceiveToData(script, i, j, max);
    if script[j] {
      ExhaustsNotPasses(script, j + 1, max);
      ReceiveStuck(script, j + 1, RCV_CLOSE_CONNECTION, max, max);
    }
  }

  lemma AbandonsOpen(script: seq<bool>, max: int)
    requires Exhausts(script, 0, max)
    ensures Receive(script, RCV_OPEN_CONNECTION, max, max) == (Some(-1), max)
  {
    assert script[0..] == script;
    ExhaustsNotPasses(script, 0, max);
    ReceiveStuck(script, 0, RCV_OPEN_CONNECTION, max, max);
  }

  lemma AbandonsStart(script: seq<bool>, i: nat, max: int)
    requires Passes(script, 0, i, max) && Exhausts(script, i, max)
    ensures Receive(script, RCV_OPEN_CONNECTION, max, max) == (Some(-1), i + max)
  {
    assert script[0..] == script;
    ReceivePasses(script, 0, i, RCV_OPEN_CONNECTION, max, max);
    ExhaustsNotPasses(script, i, max);
    ReceiveStuck(script, i, RCV_START_CONTROL_PACKET, max, max);
  }

  /** Up to and including the data step. */
  lemma ReceiveToData(script: seq<bool>, i: nat, j: nat, max: int)
    requires Passes(script, 0, i, max) && Passes(script, i, j, max) && j < |script|
    ensures Receive(script, RCV_OPEN_CONNECTION, max, max)
         == if script[j] then Later(Receive(script[j + 1..], RCV_CLOSE_CONNECTION, max, max), j + 1)
            else (Some(-1), j + 1)
  {
    assert script[0..] == script;
    ReceivePasses(script, 0, i, RCV_OPEN_CONNECTION, max, max);
    ReceivePasses(script, i, j, RCV_START_CONTROL_PACKET, max, max);
    assert script[j..][0] == script[j] && script[j..][1..] == script[j + 1..];
  }

  lemma ReceiveOnlyIf(script: seq<bool>, max: int, k: nat)
    ensures Receive(script, RCV_OPEN_CONNECTION, max, max) == (Some(0), k) ==> Receives(script, max, k)
    ensures Receive(script, RCV_OPEN_CONNECTION, max, max) == (Some(-1), k) ==> Abandons(script, max, k)
  {
    assert script[0..] == script;
    if i: nat :| Passes(script, 0, i, max) {
      ReceivePasses(script, 0, i, RCV_OPEN_CONNECTION, max, max);
      if j: nat :| Passes(script, i, j, max) {
        ReceivePasses(script, i, j, RCV_START_CONTROL_PACKET, max, max);
        if j < |script| {
          ReceiveToData(script, i, j, max);
          if script[j] {
            ReceiveClosing(script, i, j, max, k);
          }
        }
      } else {
        ReceiveStuck(script, i, RCV_START_CONTROL_PACKET, max, max);
      }
    } else {
      ReceiveStuck(script, 0, RCV_OPEN_CONNECTION, max, max);
    }
  }

  lemma ReceiveClosing(script: seq<bool>, i: nat, j: nat, max: int, k: nat)
    requires Passes(script, 0, i, max) && Passes(script, i, j, max) && j < |script| && script[j]
    ensures Receive(script, RCV_OPEN_CONNECTION, max, max) == (Some(0), k) ==> Receives(script, max, k)
    ensures Receive(script, RCV_OPEN_CONNECTION, max, max) == (Some(-1), k) ==> Abandons(script, max, k)
  {
    ReceiveToData(script, i, j, max);
    var d := j + 1;
    if m: nat :| Passes(script, d, m, max) {
      ReceivePasses(script, d, m, RCV_CLOSE_CONNECTION, max, max);
    } else {
      ReceiveStuck(script, d, RCV_CLOSE_CONNECTION, max, max);
    }
  }

  // ---------------------------------------------------------------------------
  // send_file

  /** From outcome `i` on, end packets and closes alternate until a close succeeds with outcome
      `k - 1`; before each end packet that follows a failed close one attempt is gone already. */
  ghost predicate Closes(script: seq<bool>, i: nat, tries: int, max: int, k: nat)
    decreases |script| - i
  {
    exists j: nat ::
      && Passes(script, i, j, tries) && j < |script|
      && if script[j] then k == j + 1 else Closes(script, j + 1, max - 1, max, k)
  }

  /** Open, start packet and data succeed in this order, each with fewer than `max` failures, and
      then the closing part does. */
  ghost predicate Delivers(script: seq<bool>, max: int, k: nat) {
    exists a: nat, b: nat, c: nat ::
      && Passes(script, 0, a, max) && Passes(script, a, b, max) && Passes(script, b, c, max)
      && Closes(script, c, max, max, k)
  }

  lemma {:induction false} SendPasses(script: seq<bool>, i: nat, j: nat, state: nat, tries: int, max: int)
    requires Passes(script, i, j, tries) && state < SND_CLOSE_CONNECTION
    ensures var r, s := Send(script[i..], state, tries, max), Send(script[j..], state + 1, max, max);
            r.ret == s.ret && r.steps == s.steps + (j - i)
    decreases j - i
  {
    assert script[i..][0] == script[i] && script[i..][1..] == script[i + 1..];
    if i + 1 < j {
      PassesLater(script, i, j, tries);
      SendPasses(script, i + 1, j, state, tries - 1, max);
    }
  }

  lemma {:induction false} SendStuck(script: seq<bool>, i: nat, state: nat, tries: int, max: int)
    requires i <= |script| && state < SND_CLOSE_CONNECTION
    requires !CanPass(script, i, tries)
    ensures Send(script[i..], state, tries, max).ret != Some(0)
    decreases |script| - i
  {
    if tries != 0 && i < |script| {
      assert script[i..][0] == script[i] && script[i..][1..] == script[i + 1..];
      assert !Passes(script, i, i + 1, tries);
      CanPassLater(script, i, tries);
      SendStuck(script, i + 1, state, tries - 1, max);
    }
  }

  /** One end packet and the close behind it. */
  lemma EndThenClose(script: seq<bool>, i: nat, j: nat, tries: int, max: int)
    requires Passes(script, i, j, tries) && max != 0
    ensures var r := Send(script[i..], SND_CLOSE_CONTROL_PACKET, tries, max);
            if j == |script| then r.ret == None
            else if script[j] then r.ret == Some(0) && r.steps == j + 1 - i
            else
              var s := Send(script[j + 1..], SND_CLOSE_CONTROL_PACKET, max - 1, max);
              r.ret == s.ret && r.steps == s.steps + (j + 1 - i)
  {
    SendPasses(script, i, j, SND_CLOSE_CONTROL_PACKET, tries, max);
    if j < |script| {
      assert script[j..][0] == script[j] && script[j..][1..] == script[j + 1..];
    }
  }

  lemma {:induction false} ClosesIff(script: seq<bool>, i: nat, tries: int, max: int, k: nat)
    requires i <= |script| && i <= k && max != 0
    ensures var r := Send(script[i..], SND_CLOSE_CONTROL_PACKET, tries, max);
            r.ret == Some(0) && r.steps == k - i <==> Closes(script, i, tries, max, k)
    decreases |script| - i
  {
    if j: nat :| Passes(script, i, j, tries) {
      forall m: nat ensures Passes(script, i, m, tries) ==> j == m {
        OnePass(script, i, j, m, tries);
      }
      EndThenClose(script, i, j, tries, max);
      if j < |script| && !script[j] {
        if j + 1 <= k {
          ClosesIff(script, j + 1, max - 1, max, k);
        } else {
          ClosesLate(script, j + 1, max - 1, max, k);
        }
      }
    } else {
      SendStuck(script, i, SND_CLOSE_CONTROL_PACKET, tries, max);
    }
  }

  lemma OnePass(script: seq<bool>, i: nat, j: nat, m: nat, tries: int)
    requires Passes(script, i, j, tries)
    ensures Passes(script, i, m, tries) ==> j == m
  {}

  lemma {:induction false} ClosesLate(script: seq<bool>, i: nat, tries: int, max: int, k: nat)
    ensures Closes(script, i, tries, max, k) ==> i < k
    decreases |script| - i
  {
    if Closes(script, i, tries, max, k) {
      var j: nat :|
        && Passes(script, i, j, tries) && j < |script|
        && if script[j] then k == j + 1 else Closes(script, j + 1, max - 1, max, k);
      if !script[j] {
        ClosesLate(script, j + 1, max - 1, max, k);
      }
    }
  }

  /** send_file returns 0 after `k` outer steps if and only if the outcomes are so. */
  lemma SendIff(script: seq<bool>, max: int, k: nat)
    ensures var r := Send(script, SND_OPEN_CONNECTION, max, max);
            r.ret == Some(0) && r.steps == k <==> Delivers(script, max, k)
  {
    assert script[0..] == script;
    if Delivers(script, max, k) {
      var a: nat, b: nat, c: nat :|
        && Passes(script, 0, a, max) && Passes(script, a, b, max) && Passes(script, b, c, max)
        && Closes(script, c, max, max, k);
      SendToClosing(script, a, b, c, max);
      ClosesLate(script, c, max, max, k);
      ClosesIff(script, c, max, max, k);
    }
    SendOnlyIf(script, max, k);
  }

  lemma SendToClosing(script: seq<bool>, a: nat, b: nat, c: nat, max: int)
    requires Passes(script, 0, a, max) && Passes(script, a, b, max) && Passes(script, b, c, max)
    ensures var r := Send(script, SND_OPEN_CONNECTION, max, max);
            var s := Send(script[c..], SND_CLOSE_CONTROL_PACKET, max, max);
            r.ret == s.ret && r.steps == s.steps + c
  {
    assert script[0..] == script;
    SendPasses(script, 0, a, SND_OPEN_CONNECTION, max, max);
    SendPasses(script, a, b, SND_START_CONTROL_PACKET, max, max);
    SendPasses(script, b, c, SND_DATA_PACKETS, max, max);
  }

  lemma SendOnlyIf(script: seq<bool>, max: int, k: nat)
    ensures var r := Send(script, SND_OPEN_CONNECTION, max, max);
            r.ret == Some(0) && r.steps == k ==> Delivers(script, max, k)
  {
    assert script[0..] == script;
    if a: nat :| Passes(script, 0, a, max) {
      SendPasses(script, 0, a, SND_OPEN_CONNECTION, max, max);
      if b: nat :| Passes(script, a, b, max) {
        SendPasses(script, a, b, SND_START_CONTROL_PACKET, max, max);
        if c: nat :| Passes(script, b, c, max) {
          SendToClosing(script, a, b, c, max);
          if c <= k {
            ClosesIff(script, c, max, max, k);
          }
        } else {
          SendStuck(script, b, SND_DATA_PACKETS, max, max);
        }
      } else {
        SendStuck(script, a, SND_START_CONTROL_PACKET, max, max);
      }
    } else {
      SendStuck(script, 0, SND_OPEN_CONNECTION, max, max);
    }
  }
}
