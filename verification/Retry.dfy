/** Sending until an expected reply arrives: the nested retry loops of src/data_link.c and
    f_send_acknowledged_frame, which share one counter. */
module Retry {
  import opened Bits
  import opened Codes
  import opened Framing
  import opened Control

  /** What one attempt may meet. A garbled reply is a BADFRAME_CODE, with the control byte it
      leaves in the frame record; behind the end of a script every attempt times out. */
  datatype Event =
    | SendFails
    | ReceiveFails
    | TimedOut
    | Garbled(control: Byte)
    | Received(control: Byte)

  predicate Fatal(e: Event) {
    e.SendFails? || e.ReceiveFails?
  }

  /** An event that uses up an attempt. */
  predicate Failure(e: Event) {
    e.TimedOut? || e.Garbled? || (e.Received? && IsReject(e.control))
  }

  function Failures(script: seq<Event>): nat {
    if script == [] then 0 else (if Failure(script[0]) then 1 else 0) + Failures(script[1..])
  }

  /** Replies other than the expected one and the rejects. */
  function Unexpected(script: seq<Event>, expected: Byte): nat {
    if script == [] then 0
    else (if Failure(script[0]) || Fatal(script[0]) || script[0] == Received(expected) then 0 else 1)
         + Unexpected(script[1..], expected)
  }

  datatype Result = Result(success: bool, rest: seq<Event>, sends: nat)

  /** What one event means for a transmitter with `tries` attempts left. */
  datatype Decision = Done | GiveUp | Resend(left: nat)

  function Decide(tries: nat, expected: Byte, e: Event): Decision
    requires tries > 0
  {
    match e
    case SendFails => GiveUp
    case ReceiveFails => GiveUp
    case TimedOut => Resend(tries - 1)
    case Garbled(c) => if tries == 1 && c == expected then Done else Resend(tries - 1)
    case Received(c) =>
      if IsReject(c) then Resend(tries - 1) else if c == expected then Done else Resend(tries)
  }

  /** One loop instead of two: send until the expected reply comes or `tries` attempts failed. */
  function Exchange(tries: nat, expected: Byte, script: seq<Event>): Result
    decreases |script|
  {
    if tries == 0 then Result(false, script, 0)
    else if script == [] then Result(false, [], tries)
    else
      var rest := script[1..];
      match Decide(tries, expected, script[0])
      case Done => Result(true, rest, 1)
      case GiveUp => Result(false, rest, if script[0].SendFails? then 0 else 1)
      case Resend(left) => Again(Exchange(left, expected, rest))
  }

  function Again(r: Result): Result {
    r.(sends := r.sends + 1)
  }

  /** Event `i` confirms: it is the expected reply and fewer than `tries` events failed before
      it, or it is a garbled reply that leaves the expected control byte behind and is itself
      the last failure allowed. */
  predicate Confirms(tries: nat, expected: Byte, script: seq<Event>, i: nat)
    requires i < |script|
  {
    && (forall j :: 0 <= j < i ==> !Fatal(script[j]))
    && ((script[i] == Received(expected) && Failures(script[..i]) < tries)
        || (script[i] == Garbled(expected) && Failures(script[..i]) == tries - 1))
  }

  lemma ConfirmsLater(tries: nat, expected: Byte, script: seq<Event>, i: nat)
    requires 0 < tries && 0 < i < |script|
    ensures var left := if Failure(script[0]) then tries - 1 else tries;
            Confirms(tries, expected, script, i) <==>
            !Fatal(script[0]) && Confirms(left, expected, script[1..], i - 1)
  {
    var rest := script[1..];
    assert script[..i][1..] == rest[..i - 1];
    assert forall j :: 0 <= j < i - 1 ==> rest[j] == script[j + 1];
    assert forall j :: 0 < j < i ==> script[j] == rest[j - 1];
  }

  /** Main result: the exchange succeeds exactly when some event confirms. */
  lemma {:induction false} ExchangeSucceedsIff(tries: nat, expected: Byte, script: seq<Event>)
    requires !IsReject(expected)
    ensures Exchange(tries, expected, script).success <==>
            exists i: nat :: i < |script| && Confirms(tries, expected, script, i)
    decreases |script|
  {
    if tries > 0 && script != [] {
      var rest := script[1..];
      var left := if Failure(script[0]) then tries - 1 else tries;
      assert script[..0] == [];
      ExchangeSucceedsIff(left, expected, rest);
      if exists i: nat :: i < |script| && Confirms(tries, expected, script, i) {
        var i: nat :| i < |script| && Confirms(tries, expected, script, i);
        if i > 0 { ConfirmsLater(tries, expected, script, i); }
      }
      if exists i: nat :: i < |rest| && Confirms(left, expected, rest, i) {
        var i: nat :| i < |rest| && Confirms(left, expected, rest, i);
        ConfirmsLater(tries, expected, script, i + 1);
      }
      if Confirms(tries, expected, script, 0) {}
    }
  }

  /** Unexpected replies cost nothing but a further copy: at most `tries` frames plus one for each
      unexpected reply are sent, and the exchange consumes a prefix of the script. */
  lemma {:induction false} SendsBounded(tries: nat, expected: Byte, script: seq<Event>)
    ensures var r := Exchange(tries, expected, script);
            && |r.rest| <= |script| && r.rest == script[|script| - |r.rest|..]
            && r.sends <= tries + Unexpected(script[..|script| - |r.rest|], expected)
    decreases |script|
  {
    if tries == 0 || script == [] {
      assert script == script[0..];
    } else {
      var rest := script[1..];
      match Decide(tries, expected, script[0])
      case Done =>
      case GiveUp =>
      case Resend(left) =>
        SendsBounded(left, expected, rest);
        var k := |script| - |Exchange(left, expected, rest).rest|;
        assert script[..k][0] == script[0] && script[..k][1..] == rest[..k - 1];
        assert rest[k - 1..] == script[k..];
    }
  }

  /** How an exchange of `k` events ends, and how many copies it has sent: at the first event that
      confirms, at the first fatal one, at the last failure allowed, or on a line that has fallen
      silent, where every attempt left sends one more copy. */
  predicate Ends(tries: nat, expected: Byte, script: seq<Event>, k: nat, success: bool, sends: int)
    requires k <= |script|
  {
    if success then
      && 0 < k == sends && Confirms(tries, expected, script, k - 1)
      && forall i :: 0 <= i < k - 1 ==> !Confirms(tries, expected, script, i)
    else
      || (k > 0 && Fatal(script[k - 1]) && Failures(script[..k]) < tries
          && sends == k - (if script[k - 1].SendFails? then 1 else 0))
      || (k > 0 && Failure(script[k - 1]) && Failures(script[..k]) == tries && sends == k)
      || (k == |script| && Failures(script) < tries && sends == k + tries - Failures(script))
  }

  lemma {:induction false} ExchangeEnds(tries: nat, expected: Byte, script: seq<Event>)
    requires tries > 0 && !IsReject(expected)
    ensures var r := Exchange(tries, expected, script);
            |r.rest| <= |script| && Ends(tries, expected, script, |script| - |r.rest|, r.success, r.sends)
    decreases |script|
  {
    if script != [] {
      var rest := script[1..];
      assert script[..0] == [] && script[..1] == [script[0]] && [script[0]][1..] == [];
      match Decide(tries, expected, script[0])
      case Done =>
      case GiveUp =>
      case Resend(left) =>
        if left > 0 {
          ExchangeEnds(left, expected, rest);
          var x := Exchange(left, expected, rest);
          EndsLater(tries, expected, script, left, |rest| - |x.rest|, x.success, x.sends);
        }
    }
  }

  /** One event that does not end the exchange, in front of the others. */
  lemma EndsLater(tries: nat, expected: Byte, script: seq<Event>, left: nat, k: nat, success: bool, sends: int)
    requires script != [] && tries > 0 && !IsReject(expected) && k < |script| && left > 0
    requires Decide(tries, expected, script[0]) == Resend(left)
    requires Ends(left, expected, script[1..], k, success, sends)
    ensures Ends(tries, expected, script, k + 1, success, sends + 1)
  {
    var rest := script[1..];
    assert script[..k + 1][1..] == rest[..k] && script[..k + 1][0] == script[0] && script[..0] == [];
    assert k > 0 ==> script[k] == rest[k - 1];
    if success {
      ConfirmsLater(tries, expected, script, k);
      forall i | 0 <= i < k ensures !Confirms(tries, expected, script, i) {
        if i > 0 {
          ConfirmsLater(tries, expected, script, i);
        }
      }
    }
  }

  /** An exchange that succeeds has sent its frame. */
  lemma SuccessSends(tries: nat, expected: Byte, script: seq<Event>)
    ensures var r := Exchange(tries, expected, script); r.success ==> r.sends > 0
  {}

  // ---------------------------------------------------------------------------
  // The two loops

  /** C conversions between unsigned int and int, 32 bits wide. */
  function ToInt(u: nat): int
    requires u < 0x1_0000_0000
  {
    if u < 0x8000_0000 then u else u - 0x1_0000_0000
  }

  function ToUnsigned(i: int): nat
    requires -0x8000_0000 <= i < 0x8000_0000
  {
    if i >= 0 then i else i + 0x1_0000_0000
  }

  /** Attempts a retransmission setting allows: the inner loop compares it as a signed int. */
  function Attempts(setting: nat): nat
    requires setting < 0x1_0000_0000
  {
    if ToInt(setting) > 0 then ToInt(setting) else 0
  }

  /** The conversions keep the value modulo 2^32, and are inverse to each other. */
  lemma Conversions(i: int, u: nat)
    requires -0x8000_0000 <= i < 0x8000_0000 && u < 0x1_0000_0000
    ensures ToUnsigned(i) == i % 0x1_0000_0000 && ToInt(ToUnsigned(i)) == i
    ensures -0x8000_0000 <= ToInt(u) < 0x8000_0000 && ToUnsigned(ToInt(u)) == u
  {}

  /** A positive setting allows just so many attempts; one that the sign bit makes negative, none.
      On a silent line all of them are used up. */
  lemma AttemptsOf(setting: nat, expected: Byte)
    requires setting < 0x1_0000_0000
    ensures Attempts(setting) == if setting < 0x8000_0000 then setting else 0
    ensures Exchange(Attempts(setting), expected, []) == Result(false, [], Attempts(setting))
  {}

  /** What one call of the inner loop does: the counter it returns, the control byte it leaves,
      the rest of the script and the number of frames sent. */
  datatype Inner = Inner(left: int, control: Byte, rest: seq<Event>, sends: nat)

  function Acknowledge(tries: nat, control: Byte, script: seq<Event>): Inner
    decreases tries
  {
    if tries == 0 then Inner(0, control, script, 0)
    else
      var e := if script == [] then TimedOut else script[0];
      var rest := if script == [] then [] else script[1..];
      match e
      case SendFails => Inner(-1, control, rest, 0)
      case ReceiveFails => Inner(-1, 0, rest, 1)
      case TimedOut => More(Acknowledge(tries - 1, 0, rest))
      case Garbled(c) => More(Acknowledge(tries - 1, c, rest))
      case Received(c) => if IsReject(c) then More(Acknowledge(tries - 1, c, rest)) else Inner(tries, c, rest, 1)
  }

  function More(r: Inner): Inner {
    r.(sends := r.sends + 1)
  }

  /** How an outer loop goes on from the inner one: both loops together are one exchange. */
  lemma {:induction false} LoopsAreOneExchange(tries: nat, control: Byte, expected: Byte, script: seq<Event>)
    requires tries > 0 && !IsReject(expected) && expected != 0
    ensures var r := Acknowledge(tries, control, script);
            var x := Exchange(tries, expected, script);
            && -1 <= r.left <= tries && |r.rest| <= |script|
            && (r.left > 0 ==> |r.rest| < |script| && !IsReject(r.control))
            && (if r.left == -1 then x == Result(false, r.rest, r.sends)
                else if r.left == 0 then x == Result(r.control == expected, r.rest, r.sends)
                else if r.control == expected then x == Result(true, r.rest, r.sends)
                else var y := Exchange(r.left, expected, r.rest);
                     x == y.(sends := r.sends + y.sends))
    decreases tries
  {
    var e := if script == [] then TimedOut else script[0];
    var rest := if script == [] then [] else script[1..];
    var c := if e.Garbled? || e.Received? then e.control else 0;
    if Failure(e) && tries > 1 {
      LoopsAreOneExchange(tries - 1, c, expected, rest);
    }
  }

  /** A station that sends frames and waits for replies. `script` is what the following attempts
      will meet, `sent` the frames put on the line. */
  class Station {
    const numRetransmissions: nat
    var frameNumber: nat
    var isActive: bool
    var script: seq<Event>
    var sent: seq<Frame>

    constructor (numRetransmissions: nat, script: seq<Event>)
      requires numRetransmissions < 0x1_0000_0000
      ensures this.numRetransmissions == numRetransmissions && this.script == script
      ensures frameNumber == 0 && !isActive && sent == []
    {
      this.numRetransmissions, this.script := numRetransmissions, script;
      frameNumber, isActive, sent := 0, false, [];
    }

    /** f_send_acknowledged_frame, for a control byte `before` in the reply record. A frame that
        f_send_frame refuses is never sent. */
    method SendAcknowledgedFrame(setting: nat, outFrame: Frame, before: Byte) returns (left: int, control: Byte)
      requires setting < 0x1_0000_0000
      modifies this`script, this`sent
      ensures Hopeless(setting, outFrame) ==>
                left < 0 && control == before && script == old(script) && sent == old(sent)
      ensures !Hopeless(setting, outFrame) ==>
                (var r := Acknowledge(Attempts(setting), before, old(script));
                 left == r.left && control == r.control && script == r.rest
                 && sent == old(sent) + seq(r.sends, _ => outFrame))
    {
      var ntries := if setting == 0 then -1 else ToInt(setting);
      control := before;
      ghost var goal := Acknowledge(Attempts(setting), before, script);
      ghost var k := 0;
      assert sent == old(sent) + seq(0, _ => outFrame);
      while ntries > 0
        invariant Hopeless(setting, outFrame) ==>
                    control == before && script == old(script) && k == 0
                    && (ntries > 0 ==> |outFrame.data| > LL_MAX_PAYLOAD_UNSTUFFED)
                    && (ntries <= 0 ==> ntries < 0)
        invariant !Hopeless(setting, outFrame) ==>
                    (ntries >= 0
                     && var r := Acknowledge(ntries, control, script);
                        goal == r.(sends := k + r.sends))
        invariant sent == old(sent) + seq(k, _ => outFrame)
        decreases ntries
      {
        if |outFrame.data| > LL_MAX_PAYLOAD_UNSTUFFED {
          return -1, control;
        }
        var e := if script == [] then TimedOut else script[0];
        script := if script == [] then [] else script[1..];
        if e.SendFails? {
          return -1, control;
        }
        sent := sent + [outFrame];
        k := k + 1;
        control := 0;
        match e {
          case ReceiveFails =>
            return -1, control;
          case TimedOut =>
            ntries := ntries - 1;
          case Garbled(c) =>
            control := c;
            ntries := ntries - 1;
          case Received(c) =>
            control := c;
            if IsReject(control) {
              ntries := ntries - 1;
            } else {
              break;
            }
        }
      }
      left := ntries;
    }

    /** No attempt is made: the setting allows none, or f_send_frame refuses the frame. */
    static predicate Hopeless(setting: nat, f: Frame)
      requires setting < 0x1_0000_0000
    {
      Attempts(setting) == 0 || |f.data| > LL_MAX_PAYLOAD_UNSTUFFED
    }

    /** transmitter_write: the nested loops are one exchange for the RR of the current frame
        number; only their success advances the frame number. */
    method TransmitterWrite(data: seq<Byte>) returns (ret: int)
      requires numRetransmissions < 0x1_0000_0000
      modifies this`frameNumber, this`script, this`sent
      ensures ret == 0 || ret == -1
      ensures frameNumber == old(frameNumber) + if ret == 0 then 1 else 0
      ensures var out := Frame(ADDRESS, ControlByte(old(frameNumber)), data);
              var r := Exchange(Attempts(numRetransmissions), ReplyByte(old(frameNumber), true), old(script));
              if Hopeless(numRetransmissions, out) then ret == -1 && sent == old(sent) && script == old(script)
              else ret == (if r.success then 0 else -1) && script == r.rest
                   && sent == old(sent) + seq(r.sends, _ => out)
    {
      var outFrame := Frame(ADDRESS, ControlByte(frameNumber), data);
      var successRep := ReplyByte(frameNumber, true);
      var rejRep := ReplyByte(frameNumber, false);
      RepliesAreDistinct(frameNumber, frameNumber, true, true);
      RepliesAreDistinct(frameNumber, frameNumber, false, false);
      ghost var hopeless := Hopeless(numRetransmissions, outFrame);
      ghost var goal := Exchange(Attempts(numRetransmissions), successRep, script);
      ghost var k: nat := 0;
      assert sent == old(sent) + seq(0, _ => outFrame);
      var ntries: int := ToInt(numRetransmissions);
      while true
        invariant frameNumber == old(frameNumber)
        invariant -0x8000_0000 <= ntries < 0x8000_0000
        invariant k == 0 ==> ToUnsigned(ntries) == numRetransmissions
        invariant hopeless ==> script == old(script) && k == 0 && ToUnsigned(ntries) == numRetransmissions
        invariant !hopeless && ntries <= 0 ==> !goal.success && script == goal.rest && k == goal.sends
        invariant !hopeless && ntries > 0 ==>
                    (var r := Exchange(ntries, successRep, script); goal == r.(sends := k + r.sends))
        invariant sent == old(sent) + seq(k, _ => outFrame)
        decreases |script|, if ntries > 0 then 1 else 0
      {
        ghost var before, tries := script, ntries;
        var control;
        ntries, control := SendAcknowledgedFrame(ToUnsigned(ntries), outFrame, 0);
        if !hopeless && tries > 0 {
          LoopsAreOneExchange(tries, 0, successRep, before);
          ghost var more := Acknowledge(tries, 0, before).sends;
          assert seq(k, _ => outFrame) + seq(more, _ => outFrame) == seq(k + more, _ => outFrame);
          k := k + more;
        }
        if ntries < 0 {
          return -1;
        }
        if control == rejRep {
          ntries := ntries - 1;
        }
        if control == successRep {
          break;
        }
      }
      frameNumber := frameNumber + 1;
      return 0;
    }

    /** The outer loop of transmitter_connect, disconnect and handle_disconnect: the same exchange
        for a supervision frame, without the reject branch of transmitter_write. */
    method Negotiate(outFrame: Frame, expected: Byte) returns (ok: bool)
      requires numRetransmissions < 0x1_0000_0000
      requires outFrame.data == [] && !IsReject(expected) && expected != 0
      modifies this`script, this`sent
      ensures var r := Exchange(Attempts(numRetransmissions), expected, old(script));
              ok == r.success && script == r.rest && sent == old(sent) + seq(r.sends, _ => outFrame)
    {
      ghost var goal := Exchange(Attempts(numRetransmissions), expected, script);
      ghost var k: nat := 0;
      assert sent == old(sent) + seq(0, _ => outFrame);
      var ntries: int := ToInt(numRetransmissions);
      while true
        invariant -0x8000_0000 <= ntries < 0x8000_0000
        invariant ntries <= 0 ==> goal == Result(false, script, k)
        invariant ntries > 0 ==> (var r := Exchange(ntries, expected, script); goal == r.(sends := k + r.sends))
        invariant sent == old(sent) + seq(k, _ => outFrame)
        decreases |script|, if ntries > 0 then 1 else 0
      {
        ghost var before, tries := script, ntries;
        var control;
        ntries, control := SendAcknowledgedFrame(ToUnsigned(ntries), outFrame, 0);
        if tries > 0 {
          LoopsAreOneExchange(tries, 0, expected, before);
          ghost var more := Acknowledge(tries, 0, before).sends;
          assert seq(k, _ => outFrame) + seq(more, _ => outFrame) == seq(k + more, _ => outFrame);
          k := k + more;
        }
        if ntries < 0 {
          return false;
        }
        if control == expected {
          return true;
        }
      }
    }

    /** transmitter_connect, for a port that opens iff `opens`: SET until UA. */
    method TransmitterConnect(opens: bool) returns (ret: int)
      requires numRetransmissions < 0x1_0000_0000
      modifies this
      ensures frameNumber == 0 && (isActive <==> ret == 0) && ret in {0, -1}
      ensures var r := if opens then Exchange(Attempts(numRetransmissions), C_UA, old(script))
                       else Result(false, old(script), 0);
              && (ret == 0 <==> r.success) && script == r.rest
              && sent == old(sent) + seq(r.sends, _ => Supervision(C_SET))
    {
      isActive, frameNumber := false, 0;
      if !opens {
        return -1;
      }
      var ok := Negotiate(Supervision(C_SET), C_UA);
      if !ok {
        return -1;
      }
      isActive := true;
      return 0;
    }

    /** disconnect: DISC until DISC, then a UA; `writes` and `closes` say whether writing it and
        closing the port work. The connection is inactive afterwards in every case. */
    method Disconnect(writes: bool, closes: bool) returns (ret: int)
      requires numRetransmissions < 0x1_0000_0000
      modifies this
      ensures !isActive && frameNumber == old(frameNumber) && ret in {0, -1}
      ensures var r := Exchange(Attempts(numRetransmissions), C_DISC, old(script));
              && (ret == 0 <==> r.success && writes && closes) && script == r.rest
              && sent == old(sent) + seq(r.sends, _ => Supervision(C_DISC))
                         + (if r.success && writes then [Supervision(C_UA)] else [])
    {
      var ok := Negotiate(Supervision(C_DISC), C_DISC);
      if ok {
        if writes {
          sent := sent + [Supervision(C_UA)];
        } else {
          ok := false;
        }
      }
      isActive := false;
      return if ok && closes then 0 else -1;
    }

    /** handle_disconnect, the receiver's side: DISC until UA. */
    method HandleDisconnect(closes: bool) returns (ret: int)
      requires numRetransmissions < 0x1_0000_0000
      modifies this
      ensures !isActive && frameNumber == old(frameNumber) && ret in {0, -1}
      ensures var r := Exchange(Attempts(numRetransmissions), C_UA, old(script));
              && (ret == 0 <==> r.success && closes) && script == r.rest
              && sent == old(sent) + seq(r.sends, _ => Supervision(C_DISC))
    {
      var ok := Negotiate(Supervision(C_DISC), C_UA);
      isActive := false;
      return if ok && closes then 0 else -1;
    }
  }
}
