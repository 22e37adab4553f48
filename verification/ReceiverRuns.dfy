/** Whole calls of receiver_read: when they end, what they answer to each frame, and what a
    disconnect does (src/data_link.c). */
module ReceiverRuns {
  import opened Bits
  import opened Codes
  import opened Framing
  import opened Stream
  import opened Control
  import opened DataLinkIO
  import R = Receiver

  /** The account before reception `k`. */
  function Before(g: R.Start, calls: seq<Call>, k: nat): R.Account
    requires k <= |calls|
  {
    R.Tally(g.number, calls[..k], g.writes)
  }

  /** What held before reception `k` of a call of receiver_read. */
  lemma {:induction false} AskedBefore(g: R.Start, calls: seq<Call>, k: nat)
    requires R.Asked(g, calls) && k < |calls|
    ensures var t := Before(g, calls, k);
            && !t.ended && |t.content| < g.room && (g.limit == 0 || t.frames < g.limit)
            && calls[k].max == g.room - |t.content|
    decreases |calls|
  {
    var n := |calls| - 1;
    if k < n {
      AskedBefore(g, calls[..n], k);
      assert calls[..n][..k] == calls[..k];
    }
  }

  /** The account of the first reception. */
  lemma FirstTally(g: R.Start, calls: seq<Call>)
    requires calls != []
    ensures Before(g, calls, 0) == R.Account(0, [], g.number, [], false, false)
    ensures Before(g, calls, 1) == R.Effect(g.number, calls[0].outcome, g.writes(0))
  {
    assert calls[..1][..0] == [];
    var u := R.Effect(g.number, calls[0].outcome, g.writes(0));
    assert [] + u.content == u.content && [] + u.replies == u.replies;
  }

  /** One reception more. */
  lemma BeforeNext(g: R.Start, calls: seq<Call>, k: nat)
    requires k < |calls|
    ensures Before(g, calls, k + 1) == R.Serve(Before(g, calls, k), calls[k].outcome, g.writes(k))
  {
    assert calls[..k + 1][..k] == calls[..k] && calls[..k + 1][k] == calls[k];
  }

  // ---------------------------------------------------------------------------
  // What each frame is answered with

  /** A good frame with control byte 0b. */
  predicate IsDisconnect(p: Parsed) {
    p.Good? && p.control == 0x0b
  }

  /** A good frame that carries the parity of the number expected. */
  predicate IsExpected(p: Parsed, number: nat) {
    p.Good? && p.control == if number % 2 == 0 then 0x00 else 0x40
  }

  /** The call makes no reply to reception `k`: it is a disconnect, or the reply cannot be written. */
  predicate Unanswered(g: R.Start, calls: seq<Call>, k: nat)
    requires k < |calls|
  {
    IsDisconnect(calls[k].outcome) || !g.writes(k)
  }

  /** The byte on the wire for reception `k`: RR for the expected frame, REJ for any other and for
      a bad frame, with the parity of the number expected. */
  function ReplyTo(g: R.Start, calls: seq<Call>, k: nat): Byte
    requires k < |calls|
  {
    var number := Before(g, calls, k).number;
    (if IsExpected(calls[k].outcome, number) then 0x01 else 0x07) + (if number % 2 == 0 then 0x80 else 0x00)
  }

  /** The replies to the receptions of a call. */
  function RepliesTo(g: R.Start, calls: seq<Call>): seq<Byte>
    decreases |calls|
  {
    if calls == [] then []
    else
      var n := |calls| - 1;
      RepliesTo(g, calls[..n]) + (if Unanswered(g, calls, n) then [] else [ReplyTo(g, calls, n)])
  }

  /** How many of the replies are RRs. */
  function Acks(replies: seq<Byte>): nat {
    if replies == [] then 0
    else Acks(replies[..|replies| - 1]) + (if replies[|replies| - 1] % 8 == 0x01 then 1 else 0)
  }

  /** What the account of a call must be. */
  ghost predicate Answered(g: R.Start, calls: seq<Call>, t: R.Account) {
    && (t.ended <==> calls != [] && Unanswered(g, calls, |calls| - 1))
    && (t.disconnected <==> calls != [] && IsDisconnect(calls[|calls| - 1].outcome))
    && t.replies == RepliesTo(g, calls)
    && t.number == g.number + Acks(t.replies)
  }

  /** Every frame is answered, with RR exactly for the expected one, but for a disconnect and for a
      reply that cannot be written, which end the call; and the frame number grows by exactly the
      RRs written. */
  lemma {:induction false} EachAnswered(g: R.Start, calls: seq<Call>)
    ensures Answered(g, calls, R.Tally(g.number, calls, g.writes))
    decreases |calls|
  {
    if calls != [] {
      var n := |calls| - 1;
      var prefix := calls[..n];
      EachAnswered(g, prefix);
      var t := R.Tally(g.number, prefix, g.writes);
      var u := R.Effect(t.number, calls[n].outcome, g.writes(n));
      EffectOf(t.number, calls[n].outcome, g.writes(n));
      MoreAcks(t.replies, u.replies);
    }
  }

  lemma MoreAcks(replies: seq<Byte>, more: seq<Byte>)
    requires |more| <= 1
    ensures Acks(replies + more) == Acks(replies) + (if more != [] && more[0] % 8 == 0x01 then 1 else 0)
  {
    if more == [] {
      assert replies + more == replies;
    } else {
      assert (replies + more)[..|replies|] == replies;
    }
  }

  /** No reception of a call but the last goes unanswered. */
  lemma NoneUnanswered(g: R.Start, calls: seq<Call>, k: nat)
    requires R.Asked(g, calls) && k < |calls| - 1
    ensures !Unanswered(g, calls, k)
  {
    AskedBefore(g, calls, k + 1);
    BeforeNext(g, calls, k);
    EffectOf(Before(g, calls, k).number, calls[k].outcome, g.writes(k));
  }

  /** So reply `i` is the one to reception `i`. */
  lemma {:induction false} ReplyInTurn(g: R.Start, calls: seq<Call>, i: nat)
    requires R.Asked(g, calls) && i < |calls| && !Unanswered(g, calls, i)
    ensures i < |RepliesTo(g, calls)| && RepliesTo(g, calls)[i] == ReplyTo(g, calls, i)
    ensures |RepliesTo(g, calls)| == |calls| - (if Unanswered(g, calls, |calls| - 1) then 1 else 0)
    decreases |calls|
  {
    var n := |calls| - 1;
    var prefix := calls[..n];
    if n > 0 {
      var j := if i < n then i else n - 1;
      assert prefix[j] == calls[j] && prefix[..j] == calls[..j];
      NoneUnanswered(g, calls, j);
      NoneUnanswered(g, calls, n - 1);
      assert prefix[n - 1] == calls[n - 1];
      ReplyInTurn(g, prefix, j);
    }
  }

  /** One frame, in bytes. */
  lemma EffectOf(number: nat, p: Parsed, writes: bool)
    ensures var u := R.Effect(number, p, writes);
            && (u.ended <==> IsDisconnect(p) || !writes) && (u.disconnected <==> IsDisconnect(p))
            && (u.replies
                == if u.ended then []
                   else [(if IsExpected(p, number) then 0x01 else 0x07) + (if number % 2 == 0 then 0x80 else 0x00)])
            && u.number == number + (if !u.ended && IsExpected(p, number) then 1 else 0)
  {
    ControlBytesOnTheWire(number);
  }

  /** A call is disconnected exactly when it has received a good frame with control byte 0b, which
      then was the last it received. */
  lemma DisconnectedIff(g: R.Start, calls: seq<Call>)
    requires R.Asked(g, calls)
    ensures R.Tally(g.number, calls, g.writes).disconnected <==>
            exists k :: 0 <= k < |calls| && IsDisconnect(calls[k].outcome)
    ensures forall k :: 0 <= k < |calls| && IsDisconnect(calls[k].outcome) ==> k == |calls| - 1
  {
    EachAnswered(g, calls);
    forall k | 0 <= k < |calls| && IsDisconnect(calls[k].outcome) ensures k == |calls| - 1 {
      if k < |calls| - 1 {
        NoneUnanswered(g, calls, k);
      }
    }
  }

  // ---------------------------------------------------------------------------
  // A disconnect first in the stream

  lemma FirstIsDisconnect(g: R.Start, calls: seq<Call>, t: R.Account, waiting: bool, n: nat,
                          noise: seq<Byte>, idle: nat, rest: seq<Byte>)
    requires g.room > 0 && FLAG !in noise && (g.last == FLAG ==> noise == [])
    requires g.s == noise + Idle(idle) + Compose(Supervision(C_DISC)) + rest
    requires R.Ledger(g, calls, t) && n == |t.content|
    requires waiting ==> R.Dry(g.last, g.s, |calls|) && !t.ended
    requires waiting || t.ended || n >= g.room || (g.limit > 0 && t.frames == g.limit)
    ensures !waiting && |calls| == 1 && t == R.Account(0, [], g.number, [], true, true)
    ensures R.Position(g.last, g.s, 1) == (FLAG, rest)
  {
    var f := Supervision(C_DISC);
    ControlBytesSendable(C_DISC, []);
    FindFrame(g.last, noise, idle, f, rest);
    assert calls != [];
    FirstTally(g, calls);
    FirstCall(g.last, noise, idle, f, rest, calls);
    DisconnectedIff(g, calls);
    assert IsDisconnect(calls[0].outcome);
    assert |calls| == 1 && calls[..1] == calls;
  }

  /** receiver_read on a stream that starts with a DISC, for any limit, frame number and outcome of
      writing: it receives just that, stores nothing, answers nothing itself, keeps the frame
      number, leaves the connection inactive and the rest of the stream unread. */
  method ReadDisconnect(conn: R.Connection, link: SerialLink, data: array<Byte>, maxDataSize: nat, maxNumFrames: nat,
                        writes: nat -> bool, ghost noise: seq<Byte>, ghost idle: nat, ghost rest: seq<Byte>)
    returns (n: nat, waiting: bool)
    requires link.Valid() && 0 < maxDataSize < data.Length && data != link.buffer
    requires FLAG !in noise && (link.lastByte == FLAG ==> noise == [])
    requires link.input == noise + Idle(idle) + Compose(Supervision(C_DISC)) + rest
    modifies conn, link`input, link`lastByte, link`previousLastByte, link`output, link.buffer, data
    ensures n == 0 && !waiting && !conn.isActive && conn.frameNumber == old(conn.frameNumber)
    ensures link.output == old(link.output) && link.input == rest && link.lastByte == FLAG
  {
    ghost var calls, t, g;
    n, waiting, calls, t, g := conn.ReceiverRead(link, data, maxDataSize, maxNumFrames, writes);
    FirstIsDisconnect(g, calls, t, waiting, n, noise, idle, rest);
    assert g.output + R.Replies([]) == g.output;
  }
}
