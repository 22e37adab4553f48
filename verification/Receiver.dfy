/** receiver_read (src/data_link.c): what the receiver accepts, answers and stores, from the
    bytes on the line to the caller's buffer. */
module Receiver {
  import opened Bits
  import opened Codes
  import opened Framing
  import opened Stream
  import opened DataLinkIO
  import opened Control

  /** The account of a call: how many frames were accepted, their contents one after the other,
      the next frame number, the replies written, and whether the loop was left, in particular
      because the other side disconnected. */
  datatype Account = Account(frames: nat, content: seq<Byte>, number: nat, replies: seq<Byte>,
                             ended: bool, disconnected: bool)

  /** What one received frame does when `number` is expected; `writes` says whether the reply
      is written. */
  function Effect(number: nat, p: Parsed, writes: bool): Account {
    if p.Good? && p.control == C_DISC then Account(0, [], number, [], true, true)
    else if p.Good? && p.control == ControlByte(number) then
      if writes then Account(1, p.data, number + 1, [ReplyByte(number, true)], false, false)
      else Account(1, p.data, number, [], true, false)
    else if writes then Account(0, [], number, [ReplyByte(number, false)], false, false)
    else Account(0, [], number, [], true, false)
  }

  function Add(t: Account, u: Account): Account {
    Account(t.frames + u.frames, t.content + u.content, u.number, t.replies + u.replies, u.ended, u.disconnected)
  }

  function Serve(t: Account, p: Parsed, writes: bool): Account {
    Add(t, Effect(t.number, p, writes))
  }

  /** The account after `calls`, starting at frame number `start`. */
  function Tally(start: nat, calls: seq<Call>, writes: nat -> bool): Account {
    if calls == [] then Account(0, [], start, [], false, false)
    else
      var n := |calls| - 1;
      Serve(Tally(start, calls[..n], writes), calls[n].outcome, writes(n))
  }

  /** The frames with control bytes `replies`, as bytes on the line. */
  function Replies(replies: seq<Byte>): seq<Byte> {
    if replies == [] then []
    else Replies(replies[..|replies| - 1]) + Compose(Supervision(replies[|replies| - 1]))
  }

  /** The calls whose frames were accepted. */
  function Accepted(start: nat, calls: seq<Call>, writes: nat -> bool): seq<Call> {
    if calls == [] then []
    else
      var n := |calls| - 1;
      var t := Tally(start, calls[..n], writes);
      var p := calls[n].outcome;
      Accepted(start, calls[..n], writes)
      + (if p.Good? && p.control != C_DISC && p.control == ControlByte(t.number) then [calls[n]] else [])
  }

  function Contents(calls: seq<Call>): seq<seq<Byte>>
    requires forall c :: c in calls ==> c.outcome.Good?
  {
    seq(|calls|, i requires 0 <= i < |calls| => calls[i].outcome.data)
  }

  /** The account `t` is that of the accepted calls `a`: content, number of frames and, when every
      reply was `written`, frame numbers. */
  ghost predicate AccountFor(start: nat, a: seq<Call>, t: Account, written: bool) {
    && (forall c :: c in a ==> c.outcome.Good?)
    && t.frames == |a| && t.content == Concat(Contents(a)) && t.number <= start + t.frames
    && (written ==>
          t.number == start + t.frames && forall i :: 0 <= i < |a| ==> a[i].outcome.control == ControlByte(start + i))
  }

  /** Accounting: the content is that of the accepted frames in arrival order, each with its
      check byte, and nothing else; while every reply is written, the frame number grows by
      exactly the frames accepted, the i-th of which carried number start + i. */
  lemma {:induction false} TallyAccounts(start: nat, calls: seq<Call>, writes: nat -> bool)
    ensures AccountFor(start, Accepted(start, calls, writes), Tally(start, calls, writes), Written(writes, |calls|))
    decreases |calls|
  {
    if calls != [] {
      var n := |calls| - 1;
      var prefix, c := SplitLast(calls);
      TallyAccounts(start, prefix, writes);
      var all := AccountMore(start, Accepted(start, prefix, writes), Tally(start, prefix, writes), Written(writes, n),
                             c, writes(n), Written(writes, n + 1));
    }
  }

  /** The first `n` replies are written. */
  ghost predicate Written(writes: nat -> bool, n: nat) {
    forall i :: 0 <= i < n ==> writes(i)
  }

  /** One more reception. */
  lemma AccountMore(start: nat, a: seq<Call>, t: Account, written: bool, c: Call, writes: bool,
                    written': bool) returns (all: seq<Call>)
    requires AccountFor(start, a, t, written) && (written' ==> written && writes)
    ensures var p := c.outcome;
            all == a + (if p.Good? && p.control != C_DISC && p.control == ControlByte(t.number) then [c] else [])
    ensures AccountFor(start, all, Serve(t, c.outcome, writes), written')
  {
    var p := c.outcome;
    if p.Good? && p.control != C_DISC && p.control == ControlByte(t.number) {
      all := a + [c];
      ConcatSnoc(Contents(a), p.data);
      assert Contents(all) == Contents(a) + [p.data];
    } else {
      all := a;
    }
  }

  /** Where the stream stands after `n` completed calls. */
  function Position(last: Byte, s: seq<Byte>, n: nat): (Byte, seq<Byte>)
    decreases n
  {
    if n == 0 then (last, s)
    else
      match NextFrame(last, s)
      case Silent(l) => (l, [])
      case Framed(_, rest) => Position(FLAG, rest, n - 1)
  }

  lemma {:induction false} SessionSnoc(last: Byte, s: seq<Byte>, calls: seq<Call>, c: Call)
    requires Session(last, s, calls)
    requires var (l, r) := Position(last, s, |calls|);
             NextFrame(l, r).Framed? && Parses(c, NextFrame(l, r).chunk)
    ensures Session(last, s, calls + [c])
    ensures Position(last, s, |calls| + 1)
         == (FLAG, NextFrame(Position(last, s, |calls|).0, Position(last, s, |calls|).1).rest)
    decreases |calls|
  {
    var all := calls + [c];
    if calls == [] {
      assert all == [c] && all[1..] == [];
    } else {
      assert all[0] == calls[0] && all[1..] == calls[1..] + [c];
      SessionSnoc(FLAG, NextFrame(last, s).rest, calls[1..], c);
    }
  }

  class Connection {
    var frameNumber: nat
    var isActive: bool

    constructor ()
      ensures frameNumber == 0 && isActive
    {
      frameNumber, isActive := 0, true;
    }

    /** What shows of the connection, the line and the first `n` cells of the buffer. */
    ghost function View(link: SerialLink, data: array<Byte>, n: nat): Snapshot
      requires n <= data.Length
      reads this, link, data
    {
      Snapshot(data[..n], frameNumber, link.output, isActive)
    }

    /** After the calls that `t` accounts for, the buffer is filled up to `n`. */
    ghost predicate Shows(g: Start, t: Account, link: SerialLink, data: array<Byte>, n: nat)
      reads this, link, data
    {
      n <= data.Length && Agrees(g, t, View(link, data, n))
    }

    /** receiver_read into `data`, which needs one cell more than `maxDataSize`. `writes` says of
        each reply whether writing it works. The call may be left waiting on a silent line. The
        exchange that answers a DISC is Retry's HandleDisconnect. Besides the result it returns
        the calls of f_receive_frame it made and their account `t`. */
    method ReceiverRead(link: SerialLink, data: array<Byte>, maxDataSize: nat, maxNumFrames: nat, writes: nat -> bool)
      returns (n: nat, waiting: bool, ghost calls: seq<Call>, ghost t: Account, ghost g: Start)
      requires link.Valid() && maxDataSize < data.Length && data != link.buffer
      modifies this, link`input, link`lastByte, link`previousLastByte, link`output, link.buffer, data
      ensures g == Start(old(link.lastByte), old(link.input), old(link.output), old(frameNumber), old(isActive),
                         maxDataSize, maxNumFrames, writes)
      ensures Ledger(g, calls, t) && Shows(g, t, link, data, n)
      ensures waiting ==> link.input == [] && Dry(g.last, g.s, |calls|) && n < maxDataSize && !t.ended
                          && (maxNumFrames > 0 ==> t.frames < maxNumFrames)
      ensures !waiting ==> At(g.last, g.s, |calls|, link.lastByte, link.input)
      ensures data[maxDataSize + 1..] == old(data[maxDataSize + 1..])
      ensures maxNumFrames > 0 ==> t.frames <= maxNumFrames
      ensures waiting || t.ended || n >= maxDataSize || (maxNumFrames > 0 && t.frames == maxNumFrames)
    {
      var numFrames, round := 0, 0;
      n, waiting := 0, false;
      calls, t := [], Account(0, [], frameNumber, [], false, false);
      g := Start(link.lastByte, link.input, link.output, frameNumber, isActive, maxDataSize, maxNumFrames, writes);
      ghost var v := View(link, data, n);
      Begin(g, t, v);
      ghost var last, s := link.lastByte, link.input;
      while n < maxDataSize && (numFrames < maxNumFrames || maxNumFrames == 0)
        invariant Follows(g, calls, t, v, last, s) && last == link.lastByte && s == link.input
        invariant n <= maxDataSize + 1 && View(link, data, n) == v
        invariant round == |calls| && !t.ended && !waiting
        invariant numFrames == t.frames && (maxNumFrames > 0 ==> numFrames <= maxNumFrames)
        invariant data[maxDataSize + 1..] == old(data[maxDataSize + 1..])
        decreases |link.input|
      {
        var frames, stop;
        ghost var scan := NextScan(last, s);
        ghost var before := v;
        ghost var c, u;
        n, frames, stop, waiting, c, u, v := ServeOne(link, data, n, maxDataSize, writes(round), scan, v);
        if waiting {
          break;
        }
        calls, t, last, s := Enter(g, calls, t, before, last, s, c, u, v);
        numFrames, round := numFrames + frames, round + 1;
        if stop {
          break;
        }
      }
      Report(g, calls, t, v, last, s);
    }

    /** One round of the loop of receiver_read, with the buffer filled up to `p`. */
    method ServeOne(link: SerialLink, data: array<Byte>, p: nat, maxDataSize: nat, writes: bool,
                    ghost scan: Scan, ghost v: Snapshot)
      returns (n: nat, frames: nat, stop: bool, waiting: bool, ghost c: Call, ghost u: Account, ghost v': Snapshot)
      requires link.Valid() && p < maxDataSize < data.Length && data != link.buffer
      requires scan == NextFrame(link.lastByte, link.input) && v == View(link, data, p)
      modifies this, link`input, link`lastByte, link`previousLastByte, link`output, link.buffer, data
      ensures data[maxDataSize + 1..] == old(data[maxDataSize + 1..])
      ensures n <= maxDataSize + 1 && v' == View(link, data, n)
      ensures waiting <==> scan.Silent?
      ensures waiting ==> n == p && frames == 0 && link.input == [] && v' == v
      ensures !waiting ==> Parses(c, scan.chunk) && c.max == maxDataSize - p && !c.outcome.Missing?
                           && link.lastByte == FLAG && link.input == scan.rest
      ensures !waiting ==> u == Effect(v.number, c.outcome, writes) && v' == Served(v, u)
                           && stop == u.ended && frames == u.frames
    {
      var code, control, size;
      u := Effect(frameNumber, Missing, writes);
      code, control, size, c := Accept(link, data, p, maxDataSize, scan);
      waiting := code == Blocked;
      if waiting {
        return p, 0, false, waiting, c, u, v;
      }
      u := Effect(frameNumber, c.outcome, writes);
      ghost var before, content := data[..p], data[p..p + size];
      assert data[..p + size] == before + content;
      var got;
      got, frames, stop := Answer(link, code, control, size, c.outcome, writes);
      n := p + got;
      assert data[..p] == before && (frames == 1 ==> data[..n] == before + content);
      v' := View(link, data, n);
    }

    /** Receives one frame into `data` from `p` on. */
    method Accept(link: SerialLink, data: array<Byte>, p: nat, maxDataSize: nat, ghost scan: Scan)
      returns (code: Code, control: Byte, size: nat, ghost c: Call)
      requires link.Valid() && p < maxDataSize < data.Length && data != link.buffer
      requires scan == NextFrame(link.lastByte, link.input)
      modifies link`input, link`lastByte, link`previousLastByte, link.buffer, data
      ensures data[..p] == old(data[..p]) && data[maxDataSize + 1..] == old(data[maxDataSize + 1..])
      ensures code == Blocked <==> scan.Silent?
      ensures scan.Silent? ==> link.input == []
      ensures scan.Framed? ==> Parses(c, scan.chunk) && c.max == maxDataSize - p && !c.outcome.Missing?
                               && link.lastByte == FLAG && link.input == scan.rest
                               && (c.outcome.Bad? <==> code == BadFrame)
      ensures size <= maxDataSize - p + 1
      ensures scan.Framed? && c.outcome.Good? ==>
                control == c.outcome.control && size == |c.outcome.data| && data[p..p + size] == c.outcome.data
    {
      var garbage: Byte := *;
      var frame := new FrameRecord(data, p, maxDataSize - p, garbage);
      code, c := link.ReceiveFrame(frame, false, scan);
      control, size := 0, 0;
      if code == Success {
        control, size := frame.control, frame.size;
        assert data[p..p + size] == frame.Contents();
      }
    }

    /** What receiver_read does once f_receive_frame has returned `code` and filled the record. */
    method Answer(link: SerialLink, code: Code, control: Byte, size: nat, ghost p: Parsed, writes: bool)
      returns (got: nat, frames: nat, stop: bool)
      requires link.Valid() && !p.Missing? && (p.Bad? <==> code == BadFrame)
      requires p.Good? ==> control == p.control && size == |p.data|
      modifies this, link`output, link.buffer
      ensures var u := Effect(old(frameNumber), p, writes);
              && stop == u.ended && frameNumber == u.number && frames == u.frames
              && isActive == (old(isActive) && !u.disconnected)
              && got == |u.content| && u.content == (if frames == 1 then p.data else [])
              && link.output == old(link.output) + Replies(u.replies)
    {
      got, frames, stop := 0, 0, false;
      ReplyBytes(frameNumber);
      var sent := Success;
      if code == BadFrame {
        sent := link.SendFrame(Supervision(ReplyByte(frameNumber, false)), writes);
      } else if control == C_DISC {
        isActive := false;
        stop := true;
      } else if control != ControlByte(frameNumber) {
        sent := link.SendFrame(Supervision(ReplyByte(frameNumber, false)), writes);
      } else {
        got, frames := size, 1;
        sent := link.SendFrame(Supervision(ReplyByte(frameNumber, true)), writes);
        if sent == Success {
          frameNumber := frameNumber + 1;
        }
      }
      if sent != Success {
        stop := true;
      }
    }
  }

  lemma ReplyBytes(n: nat)
    ensures Replies([]) == []
    ensures forall b :: Replies([ReplyByte(n, b)]) == Compose(Supervision(ReplyByte(n, b)))
  {
    forall b ensures Replies([ReplyByte(n, b)]) == Compose(Supervision(ReplyByte(n, b))) {
      RepliesSnoc([], ReplyByte(n, b));
      assert [] + [ReplyByte(n, b)] == [ReplyByte(n, b)];
    }
  }

  lemma RepliesAdd(r: seq<Byte>, u: seq<Byte>, output: seq<Byte>)
    requires |u| <= 1
    ensures output + Replies(r) + Replies(u) == output + Replies(r + u)
  {
    if u == [] {
      assert r + u == r;
    } else {
      assert u == [] + [u[0]];
      RepliesSnoc(r, u[0]);
      RepliesSnoc([], u[0]);
      Assoc(output, Replies(r), Replies(u));
    }
  }

  lemma RepliesSnoc(replies: seq<Byte>, c: Byte)
    ensures Replies(replies + [c]) == Replies(replies) + Compose(Supervision(c))
  {
    assert (replies + [c])[..|replies|] == replies;
  }

  /** Where a call of receiver_read began. */
  datatype Start = Start(last: Byte, s: seq<Byte>, output: seq<Byte>, number: nat, active: bool,
                         room: nat, limit: nat, writes: nat -> bool)

  /** Every reception was made because the loop of receiver_read was not done, and was given the
      room that the contents accepted before it left. */
  ghost predicate Asked(g: Start, calls: seq<Call>)
    decreases |calls|
  {
    calls == []
    || (var n := |calls| - 1;
        var t := Tally(g.number, calls[..n], g.writes);
        && Asked(g, calls[..n]) && !t.ended && Open(g, t)
        && calls[n].max == g.room - |t.content|)
  }

  /** The condition of the loop. */
  predicate Open(g: Start, t: Account) {
    |t.content| < g.room && (t.frames < g.limit || g.limit == 0)
  }

  /** `calls` are successive receptions on the stream, made as receiver_read makes them, and `t`
      accounts for them. */
  ghost predicate Ledger(g: Start, calls: seq<Call>, t: Account) {
    Session(g.last, g.s, calls) && Asked(g, calls) && t == Tally(g.number, calls, g.writes)
  }

  /** After `n` receptions the stream stands at `last'` and `s'`. */
  ghost predicate At(last: Byte, s: seq<Byte>, n: nat, last': Byte, s': seq<Byte>) {
    Position(last, s, n) == (last', s')
  }

  /** The stream holds no further chunk after `n` receptions. */
  ghost predicate Dry(last: Byte, s: seq<Byte>, n: nat) {
    NextFrame(Position(last, s, n).0, Position(last, s, n).1).Silent?
  }

  lemma NextScan(last: Byte, s: seq<Byte>) returns (scan: Scan)
    ensures scan == NextFrame(last, s) && (scan.Framed? ==> |scan.rest| < |s|)
  {
    scan := NextFrame(last, s);
  }

  /** What shows of a receiver: buffer contents, next frame number, replies written, activity. */
  datatype Snapshot = Snapshot(content: seq<Byte>, number: nat, output: seq<Byte>, active: bool)

  ghost predicate Agrees(g: Start, t: Account, v: Snapshot) {
    && v.content == t.content && |t.content| <= g.room + 1 && v.number == t.number
    && v.output == g.output + Replies(t.replies)
    && (v.active <==> g.active && !t.disconnected) && (t.disconnected ==> t.ended)
  }

  /** The snapshot after a frame with effect `u`. */
  function Served(v: Snapshot, u: Account): Snapshot {
    Snapshot(v.content + u.content, u.number, v.output + Replies(u.replies), v.active && !u.disconnected)
  }

  /** Round by round: the calls made so far lead to the account, the snapshot and the place in the
      stream given. */
  ghost predicate Follows(g: Start, calls: seq<Call>, t: Account, v: Snapshot, last: Byte, s: seq<Byte>)
    decreases |calls|
  {
    if calls == [] then
      && t == Account(0, [], g.number, [], false, false)
      && v == Snapshot([], g.number, g.output, g.active) && last == g.last && s == g.s
    else
      var n := |calls| - 1;
      exists t0, v0, last0, s0 ::
        Follows(g, calls[..n], t0, v0, last0, s0) && Steps(g, n, t0, v0, last0, s0, calls[n], t, v, last, s)
  }

  /** One round, for reception `n`. */
  ghost predicate Steps(g: Start, n: nat, t0: Account, v0: Snapshot, last0: Byte, s0: seq<Byte>, c: Call,
                        t: Account, v: Snapshot, last: Byte, s: seq<Byte>)
  {
    && !t0.ended && |v0.content| < g.room && (t0.frames < g.limit || g.limit == 0)
    && NextFrame(last0, s0).Framed? && Parses(c, NextFrame(last0, s0).chunk) && c.max == g.room - |v0.content|
    && var u := Effect(v0.number, c.outcome, g.writes(n));
       && |v0.content| + |u.content| <= g.room + 1
       && t == Add(t0, u) && v == Served(v0, u) && last == FLAG && s == NextFrame(last0, s0).rest
  }

  lemma Begin(g: Start, t: Account, v: Snapshot)
    requires t == Account(0, [], g.number, [], false, false) && v == Snapshot([], g.number, g.output, g.active)
    ensures Follows(g, [], t, v, g.last, g.s)
  {}

  /** Enters one more call. */
  lemma Enter(g: Start, calls: seq<Call>, t: Account, v: Snapshot, last: Byte, s: seq<Byte>, c: Call, u: Account,
              v': Snapshot)
    returns (all: seq<Call>, t': Account, last': Byte, s': seq<Byte>)
    requires Follows(g, calls, t, v, last, s) && !t.ended
    requires |v.content| < g.room && (t.frames < g.limit || g.limit == 0)
    requires NextFrame(last, s).Framed? && Parses(c, NextFrame(last, s).chunk) && c.max == g.room - |v.content|
    requires u == Effect(v.number, c.outcome, g.writes(|calls|)) && v' == Served(v, u) && |v'.content| <= g.room + 1
    ensures |all| == |calls| + 1 && Follows(g, all, t', v', last', s')
    ensures t'.frames == t.frames + u.frames <= t.frames + 1 && t'.ended == u.ended
    ensures last' == FLAG && s' == NextFrame(last, s).rest && |s'| < |s|
  {
    all, t' := calls + [c], Add(t, u);
    last', s' := FLAG, NextFrame(last, s).rest;
    assert all[..|calls|] == calls;
    assert Steps(g, |calls|, t, v, last, s, c, t', v', last', s');
  }

  /** What the rounds amount to. */
  lemma {:induction false} Report(g: Start, calls: seq<Call>, t: Account, v: Snapshot, last: Byte, s: seq<Byte>)
    requires Follows(g, calls, t, v, last, s)
    ensures Ledger(g, calls, t) && At(g.last, g.s, |calls|, last, s) && Agrees(g, t, v)
    decreases |calls|
  {
    if calls == [] {
      assert g.output + Replies([]) == g.output;
    } else {
      var prefix, c, t0, v0, last0, s0 := LastRound(g, calls, t, v, last, s);
      Report(g, prefix, t0, v0, last0, s0);
      ReportStep(g, prefix, t0, v0, last0, s0, c, t, v, last, s);
    }
  }

  lemma SplitLast(calls: seq<Call>) returns (prefix: seq<Call>, c: Call)
    requires calls != []
    ensures prefix == calls[..|calls| - 1] && c == calls[|calls| - 1] && calls == prefix + [c]
  {
    prefix, c := calls[..|calls| - 1], calls[|calls| - 1];
  }

  lemma LastRound(g: Start, calls: seq<Call>, t: Account, v: Snapshot, last: Byte, s: seq<Byte>)
    returns (prefix: seq<Call>, c: Call, t0: Account, v0: Snapshot, last0: Byte, s0: seq<Byte>)
    requires calls != [] && Follows(g, calls, t, v, last, s)
    ensures calls == prefix + [c] && |prefix| == |calls| - 1
    ensures Follows(g, prefix, t0, v0, last0, s0) && Steps(g, |prefix|, t0, v0, last0, s0, c, t, v, last, s)
  {
    var n := |calls| - 1;
    prefix, c := SplitLast(calls);
    t0, v0, last0, s0 :| Follows(g, prefix, t0, v0, last0, s0) && Steps(g, n, t0, v0, last0, s0, c, t, v, last, s);
  }

  lemma ReportStep(g: Start, calls: seq<Call>, t0: Account, v0: Snapshot, last0: Byte, s0: seq<Byte>, c: Call,
                   t: Account, v: Snapshot, last: Byte, s: seq<Byte>)
    requires Ledger(g, calls, t0) && At(g.last, g.s, |calls|, last0, s0) && Agrees(g, t0, v0)
    requires Steps(g, |calls|, t0, v0, last0, s0, c, t, v, last, s)
    ensures var all := calls + [c];
            Ledger(g, all, t) && At(g.last, g.s, |all|, last, s) && Agrees(g, t, v)
  {
    var all := calls + [c];
    assert all[..|calls|] == calls;
    SessionSnoc(g.last, g.s, calls, c);
    AgreesStill(g, t0, v0, Effect(v0.number, c.outcome, g.writes(|calls|)));
  }

  lemma AgreesStill(g: Start, t: Account, v: Snapshot, u: Account)
    requires Agrees(g, t, v) && !t.ended && |u.replies| <= 1 && (u.disconnected ==> u.ended)
    requires |v.content| + |u.content| <= g.room + 1
    ensures Agrees(g, Add(t, u), Served(v, u))
  {
    RepliesAdd(t.replies, u.replies, g.output);
  }
}
