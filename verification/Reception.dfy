/** The receiving application on an error-free line: one call of receiver_read per packet, and
    the file put together from the buffers (llread and receive_file in src/packets.c). */
module Reception {
  import opened Bits
  import opened Codes
  import opened Framing
  import opened Stream
  import opened Control
  import opened DataLinkIO
  import opened Packets
  import opened EndToEnd
  import ControlPacket
  import Reassembly
  import opened ReceiverRuns
  import R = Receiver
  import Retry

  /** The control bytes of the RRs for the frames 0 .. n - 1. */
  function Acks(n: nat): (s: seq<Byte>)
    ensures |s| == n
  {
    seq(n, i requires 0 <= i < n => ReplyByte(i, true))
  }

  /** They are the prompt replies that SendTransfer asks for. */
  lemma AcksArePrompt(n: nat)
    ensures Prompt(seq(n, i requires 0 <= i < n => Retry.Received(Acks(n)[i])), 0)
  {
    assert forall i :: 0 <= i < n ==> Acks(n)[i] == ReplyByte(0 + i, true);
  }

  /** A call of receiver_read for one frame, on a stream that starts with the expected frame, makes
      one reception and accepts it. */
  lemma OneReception(g: R.Start, calls: seq<Call>, t: R.Account, waiting: bool, n: nat,
                     noise: seq<Byte>, idle: nat, f: Frame, rest: seq<Byte>)
    requires Sendable(f) && 0 < |f.data| <= g.room && f == PacketFrame(g.number, f.data)
    requires g.limit == 1 && g.writes(0)
    requires FLAG !in noise && (g.last == FLAG ==> noise == []) && g.s == noise + Idle(idle) + Compose(f) + rest
    requires R.Ledger(g, calls, t) && n == |t.content|
    requires waiting ==> R.Dry(g.last, g.s, |calls|) && t.frames < 1
    requires waiting || t.ended || n >= g.room || t.frames == 1
    ensures !waiting && |calls| == 1
    ensures t == R.Account(1, f.data + [Xor(f.data)], g.number + 1, [ReplyByte(g.number, true)], false, false)
    ensures R.Position(g.last, g.s, 1) == (FLAG, rest)
  {
    FindFrame(g.last, noise, idle, f, rest);
    assert calls != [];
    FirstTally(g, calls);
    AskedBefore(g, calls, 0);
    FirstCall(g.last, noise, idle, f, rest, calls);
    Accepts(g.number, f, calls[0]);
    if |calls| > 1 {
      AskedBefore(g, calls, 1);
      assert false;
    }
    assert calls[..1] == calls;
  }

  lemma Accepts(number: nat, f: Frame, c: Call)
    requires f == PacketFrame(number, f.data) && f.data != [] && c.outcome == Delivered(f)
    ensures R.Effect(number, c.outcome, true)
         == R.Account(1, f.data + [Xor(f.data)], number + 1, [ReplyByte(number, true)], false, false)
  {
    assert ControlByte(number) != C_DISC;
  }

  /** llread on an active connection: one packet into a fresh buffer, on a stream that starts with
      the expected frame. The buffer has the extra cell that receiver_read needs. */
  method ReadPacket(conn: R.Connection, link: SerialLink, packetSize: nat,
                    ghost noise: seq<Byte>, ghost idle: nat, ghost packet: seq<Byte>, ghost rest: seq<Byte>)
    returns (buffer: seq<Byte>)
    requires link.Valid() && conn.isActive && 0 < |packet| <= packetSize <= FRAME_SIZE
    requires FLAG !in noise && (link.lastByte == FLAG ==> noise == [])
    requires link.input == noise + Idle(idle) + Compose(PacketFrame(conn.frameNumber, packet)) + rest
    modifies conn, link`input, link`lastByte, link`previousLastByte, link`output, link.buffer
    ensures |buffer| == packetSize + 1 && packet + [Xor(packet)] <= buffer
    ensures conn.frameNumber == old(conn.frameNumber) + 1 && conn.isActive
    ensures link.input == rest && link.lastByte == FLAG
    ensures link.output == old(link.output) + R.Replies([ReplyByte(old(conn.frameNumber), true)])
  {
    var data := new Byte[packetSize + 1];
    ghost var f := PacketFrame(conn.frameNumber, packet);
    DataFrameSendable(conn.frameNumber, packet);
    var always := (i: nat) => true;
    var n, waiting;
    ghost var calls, t, g;
    n, waiting, calls, t, g := conn.ReceiverRead(link, data, packetSize, 1, always);
    OneReception(g, calls, t, waiting, n, noise, idle, f, rest);
    assert data[..][..n] == data[..n];
    return data[..];
  }

  /** The line still to come after the first `i` frames of a transfer. */
  function Remaining(t: Transfer, idle: seq<nat>, tail: seq<Byte>, i: nat): seq<Byte>
    requires Fit(t) && |idle| == |FilePackets(t)| && i <= |idle|
  {
    Line(PacketFrames(FilePackets(t))[i..], idle[i..]) + tail
  }

  lemma NextRemaining(t: Transfer, idle: seq<nat>, tail: seq<Byte>, i: nat, noise: seq<Byte>)
    requires Fit(t) && |idle| == |FilePackets(t)| && i < |idle|
    ensures noise + Remaining(t, idle, tail, i)
         == noise + Idle(idle[i]) + Compose(PacketFrame(i, FilePackets(t)[i])) + Remaining(t, idle, tail, i + 1)
  {
    var frames := PacketFrames(FilePackets(t))[i..];
    var idles := idle[i..];
    assert frames[1..] == PacketFrames(FilePackets(t))[i + 1..] && idles[1..] == idle[i + 1..];
    var rest := Line(frames[1..], idles[1..]);
    LineHead(noise, frames, idles, tail);
    assert [] + rest == rest;
    Assoc(noise, Line(frames, idles), tail);
  }

  /** The first `i` packets have been read and answered. */
  ghost predicate Read(t: Transfer, buffers: seq<seq<Byte>>, i: nat)
    requires Fit(t)
  {
    |buffers| == i <= |FilePackets(t)|
    && forall j :: 0 <= j < i ==> |buffers[j]| >= ControlPacket.PARSE_CELLS && FilePackets(t)[j] <= buffers[j]
  }

  lemma ReadMore(t: Transfer, buffers: seq<seq<Byte>>, i: nat, buffer: seq<Byte>)
    requires Fit(t) && Read(t, buffers, i) && i < |FilePackets(t)|
    requires |buffer| >= ControlPacket.PARSE_CELLS && FilePackets(t)[i] + [Xor(FilePackets(t)[i])] <= buffer
    ensures Read(t, buffers + [buffer], i + 1)
    ensures buffer[0] == CONTROL_FIELD_END <==> i + 1 == |FilePackets(t)|
  {
    var p := FilePackets(t)[i];
    assert p <= p + [Xor(p)] <= buffer;
    assert p[0] == if i == 0 then CONTROL_FIELD_START
                   else if i + 1 == |FilePackets(t)| then CONTROL_FIELD_END else CONTROL_FIELD_DATA;
    assert buffer[0] == p[0];
  }

  lemma AcksMore(n: nat, output: seq<Byte>)
    ensures output + R.Replies(Acks(n)) + R.Replies([ReplyByte(n, true)]) == output + R.Replies(Acks(n + 1))
  {
    R.RepliesAdd(Acks(n), [ReplyByte(n, true)], output);
    assert Acks(n) + [ReplyByte(n, true)] == Acks(n + 1);
  }

  /** Reads packets until an end packet, on a stream that holds those of a transfer. */
  method ReadAll(conn: R.Connection, link: SerialLink, packetSize: nat,
                 ghost t: Transfer, ghost noise: seq<Byte>, ghost idle: seq<nat>, ghost tail: seq<Byte>)
    returns (buffers: seq<seq<Byte>>)
    requires link.Valid() && conn.isActive && conn.frameNumber == 0
    requires Fit(t) && packetSize == t.packetSize && packetSize + 1 >= ControlPacket.PARSE_CELLS
    requires |idle| == |FilePackets(t)| && FLAG !in noise && (link.lastByte == FLAG ==> noise == [])
    requires link.input == noise + Remaining(t, idle, tail, 0)
    modifies conn, link`input, link`lastByte, link`previousLastByte, link`output, link.buffer
    ensures Read(t, buffers, |FilePackets(t)|)
    ensures link.input == tail && conn.isActive && conn.frameNumber == |FilePackets(t)|
    ensures link.output == old(link.output) + R.Replies(Acks(|FilePackets(t)|))
  {
    buffers := [];
    var done := false;
    ghost var noiseLeft := noise;
    assert link.output + R.Replies(Acks(0)) == link.output;
    while !done
      invariant conn.isActive && conn.frameNumber == |buffers| <= |FilePackets(t)| && Read(t, buffers, |buffers|)
      invariant done <==> |buffers| == |FilePackets(t)|
      invariant FLAG !in noiseLeft && (link.lastByte == FLAG ==> noiseLeft == [])
      invariant link.input == noiseLeft + Remaining(t, idle, tail, |buffers|)
      invariant done ==> noiseLeft == []
      invariant link.output == old(link.output) + R.Replies(Acks(|buffers|))
      decreases |FilePackets(t)| - |buffers|
    {
      ghost var i := |buffers|;
      PacketSizes(t);
      NextRemaining(t, idle, tail, i, noiseLeft);
      var buffer := ReadPacket(conn, link, packetSize, noiseLeft, idle[i], FilePackets(t)[i],
                               Remaining(t, idle, tail, i + 1));
      ReadMore(t, buffers, i, buffer);
      AcksMore(i, old(link.output));
      noiseLeft := [];
      assert [] + Remaining(t, idle, tail, i + 1) == Remaining(t, idle, tail, i + 1);
      buffers := buffers + [buffer];
      done := buffer[0] == CONTROL_FIELD_END;
    }
    assert Remaining(t, idle, tail, |FilePackets(t)|) == tail;
  }

  /** The receiving application, counterpart of SendTransfer: when the frames that SendTransfer puts
      on the line arrive without errors, it gets the file, its size and its name, counts nothing
      as lost or duplicated, and answers with exactly the RRs that make SendTransfer succeed. */
  method ReceiveTransfer(conn: R.Connection, link: SerialLink, packetSize: nat, attempts: int,
                         ghost t: Transfer, ghost noise: seq<Byte>, ghost idle: seq<nat>, ghost tail: seq<Byte>)
    returns (ret: Option<int>, file: seq<Byte>, header: Option<(nat, seq<Byte>)>, lost: nat, duplicated: nat)
    requires link.Valid() && conn.isActive && conn.frameNumber == 0 && attempts > 0
    requires Fit(t) && packetSize == t.packetSize && packetSize + 1 >= ControlPacket.PARSE_CELLS
    requires |idle| == |FilePackets(t)| && FLAG !in noise && (link.lastByte == FLAG ==> noise == [])
    requires link.input == noise + Line(PacketFrames(FilePackets(t)), idle) + tail
    modifies conn, link`input, link`lastByte, link`previousLastByte, link`output, link.buffer
    ensures ret == Some(0) && file == t.file && header == Some((|t.file|, t.name)) && lost == duplicated == 0
    ensures link.input == tail && conn.frameNumber == |FilePackets(t)|
    ensures link.output == old(link.output) + R.Replies(Acks(|FilePackets(t)|))
  {
    assert PacketFrames(FilePackets(t))[0..] == PacketFrames(FilePackets(t)) && idle[0..] == idle;
    Assoc(noise, Line(PacketFrames(FilePackets(t)), idle), tail);
    var buffers := ReadAll(conn, link, packetSize, t, noise, idle, tail);
    PacketsGiveFile(t, buffers, attempts);
    header := if buffers[0][0] == CONTROL_FIELD_START then ControlPacket.Parse(buffers[0]) else None;
    var statistics := new Reassembly.Statistics();
    var receiver := new Reassembly.FileReceiver(statistics);
    ret := receiver.ReceiveDataPackets(Arrivals(buffers[1..]), attempts);
    file, lost, duplicated := receiver.file, statistics.lostPackets, statistics.duplicatedPackets;
  }
}
