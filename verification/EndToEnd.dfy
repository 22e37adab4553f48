/** A file from one application to the other, through all the layers: packets, frames, the line
    and back. */
module EndToEnd {
  import opened Bits
  import opened Codes
  import opened Framing
  import opened Stream
  import opened Control
  import opened Packets
  import ControlPacket
  import Reassembly
  import Receiver
  import Retry
  import StopAndWait

  /** What send_file transmits. `startJunk` and `endJunk` are the bytes that the two control
      packets leave unwritten. */
  datatype Transfer = Transfer(file: seq<Byte>, name: seq<Byte>, packetSize: nat, maxTransfer: int,
                               startJunk: Byte, endJunk: Byte)

  /** The packet size is one that f_send_frame takes, and the control packets fit it. */
  predicate Fit(t: Transfer) {
    && DATA_HEADER_SIZE < t.packetSize <= FRAME_SIZE
    && 14 + |t.name| <= t.packetSize && |t.name| <= 255
    && |t.file| < 0x1_0000_0000_0000_0000
  }

  function FileChunks(t: Transfer): seq<seq<Byte>>
    requires Fit(t)
  {
    Chunks(t.file, MaxData(t.packetSize, t.maxTransfer))
  }

  /** The packets of a transfer: start packet, data packets numbered from zero, end packet. */
  function FilePackets(t: Transfer): seq<seq<Byte>>
    requires Fit(t)
  {
    [ControlPacket.Build(CONTROL_FIELD_START, |t.file|, t.name, t.startJunk)]
    + seq(|FileChunks(t)|, i requires 0 <= i < |FileChunks(t)| => DataPacket(i, FileChunks(t)[i]))
    + [ControlPacket.Build(CONTROL_FIELD_END, |t.file|, t.name, t.endJunk)]
  }

  lemma PacketSizes(t: Transfer)
    requires Fit(t)
    ensures forall i :: 0 <= i < |FilePackets(t)| ==> 0 < |FilePackets(t)[i]| <= t.packetSize
    ensures forall i :: 0 <= i < |FileChunks(t)| ==> 0 < |FileChunks(t)[i]| < 65536
  {
    ChunksShape(t.file, MaxData(t.packetSize, t.maxTransfer));
  }

  /** The frame in which transmitter_write sends packet `n` of a connection. */
  function PacketFrame(n: nat, packet: seq<Byte>): Frame {
    Frame(ADDRESS, ControlByte(n), packet)
  }

  /** Bound chain: every packet of a transfer passes the size check of f_send_frame, its stuffed
      body has no FLAG and at most 8190 bytes, the frame has at most 8195 and fits the buffers, and
      a receiver with room for one packet takes it, whatever the buffer held before. */
  lemma BoundChain(t: Transfer, i: nat, buffer: seq<Byte>, stale: Byte)
    requires Fit(t) && i < |FilePackets(t)|
    requires |buffer| == LL_MAX_FRAME_SZ
    ensures var f := PacketFrame(i, FilePackets(t)[i]);
            && Sendable(f) && f.data != [] && FLAG !in Body(f)
            && |Body(f)| <= 8190 && |Compose(f)| <= 8195 <= LL_MAX_FRAME_SZ
            && (Compose(f) <= buffer ==>
                  Parse(buffer, t.packetSize, stale) == Good(ADDRESS, ControlByte(i), f.data + [Xor(f.data)]))
  {
    PacketSizes(t);
    var f := PacketFrame(i, FilePackets(t)[i]);
    DataFrameSendable(i, f.data);
    BodyBounds(f);
    ComposeBounds(f);
    if Compose(f) <= buffer {
      RoundTrip(f, buffer, t.packetSize, stale);
    }
  }

  // ---------------------------------------------------------------------------
  // The sending application

  /** The offers carry the packets in order, under frame numbers from 0 on, and all were sent. */
  ghost predicate Carry(offers: seq<Offer>, packets: seq<seq<Byte>>) {
    |offers| == |packets|
    && forall i :: 0 <= i < |offers| ==>
         offers[i].packet == packets[i] && offers[i].number == i && offers[i].copies > 0
  }

  ghost predicate OneCopyEach(offers: seq<Offer>) {
    forall i :: 0 <= i < |offers| ==> offers[i].copies == 1
  }

  lemma {:induction false} OneCopyOfEach(offers: seq<Offer>, packets: seq<seq<Byte>>)
    requires Carry(offers, packets) && OneCopyEach(offers)
    ensures Transmitted(offers) == PacketFrames(packets)
    decreases |offers|
  {
    if offers != [] {
      var n := |offers| - 1;
      OneCopyOfEach(offers[..n], packets[..n]);
      assert PacketFrames(packets) == PacketFrames(packets[..n]) + [PacketFrame(n, packets[n])];
    }
  }

  ghost predicate IsControl(o: Offer, field: Byte, t: Transfer) {
    exists junk :: o.packet == ControlPacket.Build(field, |t.file|, t.name, junk)
  }

  /** The offers of a whole transfer: those of the two control packets and of the data packets. */
  lemma TransferCarried(t0: Transfer, first: Offer, data: seq<Offer>, last: Offer,
                        w: Wire, w1: Wire, w2: Wire, w3: Wire, ready: bool)
    returns (t: Transfer, offers: seq<Offer>)
    requires Fit(t0) && w.number == 0
    requires IsControl(first, CONTROL_FIELD_START, t0) && IsControl(last, CONTROL_FIELD_END, t0)
    requires Payloads(data) == FileChunks(t0) && Numbered(data) && first.ok && last.ok
    requires forall i :: 0 <= i < |data| ==> data[i].ok
    requires Sends(w, first, w1, ready) && SendsAll(w1, data, w2, ready) && Sends(w2, last, w3, ready)
    ensures Same(t, t0) && offers == [first] + data + [last]
    ensures Carry(offers, FilePackets(t)) && w3.sent == w.sent + Transmitted(offers)
    ensures OneCopyEach(offers) ==> Transmitted(offers) == PacketFrames(FilePackets(t))
  {
    var j: Byte :| first.packet == ControlPacket.Build(CONTROL_FIELD_START, |t0.file|, t0.name, j);
    var k: Byte :| last.packet == ControlPacket.Build(CONTROL_FIELD_END, |t0.file|, t0.name, k);
    t := t0.(startJunk := j, endJunk := k);
    offers := [first] + data + [last];
    InTurn(first, data, last, w, w1, w2, w3, ready);
    CarryTransfer(t, first, data, last);
    SentInTurn(w.sent, first, data, last);
    if OneCopyEach(offers) {
      OneCopyOfEach(offers, FilePackets(t));
    }
  }

  /** The three parts were sent one behind the other. */
  lemma InTurn(first: Offer, data: seq<Offer>, last: Offer, w: Wire, w1: Wire, w2: Wire, w3: Wire, ready: bool)
    requires w.number == 0 && first.ok && last.ok && forall i :: 0 <= i < |data| ==> data[i].ok
    requires Sends(w, first, w1, ready) && SendsAll(w1, data, w2, ready) && Sends(w2, last, w3, ready)
    ensures first.number == 0 && last.number == |data| + 1 && first.copies > 0 && last.copies > 0
    ensures forall i :: 0 <= i < |data| ==> data[i].number == i + 1 && data[i].copies > 0
    ensures w3.sent == w.sent + Copies(first) + Transmitted(data) + Copies(last)
  {}

  lemma CarryTransfer(t: Transfer, first: Offer, data: seq<Offer>, last: Offer)
    requires Fit(t) && Payloads(data) == FileChunks(t) && Numbered(data)
    requires first.packet == ControlPacket.Build(CONTROL_FIELD_START, |t.file|, t.name, t.startJunk)
    requires last.packet == ControlPacket.Build(CONTROL_FIELD_END, |t.file|, t.name, t.endJunk)
    requires first.number == 0 && last.number == |data| + 1 && first.copies > 0 && last.copies > 0
    requires forall i :: 0 <= i < |data| ==> data[i].number == i + 1 && data[i].copies > 0
    ensures Carry([first] + data + [last], FilePackets(t))
  {
    AllNumbered(data, FileChunks(t));
  }

  lemma SentInTurn(sent: seq<Frame>, first: Offer, data: seq<Offer>, last: Offer)
    ensures sent + Copies(first) + Transmitted(data) + Copies(last) == sent + Transmitted([first] + data + [last])
  {
    TransmittedAppend([first] + data, [last]);
    TransmittedAppend([first], data);
    TransmittedOne(first);
    TransmittedOne(last);
    Assoc(sent, Copies(first), Transmitted(data));
    Assoc(sent, Copies(first) + Transmitted(data), Copies(last));
  }

  lemma AllNumbered(data: seq<Offer>, chunks: seq<seq<Byte>>)
    requires Payloads(data) == chunks && Numbered(data)
    ensures |data| == |chunks|
    ensures forall i :: 0 <= i < |data| ==> data[i].packet == DataPacket(i, chunks[i])
  {
    assert |data| == |Payloads(data)|;
    forall i | 0 <= i < |data| ensures data[i].packet == DataPacket(i, chunks[i]) {
      assert Payloads(data)[i] == data[i].payload;
    }
  }

  /** Two transfers that differ at most in their unwritten bytes. */
  predicate Same(t: Transfer, u: Transfer) {
    t == u.(startJunk := t.startJunk, endJunk := t.endJunk)
  }

  lemma TransmittedOne(o: Offer)
    ensures Transmitted([o]) == Copies(o)
  {
    assert [o][..0] == [];
  }

  /** send_data_packets from the beginning of a file. */
  method SendData(station: Retry.Station, file: seq<Byte>, packetSize: nat, maxTransfer: int)
    returns (ret: int, ghost data: seq<Offer>)
    requires DATA_HEADER_SIZE < packetSize <= FRAME_SIZE && station.numRetransmissions < 0x1_0000_0000
    modifies station`frameNumber, station`script, station`sent
    ensures ret in {0, -1} && |data| <= |Chunks(file, MaxData(packetSize, maxTransfer))|
    ensures SendsAll(old(WireOf(station)), data, WireOf(station), Retry.Attempts(station.numRetransmissions) > 0)
    ensures ret == 0 ==> Payloads(data) == Chunks(file, MaxData(packetSize, maxTransfer)) && Numbered(data)
    ensures ret == 0 <==> forall i :: 0 <= i < |data| ==> data[i].ok
  {
    var sender := new FileSender(file, packetSize, maxTransfer, station);
    ret := sender.SendDataPackets();
    data := sender.offers;
    assert data == data[0..];
  }

  /** What send_file does between opening and closing when no step fails: the start packet, the
      data packets and the end packet. On success the frames on the line are copies of those of
      the transfer's packets, in order; and when each is confirmed promptly it does succeed, with
      exactly one copy of each. */
  method SendTransfer(station: Retry.Station, file: seq<Byte>, name: seq<Byte>, packetSize: nat, maxTransfer: int)
    returns (ret: int, ghost t: Transfer, ghost offers: seq<Offer>)
    requires Fit(Transfer(file, name, packetSize, maxTransfer, 0, 0)) && station.numRetransmissions < 0x1_0000_0000
    requires station.frameNumber == 0
    modifies station`frameNumber, station`script, station`sent
    ensures ret in {0, -1} && Same(t, Transfer(file, name, packetSize, maxTransfer, 0, 0))
    ensures ret == 0 ==> Carry(offers, FilePackets(t)) && station.sent == old(station.sent) + Transmitted(offers)
    ensures Prompt(old(station.script), 0) && |old(station.script)| >= |FilePackets(t)|
            && Retry.Attempts(station.numRetransmissions) > 0 ==>
              ret == 0 && station.sent == old(station.sent) + PacketFrames(FilePackets(t))
  {
    t, offers := Transfer(file, name, packetSize, maxTransfer, 0, 0), [];
    ghost var ready, w := Retry.Attempts(station.numRetransmissions) > 0, WireOf(station);
    ghost var first, data, last;
    ret, first := ControlPacket.SendControlPacket(station, packetSize, CONTROL_FIELD_START, |file|, name);
    if ret < 0 {
      return;
    }
    ghost var w1 := WireOf(station);
    ret, data := SendData(station, file, packetSize, maxTransfer);
    if ret < 0 {
      return;
    }
    ghost var w2 := WireOf(station);
    ret, last := ControlPacket.SendControlPacket(station, packetSize, CONTROL_FIELD_END, |file|, name);
    if ret < 0 {
      return;
    }
    t, offers := TransferCarried(t, first, data, last, w, w1, w2, WireOf(station), ready);
  }

  // ---------------------------------------------------------------------------
  // From the received packets to the file

  /** Receive buffers that hold the given packets, each followed by anything. */
  ghost predicate Hold(buffers: seq<seq<Byte>>, packets: seq<seq<Byte>>) {
    |buffers| == |packets|
    && forall i :: 0 <= i < |packets| ==> |buffers[i]| >= ControlPacket.PARSE_CELLS && packets[i] <= buffers[i]
  }

  function Arrivals(buffers: seq<seq<Byte>>): seq<Reassembly.Arrival> {
    seq(|buffers|, i requires 0 <= i < |buffers| => Reassembly.Packet(buffers[i]))
  }

  /** The start packet in the first buffer announces the file, and receive_data_packets on the
      others returns 0, writes exactly the file, and counts nothing as lost or duplicated. */
  ghost predicate Received(t: Transfer, buffers: seq<seq<Byte>>, attempts: nat)
    requires Fit(t)
  {
    && |buffers| > 0 && |buffers[0]| >= ControlPacket.PARSE_CELLS
    && buffers[0][0] == CONTROL_FIELD_START && ControlPacket.Parse(buffers[0]) == Some((|t.file|, t.name))
    && (forall a :: a in Arrivals(buffers[1..]) ==> Reassembly.Legible(a))
    && forall lost, duplicated ::
         Reassembly.Collect(Arrivals(buffers[1..]), attempts, Reassembly.Counters(0, lost, duplicated))
         == Reassembly.Outcome(Some(0), t.file, Reassembly.Counters(|FileChunks(t)| + 1, lost, duplicated))
  }

  lemma ControlPacketHead(field: Byte, size: nat, name: seq<Byte>, junk: Byte, buffer: seq<Byte>)
    requires ControlPacket.Build(field, size, name, junk) <= buffer
    ensures buffer[0] == field
  {
    assert ControlPacket.Build(field, size, name, junk)[0] == field;
  }

  /** The buffers behind the first hold the data packets and then the end packet. */
  lemma BehindTheStart(t: Transfer, buffers: seq<seq<Byte>>)
    requires Fit(t) && Hold(buffers, FilePackets(t))
    ensures var rest, chunks := buffers[1..], FileChunks(t);
            && |rest| == |chunks| + 1
            && (forall i :: 0 <= i < |chunks| ==> DataPacket(i, chunks[i]) <= rest[i])
            && (forall i :: 0 <= i < |rest| ==> |rest[i]| >= ControlPacket.PARSE_CELLS)
            && ControlPacket.Build(CONTROL_FIELD_START, |t.file|, t.name, t.startJunk) <= buffers[0]
            && ControlPacket.Build(CONTROL_FIELD_END, |t.file|, t.name, t.endJunk) <= rest[|chunks|]
  {
    var packets, n := FilePackets(t), |FileChunks(t)|;
    assert packets[0] <= buffers[0] && packets[n + 1] <= buffers[n + 1];
    forall i | 0 <= i < n ensures DataPacket(i, FileChunks(t)[i]) <= buffers[1..][i] {
      assert packets[i + 1] <= buffers[i + 1];
    }
  }

  /** Whatever else the buffers hold, the packets of a transfer give back the file. */
  lemma PacketsGiveFile(t: Transfer, buffers: seq<seq<Byte>>, attempts: nat)
    requires Fit(t) && attempts > 0 && Hold(buffers, FilePackets(t))
    ensures Received(t, buffers, attempts)
  {
    var chunks, rest := FileChunks(t), buffers[1..];
    var n, arrivals := |chunks|, Arrivals(rest);
    PacketSizes(t);
    ChunksConcat(t.file, MaxData(t.packetSize, t.maxTransfer));
    BehindTheStart(t, buffers);
    ControlPacketHead(CONTROL_FIELD_START, |t.file|, t.name, t.startJunk, buffers[0]);
    ControlPacket.RoundTrip(CONTROL_FIELD_START, |t.file|, t.name, t.startJunk, buffers[0]);
    ControlPacketHead(CONTROL_FIELD_END, |t.file|, t.name, t.endJunk, rest[n]);
    ControlPacket.RoundTrip(CONTROL_FIELD_END, |t.file|, t.name, t.endJunk, rest[n]);
    forall i | 0 <= i < n ensures Reassembly.Legible(arrivals[i]) {
      Reassembly.ReadBack(i, chunks[i], rest[i]);
    }
    forall lost, duplicated
      ensures Reassembly.Collect(arrivals, attempts, Reassembly.Counters(0, lost, duplicated))
           == Reassembly.Outcome(Some(0), t.file, Reassembly.Counters(n + 1, lost, duplicated))
    {
      Reassembly.CollectInOrder(chunks, 0, arrivals, attempts, Reassembly.Counters(0, lost, duplicated));
    }
  }

  // ---------------------------------------------------------------------------
  // An error-free line

  function PacketFrames(packets: seq<seq<Byte>>): seq<Frame> {
    seq(|packets|, i requires 0 <= i < |packets| => PacketFrame(i, packets[i]))
  }

  /** What reading frame `i` does, when all replies are written. */
  function Reading(i: nat, c: Call): Receiver.Account {
    Receiver.Effect(i, c.outcome, true)
  }

  /** Read `i` accepts packet `i` with its check byte behind it and answers with its RR, on which
      the transmitter is done with this packet after sending it once. */
  ghost predicate Passes(i: nat, packet: seq<Byte>, c: Call) {
    && Reading(i, c) == Receiver.Account(1, packet + [Xor(packet)], i + 1, [ReplyByte(i, true)], false, false)
    && forall tries: nat, rest :: tries > 0 ==>
         Retry.Exchange(tries, ReplyByte(i, true), [Retry.Received(Reading(i, c).replies[0])] + rest)
         == Retry.Result(true, rest, 1)
  }

  lemma Passing(t: Transfer, i: nat, c: Call)
    requires Fit(t) && i < |FilePackets(t)|
    requires c.outcome == Delivered(PacketFrame(i, FilePackets(t)[i]))
    ensures Passes(i, FilePackets(t)[i], c)
  {
    PacketSizes(t);
    RepliesAreDistinct(i, i, true, true);
    assert ControlByte(i) != C_DISC;
    forall tries: nat, rest | tries > 0
      ensures Retry.Exchange(tries, ReplyByte(i, true), [Retry.Received(ReplyByte(i, true))] + rest)
           == Retry.Result(true, rest, 1)
    {
      assert ([Retry.Received(ReplyByte(i, true))] + rest)[1..] == rest;
    }
  }

  /** End-to-end identity on an error-free line: the frames of a transfer, concatenated with any
      idle FLAGs between them and FLAG-free noise in front, are read one by one, each read accepts
      its packet at once, and the file, its size and its name come out unchanged; the check byte
      behind each packet and all that follows it in the buffers is ignored. */
  lemma CleanTransfer(t: Transfer, last: Byte, noise: seq<Byte>, idle: seq<nat>, tail: seq<Byte>,
                      calls: seq<Call>, buffers: seq<seq<Byte>>, attempts: nat)
    requires Fit(t) && attempts > 0
    requires |idle| == |buffers| == |calls| == |FilePackets(t)|
    requires FLAG !in noise && (last == FLAG ==> noise == [])
    requires Session(last, noise + Line(PacketFrames(FilePackets(t)), idle) + tail, calls)
    requires forall i :: 0 <= i < |calls| ==>
               && calls[i].max == t.packetSize && |buffers[i]| >= ControlPacket.PARSE_CELLS
               && Reading(i, calls[i]).content <= buffers[i]
    ensures forall i :: 0 <= i < |calls| ==> Passes(i, FilePackets(t)[i], calls[i])
    ensures Received(t, buffers, attempts)
  {
    var packets := FilePackets(t);
    var frames := PacketFrames(packets);
    PacketSizes(t);
    forall i | 0 <= i < |frames| ensures Sendable(frames[i]) && |frames[i].data| <= calls[i].max {
      DataFrameSendable(i, packets[i]);
    }
    FramesDelivered(last, noise, frames, idle, tail, calls);
    forall i | 0 <= i < |calls| ensures Passes(i, packets[i], calls[i]) && packets[i] <= buffers[i] {
      Passing(t, i, calls[i]);
      assert packets[i] + [Xor(packets[i])] <= buffers[i];
    }
    PacketsGiveFile(t, buffers, attempts);
  }

  // ---------------------------------------------------------------------------
  // A line that loses and corrupts frames

  /** End-to-end identity over the stop-and-wait protocol: in every run over lines that lose and
      corrupt frames, with timeouts at any moment, in which the transmitter is never mistaken and
      every packet of a transfer was reported as written, the receiving application gets exactly
      the file, its size and its name. */
  lemma LossyTransfer(t: Transfer, steps: seq<StopAndWait.Step>, tries: nat,
                      buffers: seq<seq<Byte>>, attempts: nat)
    requires Fit(t) && attempts > 0
    requires StopAndWait.Never(StopAndWait.Mistaken, StopAndWait.INITIAL, steps, tries)
    requires var s := StopAndWait.Run(StopAndWait.INITIAL, steps, tries);
             s.completed == FilePackets(t) && s.phase.Idle? && Hold(buffers, s.accepted)
    ensures Received(t, buffers, attempts)
  {
    StopAndWait.SafetyIff(steps, tries);
    PacketsGiveFile(t, buffers, attempts);
  }

  /** The packets handed to transmitter_write so far. */
  function Offered(s: StopAndWait.State): seq<seq<Byte>> {
    s.completed + (if s.phase.Idle? then [] else [s.phase.payload])
  }

  /** At every moment of every such run, while the packets of a transfer are being written one
      after the other, the receiving application has written a prefix of the file, and has got
      every packet reported as written and at most one more. */
  lemma PrefixAtEveryMoment(t: Transfer, steps: seq<StopAndWait.Step>, tries: nat,
                            buffers: seq<seq<Byte>>, attempts: nat, counters: Reassembly.Counters)
    requires Fit(t) && attempts > 0 && counters.sequence == 0
    requires StopAndWait.Never(StopAndWait.Mistaken, StopAndWait.INITIAL, steps, tries)
    requires var s := StopAndWait.Run(StopAndWait.INITIAL, steps, tries);
             Offered(s) <= FilePackets(t) && buffers != [] && Hold(buffers, s.accepted)
    ensures var s := StopAndWait.Run(StopAndWait.INITIAL, steps, tries);
            |s.completed| <= |buffers| <= |s.completed| + 1
    ensures forall a :: a in Arrivals(buffers[1..]) ==> Reassembly.Legible(a)
    ensures Reassembly.Collect(Arrivals(buffers[1..]), attempts, counters).written <= t.file
  {
    var s := StopAndWait.Run(StopAndWait.INITIAL, steps, tries);
    StopAndWait.SafetyIff(steps, tries);
    var packets := FilePackets(t);
    assert s.accepted <= Offered(s);
    if |buffers| == |packets| {
      assert s.accepted == packets;
      PacketsGiveFile(t, buffers, attempts);
      assert counters == Reassembly.Counters(0, counters.lost, counters.duplicated);
    } else {
      SomePackets(t, buffers, attempts, counters);
    }
  }

  /** The first packets of a transfer, without its end packet, give a prefix of the file. */
  lemma SomePackets(t: Transfer, buffers: seq<seq<Byte>>, attempts: nat, counters: Reassembly.Counters)
    requires Fit(t) && attempts > 0 && counters.sequence == 0
    requires 0 < |buffers| < |FilePackets(t)| && Hold(buffers, FilePackets(t)[..|buffers|])
    ensures forall a :: a in Arrivals(buffers[1..]) ==> Reassembly.Legible(a)
    ensures Reassembly.Collect(Arrivals(buffers[1..]), attempts, counters).written <= t.file
  {
    var rest := buffers[1..];
    var chunks := FileChunks(t)[..|rest|];
    SomeBehindTheStart(t, buffers, chunks);
    forall i | 0 <= i < |rest| ensures Reassembly.Legible(Arrivals(rest)[i]) {
      Reassembly.ReadBack(i, chunks[i], rest[i]);
    }
    Reassembly.CollectSoFar(chunks, 0, Arrivals(rest), attempts, counters);
    ChunksPrefix(t.file, MaxData(t.packetSize, t.maxTransfer), |rest|);
  }

  lemma SomeBehindTheStart(t: Transfer, buffers: seq<seq<Byte>>, chunks: seq<seq<Byte>>)
    requires Fit(t) && 0 < |buffers| < |FilePackets(t)| && Hold(buffers, FilePackets(t)[..|buffers|])
    requires chunks == FileChunks(t)[..|buffers| - 1]
    ensures forall i :: 0 <= i < |chunks| ==>
              && |buffers[1..][i]| >= ControlPacket.PARSE_CELLS && DataPacket(i, chunks[i]) <= buffers[1..][i]
              && 0 < |chunks[i]| < 65536
  {
    PacketSizes(t);
    var packets := FilePackets(t);
    forall i | 0 <= i < |chunks| ensures DataPacket(i, chunks[i]) <= buffers[1..][i] {
      assert packets[i + 1] == packets[..|buffers|][i + 1] <= buffers[i + 1];
    }
  }

  lemma ChunksPrefix(file: seq<Byte>, max: nat, k: nat)
    requires max > 0 && k <= |Chunks(file, max)|
    ensures Concat(Chunks(file, max)[..k]) <= file
  {
    var chunks := Chunks(file, max);
    ChunksConcat(file, max);
    ConcatAppend(chunks[..k], chunks[k..]);
    assert chunks == chunks[..k] + chunks[k..];
  }
}
