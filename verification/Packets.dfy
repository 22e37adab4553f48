/** Application packets (src/packets.c): cutting a file into numbered data packets, reading
    them back, and the control packets that carry its size and name. */
module Packets {
  import opened Bits
  import opened Codes
  import opened Framing
  import opened Control
  import opened Retry

  const FRAME_SIZE: nat := LL_MAX_PAYLOAD_UNSTUFFED

  const CONTROL_FIELD_DATA: Byte := 1
  const CONTROL_FIELD_START: Byte := 2
  const CONTROL_FIELD_END: Byte := 3

  const SEQUENCE_MODULUS: nat := 255
  const DATA_HEADER_SIZE: nat := 4

  /** The data bytes of a full packet; `maxTransfer` is the user's limit, none when not positive. */
  function MaxData(packetSize: nat, maxTransfer: int): (max: nat)
    requires packetSize > DATA_HEADER_SIZE
    ensures 0 < max <= packetSize - DATA_HEADER_SIZE
  {
    var max := packetSize - DATA_HEADER_SIZE;
    if 0 < maxTransfer < max then maxTransfer else max
  }

  /** Size of the next chunk of `n` remaining bytes: the remainder comes first. */
  function ChunkSize(n: nat, max: nat): (k: nat)
    requires n > 0 && max > 0
    ensures 0 < k <= max && k <= n && (n - k) % max == 0
  {
    Remainder(n, max);
    if n % max == 0 then max else n % max
  }

  /** Quotient and remainder are determined by their defining equation. */
  lemma DivUnique(a: nat, q: nat, r: nat, m: nat)
    requires m > 0 && a == q * m + r && r < m
    ensures a / m == q && a % m == r
  {
    var d := a / m - q;
    assert a == (a / m) * m + a % m;
    assert d * m == r - a % m by {
      assert d * m == (a / m) * m - q * m;
    }
    Scale(d, m);
  }

  lemma Scale(d: int, m: int)
    requires m > 0
    ensures d >= 1 ==> d * m >= m
    ensures d <= -1 ==> d * m <= -m
  {
    if d >= 1 {
      assert d * m == (d - 1) * m + m;
    } else if d <= -1 {
      assert d * m == (d + 1) * m - m;
    }
  }

  lemma Remainder(n: nat, max: nat)
    requires n > 0 && max > 0
    ensures n % max <= n && (n - n % max) % max == 0
    ensures n % max == 0 ==> max <= n && (n - max) % max == 0
  {
    var q, r := n / max, n % max;
    assert n == q * max + r;
    DivUnique(n - r, q, 0, max);
    if r == 0 {
      assert q != 0;
      assert n - max == (q - 1) * max;
      DivUnique(n - max, q - 1, 0, max);
    }
  }

  function Chunks(data: seq<Byte>, max: nat): seq<seq<Byte>>
    requires max > 0
    decreases |data|
  {
    if data == [] then []
    else
      var k := ChunkSize(|data|, max);
      [data[..k]] + Chunks(data[k..], max)
  }

  /** Nothing is lost, repeated or reordered by cutting. */
  lemma {:induction false} ChunksConcat(data: seq<Byte>, max: nat)
    requires max > 0
    ensures Concat(Chunks(data, max)) == data
    decreases |data|
  {
    if data != [] {
      var k := ChunkSize(|data|, max);
      ChunksConcat(data[k..], max);
      assert data == data[..k] + data[k..];
    }
  }

  /** There are ceil(size / max) chunks; the first takes what does not divide evenly and every
      later one is full. */
  lemma {:induction false} ChunksShape(data: seq<Byte>, max: nat)
    requires max > 0
    ensures var c := Chunks(data, max);
            && |c| == (|data| + max - 1) / max
            && (forall i :: 0 <= i < |c| ==> 0 < |c[i]| <= max)
            && (data != [] ==> |c[0]| == if |data| % max == 0 then max else |data| % max)
            && (forall i :: 0 < i < |c| ==> |c[i]| == max)
    decreases |data|
  {
    if data == [] {
      DivUnique(max - 1, 0, max - 1, max);
    } else {
      var k := ChunkSize(|data|, max);
      ChunksShape(data[k..], max);
      ChunkCount(|data|, k, max);
      FullChunks(data[k..], max);
    }
  }

  /** Taking the first chunk off lowers the chunk count by one. */
  lemma ChunkCount(n: nat, k: nat, max: nat)
    requires 0 < k <= max && k <= n && (n - k) % max == 0
    ensures (n + max - 1) / max == (n - k + max - 1) / max + 1
  {
    var q := (n - k) / max;
    assert n - k == q * max;
    DivUnique(n - k + max - 1, q, max - 1, max);
    assert n + max - 1 == (q + 1) * max + (k - 1);
    DivUnique(n + max - 1, q + 1, k - 1, max);
  }

  /** What divides evenly is cut into full chunks only. */
  lemma FullChunks(data: seq<Byte>, max: nat)
    requires max > 0 && |data| % max == 0
    ensures data != [] ==> ChunkSize(|data|, max) == max && Chunks(data, max)[0] == data[..max]
  {}

  /** The packet with running number `number`; every field is one byte wide. */
  function DataPacket(number: nat, payload: seq<Byte>): seq<Byte> {
    [CONTROL_FIELD_DATA, number % SEQUENCE_MODULUS, |payload| / 256 % 256, |payload| % 256] + payload
  }

  /** One packet offered to transmitter_write: whether it was acknowledged, the frame number it
      went under and how many copies of its frame were sent. */
  datatype Offer = Offer(payload: seq<Byte>, packet: seq<Byte>, ok: bool, number: nat, copies: nat)

  function Copies(o: Offer): seq<Frame> {
    seq(o.copies, _ => Frame(ADDRESS, ControlByte(o.number), o.packet))
  }

  /** The frames on the line for a list of offers. */
  function Transmitted(offers: seq<Offer>): seq<Frame> {
    if offers == [] then []
    else Transmitted(offers[..|offers| - 1]) + Copies(offers[|offers| - 1])
  }

  function Payloads(offers: seq<Offer>): seq<seq<Byte>> {
    seq(|offers|, i requires 0 <= i < |offers| => offers[i].payload)
  }

  function PayloadBytes(offers: seq<Offer>, ok: bool): nat {
    if offers == [] then 0
    else (if offers[0].ok == ok then |offers[0].payload| else 0) + PayloadBytes(offers[1..], ok)
  }

  /** The bytes offered are those acknowledged and those of packets given up. */
  lemma {:induction false} BytesAccount(offers: seq<Offer>)
    ensures |Concat(Payloads(offers))| == PayloadBytes(offers, true) + PayloadBytes(offers, false)
  {
    if offers != [] {
      BytesAccount(offers[1..]);
      assert Payloads(offers)[1..] == Payloads(offers[1..]);
    }
  }

  ghost predicate Numbered(offers: seq<Offer>) {
    forall i :: 0 <= i < |offers| ==> offers[i].packet == DataPacket(i, offers[i].payload)
  }

  /** `p` is a data packet numbered `i` whose length bytes say what it holds. */
  predicate Announces(p: seq<Byte>, i: nat, payload: seq<Byte>) {
    && |p| == DATA_HEADER_SIZE + |payload| && p[0] == CONTROL_FIELD_DATA && p[1] == i % SEQUENCE_MODULUS
    && p[2] as int * 256 + p[3] as int == |payload| && p[DATA_HEADER_SIZE..] == payload
  }

  lemma PacketFields(i: nat, payload: seq<Byte>)
    requires |payload| < 65536
    ensures Announces(DataPacket(i, payload), i, payload)
  {
    assert DataPacket(i, payload)[DATA_HEADER_SIZE..] == payload;
  }

  /** Segmentation across retries: once the chunks of a file have been offered, over however many
      calls and failed writes, there were ceil(size / max) packets, packet i carries the number
      i mod 255 and its true length, and every byte of the file is either acknowledged or part of
      a packet given up. */
  lemma OffersAccount(file: seq<Byte>, max: nat, offers: seq<Offer>)
    requires 0 < max < 65536 && Payloads(offers) == Chunks(file, max) && Numbered(offers)
    ensures |offers| == (|file| + max - 1) / max
    ensures |file| == PayloadBytes(offers, true) + PayloadBytes(offers, false)
    ensures forall i :: 0 <= i < |offers| ==>
              Announces(offers[i].packet, i, offers[i].payload) && 0 < |offers[i].payload| <= max
  {
    ChunksConcat(file, max);
    ChunksShape(file, max);
    BytesAccount(offers);
    assert |offers| == |Payloads(offers)|;
    forall i | 0 <= i < |offers|
      ensures Announces(offers[i].packet, i, offers[i].payload) && 0 < |offers[i].payload| <= max
    {
      assert offers[i].payload == Chunks(file, max)[i];
      PacketFields(i, offers[i].payload);
    }
  }

  /** The offers cut the file into ceil(size / limit) pieces, all but the first of exactly `limit`
      bytes, and nothing is lost, repeated or reordered. */
  ghost predicate CutInto(file: seq<Byte>, limit: nat, offers: seq<Offer>)
    requires limit > 0
  {
    && |offers| == (|file| + limit - 1) / limit && Concat(Payloads(offers)) == file
    && (forall i :: 0 <= i < |offers| ==> 0 < |offers[i].payload| <= limit)
    && forall i :: 0 < i < |offers| ==> |offers[i].payload| == limit
  }

  lemma ChunksCut(file: seq<Byte>, limit: nat, offers: seq<Offer>)
    requires limit > 0 && Payloads(offers) == Chunks(file, limit)
    ensures CutInto(file, limit, offers)
  {
    ChunksConcat(file, limit);
    ChunksShape(file, limit);
    assert |offers| == |Payloads(offers)|;
    assert forall i :: 0 <= i < |offers| ==> offers[i].payload == Payloads(offers)[i];
  }

  /** The user's limit counts when it is positive and smaller than what a packet can hold. */
  ghost predicate CutAsAsked(file: seq<Byte>, packetSize: nat, maxTransfer: int, offers: seq<Offer>)
    requires packetSize > DATA_HEADER_SIZE
  {
    && (0 < maxTransfer < packetSize - 4 ==> CutInto(file, maxTransfer, offers))
    && (!(0 < maxTransfer < packetSize - 4) ==> CutInto(file, packetSize - 4, offers))
  }

  lemma {:induction false} TransmittedAppend(a: seq<Offer>, b: seq<Offer>)
    ensures Transmitted(a + b) == Transmitted(a) + Transmitted(b)
    decreases |b|
  {
    if b == [] {
      assert a + b == a;
    } else {
      var n := |b| - 1;
      assert (a + b)[..|a + b| - 1] == a + b[..n];
      TransmittedAppend(a, b[..n]);
      Assoc(Transmitted(a), Transmitted(b[..n]), Copies(b[n]));
    }
  }

  /** The replies to come are the RRs of the frames from `number` on, each at the first attempt. */
  ghost predicate Prompt(script: seq<Event>, number: nat) {
    forall i :: 0 <= i < |script| ==> script[i] == Received(ReplyByte(number + i, true))
  }

  lemma PromptNext(script: seq<Event>, number: nat, tries: nat)
    requires Prompt(script, number) && script != [] && tries > 0
    ensures Prompt(script[1..], number + 1)
    ensures Exchange(tries, ReplyByte(number, true), script) == Result(true, script[1..], 1)
  {
    RepliesAreDistinct(number, number, true, true);
    assert script[0] == Received(ReplyByte(number + 0, true));
    forall i | 0 <= i < |script| - 1 ensures script[1..][i] == Received(ReplyByte(number + 1 + i, true)) {
      assert script[1..][i] == script[i + 1];
    }
  }

  /** What a station shows on the wire: the next frame number, the replies to come, the frames sent. */
  datatype Wire = Wire(number: nat, script: seq<Event>, sent: seq<Frame>)

  function WireOf(station: Station): Wire
    reads station
  {
    Wire(station.frameNumber, station.script, station.sent)
  }

  /** Between `w` and `w'` the offer `o` was sent: copies of its frame only, at least one when it
      was acknowledged, and exactly one when it is `ready` to go and confirmed promptly. */
  ghost predicate Sends(w: Wire, o: Offer, w': Wire, ready: bool) {
    && o.number == w.number && w'.number == w.number + (if o.ok then 1 else 0)
    && w'.sent == w.sent + Copies(o) && (o.ok ==> o.copies > 0)
    && (ready && Prompt(w.script, w.number) && w.script != [] ==>
          o.ok && o.copies == 1 && Prompt(w'.script, w'.number) && |w'.script| == |w.script| - 1)
  }

  /** The same for a list of offers, of which only the last may have failed. */
  ghost predicate SendsAll(w: Wire, offers: seq<Offer>, w': Wire, ready: bool) {
    && w'.sent == w.sent + Transmitted(offers)
    && (forall i :: 0 <= i < |offers| ==> offers[i].number == w.number + i && (offers[i].ok ==> offers[i].copies > 0))
    && (forall i :: 0 <= i < |offers| - 1 ==> offers[i].ok)
    && w'.number == w.number + |offers| - (if offers == [] || offers[|offers| - 1].ok then 0 else 1)
    && (ready && Prompt(w.script, w.number) && |w.script| >= |offers| ==>
          && (forall i :: 0 <= i < |offers| ==> offers[i].ok && offers[i].copies == 1)
          && Prompt(w'.script, w'.number) && |w'.script| == |w.script| - |offers|)
  }

  lemma SendsNothing(w: Wire, ready: bool)
    ensures SendsAll(w, [], w, ready)
  {}

  lemma SendsMore(w: Wire, offers: seq<Offer>, w': Wire, o: Offer, w'': Wire, ready: bool)
    requires SendsAll(w, offers, w', ready) && Sends(w', o, w'', ready)
    requires offers == [] || offers[|offers| - 1].ok
    ensures SendsAll(w, offers + [o], w'', ready)
  {
    assert (offers + [o])[..|offers|] == offers;
    Assoc(w.sent, Transmitted(offers), Copies(o));
  }

  /** The offers from index `base` on were sent and acknowledged. */
  ghost predicate Progress(offers: seq<Offer>, base: nat, w: Wire, w': Wire, ready: bool) {
    && base <= |offers| && SendsAll(w, offers[base..], w', ready)
    && forall i :: base <= i < |offers| ==> offers[i].ok
  }

  lemma ProgressMore(before: seq<Offer>, base: nat, offers: seq<Offer>, w: Wire, w': Wire, w'': Wire, ready: bool)
    requires Progress(before, base, w, w', ready) && before <= offers && |offers| == |before| + 1
    requires Sends(w', offers[|before|], w'', ready)
    ensures SendsAll(w, offers[base..], w'', ready)
    ensures offers[|before|].ok ==> Progress(offers, base, w, w'', ready)
  {
    var part, o := before[base..], offers[|before|];
    assert part == [] || part[|part| - 1] == before[|before| - 1];
    SendsMore(w, part, w', o, w'', ready);
    assert offers[base..] == part + [o];
    assert forall i :: 0 <= i < |before| ==> offers[i] == before[i];
  }

  /** transmitter_write of one packet. */
  method WritePacket(station: Station, packet: seq<Byte>, ghost payload: seq<Byte>) returns (ret: int, ghost o: Offer)
    requires station.numRetransmissions < 0x1_0000_0000
    modifies station`frameNumber, station`script, station`sent
    ensures ret in {0, -1} && o == Offer(payload, packet, ret == 0, o.number, o.copies)
    ensures Sends(old(WireOf(station)), o, WireOf(station),
                  Attempts(station.numRetransmissions) > 0 && |packet| <= FRAME_SIZE)
  {
    ghost var n, tries := station.frameNumber, Attempts(station.numRetransmissions);
    ghost var r := Exchange(tries, ReplyByte(n, true), station.script);
    SuccessSends(tries, ReplyByte(n, true), station.script);
    ghost var hopeless := Station.Hopeless(station.numRetransmissions, Frame(ADDRESS, ControlByte(n), packet));
    if !hopeless && Prompt(station.script, n) && station.script != [] {
      PromptNext(station.script, n, tries);
    }
    ret := station.TransmitterWrite(packet);
    o := Offer(payload, packet, ret == 0, n, if hopeless then 0 else r.sends);
  }

  /** send_data_packets with the state it keeps between calls. */
  class FileSender {
    const file: seq<Byte>
    const packetSize: nat
    const maxTransfer: int
    const station: Station
    var numDataBytesSent: nat
    var sequenceNumber: nat
    ghost var offers: seq<Offer>

    constructor (file: seq<Byte>, packetSize: nat, maxTransfer: int, station: Station)
      requires DATA_HEADER_SIZE < packetSize && station.numRetransmissions < 0x1_0000_0000
      ensures Valid() && this.file == file && this.station == station && offers == []
      ensures this.packetSize == packetSize && this.maxTransfer == maxTransfer
    {
      this.file, this.packetSize, this.maxTransfer, this.station := file, packetSize, maxTransfer, station;
      numDataBytesSent, sequenceNumber, offers := 0, 0, [];
      new;
      assert file[0..] == file;
      assert Payloads([]) == [];
    }

    /** Whatever was acknowledged or not, the packets offered so far are the first chunks of the
        file in order, numbered from zero, and the remaining bytes cut up to the remaining chunks. */
    ghost predicate Valid()
      reads this
    {
      && DATA_HEADER_SIZE < packetSize && station.numRetransmissions < 0x1_0000_0000
      && numDataBytesSent <= |file| && sequenceNumber == |offers|
      && Payloads(offers) + Chunks(file[numDataBytesSent..], MaxData(packetSize, maxTransfer))
         == Chunks(file, MaxData(packetSize, maxTransfer))
      && Numbered(offers)
    }

    /** The station makes attempts and its frames hold a packet. */
    ghost predicate Ready()
      requires station.numRetransmissions < 0x1_0000_0000
    {
      packetSize <= FRAME_SIZE && Attempts(station.numRetransmissions) > 0
    }

    /** Offers the chunks not yet offered, until a write fails or none is left. A failed packet
        is never offered again. The frames sent are those of the packets offered; with prompt
        replies for all of them, one of each. */
    method SendDataPackets() returns (ret: int)
      requires Valid()
      modifies this, station`frameNumber, station`script, station`sent
      ensures Valid() && ret in {0, -1} && old(offers) <= offers
      ensures SendsAll(old(WireOf(station)), offers[|old(offers)|..], WireOf(station), Ready())
      ensures ret == 0 ==> numDataBytesSent == |file|
                           && Payloads(offers) == Chunks(file, MaxData(packetSize, maxTransfer))
                           && forall i :: |old(offers)| <= i < |offers| ==> offers[i].ok
      ensures ret == 0 ==> CutAsAsked(file, packetSize, maxTransfer, offers)
      ensures ret == -1 ==> |old(offers)| < |offers| && !offers[|offers| - 1].ok
      ensures |offers| <= |Chunks(file, MaxData(packetSize, maxTransfer))|
    {
      ghost var base, w := |offers|, WireOf(station);
      assert offers[base..] == [];
      SendsNothing(w, Ready());
      ret := 0;
      while numDataBytesSent < |file|
        invariant Valid() && old(offers) <= offers && ret == 0
        invariant Progress(offers, base, w, WireOf(station), Ready())
        decreases |file| - numDataBytesSent
      {
        ghost var before, w' := offers, WireOf(station);
        ret := SendNext();
        ProgressMore(before, base, offers, w, w', WireOf(station), Ready());
        if ret < 0 {
          break;
        }
      }
      OffersLeft();
    }

    /** One round of the loop: builds the next packet and has it written. */
    method SendNext() returns (ret: int)
      requires Valid() && numDataBytesSent < |file|
      modifies this, station`frameNumber, station`script, station`sent
      ensures Valid() && ret in {0, -1} && numDataBytesSent > old(numDataBytesSent)
      ensures |offers| == |old(offers)| + 1 && old(offers) <= offers && offers[|old(offers)|].ok == (ret == 0)
      ensures Sends(old(WireOf(station)), offers[|old(offers)|], WireOf(station), Ready())
    {
      ghost var rest := Chunks(file[numDataBytesSent..], MaxData(packetSize, maxTransfer));
      ghost var payload, o;
      var packet;
      packet, payload := NextPacket();
      ret, o := WritePacket(station, packet, payload);
      Offered(offers, o, rest[1..]);
      assert rest == [payload] + rest[1..];
      offers := offers + [o];
    }

    /** Cuts the next chunk off the file and builds its packet. */
    method NextPacket() returns (packet: seq<Byte>, ghost payload: seq<Byte>)
      requires DATA_HEADER_SIZE < packetSize && numDataBytesSent < |file|
      modifies this`numDataBytesSent, this`sequenceNumber
      ensures old(numDataBytesSent) < numDataBytesSent <= |file| && sequenceNumber == old(sequenceNumber) + 1
      ensures packet == DataPacket(old(sequenceNumber), payload) && |packet| <= packetSize
      ensures var max := MaxData(packetSize, maxTransfer);
              Chunks(old(file[numDataBytesSent..]), max) == [payload] + Chunks(file[numDataBytesSent..], max)
    {
      var maxDataSize := packetSize - DATA_HEADER_SIZE;
      if maxTransfer > 0 && maxTransfer < maxDataSize {
        maxDataSize := maxTransfer;
      }
      var remaining := |file| - numDataBytesSent;
      ghost var k := ChunkSize(remaining, maxDataSize);
      var remainder := remaining % maxDataSize;
      var size := if remainder == 0 then maxDataSize else remainder;
      ghost var rest := file[numDataBytesSent..];
      payload := rest[..size];
      packet := BuildPacket(size);
      assert file[numDataBytesSent..] == rest[size..];
    }

    lemma OffersLeft()
      requires Valid()
      ensures |offers| <= |Chunks(file, MaxData(packetSize, maxTransfer))|
      ensures numDataBytesSent == |file| ==> Payloads(offers) == Chunks(file, MaxData(packetSize, maxTransfer))
      ensures numDataBytesSent == |file| ==> CutAsAsked(file, packetSize, maxTransfer, offers)
    {
      var rest := Chunks(file[numDataBytesSent..], MaxData(packetSize, maxTransfer));
      assert |Payloads(offers) + rest| == |offers| + |rest|;
      assert numDataBytesSent == |file| ==> file[numDataBytesSent..] == [];
      assert Payloads(offers) + [] == Payloads(offers);
      if numDataBytesSent == |file| {
        ChunksCut(file, MaxData(packetSize, maxTransfer), offers);
      }
    }

    /** Builds the packet for the next `size` bytes and counts them and it as sent. */
    method BuildPacket(size: nat) returns (bytes: seq<Byte>)
      requires numDataBytesSent + size <= |file|
      modifies this`numDataBytesSent, this`sequenceNumber
      ensures bytes == DataPacket(old(sequenceNumber), file[old(numDataBytesSent)..][..size])
      ensures sequenceNumber == old(sequenceNumber) + 1 && numDataBytesSent == old(numDataBytesSent) + size
    {
      var packet := new Byte[size + DATA_HEADER_SIZE];
      packet[0] := CONTROL_FIELD_DATA;
      packet[1] := sequenceNumber % SEQUENCE_MODULUS;
      sequenceNumber := sequenceNumber + 1;
      packet[2] := size / 256 % 256;
      packet[3] := size % 256;
      ghost var payload := file[numDataBytesSent..][..size];
      assert packet[..DATA_HEADER_SIZE] + payload == DataPacket(sequenceNumber - 1, payload);
      CopyData(packet, size);
      assert packet[..] == packet[..DATA_HEADER_SIZE] + packet[DATA_HEADER_SIZE..];
      return packet[..];
    }

    static lemma Offered(offers: seq<Offer>, o: Offer, more: seq<seq<Byte>>)
      requires Numbered(offers) && o.packet == DataPacket(|offers|, o.payload)
      ensures Payloads(offers + [o]) + more == Payloads(offers) + ([o.payload] + more)
      ensures Numbered(offers + [o])
    {
      assert Payloads(offers + [o]) == Payloads(offers) + [o.payload];
      Assoc(Payloads(offers), [o.payload], more);
    }

    /** Copies the next `size` bytes of the file behind the header of `packet`. */
    method CopyData(packet: array<Byte>, size: nat)
      requires packet.Length == size + DATA_HEADER_SIZE && numDataBytesSent + size <= |file|
      modifies packet, this`numDataBytesSent
      ensures numDataBytesSent == old(numDataBytesSent) + size
      ensures packet[..DATA_HEADER_SIZE] == old(packet[..DATA_HEADER_SIZE])
      ensures packet[DATA_HEADER_SIZE..] == file[old(numDataBytesSent)..][..size]
    {
      ghost var rest := file[numDataBytesSent..];
      var i := 0;
      while numDataBytesSent < |file| && i < size
        invariant 0 <= i <= size && numDataBytesSent == old(numDataBytesSent) + i
        invariant packet[..DATA_HEADER_SIZE] == old(packet[..DATA_HEADER_SIZE])
        invariant packet[DATA_HEADER_SIZE..DATA_HEADER_SIZE + i] == rest[..i]
      {
        packet[i + DATA_HEADER_SIZE] := file[numDataBytesSent];
        numDataBytesSent := numDataBytesSent + 1;
        i := i + 1;
      }
    }
  }
}
