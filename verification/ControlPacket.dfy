/** Start and end packets: type-length-value fields for the size and the name of the file
    (src/packets.c). */
module ControlPacket {
  import opened Bits
  import opened Codes
  import opened Packets
  import opened Retry

  /** sizeof(size_t) */
  const SIZE_BYTES: nat := 8
  const TLV_FILESIZE: Byte := 0
  const TLV_NAME: Byte := 1

  /** Cells that parse_control_packet may look at, whatever the length byte of the name. */
  const PARSE_CELLS: nat := 14 + 255

  /** The `k` bytes of a number in memory, lowest first. */
  function Encode(n: nat, k: nat): (s: seq<Byte>)
    ensures |s| == k
  {
    if k == 0 then [] else [n % 256] + Encode(n / 256, k - 1)
  }

  function Decode(s: seq<Byte>): nat {
    if s == [] then 0 else s[0] + 256 * Decode(s[1..])
  }

  function Pow256(k: nat): (p: nat)
    ensures p > 0
  {
    if k == 0 then 1 else 256 * Pow256(k - 1)
  }

  lemma {:induction false} DecodeEncode(n: nat, k: nat)
    requires n < Pow256(k)
    ensures Decode(Encode(n, k)) == n
  {
    if k > 0 {
      DecodeEncode(n / 256, k - 1);
      assert Encode(n, k)[1..] == Encode(n / 256, k - 1);
    }
  }

  lemma SizeWidth()
    ensures Pow256(SIZE_BYTES) == 0x1_0000_0000_0000_0000
  {
    assert Pow256(4) == 0x1_0000_0000;
  }

  /** The packet built for a file. Index 11 is never written, so `junk` stands for what the
      memory held; the length byte of the name is cut to eight bits. */
  function Build(field: Byte, size: nat, name: seq<Byte>, junk: Byte): (p: seq<Byte>)
    ensures |p| == 14 + |name|
  {
    [field, TLV_FILESIZE, SIZE_BYTES] + Encode(size, SIZE_BYTES) + [junk, TLV_NAME, |name| % 256] + name
  }

  /** Byte `i` of a number, counted from the lowest. */
  lemma {:induction false} EncodeByte(n: nat, k: nat, i: nat)
    requires i < k
    ensures Encode(n, k)[i] == n / Pow256(i) % 256
    decreases k
  {
    if i > 0 {
      EncodeByte(n / 256, k - 1, i - 1);
      DivDiv(n, Pow256(i - 1));
    }
  }

  lemma DivDiv(n: nat, b: nat)
    requires b > 0
    ensures n / 256 / b == n / (256 * b)
  {
    var q, r := n / 256, n % 256;
    var p, t := q / b, q % b;
    assert q == p * b + t;
    assert p * (256 * b) == 256 * (p * b);
    DivUnique(n, p, 256 * t + r, 256 * b);
  }

  /** A control packet byte by byte: field, type 0, eight bytes of size from the lowest, an unwritten
      byte, type 1, the length of the name, the name. */
  lemma Layout(field: Byte, size: nat, name: seq<Byte>, junk: Byte)
    ensures var p := Build(field, size, name, junk);
            && p[0] == field && p[1] == 0 && p[2] == 8 && p[11] == junk && p[12] == 1
            && p[13] == |name| % 256 && p[14..] == name
            && forall i :: 0 <= i < 8 ==> p[3 + i] == size / Pow256(i) % 256
  {
    var p := Build(field, size, name, junk);
    assert p[14..] == name;
    forall i | 0 <= i < 8 ensures p[3 + i] == size / Pow256(i) % 256 {
      EncodeByte(size, SIZE_BYTES, i);
      assert p[3 + i] == Encode(size, SIZE_BYTES)[i];
    }
  }

  /** parse_control_packet on the receive buffer of a packet. */
  function Parse(buffer: seq<Byte>): Option<(nat, seq<Byte>)>
    requires |buffer| >= PARSE_CELLS
  {
    if buffer[1] != TLV_FILESIZE then None
    else if buffer[2] != SIZE_BYTES then None
    else if buffer[12] != TLV_NAME then None
    else Some((Decode(buffer[3..3 + SIZE_BYTES]), buffer[14..14 + buffer[13]]))
  }

  /** Round trip: size and name come back, whatever the unwritten byte and the rest of the buffer
      hold, exactly when the name fits its length byte; a longer name comes back cut. */
  lemma RoundTrip(field: Byte, size: nat, name: seq<Byte>, junk: Byte, buffer: seq<Byte>)
    requires size < 0x1_0000_0000_0000_0000
    requires |buffer| >= PARSE_CELLS && Build(field, size, name, junk) <= buffer
    ensures Parse(buffer) == Some((size, name[..|name| % 256]))
    ensures Parse(buffer) == Some((size, name)) <==> |name| <= 255
  {
    var p := Build(field, size, name, junk);
    SizeWidth();
    DecodeEncode(size, SIZE_BYTES);
    assert forall i :: 0 <= i < |p| ==> buffer[i] == p[i];
    assert buffer[3..11] == p[3..11] == Encode(size, SIZE_BYTES);
    assert p[14..] == name;
    assert buffer[14..14 + |name| % 256] == p[14..14 + |name| % 256] == name[..|name| % 256];
    if |name| > 255 {
      assert |name[..|name| % 256]| < |name|;
    } else {
      assert name[..|name|] == name;
    }
  }

  lemma {:induction false} EncodeDecode(s: seq<Byte>)
    ensures Decode(s) < Pow256(|s|) && Encode(Decode(s), |s|) == s
  {
    if s != [] {
      EncodeDecode(s[1..]);
      assert Decode(s) / 256 == Decode(s[1..]) && Decode(s) % 256 == s[0];
    }
  }

  /** `buffer` starts with a control packet for this file. */
  ghost predicate Holds(buffer: seq<Byte>, size: nat, name: seq<Byte>) {
    size < 0x1_0000_0000_0000_0000 && |name| <= 255
    && exists field, junk :: Build(field, size, name, junk) <= buffer
  }

  /** The parser accepts exactly the buffers that start with a control packet of some file, and
      returns its size and name. */
  lemma ParseIff(buffer: seq<Byte>, size: nat, name: seq<Byte>)
    requires |buffer| >= PARSE_CELLS
    ensures Parse(buffer) == Some((size, name)) <==> Holds(buffer, size, name)
  {
    if Holds(buffer, size, name) {
      var field, junk :| Build(field, size, name, junk) <= buffer;
      RoundTrip(field, size, name, junk, buffer);
    }
    if Parse(buffer) == Some((size, name)) {
      var s := buffer[3..3 + SIZE_BYTES];
      EncodeDecode(s);
      SizeWidth();
      var p := Build(buffer[0], size, name, buffer[11]);
      Rebuild(buffer, s, name, p);
      assert p <= buffer;
    }
  }

  lemma Rebuild(buffer: seq<Byte>, s: seq<Byte>, name: seq<Byte>, p: seq<Byte>)
    requires |buffer| >= PARSE_CELLS && s == buffer[3..11] && name == buffer[14..14 + buffer[13]]
    requires buffer[1] == TLV_FILESIZE && buffer[2] == SIZE_BYTES && buffer[12] == TLV_NAME
    requires p == [buffer[0], TLV_FILESIZE, SIZE_BYTES] + s + [buffer[11], TLV_NAME, |name| % 256] + name
    ensures p == buffer[..14 + |name|]
  {
    assert buffer[..3] == [buffer[0], TLV_FILESIZE, SIZE_BYTES];
    assert buffer[11..14] == [buffer[11], TLV_NAME, |name| % 256];
    assert buffer[..14 + |name|] == buffer[..3] + buffer[3..11] + buffer[11..14] + buffer[14..14 + |name|];
  }

  /** send_control_packet: nothing is sent when the packet exceeds the packet size; otherwise one
      transmitter_write of exactly the packet, whose verdict is returned. */
  method SendControlPacket(station: Station, packetSize: nat, field: Byte, size: nat, name: seq<Byte>)
    returns (ret: int, ghost o: Offer)
    requires station.numRetransmissions < 0x1_0000_0000 && size < 0x1_0000_0000_0000_0000
    modifies station`frameNumber, station`script, station`sent
    ensures ret in {0, -1}
    ensures 14 + |name| > packetSize ==> ret == -1 && WireOf(station) == old(WireOf(station))
    ensures 14 + |name| <= packetSize ==>
              && (exists junk :: o.packet == Build(field, size, name, junk)) && o.ok == (ret == 0)
              && Sends(old(WireOf(station)), o, WireOf(station),
                       Attempts(station.numRetransmissions) > 0 && packetSize <= FRAME_SIZE)
  {
    o := Offer([], [], false, 0, 0);
    var packetLength := 5 + SIZE_BYTES + (|name| + 1);
    if packetLength > packetSize {
      return -1, o;
    }
    var a := new Byte[packetLength];
    ghost var junk := a[11];
    FillControlPacket(a, field, size, name);
    assert a[..] == Build(field, size, name, junk);
    ret, o := WritePacket(station, a[..], []);
  }

  /** Fills the packet field by field, leaving index 11 alone. */
  method FillControlPacket(a: array<Byte>, field: Byte, size: nat, name: seq<Byte>)
    requires a.Length == 14 + |name|
    modifies a
    ensures a[..] == Build(field, size, name, old(a[11]))
  {
    a[0] := field;
    a[1] := TLV_FILESIZE;
    a[2] := SIZE_BYTES;
    Copy(a, 3, Encode(size, SIZE_BYTES));
    var t2 := 4 + SIZE_BYTES;
    a[t2] := TLV_NAME;
    a[t2 + 1] := |name| % 256;
    Copy(a, t2 + 2, name);
    assert a[..3] == [field, TLV_FILESIZE, SIZE_BYTES];
    assert a[3..11] == Encode(size, SIZE_BYTES);
    assert a[11..14] == [old(a[11]), TLV_NAME, |name| % 256];
    assert a[..] == a[..3] + a[3..11] + a[11..14] + a[14..];
  }

  /** memcpy */
  method Copy(a: array<Byte>, at: nat, src: seq<Byte>)
    requires at + |src| <= a.Length
    modifies a
    ensures a[at..at + |src|] == src
    ensures forall i :: 0 <= i < a.Length && !(at <= i < at + |src|) ==> a[i] == old(a[i])
  {
    for i := 0 to |src|
      invariant a[at..at + i] == src[..i]
      invariant forall k :: 0 <= k < a.Length && !(at <= k < at + i) ==> a[k] == old(a[k])
    {
      a[at + i] := src[i];
    }
  }
}
