/** The control bytes of data frames and replies: only the parity of the frame number is on
    the wire (src/data_link.c). */
module Control {
  import opened Bits
  import opened Codes
  import opened Framing

  /** data_reply_byte; the parity bit and the code never overlap, so `|` is a sum. */
  function ReplyByte(frameNumber: nat, accepted: bool): Byte {
    (if accepted then C_RR else C_REJ) + (if frameNumber % 2 == 1 then 0 else 128)
  }

  /** data_control_byte */
  function ControlByte(frameNumber: nat): Byte {
    if frameNumber % 2 == 0 then 0 else 64
  }

  /** (control & 7) == C_REJ */
  predicate IsReject(control: Byte) {
    control % 8 == C_REJ
  }

  /** The bytes tell exactly the parity and the verdict, and no reply looks like a data frame,
      like UA or DISC, or like the zero that a timeout leaves behind. */
  lemma RepliesAreDistinct(n: nat, m: nat, a: bool, b: bool)
    ensures ReplyByte(n, a) == ReplyByte(m, b) <==> n % 2 == m % 2 && a == b
    ensures ControlByte(n) == ControlByte(m) <==> n % 2 == m % 2
    ensures IsReject(ReplyByte(n, a)) <==> !a
    ensures ReplyByte(n, a) !in {ControlByte(m), C_UA, C_DISC, 0}
  {}

  /** The bytes on the wire, for every frame number. */
  lemma ControlBytesOnTheWire(n: nat)
    ensures n % 2 == 0 ==> ReplyByte(n, true) == 0x81 && ReplyByte(n, false) == 0x87 && ControlByte(n) == 0x00
    ensures n % 2 == 1 ==> ReplyByte(n, true) == 0x01 && ReplyByte(n, false) == 0x07 && ControlByte(n) == 0x40
  {}

  /** What counts as a REJ: any byte with the three lowest bits set, the SET of a connection included. */
  lemma RejectBytes(c: Byte)
    ensures IsReject(c) <==> exists k :: 0 <= k < 32 && c == 8 * k + 7
    ensures IsReject(C_SET)
  {
    assert c == 8 * (c / 8) + c % 8;
  }

  /** Exclusive or with the station address turns the two lowest bits. */
  lemma XorAddress(c: Byte)
    ensures BitXor(ADDRESS, c) == c + 3 - 2 * (c % 4)
  {
    var x, y := XorNat(3, c), XorNat(1, c / 2);
    XorNatSplit(3, c);
    XorNatSplit(1, c / 2);
    XorNatSmall(c);
    TwoBits(x, y, c);
  }

  lemma Digits(n: nat)
    ensures n == 4 * (n / 4) + 2 * (n / 2 % 2) + n % 2 && n % 4 == 2 * (n / 2 % 2) + n % 2
  {}

  lemma OtherParity(n: nat)
    ensures (1 + n) % 2 == (3 + n) % 2 == 1 - n % 2
  {}

  lemma TwoBits(x: nat, y: nat, c: nat)
    requires x % 2 == (3 + c) % 2 && x / 2 == y && y % 2 == (1 + c / 2) % 2 && x / 4 == c / 4
    ensures x == c + 3 - 2 * (c % 4)
  {
    Digits(x);
    Digits(c);
    OtherParity(c);
    OtherParity(c / 2);
    Combine(x, c, x / 4, c / 2 % 2, c % 2, y % 2, x % 2, c % 4);
  }

  lemma Combine(x: nat, c: nat, p: nat, q: nat, r: nat, q': nat, r': nat, low: nat)
    requires x == 4 * p + 2 * q' + r' && c == 4 * p + 2 * q + r && low == 2 * q + r
    requires q' == 1 - q && r' == 1 - r
    ensures x == c + 3 - 2 * low
  {}

  lemma SupervisionOnTheWire(c: Byte)
    ensures Compose(Supervision(c)) == [0x7e, 0x03, c, c + 3 - 2 * (c % 4), 0x7e]
  {
    XorAddress(c);
  }

  /** Whole frames on the wire: SET, DISC, UA, the replies to frames 0 and 1, and the headers of data
      frames 0 and 1. */
  lemma FramesOnTheWire(data: seq<Byte>)
    ensures Compose(Supervision(C_SET)) == [0x7e, 0x03, 0x07, 0x04, 0x7e]
    ensures Compose(Supervision(C_DISC)) == [0x7e, 0x03, 0x0b, 0x08, 0x7e]
    ensures Compose(Supervision(C_UA)) == [0x7e, 0x03, 0x03, 0x00, 0x7e]
    ensures Compose(Supervision(ReplyByte(0, true))) == [0x7e, 0x03, 0x81, 0x82, 0x7e]
    ensures Compose(Supervision(ReplyByte(0, false))) == [0x7e, 0x03, 0x87, 0x84, 0x7e]
    ensures Compose(Supervision(ReplyByte(1, true))) == [0x7e, 0x03, 0x01, 0x02, 0x7e]
    ensures Compose(Supervision(ReplyByte(1, false))) == [0x7e, 0x03, 0x07, 0x04, 0x7e]
    ensures Header(Frame(ADDRESS, ControlByte(0), data)) == [0x03, 0x00, 0x03]
    ensures Header(Frame(ADDRESS, ControlByte(1), data)) == [0x03, 0x40, 0x43]
  {
    SupervisionOnTheWire(C_SET);
    SupervisionOnTheWire(C_DISC);
    SupervisionOnTheWire(C_UA);
    SupervisionOnTheWire(ReplyByte(0, true));
    SupervisionOnTheWire(ReplyByte(0, false));
    SupervisionOnTheWire(ReplyByte(1, true));
    SupervisionOnTheWire(ReplyByte(1, false));
    XorAddress(ControlByte(0));
    XorAddress(ControlByte(1));
  }

  /** Every control byte in use gives a frame that can be sent and recognised. */
  lemma ControlBytesSendable(c: Byte, data: seq<Byte>)
    requires c in {C_SET, C_DISC, C_UA, 0, 64, C_RR, C_REJ, C_RR + 128, C_REJ + 128}
    requires |data| <= LL_MAX_PAYLOAD_UNSTUFFED
    ensures Sendable(Frame(ADDRESS, c, data))
  {
    var x := BitXor(ADDRESS, c);
    assert c != FLAG;
    XorNatSmall(c);
    assert Header(Frame(ADDRESS, c, data)) == [ADDRESS, c, x];
  }

  /** Exclusive or with the station address only touches the two lowest bits. */
  lemma XorNatSmall(c: Byte)
    ensures BitXor(ADDRESS, c) / 4 == c / 4
  {
    XorNatSplit(3, c);
    XorNatSplit(1, c / 2);
    assert c / 2 / 2 == c / 4;
  }

  lemma DataFrameSendable(n: nat, data: seq<Byte>)
    requires |data| <= LL_MAX_PAYLOAD_UNSTUFFED
    ensures Sendable(Frame(ADDRESS, ControlByte(n), data))
  {
    ControlBytesSendable(ControlByte(n), data);
  }
}
