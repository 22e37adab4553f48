/** What a corrupted frame is taken for: changed header and body bytes, flipped bits, and bytes
    turned into a FLAG (src/data_link_io.c). */
module ErrorDetection {
  import opened Bits
  import opened Codes
  import opened Stuffing
  import opened Framing
  import opened Control

  /** Changing any one of the three header bytes of a frame is always detected. */
  lemma HeaderChangeDetected(f: Frame, i: nat, x: Byte, a: seq<Byte>, max: nat, stale: Byte)
    requires Sendable(f) && 1 <= i <= 3 && x != Compose(f)[i]
    requires |a| >= PARSE_WINDOW && Compose(f)[i := x] <= a
    ensures Parse(a, max, stale).Bad?
  {
    var w := Compose(f)[i := x];
    assert a[0] == w[0] && a[1] == w[1] && a[2] == w[2] && a[3] == w[3];
    HeaderMismatch(f.address, f.control, i, x, a[4], a[5], stale);
  }

  /** A changed control byte other than FLAG makes a bad frame, and is itself what remains in the
      record that transmitter_write looks at: a garbled reply can leave any such byte behind. */
  lemma ControlByteLeftBehind(q: Byte, x: Byte, a: seq<Byte>, max: nat, stale: Byte)
    requires Sendable(Supervision(q)) && x != q && x != FLAG
    requires |a| >= PARSE_WINDOW && Compose(Supervision(q))[2 := x] <= a
    ensures Parse(a, max, stale) == Bad(x)
  {
    var w := Compose(Supervision(q))[2 := x];
    XorCancel(ADDRESS, q, x);
    assert BitXor(ADDRESS, q) in Header(Supervision(q));
    assert w == [FLAG, ADDRESS, x, BitXor(ADDRESS, q), FLAG];
    assert a[0] == w[0] && a[1] == w[1] && a[2] == w[2] && a[3] == w[3];
  }

  /** In particular a REJ can be garbled into a bad frame that leaves the byte of any RR behind. */
  lemma RejectReadAsAck(n: nat, m: nat, a: seq<Byte>, max: nat, stale: Byte)
    requires |a| >= PARSE_WINDOW && Compose(Supervision(ReplyByte(n, false)))[2 := ReplyByte(m, true)] <= a
    ensures Parse(a, max, stale) == Bad(ReplyByte(m, true))
  {
    ControlBytesSendable(ReplyByte(n, false), []);
    RepliesAreDistinct(n, m, false, true);
    ControlByteLeftBehind(ReplyByte(n, false), ReplyByte(m, true), a, max, stale);
  }

  lemma HeaderMismatch(p: Byte, q: Byte, i: nat, x: Byte, y: Byte, z: Byte, stale: Byte)
    requires 1 <= i <= 3 && x != (if i == 1 then p else if i == 2 then q else BitXor(p, q))
    ensures i == 1 ==> ParseHeader(FLAG, x, q, BitXor(p, q), y, z, stale) in {Some(Bad(stale)), Some(Bad(q))}
    ensures i == 2 ==> ParseHeader(FLAG, p, x, BitXor(p, q), y, z, stale) in {Some(Bad(stale)), Some(Bad(x))}
    ensures i == 3 ==> ParseHeader(FLAG, p, q, x, y, z, stale) in {Some(Bad(stale)), Some(Bad(q))}
  {
    XorCancel(p, q, x);
  }

  lemma XorCancel(p: Byte, q: Byte, x: Byte)
    ensures x != p ==> BitXor(x, q) != BitXor(p, q)
    ensures x != q ==> BitXor(p, x) != BitXor(p, q)
  {
    XorUndo(q, x);
    XorUndo(q, p);
    XorUndo(p, x);
    XorUndo(p, q);
  }

  /** The frame `f` with its stuffed body replaced by `body`. */
  function WithBody(f: Frame, body: seq<Byte>): seq<Byte> {
    [FLAG] + (Header(f) + body) + [FLAG]
  }

  /** The verdict on a frame with some other body in place of its own. */
  lemma BodyMeaning(f: Frame, body: seq<Byte>, a: seq<Byte>, max: nat, stale: Byte)
    requires FLAG !in Header(f) && FLAG !in body && (|body| <= 1 || !Dangling(body))
    requires |a| >= PARSE_WINDOW && WithBody(f, body) <= a
    ensures Parse(a, max, stale) == Meaning(Header(f) + body, max, stale)
  {
    var inner := Header(f) + body;
    assert inner[3..] == body;
    ParseMeaning(a, inner, max, stale);
  }

  lemma BodyVerdict(f: Frame, body: seq<Byte>, a: seq<Byte>, max: nat, stale: Byte)
    requires FLAG !in Header(f) && FLAG !in body && |body| >= 2 && !Dangling(body)
    requires |a| >= PARSE_WINDOW && WithBody(f, body) <= a
    ensures var data := Destuff(body);
            Parse(a, max, stale)
            == if Xor(data) == 0 && |data| <= max + 1 && LastToken(body) <= LL_MAX_PAYLOAD_STUFFED
               then Good(f.address, f.control, data) else Bad(f.control)
  {
    BodyMeaning(f, body, a, max, stale);
    assert (Header(f) + body)[3..] == body;
  }

  /** One corrupted body byte of a data frame goes undetected exactly when it changes the parity
      of the number of escapes while its own change equals ESC ^ OCT = 0x5d, provided it makes
      neither a FLAG nor a dangling escape and the result still respects the size limits. */
  lemma ByteChangeDetected(f: Frame, i: nat, x: Byte, a: seq<Byte>, max: nat, stale: Byte)
    requires Sendable(f) && f.data != []
    requires i < |Body(f)| && x != Body(f)[i] && x != FLAG && !Dangling(Body(f)[i := x])
    requires |a| >= PARSE_WINDOW && WithBody(f, Body(f)[i := x]) <= a
    ensures var body := Body(f)[i := x];
            Parse(a, max, stale).Good? <==>
              && BitXor(Body(f)[i], x) == ESCAPE_XOR
              && OddEscapes(body) != OddEscapes(Body(f))
              && |Destuff(body)| <= max + 1
              && LastToken(body) <= LL_MAX_PAYLOAD_STUFFED
    ensures Parse(a, max, stale).Good? || Parse(a, max, stale) == Bad(f.control)
  {
    BodyBounds(f);
    var body := Body(f)[i := x];
    BodyVerdict(f, body, a, max, stale);
    BodyFoldsToZero(f);
    ByteChangeFolds(Body(f), i, x, body);
  }

  /** Such changes exist: the frame with the single data byte 7e has the body 7d 5e 7d 5e, and with
      20 in place of its first byte it is accepted as the data 20 5e and the check byte 7e. */
  lemma ByteChangeUndetected() returns (f: Frame, i: nat, x: Byte, a: seq<Byte>)
    ensures Sendable(f) && f.data == [FLAG]
    ensures i < |Body(f)| && x != Body(f)[i] && x != FLAG && !Dangling(Body(f)[i := x])
    ensures |a| >= PARSE_WINDOW && WithBody(f, Body(f)[i := x]) <= a
    ensures Parse(a, 2, 0) == Good(ADDRESS, 0, [0x20, 0x5e, 0x7e]) != Delivered(f)
  {
    f, i, x := Frame(ADDRESS, 0, [FLAG]), 0, OCT;
    FlagFrame(f);
    var body := ChangedBody(Body(f));
    ChangedFolds();
    a := WithBody(f, body) + seq(PARSE_WINDOW, _ => 0);
    BodyVerdict(f, body, a, 2, 0);
  }

  lemma FlagFrame(f: Frame)
    requires f == Frame(ADDRESS, 0, [FLAG])
    ensures Sendable(f) && Header(f) == [ADDRESS, 0, ADDRESS] && Body(f) == [ESC, 0x5e, ESC, 0x5e]
  {
    EscapedBytes();
    XorLaws(ADDRESS, 0, 0);
    XorOne(FLAG);
    StuffSnoc([FLAG], FLAG);
    StuffSnoc([], FLAG);
    assert [] + [FLAG] == [FLAG] && Stuff([]) + Escape(FLAG) == Escape(FLAG);
  }

  lemma ChangedBody(t: seq<Byte>) returns (body: seq<Byte>)
    requires t == [ESC, 0x5e, ESC, 0x5e]
    ensures body == t[0 := OCT] && Destuff(body) == [0x20, 0x5e, 0x7e]
    ensures !Dangling(body) && LastToken(body) == 2 && FLAG !in body
  {
    var e := EscapedFlag();
    EscapeOnly(FLAG);
    var u := TwoPlain(0x20, 0x5e, e, [FLAG]);
    body := u;
  }

  /** Two plain bytes in front of a token that decodes to `d`. */
  lemma TwoPlain(a: Byte, b: Byte, e: seq<Byte>, d: seq<Byte>) returns (t: seq<Byte>)
    requires a != ESC && b != ESC && |e| == 2 && Destuff(e) == d && |d| == 1 && !Dangling(e) && LastToken(e) == 0
    ensures t == [a, b, e[0], e[1]]
    ensures Destuff(t) == [a, b, d[0]] && !Dangling(t) && LastToken(t) == 2
  {
    var u := [b] + e;
    t := [a] + u;
    PlainThen(b, e);
    PlainThen(a, u);
    assert Destuff(u) == [b, d[0]];
  }

  lemma EscapedFlag() returns (e: seq<Byte>)
    ensures e == Escape(FLAG) == [ESC, BitXor(OCT, FLAG)] == [ESC, 0x5e]
  {
    EscapedBytes();
    e := Escape(FLAG);
  }

  lemma ChangedFolds()
    ensures Xor([0x20, 0x5e, 0x7e]) == 0
  {
    EscapedBytes();
    XorUndo(OCT, FLAG);
    FoldsToZero(OCT, BitXor(OCT, FLAG), FLAG);
  }

  lemma FoldsToZero(a: Byte, b: Byte, c: Byte)
    requires BitXor(a, b) == c
    ensures Xor([a, b, c]) == 0
  {
    XorOne(a);
    XorSnoc([a], b);
    assert [a] + [b] == [a, b];
    XorSnocZero([a, b], c);
    assert [a, b] + [c] == [a, b, c];
  }

  /** A plain byte in front of other tokens. */
  lemma PlainThen(c: Byte, t: seq<Byte>)
    requires c != ESC && t != []
    ensures var u := [c] + t;
            Destuff(u) == [c] + Destuff(t) && (Dangling(u) <==> Dangling(t)) && LastToken(u) == 1 + LastToken(t)
  {
    var u := [c] + t;
    assert u[1..] == t;
    TokenStep(u);
  }

  lemma EscapeOnly(c: Byte)
    requires Escape(c) == [ESC, BitXor(OCT, c)]
    ensures Destuff(Escape(c)) == [c] && !Dangling(Escape(c)) && LastToken(Escape(c)) == 0
  {
    var e := Escape(c);
    assert e[2..] == [];
    TokenStep(e);
    XorUndo(OCT, c);
  }

  predicate SingleBit(mask: Byte) {
    mask in {1, 2, 4, 8, 16, 32, 64, 128}
  }

  lemma Flip(b: Byte, mask: Byte, x: Byte)
    requires SingleBit(mask) && x == BitXor(b, mask)
    ensures x != b && BitXor(b, x) != ESCAPE_XOR
  {
    XorUndo(b, mask);
    XorEqual(b, x);
  }

  /** Single-bit error detection: flipping any one bit of the stuffed body always gives a bad
      frame, even when it creates or destroys an escape and so moves every later token. */
  lemma BitFlipDetected(f: Frame, i: nat, mask: Byte, body: seq<Byte>, a: seq<Byte>, max: nat, stale: Byte)
    requires Sendable(f) && f.data != [] && SingleBit(mask)
    requires i < |Body(f)| && body == Body(f)[i := BitXor(Body(f)[i], mask)]
    requires body[i] != FLAG && !Dangling(body)
    requires |a| >= PARSE_WINDOW && WithBody(f, body) <= a
    ensures Parse(a, max, stale) == Bad(f.control)
  {
    Flip(Body(f)[i], mask, body[i]);
    ByteChangeDetected(f, i, body[i], a, max, stale);
  }

  /** A body byte turned into a FLAG cuts the frame short there, and the rest is not looked at. The
      remainder is accepted exactly when nothing of the body is left, or when more than one byte is
      left that decodes to something folding to zero and fits. */
  lemma CutShort(f: Frame, i: nat, cut: seq<Byte>, a: seq<Byte>, max: nat, stale: Byte)
    requires Sendable(f) && i < |Body(f)| && cut == Body(f)[..i] && !Dangling(cut)
    requires |a| >= PARSE_WINDOW && WithBody(f, Body(f)[i := FLAG]) <= a
    ensures Parse(a, max, stale) == Meaning(Header(f) + cut, max, stale)
    ensures Parse(a, max, stale).Good? <==>
            i == 0 || (i > 1 && Xor(Destuff(cut)) == 0 && |Destuff(cut)| <= max + 1)
    ensures i == 0 ==> Parse(a, max, stale) == Good(f.address, f.control, [])
  {
    BodyBounds(f);
    CutIsPrefix(f, Body(f), i);
    var inner := Header(f) + cut;
    BodyMeaning(f, cut, a, max, stale);
    if i > 1 {
      BodyVerdict(f, cut, a, max, stale);
    } else {
      assert |inner| == 3 + i && (i == 0 ==> inner == Header(f));
    }
  }

  lemma CutIsPrefix(f: Frame, body: seq<Byte>, i: nat)
    requires i < |body|
    ensures WithBody(f, body[..i]) <= WithBody(f, body[i := FLAG])
  {
    var short, long := WithBody(f, body[..i]), WithBody(f, body[i := FLAG]);
    assert long[..|short|] == short;
  }

  /** A frame with one plain data byte. */
  lemma PlainByteFrame(b: Byte)
    requires b != FLAG && b != ESC
    ensures var f := Frame(ADDRESS, 0, [b]);
            Sendable(f) && Body(f) == [b, b]
  {
    var f := Frame(ADDRESS, 0, [b]);
    XorLaws(ADDRESS, 0, 0);
    XorOne(b);
    StuffSnoc([b], b);
    StuffSnoc([], b);
    assert [] + [b] == [b] && Stuff([]) + Escape(b) == [b];
    assert FLAG !in Header(f);
  }

  lemma FlipToFlag() returns (b: Byte)
    ensures b == 0x7f && BitXor(b, 1) == FLAG
  {
    b := 0x7f;
    XorNatSplit(b, 1);
    XorNatZero(b / 2);
  }

  /** So a single flipped bit can turn a data frame into an accepted frame without data. */
  lemma EmptiedByFlip() returns (f: Frame)
    ensures Sendable(f) && f.data == [0x7f] && Body(f)[0] == 0x7f && BitXor(0x7f, 1) == FLAG
    ensures forall a, max, stale :: |a| >= PARSE_WINDOW && WithBody(f, Body(f)[0 := FLAG]) <= a ==>
              Parse(a, max, stale) == Good(f.address, f.control, [])
  {
    var b := FlipToFlag();
    PlainByteFrame(b);
    f := Frame(ADDRESS, 0, [b]);
    forall a, max, stale | |a| >= PARSE_WINDOW && WithBody(f, Body(f)[0 := FLAG]) <= a
      ensures Parse(a, max, stale) == Good(f.address, f.control, [])
    {
      CutShort(f, 0, [], a, max, stale);
    }
  }
}
