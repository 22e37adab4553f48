/** Frames as byte strings: what f_send_frame composes and what
    parse_frame_from_array makes of a receive buffer (src/data_link_io.c). */
module Framing {
  import opened Bits
  import opened Codes
  import opened Stuffing

  /** An outgoing frame; `size` is |data|, and a frame without data is a supervision frame. */
  datatype Frame = Frame(address: Byte, control: Byte, data: seq<Byte>)

  /** FRAME(control): a supervision frame of the station's own address. */
  function Supervision(control: Byte): Frame {
    Frame(ADDRESS, control, [])
  }

  function Header(f: Frame): seq<Byte> {
    [f.address, f.control, BitXor(f.address, f.control)]
  }

  /** The data and its check byte, stuffed; nothing for a supervision frame. */
  function Body(f: Frame): seq<Byte> {
    if f.data == [] then [] else Stuff(f.data + [Xor(f.data)])
  }

  function Compose(f: Frame): seq<Byte> {
    [FLAG] + Header(f) + Body(f) + [FLAG]
  }

  /** What f_send_frame accepts, with a header that does not imitate a delimiter. */
  predicate Sendable(f: Frame) {
    FLAG !in Header(f) && |f.data| <= LL_MAX_PAYLOAD_UNSTUFFED
  }

  /** Outcome of parsing. `Bad` keeps the control byte that is left in the frame record;
      `data` of a received data frame still ends with its check byte. */
  datatype Parsed =
    | Missing
    | Bad(control: Byte)
    | Good(address: Byte, control: Byte, data: seq<Byte>)

  /** What parsing should give for frame `f`. */
  function Delivered(f: Frame): Parsed {
    Good(f.address, f.control, if f.data == [] then [] else f.data + [Xor(f.data)])
  }

  /** One cell more than the largest index the parser may look at. */
  const PARSE_WINDOW: nat := 8196

  /** The byte the loop decodes at offset `n` of the body, and the offset behind it. */
  function TokenAt(b: seq<Byte>, n: nat): Byte
    requires n + 1 < |b|
  {
    if b[n] == ESC then BitXor(OCT, b[n + 1]) else b[n]
  }

  function AfterToken(b: seq<Byte>, n: nat): nat
    requires n < |b|
  {
    if b[n] == ESC then n + 2 else n + 1
  }

  /** The parse loop from body offset `n`, with `got` decoded so far. */
  function ParseBody(b: seq<Byte>, n: nat, got: seq<Byte>, max: nat): (r: (bool, seq<Byte>))
    requires |b| >= PARSE_WINDOW - 4
    requires n <= LL_MAX_PAYLOAD_STUFFED + 2
    decreases LL_MAX_PAYLOAD_STUFFED + 2 - n
  {
    if n > LL_MAX_PAYLOAD_STUFFED || |got| > max then (false, got)
    else
      var c, m := TokenAt(b, n), AfterToken(b, n);
      if b[m] == FLAG then (c == Xor(got), got + [c])
      else ParseBody(b, m, got + [c], max)
  }

  /** What the parser decides from the first six bytes, if it does, before its data loop. */
  function ParseHeader(flag: Byte, address: Byte, control: Byte, bcc: Byte, x: Byte, y: Byte,
                       stale: Byte): Option<Parsed>
  {
    if flag != FLAG then Some(Missing)
    else if address == FLAG || control == FLAG || bcc == FLAG then Some(Bad(stale))
    else if bcc != BitXor(address, control) then Some(Bad(control))
    else if x == FLAG then Some(Good(address, control, []))
    else if y == FLAG then Some(Bad(control))
    else None
  }

  /** parse_frame_from_array on buffer `a`, for a record whose control byte holds `stale`
      and whose data area is declared to hold `max` bytes. */
  function Parse(a: seq<Byte>, max: nat, stale: Byte): (p: Parsed)
    requires |a| >= PARSE_WINDOW
    ensures p.Good? ==> |p.data| <= max + 1
  {
    match ParseHeader(a[0], a[1], a[2], a[3], a[4], a[5], stale)
    case Some(p) => p
    case None =>
      ParseBodyBound(a[4..], 0, [], max);
      var r := ParseBody(a[4..], 0, [], max);
      if r.0 then Good(a[1], a[2], r.1) else Bad(a[2])
  }

  /** One round of the loop: it decodes `c` and comes to stand at `m`. */
  lemma ParseBodyStep(b: seq<Byte>, n: nat, got: seq<Byte>, max: nat, c: Byte, m: nat)
    requires |b| >= PARSE_WINDOW - 4 && n <= LL_MAX_PAYLOAD_STUFFED && |got| <= max
    requires c == TokenAt(b, n) && m == AfterToken(b, n)
    ensures ParseBody(b, n, got, max)
         == if b[m] == FLAG then (c == Xor(got), got + [c]) else ParseBody(b, m, got + [c], max)
  {}

  /** The loop never stores more than max + 1 bytes. */
  lemma {:induction false} ParseBodyBound(b: seq<Byte>, n: nat, got: seq<Byte>, max: nat)
    requires |b| >= PARSE_WINDOW - 4
    requires n <= LL_MAX_PAYLOAD_STUFFED + 2 && |got| <= max + 1
    ensures |ParseBody(b, n, got, max).1| <= max + 1
    decreases LL_MAX_PAYLOAD_STUFFED + 2 - n
  {
    if n <= LL_MAX_PAYLOAD_STUFFED && |got| <= max {
      var c, m := TokenAt(b, n), AfterToken(b, n);
      if b[m] != FLAG {
        ParseBodyBound(b, m, got + [c], max);
      }
    }
  }

  /** Nothing beyond the window influences the parser. */
  lemma {:induction false} ParseBodyWindow(b: seq<Byte>, c: seq<Byte>, n: nat, got: seq<Byte>, max: nat)
    requires |b| >= PARSE_WINDOW - 4 && |c| >= PARSE_WINDOW - 4
    requires b[..PARSE_WINDOW - 4] == c[..PARSE_WINDOW - 4]
    requires n <= LL_MAX_PAYLOAD_STUFFED + 2
    ensures ParseBody(b, n, got, max) == ParseBody(c, n, got, max)
    decreases LL_MAX_PAYLOAD_STUFFED + 2 - n
  {
    if n <= LL_MAX_PAYLOAD_STUFFED && |got| <= max {
      assert forall k :: 0 <= k < PARSE_WINDOW - 4 ==> b[k] == b[..PARSE_WINDOW - 4][k] == c[k];
      var x, m := TokenAt(b, n), AfterToken(b, n);
      if b[m] != FLAG {
        ParseBodyWindow(b, c, m, got + [x], max);
      }
    }
  }

  lemma ParseWindow(a: seq<Byte>, b: seq<Byte>, max: nat, stale: Byte)
    requires |a| >= PARSE_WINDOW && |b| >= PARSE_WINDOW
    requires a[..PARSE_WINDOW] == b[..PARSE_WINDOW]
    ensures Parse(a, max, stale) == Parse(b, max, stale)
  {
    assert forall k :: 0 <= k < PARSE_WINDOW ==> a[k] == a[..PARSE_WINDOW][k] == b[k];
    assert a[4..][..PARSE_WINDOW - 4] == a[..PARSE_WINDOW][4..] == b[4..][..PARSE_WINDOW - 4];
    ParseBodyWindow(a[4..], b[4..], 0, [], max);
  }

  // ---------------------------------------------------------------------------
  // Reference meaning of a delimited frame

  /** Offset of the last token of `t`. */
  function LastToken(t: seq<Byte>): (k: nat)
    requires t != []
    ensures k < |t|
  {
    var n := TokenLength(t);
    if n == |t| then 0 else n + LastToken(t[n..])
  }

  /** What the bytes between two delimiters mean, token by token and without the loop:
      a header with a matching check byte, then either nothing or a destuffed body
      that folds to zero, within the two size limits. */
  function Meaning(inner: seq<Byte>, max: nat, stale: Byte): Parsed {
    if |inner| < 3 then Bad(stale)
    else if inner[2] != BitXor(inner[0], inner[1]) then Bad(inner[1])
    else if |inner| == 3 then Good(inner[0], inner[1], [])
    else
      var data := Destuff(inner[3..]);
      if |inner| > 4 && Xor(data) == 0 && |data| <= max + 1
         && LastToken(inner[3..]) <= LL_MAX_PAYLOAD_STUFFED
      then Good(inner[0], inner[1], data)
      else Bad(inner[1])
  }

  /** `a` starts with a frame whose inside is `inner`. */
  ghost predicate Holds(a: seq<Byte>, inner: seq<Byte>) {
    |a| >= PARSE_WINDOW && FLAG !in inner && [FLAG] + inner + [FLAG] <= a
  }

  predicate Unambiguous(inner: seq<Byte>) {
    |inner| <= 4 || !Dangling(inner[3..])
  }

  /** The first token and what is behind it. */
  lemma TokenStep(t: seq<Byte>)
    requires t != []
    ensures var u := t[TokenLength(t)..];
            && Destuff(t) == [Token(t)] + Destuff(u) && |Destuff(t)| == 1 + |Destuff(u)|
            && (u == [] ==> Destuff(u) == [] && LastToken(t) == 0)
            && (u != [] ==> LastToken(t) == TokenLength(t) + LastToken(u))
            && (Dangling(t) <==> t == [ESC] || Dangling(u))
  {}

  /** `b` starts with the FLAG-free body `w` and the closing FLAG. */
  ghost predicate Closes(b: seq<Byte>, w: seq<Byte>) {
    |b| >= PARSE_WINDOW - 4 && FLAG !in w && |w| < |b| && b[|w|] == FLAG
    && forall j :: 0 <= j < |w| ==> b[j] == w[j]
  }

  /** From offset `n` on, the body `w` decodes to `data`, and its last token begins at `last`. */
  ghost predicate Decodes(w: seq<Byte>, n: nat, data: seq<Byte>, last: nat)
    decreases |w| - n
  {
    && n < |w| && n <= last && data != [] && (w[n] == ESC ==> n + 1 < |w|)
    && data[0] == (if w[n] == ESC then BitXor(OCT, w[n + 1]) else w[n])
    && if AfterToken(w, n) == |w| then data == [data[0]] && last == n
       else Decodes(w, AfterToken(w, n), data[1..], last)
  }

  lemma DecodesOneMore(w: seq<Byte>, n: nat, c: Byte, rest: seq<Byte>, last: nat)
    requires n < |w| && (w[n] == ESC ==> n + 1 < |w|)
    requires c == if w[n] == ESC then BitXor(OCT, w[n + 1]) else w[n]
    requires if AfterToken(w, n) == |w| then rest == [] && last == n else Decodes(w, AfterToken(w, n), rest, last)
    ensures Decodes(w, n, [c] + rest, last)
  {
    assert ([c] + rest)[1..] == rest;
  }

  /** The token at offset `n` of a body that does not dangle from there, and what is behind it. */
  lemma TokenOf(w: seq<Byte>, n: nat) returns (m: nat, c: Byte, rest: seq<Byte>, more: nat)
    requires n < |w| && !Dangling(w[n..])
    ensures (w[n] == ESC ==> n + 1 < |w|) && m == AfterToken(w, n) <= |w|
    ensures c == if w[n] == ESC then BitXor(OCT, w[n + 1]) else w[n]
    ensures rest == Destuff(w[m..]) && Destuff(w[n..]) == [c] + rest && !Dangling(w[m..])
    ensures m == |w| ==> rest == []
    ensures more == if m < |w| then LastToken(w[m..]) else 0
    ensures LastToken(w[n..]) == if m < |w| then m - n + more else 0
  {
    var t := w[n..];
    m, c := n + TokenLength(t), Token(t);
    assert t[m - n..] == w[m..];
    rest := Destuff(w[m..]);
    more := if m < |w| then LastToken(w[m..]) else 0;
    TokenStep(t);
  }

  lemma {:induction false} DecodesDestuff(w: seq<Byte>, n: nat) returns (data: seq<Byte>, last: nat)
    requires n < |w| && !Dangling(w[n..])
    ensures data == Destuff(w[n..]) && last == n + LastToken(w[n..]) && Decodes(w, n, data, last)
    decreases |w| - n
  {
    var m, c, rest, more := TokenOf(w, n);
    last := n;
    if m < |w| {
      var d, l := DecodesDestuff(w, m);
      last := l;
    }
    data := [c] + rest;
    DecodesOneMore(w, n, c, rest, last);
  }

  /** The loop, standing at offset `n` of the body `w` that decodes to `data` from there: whether
      it accepts, what it has decoded then, and how many bytes it stores in any case. */
  lemma {:induction false} ParseBodyMeaning(b: seq<Byte>, w: seq<Byte>, n: nat, data: seq<Byte>, last: nat,
                                            got: seq<Byte>, max: nat)
    requires Closes(b, w) && Decodes(w, n, data, last) && n <= LL_MAX_PAYLOAD_STUFFED + 2
    ensures var r, all := ParseBody(b, n, got, max), got + data;
            && (r.0 <==> |all| <= max + 1 && last <= LL_MAX_PAYLOAD_STUFFED && Xor(all) == 0)
            && (r.0 ==> r.1 == all)
            && (last <= LL_MAX_PAYLOAD_STUFFED && |got| <= max + 1 ==>
                  |r.1| == if |all| <= max + 1 then |all| else max + 1)
    decreases |w| - n
  {
    if n <= LL_MAX_PAYLOAD_STUFFED && |got| <= max {
      var c, m := data[0], AfterToken(w, n);
      ParseBodyStep(b, n, got, max, c, m);
      if m == |w| {
        XorSnocZero(got, c);
      } else {
        Assoc(got, [c], data[1..]);
        assert data == [c] + data[1..];
        ParseBodyMeaning(b, w, m, data[1..], last, got + [c], max);
      }
    }
  }

  /** Main result on the parser: on every buffer that starts with a delimited frame without
      a dangling escape, the loop over the buffer computes the meaning of the inside. */
  lemma ParseMeaning(a: seq<Byte>, inner: seq<Byte>, max: nat, stale: Byte)
    requires Holds(a, inner) && Unambiguous(inner)
    ensures Parse(a, max, stale) == Meaning(inner, max, stale)
  {
    HoldsAt(a, inner);
    if |inner| < 3 {
      assert a[1..4][|inner|] == FLAG;
    } else if |inner| > 4 {
      var w := inner[3..];
      assert w[0..] == w;
      var data, last := DecodesDestuff(w, 0);
      ParseBodyMeaning(a[4..], w, 0, data, last, [], max);
      assert [] + data == data;
    }
  }

  lemma HoldsAt(a: seq<Byte>, inner: seq<Byte>)
    requires Holds(a, inner)
    ensures a[0] == a[|inner| + 1] == FLAG
    ensures |inner| >= 3 ==> a[1] == inner[0] && a[2] == inner[1] && a[3] == inner[2] && FLAG !in a[1..4]
    ensures |inner| >= 4 ==> a[4] != FLAG
    ensures |inner| >= 5 ==> a[5] != FLAG
    ensures |inner| > 3 ==> Closes(a[4..], inner[3..])
  {
    var w := [FLAG] + inner + [FLAG];
    assert forall k :: 0 <= k < |w| ==> a[k] == w[k];
    assert forall k :: 0 <= k < |inner| ==> a[k + 1] == inner[k];
    if |inner| >= 3 {
      assert a[1..4] == inner[..3];
    }
  }

  // ---------------------------------------------------------------------------
  // Bounds and round trip

  lemma {:induction false} LastTokenStuff(s: seq<Byte>)
    requires s != []
    ensures LastToken(Stuff(s)) <= 2 * |s| - 2
  {
    var t := Stuff(s);
    assert t == Escape(s[0]) + Stuff(s[1..]);
    var n := TokenLength(t);
    assert n == |Escape(s[0])| && t[n..] == Stuff(s[1..]);
    if s[1..] != [] {
      StuffTransparent(s[1..]);
      LastTokenStuff(s[1..]);
    }
  }

  /** The inside of a composed frame is FLAG-free and unambiguous, and everything fits: the
      stuffed body takes at most 8190 bytes and the frame at most 8195. */
  lemma ComposeBounds(f: Frame)
    requires Sendable(f)
    ensures Compose(f) == [FLAG] + (Header(f) + Body(f)) + [FLAG]
    ensures FLAG !in Header(f) + Body(f) && Unambiguous(Header(f) + Body(f))
    ensures |Body(f)| <= 8190 && |Compose(f)| <= 8195 < PARSE_WINDOW <= LL_MAX_FRAME_SZ
    ensures f.data != [] ==> |Body(f)| >= 2 && LastToken(Body(f)) <= LL_MAX_PAYLOAD_STUFFED
  {
    BodyBounds(f);
    var inner := Header(f) + Body(f);
    assert inner[3..] == Body(f);
    assert Compose(f) == [FLAG] + inner + [FLAG];
  }

  lemma BodyBounds(f: Frame)
    requires Sendable(f)
    ensures FLAG !in Body(f) && |Body(f)| <= 8190 && !Dangling(Body(f))
    ensures f.data != [] ==> |Body(f)| >= 2 && LastToken(Body(f)) <= LL_MAX_PAYLOAD_STUFFED
  {
    if f.data != [] {
      var s := f.data + [Xor(f.data)];
      StuffedBounds(s);
      LastTokenStuff(s);
    }
  }

  lemma StuffedBounds(s: seq<Byte>)
    requires 2 <= |s| <= 4095
    ensures FLAG !in Stuff(s) && 2 <= |Stuff(s)| <= 8190 && !Dangling(Stuff(s))
  {
    StuffTransparent(s);
    DestuffStuff(s);
  }

  /** Frame round trip: a sendable frame whose data fits `max` is parsed back to the same
      address and control, and to its data with the check byte, whatever follows it. */
  lemma RoundTrip(f: Frame, a: seq<Byte>, max: nat, stale: Byte)
    requires Sendable(f) && |f.data| <= max
    requires |a| >= PARSE_WINDOW && Compose(f) <= a
    ensures Parse(a, max, stale) == Delivered(f)
  {
    ComposeBounds(f);
    var inner := Header(f) + Body(f);
    ParseMeaning(a, inner, max, stale);
    assert inner[3..] == Body(f);
    if f.data != [] {
      BodyFoldsToZero(f);
    }
  }

  /** The cell behind the declared maximum is written if and only if the frame has at least that
      much data: the check byte of a full frame lies there. */
  lemma ExtraCellWrittenIff(f: Frame, a: seq<Byte>, max: nat)
    requires Sendable(f) && f.data != []
    requires |a| >= PARSE_WINDOW && Compose(f) <= a
    ensures |ParseBody(a[4..], 0, [], max).1| > max <==> |f.data| >= max
  {
    ComposeBounds(f);
    var inner := Header(f) + Body(f);
    HoldsAt(a, inner);
    var w := inner[3..];
    assert w == Body(f) && w[0..] == w;
    BodyFoldsToZero(f);
    var data, last := DecodesDestuff(w, 0);
    ParseBodyMeaning(a[4..], w, 0, data, last, [], max);
    assert [] + data == data;
  }

  /** A receiver that declares less room than the data needs rejects the frame. */
  lemma TooLargeRejected(f: Frame, a: seq<Byte>, max: nat, stale: Byte)
    requires Sendable(f) && |f.data| > max
    requires |a| >= PARSE_WINDOW && Compose(f) <= a
    ensures Parse(a, max, stale) == Bad(f.control)
  {
    ComposeBounds(f);
    var inner := Header(f) + Body(f);
    ParseMeaning(a, inner, max, stale);
    assert inner[3..] == Body(f);
    DestuffStuff(f.data + [Xor(f.data)]);
  }

  lemma BodyFoldsToZero(f: Frame)
    requires f.data != []
    ensures Destuff(Body(f)) == f.data + [Xor(f.data)]
    ensures Xor(Destuff(Body(f))) == 0 && !Dangling(Body(f))
  {
    DestuffStuff(f.data + [Xor(f.data)]);
    XorSnocZero(f.data, Xor(f.data));
  }
}
