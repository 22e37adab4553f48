/** When the bytes that earlier frames left in the receive buffer decide the verdict on a frame
    (src/data_link_io.c). */
module StaleBytes {
  import opened Bits
  import opened Codes
  import opened Stuffing
  import opened Framing

  /** Stale-buffer independence: two buffers that agree up to the closing FLAG parse alike, when
      the bytes between the FLAGs do not end in an unpaired ESC. */
  lemma StaleBytesIgnored(a: seq<Byte>, b: seq<Byte>, k: nat, max: nat, stale: Byte)
    requires |a| == |b| == LL_MAX_FRAME_SZ && a[0] == FLAG
    requires 0 < k < |a| && a[k] == FLAG && FLAG !in a[1..k]
    requires Unambiguous(a[1..k]) && a[..k + 1] == b[..k + 1]
    ensures Parse(a, max, stale) == Parse(b, max, stale) == Meaning(a[1..k], max, stale)
  {
    var inner := a[1..k];
    assert [FLAG] + inner + [FLAG] == a[..k + 1];
    ParseMeaning(a, inner, max, stale);
    ParseMeaning(b, inner, max, stale);
  }

  /** That is so in particular when the byte before the closing FLAG is no ESC. */
  lemma UnambiguousWithoutEsc(inner: seq<Byte>)
    requires inner == [] || inner[|inner| - 1] != ESC
    ensures Unambiguous(inner)
  {
    if |inner| > 4 {
      DanglingEndsInEsc(inner[3..]);
    }
  }

  // ---------------------------------------------------------------------------
  // The exact condition

  /** What an escaped FLAG decodes to. */
  const ESCAPED_FLAG: Byte := 0x5e

  /** A frame with a valid header whose body ends in an unpaired ESC. */
  predicate Torn(inner: seq<Byte>) {
    |inner| > 4 && inner[2] == BitXor(inner[0], inner[1]) && Dangling(inner[3..])
  }

  /** The body of a torn frame without its last ESC. */
  function Whole(inner: seq<Byte>): (w: seq<Byte>)
    requires |inner| > 4
    ensures |w| == |inner| - 4
  {
    inner[3..|inner| - 1]
  }

  /** The loop gets to the last ESC of a torn frame, takes the closing FLAG for the escaped byte,
      and is still able to accept: with the check byte just read, or with one to come. */
  predicate Exposed(inner: seq<Byte>, max: nat) {
    && Torn(inner)
    && var w, got := Whole(inner), Destuff(Whole(inner));
       && |w| <= LL_MAX_PAYLOAD_STUFFED && |got| <= max
       && (Xor(got) == ESCAPED_FLAG || (|w| + 2 <= LL_MAX_PAYLOAD_STUFFED && |got| < max))
  }

  /** A whole receive buffer with the frame at its head. */
  ghost predicate Received(a: seq<Byte>, inner: seq<Byte>) {
    |a| == LL_MAX_FRAME_SZ && [FLAG] + inner + [FLAG] <= a
  }

  ghost predicate Differ(a: seq<Byte>, b: seq<Byte>, inner: seq<Byte>, max: nat, stale: Byte) {
    Received(a, inner) && Received(b, inner) && Parse(a, max, stale) != Parse(b, max, stale)
  }

  /** A body without its last ESC does not dangle. */
  lemma {:induction false} DanglingSnoc(w: seq<Byte>)
    ensures Dangling(w + [ESC]) <==> !Dangling(w)
    decreases |w|
  {
    var t := w + [ESC];
    if w == [] {
      assert t == [ESC];
    } else if w == [ESC] {
      assert t == [ESC, ESC] && t[2..] == [];
    } else {
      var k := TokenLength(w);
      assert TokenLength(t) == k && t[k..] == w[k..] + [ESC];
      DanglingSnoc(w[k..]);
    }
  }

  lemma WholeBody(inner: seq<Byte>) returns (w: seq<Byte>)
    requires Torn(inner)
    ensures w == Whole(inner) && w != [] && inner[3..] == w + [ESC] && !Dangling(w)
  {
    w := Whole(inner);
    DanglingEndsInEsc(inner[3..]);
    assert inner[3..] == w + [ESC];
    DanglingSnoc(w);
  }

  /** `b` starts with the FLAG-free `w`, which no FLAG follows. */
  ghost predicate GoesOn(b: seq<Byte>, w: seq<Byte>) {
    |b| >= PARSE_WINDOW - 4 && FLAG !in w && |w| < |b| && b[|w|] != FLAG
    && forall j :: 0 <= j < |w| ==> b[j] == w[j]
  }

  /** The loop comes to the end of `w` with all of it decoded, or has rejected before. */
  lemma {:induction false} Walk(b: seq<Byte>, w: seq<Byte>, n: nat, data: seq<Byte>, last: nat, got: seq<Byte>,
                                max: nat)
    requires GoesOn(b, w) && Decodes(w, n, data, last) && n <= LL_MAX_PAYLOAD_STUFFED + 2
    ensures var r, all := ParseBody(b, n, got, max), got + data;
            if |w| <= LL_MAX_PAYLOAD_STUFFED && |all| <= max then r == ParseBody(b, |w|, all, max) else !r.0
    decreases |w| - n
  {
    if n <= LL_MAX_PAYLOAD_STUFFED && |got| <= max {
      var c, m := data[0], AfterToken(w, n);
      ParseBodyStep(b, n, got, max, c, m);
      if m == |w| {
        assert got + data == got + [c];
      } else {
        Assoc(got, [c], data[1..]);
        assert data == [c] + data[1..];
        Walk(b, w, m, data[1..], last, got + [c], max);
      }
    }
  }

  /** The verdict on a torn frame: the bytes behind the closing FLAG decide it. */
  lemma TornVerdict(a: seq<Byte>, inner: seq<Byte>, max: nat, stale: Byte) returns (w: seq<Byte>, got: seq<Byte>)
    requires Torn(inner) && FLAG !in inner && Received(a, inner)
    ensures w == Whole(inner) && got == Destuff(w)
    ensures var r := ParseBody(a[4..], 0, [], max);
            && Parse(a, max, stale) == (if r.0 then Good(inner[0], inner[1], r.1) else Bad(inner[1]))
            && (if |w| <= LL_MAX_PAYLOAD_STUFFED && |got| <= max then
                  r == (if a[|inner| + 2] == FLAG then (Xor(got) == ESCAPED_FLAG, got + [ESCAPED_FLAG])
                        else ParseBody(a[4..], |w| + 2, got + [ESCAPED_FLAG], max))
                else !r.0)
  {
    w := WholeBody(inner);
    var b := a[4..];
    TornHead(a, inner, w);
    assert w[0..] == w;
    var data, last := DecodesDestuff(w, 0);
    got := data;
    Walk(b, w, 0, data, last, [], max);
    assert [] + data == data;
    EscapedBytes();
    if |w| <= LL_MAX_PAYLOAD_STUFFED && |got| <= max {
      ParseBodyStep(b, |w|, got, max, ESCAPED_FLAG, |w| + 2);
    }
  }

  /** What is where in a buffer with a torn frame. */
  lemma TornHead(a: seq<Byte>, inner: seq<Byte>, w: seq<Byte>)
    requires |inner| > 4 && FLAG !in inner && Received(a, inner) && inner[3..] == w + [ESC]
    ensures a[0] == FLAG && a[1] == inner[0] && a[2] == inner[1] && a[3] == inner[2]
    ensures FLAG !in [a[1], a[2], a[3], a[4], a[5]]
    ensures GoesOn(a[4..], w) && a[4..][|w|] == ESC && a[4..][|w| + 1] == FLAG
  {
    var f := [FLAG] + inner + [FLAG];
    assert forall k :: 0 <= k < |f| ==> a[k] == f[k];
    assert forall k :: 0 <= k < |inner| ==> a[k + 1] == inner[k];
    assert forall k :: 0 <= k < |w| ==> w[k] == inner[3..][k] == inner[3 + k];
    assert inner[|inner| - 1] == inner[3..][|w|];
  }

  /** Unless the frame is exposed, the stale bytes have no say. */
  lemma HiddenAlike(a: seq<Byte>, b: seq<Byte>, inner: seq<Byte>, max: nat, stale: Byte)
    requires FLAG !in inner && Received(a, inner) && Received(b, inner) && !Exposed(inner, max)
    ensures Parse(a, max, stale) == Parse(b, max, stale)
  {
    if Unambiguous(inner) {
      ParseMeaning(a, inner, max, stale);
      ParseMeaning(b, inner, max, stale);
    } else if Torn(inner) {
      TornRejected(a, inner, max, stale);
      TornRejected(b, inner, max, stale);
    } else {
      HoldsAt(a, inner);
      HoldsAt(b, inner);
    }
  }

  lemma TornRejected(a: seq<Byte>, inner: seq<Byte>, max: nat, stale: Byte)
    requires Torn(inner) && FLAG !in inner && Received(a, inner) && !Exposed(inner, max)
    ensures Parse(a, max, stale) == Bad(inner[1])
  {
    var w, got := TornVerdict(a, inner, max, stale);
  }

  /** The buffer with the frame and then `tail`. */
  function WithTail(inner: seq<Byte>, tail: seq<Byte>): seq<Byte>
    requires |inner| + 2 + |tail| <= LL_MAX_FRAME_SZ
  {
    [FLAG] + inner + [FLAG] + tail + seq(LL_MAX_FRAME_SZ - (|inner| + 2 + |tail|), _ => 0)
  }

  lemma TailAt(inner: seq<Byte>, tail: seq<Byte>)
    requires |inner| + 2 + |tail| <= LL_MAX_FRAME_SZ
    ensures Received(WithTail(inner, tail), inner)
    ensures forall k :: 0 <= k < |tail| ==> WithTail(inner, tail)[|inner| + 2 + k] == tail[k]
  {
    var a, head := WithTail(inner, tail), [FLAG] + inner + [FLAG];
    assert a[..|head|] == head;
  }

  /** Behind a torn frame a FLAG accepts exactly when the escaped FLAG is the check byte. */
  lemma FlagTail(inner: seq<Byte>, max: nat, stale: Byte) returns (a: seq<Byte>)
    requires FLAG !in inner && Exposed(inner, max)
    ensures Received(a, inner) && (Parse(a, max, stale).Good? <==> Xor(Destuff(Whole(inner))) == ESCAPED_FLAG)
  {
    a := WithTail(inner, [FLAG]);
    TailAt(inner, [FLAG]);
    assert a[|inner| + 2 + 0] == FLAG;
    var w, got := TornVerdict(a, inner, max, stale);
  }

  /** Behind a torn frame a further byte `x` and a FLAG accept exactly when there is room for it
      and it is the check byte. */
  lemma ByteTail(inner: seq<Byte>, x: Byte, max: nat, stale: Byte) returns (a: seq<Byte>)
    requires FLAG !in inner && Exposed(inner, max)
    ensures Received(a, inner)
    ensures var w, got := Whole(inner), Destuff(Whole(inner));
            Parse(a, max, stale).Good? <==>
              |w| + 2 <= LL_MAX_PAYLOAD_STUFFED && |got| < max && x == Xor(got + [ESCAPED_FLAG])
  {
    var e := Escape(x);
    var tail := e + [FLAG];
    a := WithTail(inner, tail);
    TailAt(inner, tail);
    EscapedTail(x, tail, a, inner);
    var w, got := TornVerdict(a, inner, max, stale);
    var b, n, all := a[4..], |w| + 2, got + [ESCAPED_FLAG];
    if n <= LL_MAX_PAYLOAD_STUFFED && |got| < max {
      ParseBodyStep(b, n, all, max, x, n + |e|);
      assert ParseBody(b, n, all, max).0 == (x == Xor(all));
    } else {
      assert !ParseBody(b, n, all, max).0;
    }
  }

  lemma EscapedTail(x: Byte, tail: seq<Byte>, a: seq<Byte>, inner: seq<Byte>)
    requires 4 < |inner| && |inner| + 5 < |a| && tail == Escape(x) + [FLAG]
    requires forall k :: 0 <= k < |tail| ==> a[|inner| + 2 + k] == tail[k]
    ensures var b, n := a[4..], |inner| - 2;
            b[n] != FLAG && TokenAt(b, n) == x && AfterToken(b, n) == n + |Escape(x)| && b[n + |Escape(x)|] == FLAG
  {
    var i := |inner| + 2;
    assert a[i + 0] == tail[0] && a[i + 1] == tail[1];
    assert a[i + |Escape(x)|] == tail[|Escape(x)|];
    XorUndo(OCT, x);
  }

  /** The exact condition: the bytes behind the closing FLAG of a received frame can change the
      verdict if and only if the frame is exposed. */
  lemma StaleBytesMatterIff(inner: seq<Byte>, max: nat, stale: Byte)
    requires FLAG !in inner && |inner| + 2 <= LL_MAX_FRAME_SZ
    ensures (exists a, b :: Differ(a, b, inner, max, stale)) <==> Exposed(inner, max)
  {
    if Exposed(inner, max) {
      var a, b := DifferingTails(inner, max, stale);
    } else {
      forall a, b ensures !Differ(a, b, inner, max, stale) {
        if Received(a, inner) && Received(b, inner) {
          HiddenAlike(a, b, inner, max, stale);
        }
      }
    }
  }

  /** Two buffers of which only the first is accepted. */
  lemma DifferingTails(inner: seq<Byte>, max: nat, stale: Byte) returns (a: seq<Byte>, b: seq<Byte>)
    requires FLAG !in inner && Exposed(inner, max)
    ensures Differ(a, b, inner, max, stale) && Parse(a, max, stale).Good? && !Parse(b, max, stale).Good?
  {
    var got := Destuff(Whole(inner));
    var x := Xor(got + [ESCAPED_FLAG]);
    var flag := FlagTail(inner, max, stale);
    if Xor(got) == ESCAPED_FLAG {
      XorSnocZero(got, ESCAPED_FLAG);
      var one := ByteTail(inner, 1, max, stale);
      a, b := flag, one;
    } else {
      var byte := ByteTail(inner, x, max, stale);
      a, b := byte, flag;
    }
  }

  /** A concrete case: behind the body 5e ESC the stale bytes decide. */
  lemma StaleBytesMatterAfterEscape() returns (a: seq<Byte>, b: seq<Byte>)
    ensures |a| == |b| == LL_MAX_FRAME_SZ && a[..7] == b[..7]
    ensures a[0] == a[6] == FLAG && FLAG !in a[1..6] && a[5] == ESC
    ensures Parse(a, 10, 0).Good? && Parse(b, 10, 0).Bad?
  {
    var inner: seq<Byte> := [ADDRESS, 0x00, ADDRESS, 0x5e, ESC];
    TornExample(inner);
    a, b := DifferingTails(inner, 10, 0);
    HeadOf(a, inner);
    HeadOf(b, inner);
  }

  lemma HeadOf(a: seq<Byte>, inner: seq<Byte>)
    requires Received(a, inner)
    ensures var n := |inner| + 1;
            && a[..n + 1] == [FLAG] + inner + [FLAG] && a[0] == a[n] == FLAG && a[1..n] == inner
            && forall i :: 0 <= i < |inner| ==> a[i + 1] == inner[i]
  {
    var head := [FLAG] + inner + [FLAG];
    assert a[..|head|] == head;
    assert forall k :: 0 <= k < |head| ==> a[k] == head[k];
  }

  lemma TornExample(inner: seq<Byte>)
    requires inner == [ADDRESS, 0x00, ADDRESS, 0x5e, ESC]
    ensures Exposed(inner, 10)
  {
    XorLaws(ADDRESS, 0, 0);
    var w := Whole(inner);
    assert w == [0x5e] && inner[3..] == w + [ESC] && w[1..] == [];
    DanglingEndsInEsc(w);
    DanglingSnoc(w);
    XorOne(0x5e);
    assert Destuff(w) == [0x5e];
  }
}
