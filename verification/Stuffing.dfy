/** Byte stuffing as a transformation of byte strings: what both stuffing
    loops of the repository compute, and the decoder that undoes it. */
module Stuffing {
  import opened Bits
  import opened Codes

  function Escape(c: Byte): seq<Byte> {
    if c == FLAG || c == ESC then [ESC, BitXor(OCT, c)] else [c]
  }

  function Stuff(s: seq<Byte>): seq<Byte> {
    if s == [] then [] else Escape(s[0]) + Stuff(s[1..])
  }

  /** How many raw bytes the first token of `t` takes: two for an escape, else one. */
  function TokenLength(t: seq<Byte>): (n: nat)
    requires t != []
    ensures 1 <= n <= |t|
  {
    if t[0] == ESC && |t| > 1 then 2 else 1
  }

  /** `t`, cut into tokens from the left, ends in an ESC with nothing to escape. */
  predicate Dangling(t: seq<Byte>) {
    t != [] && (t == [ESC] || Dangling(t[TokenLength(t)..]))
  }

  /** The byte the first token stands for. */
  function Token(t: seq<Byte>): Byte
    requires t != []
  {
    if t[0] == ESC && |t| > 1 then BitXor(OCT, t[1]) else t[0]
  }

  function Destuff(t: seq<Byte>): (s: seq<Byte>)
    ensures |s| <= |t|
    ensures t != [] ==> s != []
  {
    if t == [] then [] else [Token(t)] + Destuff(t[TokenLength(t)..])
  }

  lemma {:induction false} StuffConcat(s: seq<Byte>, t: seq<Byte>)
    ensures Stuff(s + t) == Stuff(s) + Stuff(t)
  {
    if s == [] {
      assert s + t == t;
    } else {
      assert (s + t)[1..] == s[1..] + t;
      StuffConcat(s[1..], t);
    }
  }

  lemma StuffSnoc(s: seq<Byte>, c: Byte)
    ensures Stuff(s + [c]) == Stuff(s) + Escape(c)
  {
    StuffConcat(s, [c]);
    assert [c][1..] == [];
    assert Stuff([c]) == Escape(c) + Stuff([]);
  }

  lemma EscapedBytes()
    ensures BitXor(OCT, FLAG) == 0x5e && BitXor(OCT, ESC) == 0x5d == BitXor(ESC, OCT)
  {
    assert XorNat(4, 15) == 11 && XorNat(8, 31) == 23;
    assert XorNat(16, 63) == 47 && XorNat(16, 62) == 46;
    XorNatComm(OCT, ESC);
  }

  /** A stuffed string is transparent: no FLAG, at most twice as long, not ending in ESC. */
  lemma {:induction false} StuffTransparent(s: seq<Byte>)
    ensures FLAG !in Stuff(s)
    ensures |s| <= |Stuff(s)| <= 2 * |s|
    ensures s != [] ==> Stuff(s)[|Stuff(s)| - 1] != ESC
  {
    if s != [] {
      var e, rest := Escape(s[0]), Stuff(s[1..]);
      EscapedBytes();
      assert FLAG !in e && 1 <= |e| <= 2 && e[|e| - 1] != ESC;
      StuffTransparent(s[1..]);
      if s[1..] == [] {
        assert Stuff(s) == e;
      } else {
        assert (e + rest)[|e + rest| - 1] == rest[|rest| - 1];
      }
    }
  }

  /** Only a string whose last byte is ESC can dangle. */
  lemma {:induction false} DanglingEndsInEsc(t: seq<Byte>)
    ensures Dangling(t) ==> t[|t| - 1] == ESC
  {
    if t != [] && t != [ESC] {
      var u := t[TokenLength(t)..];
      DanglingEndsInEsc(u);
      assert Dangling(t) == Dangling(u);
      if u != [] { assert u[|u| - 1] == t[|t| - 1]; }
    }
  }

  lemma DestuffEscape(c: Byte, t: seq<Byte>)
    ensures Destuff(Escape(c) + t) == [c] + Destuff(t)
  {
    var w := Escape(c) + t;
    XorUndo(OCT, c);
    assert w[|Escape(c)|..] == t;
  }

  lemma {:induction false} DestuffStuffThen(s: seq<Byte>, t: seq<Byte>)
    ensures Destuff(Stuff(s) + t) == s + Destuff(t)
  {
    if s == [] {
      assert Stuff(s) + t == t;
    } else {
      var u := Stuff(s[1..]) + t;
      Assoc(Escape(s[0]), Stuff(s[1..]), t);
      DestuffEscape(s[0], u);
      DestuffStuffThen(s[1..], t);
      Assoc([s[0]], s[1..], Destuff(t));
      assert [s[0]] + s[1..] == s;
    }
  }

  /** Round trip: destuffing undoes stuffing on every byte string. */
  lemma DestuffStuff(s: seq<Byte>)
    ensures Destuff(Stuff(s)) == s && !Dangling(Stuff(s))
  {
    DestuffStuffThen(s, []);
    assert Stuff(s) + [] == Stuff(s);
    StuffTransparent(s);
    DanglingEndsInEsc(Stuff(s));
  }

  /** Stuffing is injective. */
  lemma StuffInjective(s: seq<Byte>, t: seq<Byte>)
    ensures Stuff(s) == Stuff(t) ==> s == t
  {
    DestuffStuff(s);
    DestuffStuff(t);
  }

  /** Whether an odd number of escape tokens occurs in `t`. */
  predicate OddEscapes(t: seq<Byte>) {
    t != [] && ((TokenLength(t) == 2) != OddEscapes(t[TokenLength(t)..]))
  }

  /** What an escape adds to the XOR of the raw bytes: the ESC itself and the flipped bit. */
  const ESCAPE_XOR: Byte := 0x5d

  function EscapeMask(odd: bool): Byte {
    if odd then ESCAPE_XOR else 0
  }

  /** The XOR of the decoded bytes is that of the raw bytes, corrected by the
      parity of the number of escapes, wherever the token boundaries fall. */
  lemma {:induction false} XorDestuff(t: seq<Byte>)
    requires !Dangling(t)
    ensures Xor(Destuff(t)) == BitXor(Xor(t), EscapeMask(OddEscapes(t)))
  {
    if t == [] {
      XorLaws(0, 0, 0);
    } else {
      var n := TokenLength(t);
      var u := t[n..];
      XorDestuff(u);
      if n == 1 {
        XorLaws(t[0], Xor(u), EscapeMask(OddEscapes(u)));
      } else {
        assert t[1..][1..] == u;
        EscapeBalance(t[1], Xor(u), OddEscapes(u));
      }
    }
  }

  /** The bit arithmetic of one escape in front of a tail that folds to `x`. */
  lemma EscapeBalance(b: Byte, x: Byte, odd: bool)
    ensures BitXor(BitXor(OCT, b), BitXor(x, EscapeMask(odd)))
         == BitXor(BitXor(ESC, BitXor(b, x)), EscapeMask(!odd))
  {
    var m, m' := EscapeMask(odd), EscapeMask(!odd);
    EscapedBytes();
    MaskStep(odd);
    calc {
      BitXor(BitXor(ESC, BitXor(b, x)), m');
      { XorLaws(ESC, BitXor(b, x), m'); XorLaws(BitXor(b, x), m', 0); }
      BitXor(ESC, BitXor(m', BitXor(b, x)));
      { XorLaws(ESC, m', BitXor(b, x)); }
      BitXor(BitXor(ESC, m'), BitXor(b, x));
      BitXor(BitXor(OCT, m), BitXor(b, x));
      { XorLaws(OCT, m, BitXor(b, x)); XorLaws(m, BitXor(b, x), 0); XorLaws(b, x, m); }
      BitXor(OCT, BitXor(b, BitXor(x, m)));
      { XorLaws(OCT, b, BitXor(x, m)); }
      BitXor(BitXor(OCT, b), BitXor(x, m));
    }
  }

  lemma MaskStep(odd: bool)
    ensures BitXor(ESC, EscapeMask(!odd)) == BitXor(OCT, EscapeMask(odd))
  {
    EscapedBytes();
    XorUndo(ESC, OCT);
    XorUndo(OCT, ESC);
    XorLaws(ESC, 0, 0);
    XorLaws(OCT, 0, 0);
  }

  /** Changing one raw byte changes the XOR of the raw bytes by exactly that change. */
  lemma {:induction false} XorUpdate(t: seq<Byte>, i: nat, x: Byte)
    requires i < |t|
    ensures Xor(t[i := x]) == BitXor(Xor(t), BitXor(t[i], x))
    decreases i
  {
    var u := t[i := x];
    if i == 0 {
      assert u[1..] == t[1..];
      XorLaws(t[0], Xor(t[1..]), BitXor(t[0], x));
      XorLaws(Xor(t[1..]), BitXor(t[0], x), 0);
      XorLaws(t[0], BitXor(t[0], x), Xor(t[1..]));
      XorUndo(t[0], x);
    } else {
      assert u[1..] == t[1..][i - 1 := x];
      XorUpdate(t[1..], i - 1, x);
      XorLaws(t[0], Xor(t[1..]), BitXor(t[i], x));
    }
  }

  /** A string that decodes to something folding to zero does so again after a one-byte change
      exactly when the change equals ESC ^ OCT and turns the parity of the escapes. */
  lemma ByteChangeFolds(t: seq<Byte>, i: nat, x: Byte, t': seq<Byte>)
    requires i < |t| && x != t[i] && t' == t[i := x]
    requires !Dangling(t) && !Dangling(t') && Xor(Destuff(t)) == 0
    ensures Xor(Destuff(t')) == 0 <==> OddEscapes(t') != OddEscapes(t) && BitXor(t[i], x) == ESCAPE_XOR
  {
    XorDestuff(t);
    XorDestuff(t');
    XorUpdate(t, i, x);
    XorEqual(t[i], x);
    Balance(Xor(t), BitXor(t[i], x), OddEscapes(t), OddEscapes(t'), Xor(Destuff(t')));
  }

  lemma Balance(raw: Byte, change: Byte, odd: bool, odd': bool, decoded: Byte)
    requires BitXor(raw, EscapeMask(odd)) == 0 && change != 0
    requires decoded == BitXor(BitXor(raw, change), EscapeMask(odd'))
    ensures decoded == 0 <==> odd != odd' && change == ESCAPE_XOR
  {
    var m, m' := EscapeMask(odd), EscapeMask(odd');
    XorEqual(raw, m);
    XorEqual(BitXor(m, change), m');
    XorUndo(m, change);
    XorUndo(m, m');
    XorLaws(m, m, m);
    XorLaws(m', 0, 0);
  }
}
