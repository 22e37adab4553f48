/** Byte codes, size limits and the XOR check byte shared by every layer
    (src/data_link_codes.h, src/data_link.h). */
module Codes {
  import opened Bits

  const FLAG: Byte := 0x7e
  const ADDRESS: Byte := 0x03

  const C_SET: Byte := 0x07
  const C_DISC: Byte := 0x0b
  const C_UA: Byte := 0x03
  const C_RR: Byte := 0x01
  const C_REJ: Byte := 0x07

  const ESC: Byte := 0x7d
  const OCT: Byte := 0x20

  const LL_MAX_FRAME_SZ: nat := 16384
  const LL_MAX_PAYLOAD_STUFFED: nat := (LL_MAX_FRAME_SZ - 2 - 3 - 1) / 2
  const LL_MAX_PAYLOAD_UNSTUFFED: nat := LL_MAX_PAYLOAD_STUFFED / 2

  /** Return_e, and `Blocked` for a call without timeout that would wait for ever on a silent line. */
  datatype Code = Success | Error | Timeout | BadFrame | Blocked

  datatype Option<T> = None | Some(value: T)

  lemma Assoc<T>(a: seq<T>, b: seq<T>, c: seq<T>)
    ensures a + b + c == a + (b + c)
  {}

  lemma Regroup<T>(n: seq<T>, a: seq<T>, b: seq<T>, c: seq<T>, t: seq<T>)
    ensures n + (a + b + c) + t == n + a + b + ([] + c + t)
  {
    assert [] + c + t == c + t;
    Assoc(n + a + b, c, t);
    Assoc(n, a, b);
    Assoc(n, a + b, c);
  }

  function Concat(s: seq<seq<Byte>>): seq<Byte> {
    if s == [] then [] else s[0] + Concat(s[1..])
  }

  lemma {:induction false} ConcatSnoc(s: seq<seq<Byte>>, x: seq<Byte>)
    ensures Concat(s + [x]) == Concat(s) + x
  {
    if s == [] {
      assert s + [x] == [x] && [x][1..] == [];
    } else {
      assert (s + [x])[1..] == s[1..] + [x];
      ConcatSnoc(s[1..], x);
    }
  }

  lemma {:induction false} ConcatAppend(s: seq<seq<Byte>>, t: seq<seq<Byte>>)
    ensures Concat(s + t) == Concat(s) + Concat(t)
  {
    if s == [] {
      assert s + t == t;
    } else {
      assert (s + t)[1..] == s[1..] + t;
      ConcatAppend(s[1..], t);
    }
  }

  /** The check byte of a byte string: all of it folded with exclusive or. */
  function Xor(s: seq<Byte>): Byte {
    if s == [] then 0 else BitXor(s[0], Xor(s[1..]))
  }

  lemma {:induction false} XorConcat(s: seq<Byte>, t: seq<Byte>)
    ensures Xor(s + t) == BitXor(Xor(s), Xor(t))
  {
    if s == [] {
      assert s + t == t;
      XorLaws(Xor(t), 0, 0);
    } else {
      assert (s + t)[1..] == s[1..] + t;
      XorConcat(s[1..], t);
      XorLaws(s[0], Xor(s[1..]), Xor(t));
    }
  }

  lemma XorOne(c: Byte)
    ensures Xor([c]) == c
  {
    XorLaws(c, 0, 0);
    assert [c][1..] == [];
  }

  lemma XorSnoc(s: seq<Byte>, c: Byte)
    ensures Xor(s + [c]) == BitXor(Xor(s), c)
  {
    XorConcat(s, [c]);
    XorOne(c);
  }

  /** A sequence folds to zero exactly when its last byte is the check byte of the rest. */
  lemma XorSnocZero(s: seq<Byte>, c: Byte)
    ensures Xor(s + [c]) == 0 <==> c == Xor(s)
  {
    XorSnoc(s, c);
    XorEqual(Xor(s), c);
  }

  /** Index of the first `c` in `s`, or |s| when there is none. */
  function IndexOf(s: seq<Byte>, c: Byte): (k: nat)
    ensures k <= |s|
    ensures k < |s| ==> s[k] == c
    ensures forall i :: 0 <= i < k ==> s[i] != c
  {
    if s == [] || s[0] == c then 0 else 1 + IndexOf(s[1..], c)
  }
}
