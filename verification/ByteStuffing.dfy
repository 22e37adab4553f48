/** The stand-alone stuffing utility (working/filipe/utils/byte_stuffing.c):
    two passes to stuff into a new array, one pass in place to destuff. */
module ByteStuffing {
  import opened Bits
  import opened Codes
  import opened Stuffing

  /** The first pass predicts exactly how much longer the stuffed bytes are. */
  method CountEscapes(data: array<Byte>, sz: nat) returns (count: nat)
    requires sz <= data.Length
    ensures sz + count == |Stuff(data[..sz])|
  {
    count := 0;
    for i := 0 to sz
      invariant i + count == |Stuff(data[..i])|
    {
      StuffSnoc(data[..i], data[i]);
      assert data[..i + 1] == data[..i] + [data[i]];
      if data[i] == FLAG || data[i] == ESC {
        count := count + 1;
      }
    }
  }

  /** The second pass fills exactly the sz + count cells. */
  method InsertEscapes(data: array<Byte>, sz: nat, ghost count: nat, newData: array<Byte>)
    requires sz <= data.Length && data != newData
    requires sz + count == |Stuff(data[..sz])| == newData.Length
    modifies newData
    ensures newData[..] == Stuff(data[..sz])
  {
    ghost var all, out := data[..sz], [];
    var i, j := 0, 0;
    Filling(all, 0, []);
    while i < sz
      invariant 0 <= i <= sz && j == |out| && Filled(all, i, out)
      invariant newData[..j] == out
    {
      StuffStep(all, i, out);
      out := out + Escape(all[i]);
      j := PutEscaped(newData, j, data[i]);
      i := i + 1;
    }
    Finish(all, out);
  }

  /** Having read `i` bytes, the filling loop has produced `out` and the rest is still to come. */
  ghost predicate Filled(all: seq<Byte>, i: nat, out: seq<Byte>) {
    i <= |all| && Stuff(all) == out + Stuff(all[i..]) && |out| <= |Stuff(all)|
  }

  lemma Filling(all: seq<Byte>, i: nat, out: seq<Byte>)
    requires i == 0 && out == []
    ensures Filled(all, i, out)
  {
    assert all[0..] == all;
  }

  lemma Finish(all: seq<Byte>, out: seq<Byte>)
    requires Filled(all, |all|, out)
    ensures out == Stuff(all)
  {
    assert all[|all|..] == [];
  }

  /** One round of the filling loop. */
  method PutEscaped(newData: array<Byte>, j: nat, c: Byte) returns (j': nat)
    requires j + |Escape(c)| <= newData.Length
    modifies newData
    ensures j' == j + |Escape(c)| && newData[..j'] == old(newData[..j]) + Escape(c)
  {
    j' := j;
    if c == ESC || c == FLAG {
      newData[j'] := ESC;
      newData[j' + 1] := BitXor(OCT, c);
      j' := j' + 2;
    } else {
      newData[j'] := c;
      j' := j' + 1;
    }
  }

  lemma StuffStep(all: seq<Byte>, i: nat, out: seq<Byte>)
    requires i < |all| && Filled(all, i, out)
    ensures Filled(all, i + 1, out + Escape(all[i]))
  {
    assert all[i..][1..] == all[i + 1..];
    Assoc(out, Escape(all[i]), Stuff(all[i + 1..]));
  }

  /** Returns 0 and no array for an empty input, else the stuffed bytes in a new array. */
  method StuffBytes(data: array<Byte>, sz: nat) returns (n: nat, out: array?<Byte>)
    requires sz <= data.Length
    ensures n == |Stuff(data[..sz])|
    ensures sz == 0 <==> out == null
    ensures out != null ==> fresh(out) && out[..] == Stuff(data[..sz])
  {
    if sz == 0 {
      assert data[..0] == [];
      return 0, null;
    }
    var count := CountEscapes(data, sz);
    var newData := new Byte[sz + count];
    InsertEscapes(data, sz, count, newData);
    return count + sz, newData;
  }

  /** Destuffs in place. The writer stays at or behind the reader, so nothing is
      overwritten before it is read; cells from the returned length on are untouched. */
  method DestuffBytes(data: array<Byte>, sz: nat) returns (n: int)
    requires 0 < sz <= data.Length
    modifies data
    ensures n == -1 <==> old(data[sz - 1]) == ESC
    ensures n == -1 ==> data[..] == old(data[..])
    ensures n != -1 ==> 0 <= n <= sz && data[..n] == Destuff(old(data[..sz]))
                        && data[n..] == old(data[n..])
  {
    if data[sz - 1] == ESC {
      return -1;
    }
    ghost var raw, got := data[..sz], [];
    var i, j := 0, 0;
    Started(raw);
    while i < sz
      invariant Decoded(raw, i, got) && InPlace(data, i, j, got, old(data[..]))
    {
      var c;
      c, i := ReadToken(data, sz, i, j, raw, got, old(data[..]));
      Store(data, j, c);
      got := got + [c];
      j := j + 1;
    }
    Finished(raw, got);
    return j;
  }

  /** The first `j` cells hold `got`, and the cells from there on what they held in `before`. */
  ghost predicate InPlace(data: array<Byte>, i: nat, j: nat, got: seq<Byte>, before: seq<Byte>)
    reads data
  {
    && j <= i && j <= data.Length == |before| && data[..j] == got && data[j..] == before[j..]
  }

  /** Reads the next token, from cells not yet overwritten. */
  method ReadToken(data: array<Byte>, sz: nat, i: nat, j: nat, ghost raw: seq<Byte>, ghost got: seq<Byte>,
                   ghost before: seq<Byte>)
    returns (c: Byte, i': nat)
    requires i < sz <= data.Length && InPlace(data, i, j, got, before)
    requires raw == before[..sz] && raw[sz - 1] != ESC && Decoded(raw, i, got)
    ensures i < i' <= sz && Decoded(raw, i', got + [c])
  {
    ghost var token := Step(raw, i, got);
    assert data[i] == data[j..][i - j] == raw[i];
    c, i' := data[i], i;
    if c == ESC {
      i' := i' + 1;
      assert data[i'] == data[j..][i' - j] == raw[i'];
      c := BitXor(data[i'], OCT);
    }
    i' := i' + 1;
  }

  /** data[j] = c */
  method Store(data: array<Byte>, j: nat, c: Byte)
    requires j < data.Length
    modifies data
    ensures data[..j + 1] == old(data[..j]) + [c] && data[j + 1..] == old(data[j..])[1..]
  {
    data[j] := c;
  }

  /** Having read `i` raw bytes, the destuffing loop has produced `got` and owes the rest. */
  ghost predicate Decoded(raw: seq<Byte>, i: nat, got: seq<Byte>) {
    i <= |raw| && Destuff(raw) == got + Destuff(raw[i..])
  }

  lemma Started(raw: seq<Byte>)
    ensures Decoded(raw, 0, [])
  {
    assert raw[0..] == raw;
  }

  lemma Step(raw: seq<Byte>, i: nat, got: seq<Byte>) returns (token: Byte)
    requires i < |raw| && raw[|raw| - 1] != ESC && Decoded(raw, i, got)
    ensures raw[i] == ESC ==> i + 1 < |raw|
    ensures token == if raw[i] == ESC then BitXor(raw[i + 1], OCT) else raw[i]
    ensures Decoded(raw, if raw[i] == ESC then i + 2 else i + 1, got + [token])
  {
    var t := raw[i..];
    token := Token(t);
    var next := if raw[i] == ESC then i + 2 else i + 1;
    assert t[TokenLength(t)..] == raw[next..];
    assert Destuff(t) == [token] + Destuff(raw[next..]);
    Assoc(got, [token], Destuff(raw[next..]));
    if raw[i] == ESC {
      XorLaws(raw[i + 1], OCT, 0);
    }
  }

  lemma Finished(raw: seq<Byte>, got: seq<Byte>)
    requires Decoded(raw, |raw|, got)
    ensures got == Destuff(raw)
  {
    assert raw[|raw|..] == [];
  }

  /** In-place destuffing after stuffing restores every non-empty input. */
  method StuffThenDestuff(data: array<Byte>, sz: nat)
    returns (out: array<Byte>, n: int)
    requires 0 < sz <= data.Length
    ensures n == sz && fresh(out) && n <= out.Length && out[..n] == data[..sz]
  {
    var len, stuffed := StuffBytes(data, sz);
    out := stuffed;
    ghost var d := data[..sz];
    assert Stuff(d) == out[..len];
    StuffTransparent(d);
    DestuffStuff(d);
    n := DestuffBytes(out, len);
  }
}
