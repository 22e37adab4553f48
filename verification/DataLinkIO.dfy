/** The imperative side of src/data_link_io.c and src/serial_port.c: the shared frame buffer,
    the moving pointers and the receive loops, each proved against Framing and Stream. */
module DataLinkIO {
  import opened Bits
  import opened Codes
  import opened Stuffing
  import opened Framing
  import opened Stream

  /** struct frame on the receiving side; its data pointer is cell `at` of `data`. The parser
      may fill one cell more than `maxDataSize`, for the check byte. */
  class FrameRecord {
    var address: Byte
    var control: Byte
    var size: nat
    const maxDataSize: nat
    const data: array<Byte>
    const at: nat

    constructor (data: array<Byte>, at: nat, maxDataSize: nat, control: Byte)
      requires at + maxDataSize < data.Length
      ensures Valid() && this.data == data && this.at == at && this.maxDataSize == maxDataSize
      ensures this.control == control
    {
      this.data, this.at, this.maxDataSize := data, at, maxDataSize;
      this.address, this.control, this.size := 0, control, 0;
    }

    predicate Valid() {
      at + maxDataSize < data.Length
    }

    /** The bytes received so far. */
    function Contents(): seq<Byte>
      requires Valid() && size <= maxDataSize + 1
      reads this, data
    {
      data[at..at + size]
    }

    /** frame->data[frame->size++] = c */
    method Append(c: Byte)
      requires Valid() && size <= maxDataSize
      modifies this`size, data
      ensures size == old(size) + 1 && Contents() == old(Contents()) + [c] && data[at + old(size)] == c
      ensures data[..at] == old(data[..at]) && data[at + size..] == old(data[at + size + 1..])
    {
      data[at + size] := c;
      size := size + 1;
    }

    /** The record and return code show the parser outcome `p`. */
    ghost predicate Shows(code: Code, p: Parsed)
      requires Valid()
      reads this, data
    {
      match p
      case Missing => code == Error
      case Bad(c) => code == BadFrame && control == c
      case Good(a, c, d) =>
        && code == Success && address == a && control == c
        && size == |d| <= maxDataSize + 1 && Contents() == d
    }
  }

  /** parse_frame_from_array: computes Parse of the buffer, leaves the buffer alone, and writes
      no data cell outside the maxDataSize + 1 cells of the record. */
  method ParseFrame(frame: FrameRecord, a: array<Byte>) returns (code: Code)
    requires frame.Valid() && a.Length >= PARSE_WINDOW && a != frame.data
    modifies frame, frame.data
    ensures frame.Shows(code, Parse(old(a[..]), frame.maxDataSize, old(frame.control)))
    ensures frame.data[..frame.at] == old(frame.data[..frame.at])
    ensures frame.data[frame.at + frame.maxDataSize + 1..] == old(frame.data[frame.at + frame.maxDataSize + 1..])
  {
    var unexpected := FlagInHeader(a);
    var done;
    done, code := CheckHeader(frame, a[0], a[1], a[2], a[3], a[4], a[5], unexpected);
    assert a[4..] == a[..][4..];
    if !done {
      ghost var r;
      ghost var before := frame.data[..];
      code, r := ParseData(frame, a);
      BehindReceived(frame, before);
    }
  }

  /** Looks for a FLAG in the three header bytes. */
  method FlagInHeader(a: array<Byte>) returns (found: bool)
    requires a.Length >= PARSE_WINDOW
    ensures found <==> a[1] == FLAG || a[2] == FLAG || a[3] == FLAG
  {
    for i := 0 to 3
      invariant forall k :: 1 <= k <= i ==> a[k] != FLAG
    {
      if a[1 + i] == FLAG {
        return true;
      }
    }
    return false;
  }

  /** The header part of parse_frame_from_array, on the first six bytes of the buffer and the
      result of the search for unexpected FLAGs; not `done` when a data part follows. */
  method CheckHeader(frame: FrameRecord, flag: Byte, address: Byte, control: Byte, headerBcc: Byte,
                     x: Byte, y: Byte, unexpected: bool)
    returns (done: bool, code: Code)
    requires unexpected <==> address == FLAG || control == FLAG || headerBcc == FLAG
    modifies frame
    ensures match ParseHeader(flag, address, control, headerBcc, x, y, old(frame.control))
            case Some(Missing) => done && code == Error
            case Some(Bad(c)) => done && code == BadFrame && frame.control == c
            case Some(Good(a, c, d)) => done && code == Success && frame.address == a && frame.control == c
                                        && frame.size == 0 && d == []
            case None => !done && frame.address == address && frame.control == control && frame.size == 0
  {
    if flag != FLAG {
      return true, Error;
    }
    if unexpected {
      return true, BadFrame;
    }
    frame.address, frame.control := address, control;
    if headerBcc != BitXor(address, control) {
      return true, BadFrame;
    }
    frame.size := 0;
    if x == FLAG {
      return true, Success;
    }
    if y == FLAG {
      return true, BadFrame;
    }
    return false, Success;
  }

  /** The parse loop stands at body offset `n` with `got` decoded, on its way to result `r`. */
  ghost predicate Reached(b: seq<Byte>, n: nat, got: seq<Byte>, max: nat, r: (bool, seq<Byte>)) {
    && |b| >= PARSE_WINDOW - 4 && n <= LL_MAX_PAYLOAD_STUFFED + 2 && |got| <= max + 1
    && r == ParseBody(b, n, got, max)
  }

  lemma Stopped(b: seq<Byte>, n: nat, got: seq<Byte>, max: nat, r: (bool, seq<Byte>))
    requires Reached(b, n, got, max, r) && (n > LL_MAX_PAYLOAD_STUFFED || |got| > max)
    ensures r == (false, got)
  {}

  /** One round of the loop, which decodes `c` and comes to stand at `m`. */
  lemma Advance(b: seq<Byte>, n: nat, got: seq<Byte>, max: nat, r: (bool, seq<Byte>), c: Byte, m: nat)
    returns (folded: Byte)
    requires Reached(b, n, got, max, r) && n <= LL_MAX_PAYLOAD_STUFFED && |got| <= max
    requires c == TokenAt(b, n) && m == AfterToken(b, n)
    ensures b[m] == FLAG ==> r == (c == Xor(got), got + [c])
    ensures b[m] != FLAG ==> Reached(b, m, got + [c], max, r)
    ensures folded == BitXor(Xor(got), c) == Xor(got + [c])
  {
    ParseBodyStep(b, n, got, max, c, m);
    XorSnoc(got, c);
    folded := Xor(got + [c]);
  }

  /** Reads one token of the body and moves past it. */
  method ReadToken(a: array<Byte>, n: nat, ghost b: seq<Byte>) returns (c: Byte, m: nat)
    requires a.Length >= PARSE_WINDOW && b == a[4..] && n <= LL_MAX_PAYLOAD_STUFFED
    ensures c == TokenAt(b, n) && m == AfterToken(b, n)
  {
    m := n;
    if a[4 + m] == ESC {
      m := m + 1;
      c := BitXor(OCT, a[4 + m]);
    } else {
      c := a[4 + m];
    }
    m := m + 1;
  }

  /** All cells but those of the bytes received so far hold what they held in `before`. */
  ghost predicate OnlyReceived(frame: FrameRecord, before: seq<Byte>)
    reads frame, frame.data
  {
    && |before| == frame.data.Length && frame.at + frame.size <= |before|
    && frame.data[..frame.at] == before[..frame.at]
    && frame.data[frame.at + frame.size..] == before[frame.at + frame.size..]
  }

  lemma BehindReceived(frame: FrameRecord, before: seq<Byte>)
    requires frame.Valid() && OnlyReceived(frame, before) && frame.size <= frame.maxDataSize + 1
    ensures frame.data[frame.at + frame.maxDataSize + 1..] == before[frame.at + frame.maxDataSize + 1..]
  {
    var i, j := frame.at + frame.size, frame.at + frame.maxDataSize + 1;
    assert frame.data[j..] == frame.data[i..][j - i..];
    assert before[j..] == before[i..][j - i..];
  }

  /** The record holds `got` and nothing else has changed. */
  ghost predicate Holding(frame: FrameRecord, got: seq<Byte>, before: seq<Byte>)
    reads frame, frame.data
  {
    && frame.Valid() && frame.size == |got| <= frame.maxDataSize + 1
    && frame.Contents() == got && OnlyReceived(frame, before)
  }

  /** The data part of parse_frame_from_array: destuffs into the record while folding the check
      byte. It writes exactly the cells of the bytes it decodes, accepted or not. */
  method ParseData(frame: FrameRecord, a: array<Byte>) returns (code: Code, ghost r: (bool, seq<Byte>))
    requires frame.Valid() && a.Length >= PARSE_WINDOW && a != frame.data && frame.size == 0
    modifies frame`size, frame.data
    ensures r == ParseBody(old(a[4..]), 0, [], frame.maxDataSize)
    ensures code == if r.0 then Success else BadFrame
    ensures Holding(frame, r.1, old(frame.data[..]))
  {
    ghost var b, got := a[4..], [];
    r := ParseBody(b, 0, [], frame.maxDataSize);
    var bcc: Byte := 0;
    var n := 0;
    while true
      invariant Reached(b, n, got, frame.maxDataSize, r)
      invariant bcc == Xor(got) && Holding(frame, got, old(frame.data[..]))
      decreases LL_MAX_PAYLOAD_STUFFED + 2 - n
    {
      if n > LL_MAX_PAYLOAD_STUFFED || frame.size > frame.maxDataSize {
        Stopped(b, n, got, frame.maxDataSize, r);
        code := BadFrame;
        break;
      }
      var done;
      done, code, n, bcc, got := DecodeOne(frame, a, n, bcc, b, got, r, old(frame.data[..]));
      if done {
        break;
      }
    }
  }

  /** One round of the loop: decodes and stores a byte, and compares it with the check byte when
      the FLAG follows. */
  method DecodeOne(frame: FrameRecord, a: array<Byte>, n: nat, bcc: Byte, ghost b: seq<Byte>, ghost got: seq<Byte>,
                   ghost r: (bool, seq<Byte>), ghost before: seq<Byte>)
    returns (done: bool, code: Code, n': nat, bcc': Byte, ghost got': seq<Byte>)
    requires a.Length >= PARSE_WINDOW && a != frame.data && b == a[4..]
    requires Reached(b, n, got, frame.maxDataSize, r) && bcc == Xor(got) && Holding(frame, got, before)
    requires n <= LL_MAX_PAYLOAD_STUFFED && frame.size <= frame.maxDataSize
    modifies frame`size, frame.data
    ensures Holding(frame, got', before)
    ensures done ==> got' == r.1 && code == if r.0 then Success else BadFrame
    ensures !done ==> n' > n && Reached(b, n', got', frame.maxDataSize, r) && bcc' == Xor(got')
  {
    var c;
    c, n' := ReadToken(a, n, b);
    ghost var folded := Advance(b, n, got, frame.maxDataSize, r, c, n');
    frame.Append(c);
    got' := got + [c];
    code, bcc' := Success, bcc;
    done := a[4 + n'] == FLAG;
    if done {
      code := if frame.data[frame.at + frame.size - 1] == bcc then Success else BadFrame;
    } else {
      bcc' := BitXor(bcc, c);
    }
  }

  /** A call that hands `scan` to the parser. */
  lemma Handed(buffer: seq<Byte>, max: nat, stale: Byte, scan: Scan, last: Byte, s: seq<Byte>) returns (c: Call)
    requires scan == NextFrame(last, s) && scan.Framed? && |buffer| == LL_MAX_FRAME_SZ && scan.chunk <= buffer
    ensures c.buffer == buffer && c.max == max && c.stale == stale && c.outcome == Parse(buffer, max, stale)
    ensures Parses(c, scan.chunk) && !c.outcome.Missing?
  {
    var skipped := ChunkShape(last, s);
    c := Call(buffer, max, stale, Parse(buffer, max, stale));
  }

  /** One read while hunting. */
  lemma Hunted(last: Byte, line: seq<Byte>, nc: nat)
    requires last != FLAG && 0 < nc <= |line|
    requires nc <= IndexOf(line, FLAG) + 1
    ensures NextFrame(line[nc - 1], line[nc..]) == NextFrame(last, line)
  {
    if line[nc - 1] == FLAG {
      Hunt(last, line[..nc - 1], line[nc..]);
      assert line == line[..nc - 1] + [FLAG] + line[nc..];
    } else {
      HuntOn(last, line, nc);
    }
  }

  /** The serial port, the line behind it and the frame buffer shared by sending and receiving.
      `input` is what the line will still deliver, `output` what was written to it. */
  class SerialLink {
    const buffer: array<Byte>
    var lastByte: Byte
    var previousLastByte: Byte
    var input: seq<Byte>
    var output: seq<Byte>

    constructor (input: seq<Byte>)
      ensures Valid() && fresh(buffer) && this.input == input && output == [] && lastByte == 0
    {
      buffer := new Byte[LL_MAX_FRAME_SZ];
      lastByte, previousLastByte := 0, 0;
      this.input, output := input, [];
    }

    predicate Valid() {
      buffer.Length == LL_MAX_FRAME_SZ
    }

    /** Writes one byte, escaped if need be, behind `end`. */
    method PutStuffed(end: nat, c: Byte) returns (end': nat)
      requires Valid() && end + 2 <= buffer.Length
      modifies buffer
      ensures end' == end + |Escape(c)| <= end + 2
      ensures buffer[..end'] == old(buffer[..end]) + Escape(c)
    {
      if c == FLAG || c == ESC {
        buffer[end] := ESC;
        buffer[end + 1] := BitXor(OCT, c);
        return end + 2;
      } else {
        buffer[end] := c;
        return end + 1;
      }
    }

    /** copy_and_stuff_bytes: stuffs `src` and then its check byte behind `dest`. */
    method CopyAndStuff(dest: nat, src: seq<Byte>) returns (end: nat)
      requires Valid() && dest + 2 * (|src| + 1) <= buffer.Length
      modifies buffer
      ensures end <= buffer.Length
      ensures buffer[..end] == old(buffer[..dest]) + Stuff(src + [Xor(src)])
    {
      end := dest;
      var bcc: Byte := 0;
      var i := 0;
      ghost var head, out := buffer[..dest], [];
      while i <= |src|
        invariant 0 <= i <= |src| + 1
        invariant bcc == Xor(src[..if i <= |src| then i else |src|])
        invariant out == Stuff((src + [Xor(src)])[..i])
        invariant end <= dest + 2 * i && buffer[..end] == head + out
      {
        var c: Byte;
        if i != |src| {
          c := src[i];
          FoldNext(src, i);
          bcc := BitXor(bcc, c);
        } else {
          assert src[..i] == src;
          c := bcc;
        }
        StuffNext(src + [Xor(src)], i);
        end := PutStuffed(end, c);
        Assoc(head, out, Escape(c));
        out := out + Escape(c);
        i := i + 1;
      }
      assert (src + [Xor(src)])[..|src| + 1] == src + [Xor(src)];
    }

    static lemma FoldNext(src: seq<Byte>, i: nat)
      requires i < |src|
      ensures Xor(src[..i + 1]) == BitXor(Xor(src[..i]), src[i])
    {
      XorSnoc(src[..i], src[i]);
      assert src[..i + 1] == src[..i] + [src[i]];
    }

    static lemma StuffNext(all: seq<Byte>, i: nat)
      requires i < |all|
      ensures Stuff(all[..i + 1]) == Stuff(all[..i]) + Escape(all[i])
    {
      StuffSnoc(all[..i], all[i]);
      assert all[..i + 1] == all[..i] + [all[i]];
    }

    /** f_send_frame, for a port whose write succeeds iff `writes`: refuses data of more than
        4094 bytes, else puts exactly the composed frame on the line. */
    method SendFrame(frame: Frame, writes: bool) returns (code: Code)
      requires Valid()
      modifies this`output, buffer
      ensures code == if |frame.data| <= LL_MAX_PAYLOAD_UNSTUFFED && writes then Success else Error
      ensures output == old(output) + if code == Success then Compose(frame) else []
    {
      buffer[0] := FLAG;
      buffer[1] := frame.address;
      buffer[2] := frame.control;
      buffer[3] := BitXor(frame.address, frame.control);
      assert buffer[..4] == [FLAG] + Header(frame);
      var bp := 4;
      if |frame.data| > LL_MAX_PAYLOAD_UNSTUFFED {
        return Error;
      } else if |frame.data| > 0 {
        StuffTransparent(frame.data + [Xor(frame.data)]);
        bp := CopyAndStuff(bp, frame.data);
      }
      assert buffer[..bp] == [FLAG] + Header(frame) + Body(frame);
      buffer[bp] := FLAG;
      bp := bp + 1;
      assert buffer[..bp] == buffer[..bp - 1] + [FLAG];
      if !writes {
        return Error;
      }
      output := output + buffer[..bp];
      return Success;
    }

    /** serial_port_read into the buffer from cell `at`: reads up to and including the first
        `delim`, but at most `maxc` bytes. When the line falls silent first, the read is
        interrupted: it has consumed the line but reports nothing. */
    method Read(at: nat, delim: Byte, maxc: nat) returns (nc: nat, interrupted: bool)
      requires Valid() && 0 < maxc && at + maxc <= buffer.Length
      modifies this`input, this`lastByte, this`previousLastByte, buffer
      ensures previousLastByte == old(lastByte)
      ensures interrupted <==> IndexOf(old(input), delim) == |old(input)| < maxc
      ensures interrupted ==> nc == 0 && input == []
                              && lastByte == if old(input) == [] then old(lastByte) else old(input)[|old(input)| - 1]
      ensures !interrupted ==>
                && nc == (if IndexOf(old(input), delim) < maxc then IndexOf(old(input), delim) + 1 else maxc)
                && nc <= |old(input)| && input == old(input)[nc..] && lastByte == old(input)[nc - 1]
                && buffer[at..at + nc] == old(input)[..nc]
      ensures buffer[..at] == old(buffer[..at])
    {
      previousLastByte := lastByte;
      ghost var line := input;
      ghost var first := IndexOf(line, delim);
      nc := 0;
      while true
        invariant 0 <= nc <= first && nc < maxc && input == line[nc..]
        invariant previousLastByte == old(lastByte)
        invariant lastByte == if nc == 0 then old(lastByte) else line[nc - 1]
        invariant forall k :: at <= k < at + nc ==> buffer[k] == line[k - at]
        invariant forall k :: 0 <= k < at ==> buffer[k] == old(buffer[k])
        decreases |input|
      {
        if input == [] {
          return 0, true;
        }
        lastByte := input[0];
        input := input[1..];
        buffer[at + nc] := lastByte;
        nc := nc + 1;
        if !(nc < maxc && lastByte != delim) {
          return nc, false;
        }
      }
    }

    /** f_receive_frame: hands the next chunk of the stream to the parser. On a silent line it
        times out, or waits for ever when called without a timeout. */
    method ReceiveFrame(frame: FrameRecord, usingTimeout: bool, ghost scan: Scan)
      returns (code: Code, ghost c: Call)
      requires Valid() && frame.Valid() && frame.data != buffer
      requires scan == NextFrame(lastByte, input)
      modifies this`input, this`lastByte, this`previousLastByte, buffer, frame, frame.data
      ensures match scan
              case Silent(last) =>
                code == (if usingTimeout then Timeout else Blocked) && input == [] && lastByte == last
                && frame.control == old(frame.control)
              case Framed(chunk, rest) =>
                && input == rest && lastByte == FLAG
                && Parses(c, chunk) && c.max == frame.maxDataSize && c.stale == old(frame.control)
                && !c.outcome.Missing? && frame.Shows(code, c.outcome)
      ensures frame.data[..frame.at] == old(frame.data[..frame.at])
      ensures frame.data[frame.at + frame.maxDataSize + 1..] == old(frame.data[frame.at + frame.maxDataSize + 1..])
    {
      while true
        invariant NextFrame(lastByte, input) == scan
        invariant frame.control == old(frame.control)
        invariant frame.data[..frame.at] == old(frame.data[..frame.at])
        invariant frame.data[frame.at + frame.maxDataSize + 1..] == old(frame.data[frame.at + frame.maxDataSize + 1..])
        decreases |input|
      {
        c := Call([], 0, 0, Missing);
        var silent := HuntForFlag();
        if silent {
          return if usingTimeout then Timeout else Blocked, c;
        }
        buffer[0] := FLAG;
        var nc;
        silent, nc := SkipIdle();
        if silent {
          return if usingTimeout then Timeout else Blocked, c;
        }
        if lastByte == FLAG {
          c := Handed(buffer[..], frame.maxDataSize, frame.control, scan, old(lastByte), old(input));
          code := ParseFrame(frame, buffer);
          return code, c;
        }
      }
    }

    /** The first loop of f_receive_frame: reads until the last byte read is a FLAG. */
    method HuntForFlag() returns (silent: bool)
      requires Valid()
      modifies this`input, this`lastByte, this`previousLastByte, buffer
      ensures NextFrame(lastByte, input) == NextFrame(old(lastByte), old(input))
      ensures silent ==> input == [] && NextFrame(lastByte, input) == Silent(lastByte)
      ensures !silent ==> lastByte == FLAG && |input| <= |old(input)|
    {
      ghost var goal := NextFrame(lastByte, input);
      while lastByte != FLAG
        invariant NextFrame(lastByte, input) == goal
        invariant |input| <= |old(input)|
        decreases |input|
      {
        ghost var last, line := lastByte, input;
        var nc, interrupted := Read(0, FLAG, LL_MAX_FRAME_SZ);
        if interrupted {
          HuntInVain(last, line);
          return true;
        }
        Hunted(last, line, nc);
      }
      return false;
    }

    /** The second loop of f_receive_frame: reads behind the FLAG in cell 0 until more than one
        byte arrives, that is a chunk or a run of bytes without a FLAG that fills the buffer. */
    method SkipIdle() returns (silent: bool, nc: nat)
      requires Valid() && lastByte == FLAG && buffer[0] == FLAG
      modifies this`input, this`lastByte, this`previousLastByte, buffer
      ensures silent ==> input == [] && NextFrame(FLAG, old(input)) == Silent(lastByte)
      ensures !silent ==> |input| < |old(input)|
      ensures !silent && lastByte == FLAG ==>
                nc < buffer.Length && NextFrame(FLAG, old(input)) == Framed(buffer[..nc + 1], input)
      ensures !silent && lastByte != FLAG ==> NextFrame(FLAG, old(input)) == NextFrame(lastByte, input)
    {
      ghost var goal := NextFrame(FLAG, input);
      while true
        invariant lastByte == FLAG && buffer[0] == FLAG
        invariant NextFrame(FLAG, input) == goal && |input| <= |old(input)|
        decreases |input|
      {
        ghost var line := input;
        var interrupted;
        nc, interrupted := Read(1, FLAG, LL_MAX_FRAME_SZ - 1);
        if interrupted {
          return true, 0;
        }
        if nc > 1 {
          assert buffer[..nc + 1] == buffer[..1] + buffer[1..1 + nc] == [FLAG] + line[..nc];
          return false, nc;
        }
      }
    }
  }
}
