/** Where frames begin and end in a byte stream: the delimiting done by
    f_receive_frame and serial_port_read, and its resynchronisation. */
module Stream {
  import opened Bits
  import opened Codes
  import opened Stuffing
  import opened Framing

  /** How many bytes one read may put behind the opening FLAG in the buffer. */
  const MAX_CHUNK: nat := LL_MAX_FRAME_SZ - 1

  datatype Scan =
    | Silent(last: Byte)                               // the line falls silent first
    | Framed(chunk: seq<Byte>, rest: seq<Byte>)        // a chunk FLAG .. FLAG, then more input

  /** The next chunk handed to the parser, when `last` was the last byte read and the line is
      about to deliver `s`. Without a FLAG behind it the scan hunts for one; behind a FLAG it
      skips idle FLAGs and drops a run of MAX_CHUNK bytes without a FLAG. */
  function NextFrame(last: Byte, s: seq<Byte>): (r: Scan)
    ensures r.Framed? ==> |r.rest| < |s| && 3 <= |r.chunk| <= LL_MAX_FRAME_SZ
    decreases |s|
  {
    if last != FLAG then
      if s == [] then Silent(last) else NextFrame(s[0], s[1..])
    else
      var k := IndexOf(s, FLAG);
      if k == 0 && s != [] then NextFrame(FLAG, s[1..])
      else if k < |s| && k < MAX_CHUNK then Framed([FLAG] + s[..k + 1], s[k + 1..])
      else if |s| < MAX_CHUNK then Silent(if s == [] then last else s[|s| - 1])
      else NextFrame(s[MAX_CHUNK - 1], s[MAX_CHUNK..])
  }

  /** A FLAG-free inside between two FLAGs. */
  predicate Delimited(chunk: seq<Byte>) {
    && |chunk| > 2 && chunk[0] == chunk[|chunk| - 1] == FLAG
    && FLAG !in chunk[1..|chunk| - 1]
  }

  /** Every chunk is delimited, and all of it but its first byte lies contiguously in the
      stream, just before the rest. */
  lemma {:induction false} ChunkShape(last: Byte, s: seq<Byte>) returns (skipped: seq<Byte>)
    requires NextFrame(last, s).Framed?
    ensures Delimited(NextFrame(last, s).chunk)
    ensures s == skipped + NextFrame(last, s).chunk[1..] + NextFrame(last, s).rest
    decreases |s|
  {
    var k := IndexOf(s, FLAG);
    var r := NextFrame(last, s);
    if last == FLAG && 0 < k < |s| && k < MAX_CHUNK {
      ChunkCut(s, k, r.chunk, r.rest);
      return [];
    }
    var n := if last == FLAG && k > 0 then MAX_CHUNK else 1;
    assert r == NextFrame(s[n - 1], s[n..]);
    var more := ChunkShape(s[n - 1], s[n..]);
    skipped := s[..n] + more;
    assert s == s[..n] + s[n..];
    Assoc(s[..n], more, r.chunk[1..]);
    Assoc(s[..n], more + r.chunk[1..], r.rest);
  }

  lemma ChunkCut(s: seq<Byte>, k: nat, chunk: seq<Byte>, rest: seq<Byte>)
    requires 0 < k < |s| && s[k] == FLAG && FLAG !in s[..k]
    requires chunk == [FLAG] + s[..k + 1] && rest == s[k + 1..]
    ensures Delimited(chunk) && s == [] + chunk[1..] + rest
  {
    assert chunk[1..] == s[..k + 1];
    assert chunk[1..|chunk| - 1] == s[..k];
    assert chunk[|chunk| - 1] == s[k];
    assert s == s[..k + 1] + s[k + 1..];
  }

  /** Hunting reads in pieces without a FLAG, which change nothing but the last byte read. */
  lemma {:induction false} HuntOn(last: Byte, s: seq<Byte>, n: nat)
    requires last != FLAG && 0 < n <= |s| && FLAG !in s[..n]
    ensures NextFrame(last, s) == NextFrame(s[n - 1], s[n..])
    decreases n
  {
    assert s[..n][0] == s[0];
    if n > 1 {
      assert s[1..][..n - 1] == s[..n][1..];
      HuntOn(s[0], s[1..], n - 1);
    }
  }

  /** A line that falls silent without a FLAG leaves the receiver hunting. */
  lemma {:induction false} HuntInVain(last: Byte, s: seq<Byte>)
    requires last != FLAG && FLAG !in s
    ensures NextFrame(last, s) == Silent(if s == [] then last else s[|s| - 1])
    decreases |s|
  {
    if s != [] {
      HuntInVain(s[0], s[1..]);
    }
  }

  /** Hunting: bytes without a FLAG are dropped, whatever they are. */
  lemma {:induction false} Hunt(last: Byte, noise: seq<Byte>, s: seq<Byte>)
    requires last != FLAG && FLAG !in noise
    ensures NextFrame(last, noise + [FLAG] + s) == NextFrame(FLAG, s)
    decreases |noise|
  {
    var w := noise + [FLAG] + s;
    if noise == [] {
      assert w[1..] == s;
    } else {
      assert w[1..] == noise[1..] + [FLAG] + s;
      Hunt(noise[0], noise[1..], s);
    }
  }

  /** A run of `n` idle FLAGs. */
  function Idle(n: nat): seq<Byte> {
    seq(n, _ => FLAG)
  }

  lemma {:induction false} SkipIdle(n: nat, s: seq<Byte>)
    ensures NextFrame(FLAG, Idle(n) + s) == NextFrame(FLAG, s)
  {
    var w := Idle(n) + s;
    if n == 0 {
      assert w == s;
    } else {
      assert w[1..] == Idle(n - 1) + s;
      assert w[0] == FLAG;
      SkipIdle(n - 1, s);
    }
  }

  /** Behind a FLAG, the inside of a frame and its closing FLAG are the next chunk. */
  lemma TakeInner(inner: seq<Byte>, s: seq<Byte>)
    requires FLAG !in inner && 0 < |inner| < MAX_CHUNK
    ensures NextFrame(FLAG, inner + [FLAG] + s) == Framed([FLAG] + inner + [FLAG], s)
  {
    var w := inner + [FLAG] + s;
    var k := IndexOf(w, FLAG);
    assert w[|inner|] == FLAG;
    assert forall j :: 0 <= j < |inner| ==> w[j] == inner[j];
    assert k == |inner|;
    assert w[..k + 1] == inner + [FLAG] && w[k + 1..] == s;
  }

  /** What can stand between two FLAGs and be handed to the parser as one chunk. */
  predicate Inside(inner: seq<Byte>) {
    FLAG !in inner && 0 < |inner| < MAX_CHUNK
  }

  /** A delimited chunk is found behind idle FLAGs, and behind noise of any length when the
      receiver is not already behind a FLAG. */
  lemma FindInner(last: Byte, noise: seq<Byte>, n: nat, inner: seq<Byte>, s: seq<Byte>)
    requires FLAG !in noise && (last == FLAG ==> noise == []) && Inside(inner)
    ensures NextFrame(last, noise + Idle(n) + ([FLAG] + inner + [FLAG]) + s) == Framed([FLAG] + inner + [FLAG], s)
  {
    var w := inner + [FLAG] + s;
    TakeInner(inner, s);
    IdleSwap(n, noise, inner, s);
    if last == FLAG {
      SkipIdle(n + 1, w);
    } else {
      Hunt(last, noise, Idle(n) + w);
      SkipIdle(n, w);
    }
  }

  /** A composed frame is found so. */
  lemma FindFrame(last: Byte, noise: seq<Byte>, n: nat, f: Frame, s: seq<Byte>)
    requires FLAG !in noise && (last == FLAG ==> noise == []) && Sendable(f)
    ensures NextFrame(last, noise + Idle(n) + Compose(f) + s) == Framed(Compose(f), s)
  {
    var inner := FrameInner(f);
    FindInner(last, noise, n, inner, s);
  }

  lemma IdleSwap(n: nat, noise: seq<Byte>, inner: seq<Byte>, s: seq<Byte>)
    ensures var w := inner + [FLAG] + s;
            noise + Idle(n) + ([FLAG] + inner + [FLAG]) + s == noise + [FLAG] + (Idle(n) + w)
    ensures [] + Idle(n) + ([FLAG] + inner + [FLAG]) + s == Idle(n + 1) + (inner + [FLAG] + s)
  {
    assert Idle(n) + [FLAG] == [FLAG] + Idle(n) == Idle(n + 1);
    assert noise + Idle(n) + ([FLAG] + inner + [FLAG]) + s == noise + (Idle(n) + [FLAG]) + (inner + [FLAG] + s);
    assert [] + Idle(n) + ([FLAG] + inner + [FLAG]) + s == (Idle(n) + [FLAG]) + (inner + [FLAG] + s);
  }

  // ---------------------------------------------------------------------------
  // Successive calls of f_receive_frame

  /** One completed call: the buffer it parsed (with stale bytes behind the chunk), the room
      and control byte of the record it was given, and the verdict. */
  datatype Call = Call(buffer: seq<Byte>, max: nat, stale: Byte, outcome: Parsed)

  /** `c` parsed a buffer that starts with `chunk`. */
  ghost predicate Parses(c: Call, chunk: seq<Byte>) {
    |c.buffer| == LL_MAX_FRAME_SZ && chunk <= c.buffer && c.outcome == Parse(c.buffer, c.max, c.stale)
  }

  /** `calls` are what successive calls may do on the stream; the stale part of every
      buffer is arbitrary. */
  ghost predicate Session(last: Byte, s: seq<Byte>, calls: seq<Call>)
    decreases |calls|
  {
    calls == [] ||
    (var c := calls[0];
     match NextFrame(last, s)
     case Silent(_) => false
     case Framed(chunk, rest) =>
       Parses(c, chunk) && Session(FLAG, rest, calls[1..]))
  }

  /** Frames on the line, each preceded by some idle FLAGs. */
  function Line(frames: seq<Frame>, idle: seq<nat>): seq<Byte>
    requires |idle| == |frames|
  {
    if frames == [] then []
    else Idle(idle[0]) + Compose(frames[0]) + Line(frames[1..], idle[1..])
  }

  ghost predicate Fits(frames: seq<Frame>, calls: seq<Call>) {
    |calls| == |frames| &&
    forall i :: 0 <= i < |frames| ==> Sendable(frames[i]) && |frames[i].data| <= calls[i].max
  }

  lemma LineHead(noise: seq<Byte>, frames: seq<Frame>, idle: seq<nat>, tail: seq<Byte>)
    requires |idle| == |frames| && frames != []
    ensures noise + Line(frames, idle) + tail
         == noise + Idle(idle[0]) + Compose(frames[0]) + ([] + Line(frames[1..], idle[1..]) + tail)
  {
    Regroup(noise, Idle(idle[0]), Compose(frames[0]), Line(frames[1..], idle[1..]), tail);
  }

  /** Stream resynchronisation: behind leading noise, frames separated by any runs of idle FLAGs
      come out as exactly that list, one per call, whatever is left in the buffer. */
  lemma {:induction false} FramesDelivered(last: Byte, noise: seq<Byte>, frames: seq<Frame>, idle: seq<nat>,
                                           tail: seq<Byte>, calls: seq<Call>)
    requires |idle| == |frames| && Fits(frames, calls)
    requires FLAG !in noise && (last == FLAG ==> noise == [])
    requires Session(last, noise + Line(frames, idle) + tail, calls)
    ensures forall i :: 0 <= i < |frames| ==> calls[i].outcome == Delivered(frames[i])
    decreases |frames|
  {
    if frames != [] {
      var f, rest := frames[0], [] + Line(frames[1..], idle[1..]) + tail;
      LineHead(noise, frames, idle, tail);
      FirstCall(last, noise, idle[0], f, rest, calls);
      FramesDelivered(FLAG, [], frames[1..], idle[1..], tail, calls[1..]);
      forall i | 0 < i < |frames| ensures calls[i].outcome == Delivered(frames[i]) {
        assert frames[1..][i - 1] == frames[i] && calls[1..][i - 1] == calls[i];
      }
    }
  }

  /** The first call of a session on a stream whose first frame is `f`. */
  lemma FirstCall(last: Byte, noise: seq<Byte>, n: nat, f: Frame, rest: seq<Byte>, calls: seq<Call>)
    requires FLAG !in noise && (last == FLAG ==> noise == []) && Sendable(f)
    requires calls != [] && |f.data| <= calls[0].max
    requires Session(last, noise + Idle(n) + Compose(f) + rest, calls)
    ensures calls[0].outcome == Delivered(f)
    ensures Session(FLAG, rest, calls[1..])
  {
    FindFrame(last, noise, n, f, rest);
    var c := calls[0];
    assert Compose(f) <= c.buffer;
    RoundTrip(f, c.buffer, c.max, c.stale);
  }

  /** Such a session exists: none of the calls waits. */
  lemma {:induction false} FramesAvailable(last: Byte, noise: seq<Byte>, frames: seq<Frame>, idle: seq<nat>,
                                           tail: seq<Byte>)
    returns (calls: seq<Call>)
    requires |idle| == |frames| && FLAG !in noise && (last == FLAG ==> noise == [])
    requires forall f :: f in frames ==> Sendable(f)
    ensures Fits(frames, calls) && Session(last, noise + Line(frames, idle) + tail, calls)
    decreases |frames|
  {
    if frames == [] {
      calls := [];
    } else {
      var f, rest := frames[0], [] + Line(frames[1..], idle[1..]) + tail;
      LineHead(noise, frames, idle, tail);
      FindFrame(last, noise, idle[0], f, rest);
      var more := FramesAvailable(FLAG, [], frames[1..], idle[1..], tail);
      var c := FreshCall(f);
      calls := [c] + more;
      assert calls[1..] == more;
    }
  }

  lemma FreshCall(f: Frame) returns (c: Call)
    requires Sendable(f)
    ensures Parses(c, Compose(f)) && c.max == |f.data|
  {
    ComposeBounds(f);
    var b := Compose(f) + seq(LL_MAX_FRAME_SZ - |Compose(f)|, _ => 0);
    c := Call(b, |f.data|, 0, Parse(b, |f.data|, 0));
  }

  /** The number of calls spent on FLAG-free noise that follows a frame. */
  function NoiseCalls(noise: seq<Byte>): nat {
    if 0 < |noise| < MAX_CHUNK then 1 else 0
  }

  /** Noise behind a frame costs at most one call, and the frame after it is found intact. */
  lemma NoiseThenFrame(noise: seq<Byte>, f: Frame, s: seq<Byte>)
    requires FLAG !in noise && Sendable(f)
    ensures var w := noise + Compose(f) + s;
            if NoiseCalls(noise) == 0 then NextFrame(FLAG, w) == Framed(Compose(f), s)
            else NextFrame(FLAG, w).Framed? && NextFrame(FLAG, NextFrame(FLAG, w).rest) == Framed(Compose(f), s)
  {
    var v := AfterOpeningFlag(noise, f, s);
    if noise == [] {
      SkipIdle(1, v);
      assert Idle(1) == [FLAG] && noise + [FLAG] + v == Idle(1) + v;
    } else if |noise| < MAX_CHUNK {
      TakeInner(noise, v);
    } else {
      LongNoise(noise, v);
    }
  }

  /** Behind any bytes, what follows the opening FLAG of a frame is that frame for a receiver
      that took this FLAG for its own. */
  lemma AfterOpeningFlag(noise: seq<Byte>, f: Frame, s: seq<Byte>) returns (v: seq<Byte>)
    requires Sendable(f)
    ensures noise + Compose(f) + s == noise + [FLAG] + v
    ensures NextFrame(FLAG, v) == Framed(Compose(f), s)
  {
    var inner := FrameInner(f);
    v := inner + [FLAG] + s;
    TakeInner(inner, s);
    OpeningFlag(noise, inner, s);
  }

  lemma OpeningFlag(noise: seq<Byte>, inner: seq<Byte>, s: seq<Byte>)
    ensures noise + ([FLAG] + inner + [FLAG]) + s == noise + [FLAG] + (inner + [FLAG] + s)
  {
    assert ([FLAG] + inner + [FLAG]) + s == [FLAG] + (inner + [FLAG] + s);
    Assoc(noise, [FLAG] + inner + [FLAG], s);
    Assoc(noise, [FLAG], inner + [FLAG] + s);
  }

  lemma FrameInner(f: Frame) returns (inner: seq<Byte>)
    requires Sendable(f)
    ensures Compose(f) == [FLAG] + inner + [FLAG] && FLAG !in inner && 0 < |inner| < MAX_CHUNK
  {
    ComposeBounds(f);
    inner := Header(f) + Body(f);
  }

  /** A run of at least MAX_CHUNK bytes without a FLAG is dropped together with the FLAG that ends it. */
  lemma LongNoise(noise: seq<Byte>, s: seq<Byte>)
    requires FLAG !in noise && |noise| >= MAX_CHUNK
    ensures NextFrame(FLAG, noise + [FLAG] + s) == NextFrame(FLAG, s)
  {
    var w := noise + [FLAG] + s;
    var k := IndexOf(w, FLAG);
    assert forall j :: 0 <= j < |noise| ==> w[j] == noise[j];
    assert k >= |noise|;
    assert w[MAX_CHUNK - 1] == noise[MAX_CHUNK - 1];
    assert w[MAX_CHUNK..] == noise[MAX_CHUNK..] + [FLAG] + s;
    Hunt(noise[MAX_CHUNK - 1], noise[MAX_CHUNK..], s);
  }

  /** Frames on the line, each preceded by FLAG-free noise. */
  function NoisyLine(frames: seq<Frame>, noises: seq<seq<Byte>>): seq<Byte>
    requires |noises| == |frames|
  {
    if frames == [] then []
    else noises[0] + Compose(frames[0]) + NoisyLine(frames[1..], noises[1..])
  }

  /** The calls left when those spent on noise are taken out. */
  function WithoutNoise(noises: seq<seq<Byte>>, calls: seq<Call>): seq<Call> {
    if noises == [] || |calls| <= NoiseCalls(noises[0]) then []
    else [calls[NoiseCalls(noises[0])]] + WithoutNoise(noises[1..], calls[NoiseCalls(noises[0]) + 1..])
  }

  function TotalCalls(noises: seq<seq<Byte>>): (n: nat)
    ensures |noises| <= n <= 2 * |noises|
  {
    if noises == [] then 0 else NoiseCalls(noises[0]) + 1 + TotalCalls(noises[1..])
  }

  /** With noise before any frames, the calls not spent on noise, at most every second one,
      still return exactly the list of frames. */
  lemma {:induction false} FramesSurviveNoise(frames: seq<Frame>, noises: seq<seq<Byte>>, tail: seq<Byte>,
                                              calls: seq<Call>)
    requires |noises| == |frames| && |calls| == TotalCalls(noises)
    requires forall n :: n in noises ==> FLAG !in n
    requires forall f :: f in frames ==> Sendable(f)
    requires forall f, c :: f in frames && c in calls ==> |f.data| <= c.max
    requires Session(FLAG, NoisyLine(frames, noises) + tail, calls)
    ensures |WithoutNoise(noises, calls)| == |frames|
    ensures forall i :: 0 <= i < |frames| ==> WithoutNoise(noises, calls)[i].outcome == Delivered(frames[i])
    decreases |frames|
  {
    if frames != [] {
      var f, rest := frames[0], NoisyLine(frames[1..], noises[1..]) + tail;
      var k := NoiseCalls(noises[0]);
      Assoc(noises[0] + Compose(f), NoisyLine(frames[1..], noises[1..]), tail);
      NoisyCall(noises[0], f, rest, calls);
      FramesSurviveNoise(frames[1..], noises[1..], tail, calls[k + 1..]);
    }
  }

  lemma NoisyCall(noise: seq<Byte>, f: Frame, rest: seq<Byte>, calls: seq<Call>)
    requires FLAG !in noise && Sendable(f) && |calls| > NoiseCalls(noise)
    requires |f.data| <= calls[NoiseCalls(noise)].max
    requires Session(FLAG, noise + Compose(f) + rest, calls)
    ensures calls[NoiseCalls(noise)].outcome == Delivered(f)
    ensures Session(FLAG, rest, calls[NoiseCalls(noise) + 1..])
  {
    NoiseThenFrame(noise, f, rest);
    var k := NoiseCalls(noise);
    var c := calls[k];
    if k == 1 {
      assert calls[1..][0] == c && calls[1..][1..] == calls[2..];
    }
    RoundTrip(f, c.buffer, c.max, c.stale);
  }
}
