/** Error detection and resynchronisation together: a line on which some frames arrive with a
    flipped bit or a changed header byte (src/data_link_io.c). */
module DamagedLine {
  import opened Bits
  import opened Codes
  import opened Stuffing
  import opened Framing
  import opened Stream
  import opened ErrorDetection

  /** What the line does to a frame; `i` counts in the body or in the header. */
  datatype Damage = Intact | FlippedBit(i: nat, mask: Byte) | ChangedHeader(i: nat, x: Byte)

  /** The damage can happen to the frame and makes no FLAG and no unpaired ESC before the closing FLAG. */
  predicate Possible(f: Frame, d: Damage) {
    Sendable(f) &&
    match d
    case Intact => true
    case FlippedBit(i, mask) =>
      && f.data != [] && i < |Body(f)| && SingleBit(mask)
      && BitXor(Body(f)[i], mask) != FLAG && !Dangling(Body(f)[i := BitXor(Body(f)[i], mask)])
    case ChangedHeader(i, x) => i < 3 && x != Header(f)[i] && x != FLAG
  }

  /** What arrives between the two FLAGs. */
  function Inner(f: Frame, d: Damage): seq<Byte>
    requires Possible(f, d)
  {
    match d
    case Intact => Header(f) + Body(f)
    case FlippedBit(i, mask) => Header(f) + Body(f)[i := BitXor(Body(f)[i], mask)]
    case ChangedHeader(i, x) => Header(f)[i := x] + Body(f)
  }

  function Arriving(f: Frame, d: Damage): seq<Byte>
    requires Possible(f, d)
  {
    [FLAG] + Inner(f, d) + [FLAG]
  }

  lemma DelimitedStill(f: Frame, d: Damage)
    requires Possible(f, d)
    ensures Inside(Inner(f, d))
  {
    BodyBounds(f);
  }

  /** What the parser makes of it. */
  ghost predicate Detects(f: Frame, d: Damage, p: Parsed) {
    match d
    case Intact => p == Delivered(f)
    case FlippedBit(_, _) => p == Bad(f.control)
    case ChangedHeader(_, _) => p.Bad?
  }

  lemma ChangeInside(h: seq<Byte>, b: seq<Byte>, i: nat, x: Byte)
    requires i < |h|
    ensures ([FLAG] + h + b + [FLAG])[i + 1 := x] == [FLAG] + (h[i := x] + b) + [FLAG]
  {}

  lemma Detected(f: Frame, d: Damage, a: seq<Byte>, max: nat, stale: Byte)
    requires Possible(f, d) && |f.data| <= max
    requires |a| >= PARSE_WINDOW && Arriving(f, d) <= a
    ensures Detects(f, d, Parse(a, max, stale))
  {
    match d
    case Intact =>
      ComposeBounds(f);
      RoundTrip(f, a, max, stale);
    case FlippedBit(i, mask) =>
      BitFlipDetected(f, i, mask, Body(f)[i := BitXor(Body(f)[i], mask)], a, max, stale);
    case ChangedHeader(i, x) =>
      ChangeInside(Header(f), Body(f), i, x);
      HeaderChangeDetected(f, i + 1, x, a, max, stale);
  }

  /** Every damage is one that can happen to its frame. */
  predicate AllPossible(frames: seq<Frame>, damages: seq<Damage>) {
    |damages| == |frames| && forall i :: 0 <= i < |frames| ==> Possible(frames[i], damages[i])
  }

  /** The frames as they arrive, each behind some idle FLAGs. */
  function ArrivingLine(frames: seq<Frame>, damages: seq<Damage>, idle: seq<nat>): seq<Byte>
    requires |idle| == |frames| && AllPossible(frames, damages)
  {
    if frames == [] then []
    else Idle(idle[0]) + Arriving(frames[0], damages[0]) + ArrivingLine(frames[1..], damages[1..], idle[1..])
  }

  /** The first call takes the first arriving frame, and the rest of the line is left. */
  lemma FirstArrival(last: Byte, noise: seq<Byte>, n: nat, f: Frame, d: Damage, rest: seq<Byte>, calls: seq<Call>)
    requires Possible(f, d) && FLAG !in noise && (last == FLAG ==> noise == [])
    requires calls != [] && |f.data| <= calls[0].max
    requires Session(last, noise + Idle(n) + Arriving(f, d) + rest, calls)
    ensures Detects(f, d, calls[0].outcome) && Session(FLAG, rest, calls[1..])
  {
    DelimitedStill(f, d);
    FindInner(last, noise, n, Inner(f, d), rest);
    var c := calls[0];
    Detected(f, d, c.buffer, c.max, c.stale);
  }

  /** On a line with such damage successive calls return exactly the frames that arrive intact, in
      their places, and a bad frame for each of the others: no damage reaches its neighbours. */
  lemma {:induction false} DamageDetected(last: Byte, noise: seq<Byte>, frames: seq<Frame>, damages: seq<Damage>,
                                          idle: seq<nat>, tail: seq<Byte>, calls: seq<Call>)
    requires |idle| == |calls| == |frames| && AllPossible(frames, damages)
    requires forall i :: 0 <= i < |frames| ==> |frames[i].data| <= calls[i].max
    requires FLAG !in noise && (last == FLAG ==> noise == [])
    requires Session(last, noise + ArrivingLine(frames, damages, idle) + tail, calls)
    ensures forall i :: 0 <= i < |frames| ==> Detects(frames[i], damages[i], calls[i].outcome)
    decreases |frames|
  {
    if frames != [] {
      var f, d, rest := frames[0], damages[0], [] + ArrivingLine(frames[1..], damages[1..], idle[1..]) + tail;
      Regroup(noise, Idle(idle[0]), Arriving(f, d), ArrivingLine(frames[1..], damages[1..], idle[1..]), tail);
      FirstArrival(last, noise, idle[0], f, d, rest, calls);
      DamageDetected(FLAG, [], frames[1..], damages[1..], idle[1..], tail, calls[1..]);
      forall i | 0 < i < |frames| ensures Detects(frames[i], damages[i], calls[i].outcome) {
        assert frames[1..][i - 1] == frames[i] && damages[1..][i - 1] == damages[i] && calls[1..][i - 1] == calls[i];
      }
    }
  }
}
