/** The steps of the protocol are those of the code: what the transmitter does with replies and
    timeouts is the retry loops, what the receiver does is receiver_read, and the lines do exactly
    what FIFO lines that lose and corrupt frames can do. */
module ProtocolSteps {
  import opened Bits
  import opened Codes
  import opened Framing
  import opened Control
  import opened Retry
  import opened StopAndWait
  import Receiver

  // ---------------------------------------------------------------------------
  // The transmitter

  predicate Transmits(e: Step) {
    e.TakeAnswer? || e == Step.Timeout || e.PortFails?
  }

  /** The events that transmitter steps meet when the replies of `backward` are on their way. */
  function EventsOf(backward: seq<Answer>, steps: seq<Step>): (events: seq<Event>)
    decreases |steps|
  {
    if steps == [] then []
    else
      match steps[0]
      case Timeout => [TimedOut] + EventsOf(backward, steps[1..])
      case PortFails => [ReceiveFails] + EventsOf(backward, steps[1..])
      case _ =>
        if backward == [] then EventsOf(backward, steps[1..])
        else [Heard(backward[0])] + EventsOf(backward[1..], steps[1..])
  }

  lemma {:induction false} TransmitAllElsewhere(s: State, b: seq<Answer>, script: seq<Event>)
    ensures TransmitAll(s.(backward := b), script) == TransmitAll(s, script).(backward := b)
    decreases |script|
  {
    if script != [] && s.phase.Waiting? && s.phase.left > 0 {
      var u := Transmit(s, s.phase.payload, s.phase.left, script[0]);
      assert Transmit(s.(backward := b), s.phase.payload, s.phase.left, script[0]) == u.(backward := b);
      TransmitAllElsewhere(u, b, script[1..]);
    }
  }

  /** A run of transmitter steps is the transmitter meeting these events; the replies taken are
      gone from the line. */
  lemma {:induction false} RunMeetsEvents(s: State, steps: seq<Step>, attempts: nat) returns (k: nat)
    requires forall e :: e in steps ==> Transmits(e)
    ensures k <= |s.backward|
    ensures Run(s, steps, attempts) == TransmitAll(s, EventsOf(s.backward, steps)).(backward := s.backward[k..])
    decreases |steps|
  {
    k := 0;
    if steps == [] {
      assert s.backward[0..] == s.backward;
    } else if !s.phase.Waiting? || s.phase.left == 0 {
      assert steps[0] in steps && Next(s, steps[0], attempts) == s;
      var j := RunMeetsEvents(s, steps[1..], attempts);
      assert s.backward[0..] == s.backward;
      StaysOver(s, steps, attempts);
    } else {
      var t := Next(s, steps[0], attempts);
      assert steps[0] in steps;
      var j := RunMeetsEvents(t, steps[1..], attempts);
      if steps[0].TakeAnswer? && s.backward != [] {
        k := j + 1;
        var u := Transmit(s, s.phase.payload, s.phase.left, Heard(s.backward[0]));
        assert t == u.(backward := s.backward[1..]);
        TransmitAllElsewhere(u, s.backward[1..], EventsOf(s.backward[1..], steps[1..]));
        assert s.backward[1..][j..] == s.backward[k..];
      } else {
        k := j;
      }
    }
  }

  /** A write that is over stays so under transmitter steps. */
  lemma {:induction false} StaysOver(s: State, steps: seq<Step>, attempts: nat)
    requires (forall e :: e in steps ==> Transmits(e)) && (!s.phase.Waiting? || s.phase.left == 0)
    ensures Run(s, steps, attempts) == s
    decreases |steps|
  {
    if steps != [] {
      assert steps[0] in steps;
      StaysOver(s, steps[1..], attempts);
    }
  }

  /** A write as the retry loops do it: from `s`, waiting with the first copy sent, to `t`. */
  ghost predicate Writes(s: State, events: seq<Event>, t: State)
    requires s.phase.Waiting?
  {
    var x := Exchange(s.phase.left, ReplyByte(s.tx, true), events);
    && (t.phase.Idle? <==> x.success)
    && t.tx == s.tx + (if x.success then 1 else 0)
    && t.completed == s.completed + (if x.success then [s.phase.payload] else [])
    && s.forward <= t.forward
    && (forall i :: |s.forward| <= i < |t.forward| ==> t.forward[i] == Copy(s, s.phase.payload))
    && (if t.phase.Waiting? then
          && t.phase.payload == s.phase.payload && 0 < t.phase.left == s.phase.left - Failures(events)
          && |t.forward| == |s.forward| + |events|
        else
          t.phase in {Idle, GaveUp(s.phase.payload)} && |t.forward| + 1 == |s.forward| + x.sends)
  }

  /** Over any run of transmitter steps, the verdict, the frame number, the completed payloads, the
      attempts left and the copies put on the line are those of the retry loops for the replies
      taken and the timeouts met. */
  lemma RunIsExchange(s: State, steps: seq<Step>, attempts: nat)
    requires s.phase.Waiting? && s.phase.left > 0 && forall e :: e in steps ==> Transmits(e)
    ensures var t := Run(s, steps, attempts);
            Writes(s, EventsOf(s.backward, steps), t) && t.rx == s.rx && t.accepted == s.accepted && t.log == s.log
    ensures exists k :: 0 <= k <= |s.backward| && Run(s, steps, attempts).backward == s.backward[k..]
  {
    var events := EventsOf(s.backward, steps);
    var k := RunMeetsEvents(s, steps, attempts);
    WriteIsExchange(s, events);
    ReceiverUntouched(s, events);
    WaitingLeft(s, events);
    NeverUnsent(s.phase.left, ReplyByte(s.tx, true), s.backward, steps);
  }

  lemma {:induction false} ReceiverUntouched(s: State, script: seq<Event>)
    ensures var t := TransmitAll(s, script);
            t.rx == s.rx && t.accepted == s.accepted && t.log == s.log
    decreases |script|
  {
    if script != [] && s.phase.Waiting? && s.phase.left > 0 {
      ReceiverUntouched(Transmit(s, s.phase.payload, s.phase.left, script[0]), script[1..]);
    }
  }

  lemma {:induction false} WaitingLeft(s: State, script: seq<Event>)
    requires s.phase.Waiting? && s.phase.left > 0
    ensures var t := TransmitAll(s, script);
            t.phase.Idle? || t.phase == GaveUp(s.phase.payload) || (t.phase.Waiting? && t.phase.left > 0)
    decreases |script|
  {
    if script != [] {
      var u := Transmit(s, s.phase.payload, s.phase.left, script[0]);
      if u.phase.Waiting? {
        WaitingLeft(u, script[1..]);
      }
    }
  }

  /** No step of the protocol is a failing send. */
  lemma {:induction false} EventsAreHeard(backward: seq<Answer>, steps: seq<Step>)
    ensures forall e :: e in EventsOf(backward, steps) ==> !e.SendFails?
    decreases |steps|
  {
    if steps != [] {
      EventsAreHeard(backward, steps[1..]);
      if backward != [] {
        EventsAreHeard(backward[1..], steps[1..]);
      }
    }
  }

  lemma NeverUnsent(left: nat, expected: Byte, backward: seq<Answer>, steps: seq<Step>)
    ensures !Unsent(left, expected, EventsOf(backward, steps))
  {
    var script := EventsOf(backward, steps);
    EventsAreHeard(backward, steps);
    SendsBounded(left, expected, script);
  }

  /** A whole write, from the call on: with at least one attempt its first copy goes out and the
      rest is the exchange; without attempts nothing is sent and the write fails. */
  lemma WholeWrite(s: State, p: Payload, steps: seq<Step>, attempts: nat)
    requires s.phase.Idle? && forall e :: e in steps ==> Transmits(e)
    ensures var t := Run(s, [BeginWrite(p)] + steps, attempts);
            var u := s.(phase := Waiting(p, attempts), forward := s.forward + [Data(ControlByte(s.tx), p, s.tx)]);
            if attempts == 0 then t == s.(phase := GaveUp(p))
            else Writes(u, EventsOf(s.backward, steps), t)
  {
    var all := [BeginWrite(p)] + steps;
    assert all[1..] == steps;
    var u := Next(s, BeginWrite(p), attempts);
    if attempts == 0 {
      StaysOver(u, steps, attempts);
    } else {
      RunIsExchange(u, steps, attempts);
    }
  }

  /** In particular each REJ taken costs one attempt, and puts one more copy on the line unless it
      was the last. */
  lemma RejectCosts(s: State, attempts: nat)
    requires s.phase.Waiting? && s.phase.left > 0 && s.backward != []
    requires s.backward[0].Answer? && IsReject(s.backward[0].control)
    ensures var t := Next(s, TakeAnswer, attempts);
            && t.tx == s.tx && t.completed == s.completed && t.backward == s.backward[1..]
            && (if s.phase.left == 1 then t.phase == GaveUp(s.phase.payload) && t.forward == s.forward
                else t.phase == Waiting(s.phase.payload, s.phase.left - 1)
                     && t.forward == s.forward + [Data(ControlByte(s.tx), s.phase.payload, s.tx)])
  {
    RunIsExchange(s, [TakeAnswer], attempts);
  }

  // ---------------------------------------------------------------------------
  // The receiver

  /** A data frame of the protocol as the parser shows it. */
  ghost predicate Shows(p: Parsed, d: Data) {
    if d.BadData? then p.Bad?
    else d.control != C_DISC && p == Delivered(Frame(ADDRESS, d.control, d.payload))
  }

  /** The receiver of the protocol takes the next frame off the line and then the step that
      receiver_read was proved to take: same verdict, same reply, same next frame number, and the
      content it stores is the payload with its check byte. */
  lemma ReceiverStepsAgree(s: State, p: Parsed, attempts: nat)
    requires s.forward != [] && Shows(p, s.forward[0]) && (s.forward[0].Data? ==> s.forward[0].payload != [])
    ensures var d, u, t := s.forward[0], Receiver.Effect(s.rx, p, true), Next(s, ReceiverTakes, attempts);
            && !u.ended && u.number == t.rx && t.forward == s.forward[1..]
            && |t.log| == |s.log| + 1 && u.replies == [t.log[|s.log|].control]
            && t.backward == s.backward + [t.log[|s.log|]]
            && (u.frames == 1 ==> t.accepted == s.accepted + [d.payload] && u.content == d.payload + [Xor(d.payload)])
            && (u.frames != 1 ==> t.accepted == s.accepted && u.content == [])
            && t.tx == s.tx && t.completed == s.completed && t.phase == s.phase
  {
    RepliesAreDistinct(s.rx, s.rx, true, false);
  }

  // ---------------------------------------------------------------------------
  // The lines

  /** `t` is what a FIFO line may make of `s`: every element arrives, or arrives garbled as one of
      the `bad` values, or is lost, and the order stays. */
  ghost predicate Degrades<T>(s: seq<T>, t: seq<T>, bad: iset<T>)
    decreases |s|
  {
    if s == [] then t == []
    else
      || Degrades(s[1..], t, bad)
      || (t != [] && (t[0] == s[0] || t[0] in bad) && Degrades(s[1..], t[1..], bad))
  }

  /** What a garbled frame can be. */
  ghost function BadForward(): iset<Data> {
    iset{BadData}
  }

  ghost function BadBackward(): iset<Answer> {
    iset a: Answer | a.BadAnswer?
  }

  lemma {:induction false} DegradesSame<T>(s: seq<T>, bad: iset<T>)
    ensures Degrades(s, s, bad)
  {
    if s != [] {
      DegradesSame(s[1..], bad);
    }
  }

  lemma {:induction false} DegradesTrans<T>(s: seq<T>, t: seq<T>, u: seq<T>, bad: iset<T>)
    requires Degrades(s, t, bad) && Degrades(t, u, bad)
    ensures Degrades(s, u, bad)
    decreases |s|
  {
    if s != [] {
      if Degrades(s[1..], t, bad) {
        DegradesTrans(s[1..], t, u, bad);
      } else if Degrades(t[1..], u, bad) {
        DegradesTrans(s[1..], t[1..], u, bad);
      } else {
        DegradesTrans(s[1..], t[1..], u[1..], bad);
      }
    }
  }

  /** Losing or garbling one element. */
  lemma {:induction false} OneDegrades<T>(s: seq<T>, i: nat, x: T, bad: iset<T>)
    requires i < |s| && x in bad
    ensures Degrades(s, Without(s, i), bad) && Degrades(s, s[i := x], bad)
    decreases |s|
  {
    DegradesSame(s[1..], bad);
    if i == 0 {
      assert Without(s, 0) == s[1..] && s[0 := x][1..] == s[1..];
    } else {
      OneDegrades(s[1..], i - 1, x, bad);
      assert Without(s, i)[1..] == Without(s[1..], i - 1) && s[i := x][1..] == s[1..][i - 1 := x];
    }
  }

  predicate OnTheLine(e: Step) {
    e.LoseForward? || e.LoseBackward? || e.GarbleForward? || e.GarbleBackward?
  }

  /** All that the lines do is degrade what is on them. */
  lemma {:induction false} LinesOnlyDegrade(s: State, steps: seq<Step>, attempts: nat)
    requires forall e :: e in steps ==> OnTheLine(e)
    ensures var t := Run(s, steps, attempts);
            && t == s.(forward := t.forward, backward := t.backward)
            && Degrades(s.forward, t.forward, BadForward()) && Degrades(s.backward, t.backward, BadBackward())
    decreases |steps|
  {
    DegradesSame(s.forward, BadForward());
    DegradesSame(s.backward, BadBackward());
    if steps != [] {
      var t := Next(s, steps[0], attempts);
      assert steps[0] in steps;
      LineStep(s, steps[0], attempts);
      LinesOnlyDegrade(t, steps[1..], attempts);
      var u := Run(t, steps[1..], attempts);
      DegradesTrans(s.forward, t.forward, u.forward, BadForward());
      DegradesTrans(s.backward, t.backward, u.backward, BadBackward());
    }
  }

  lemma LineStep(s: State, e: Step, attempts: nat)
    requires OnTheLine(e)
    ensures var t := Next(s, e, attempts);
            && t == s.(forward := t.forward, backward := t.backward)
            && Degrades(s.forward, t.forward, BadForward()) && Degrades(s.backward, t.backward, BadBackward())
  {
    DegradesSame(s.forward, BadForward());
    DegradesSame(s.backward, BadBackward());
    match e
    case LoseForward(i) => if i < |s.forward| { OneDegrades(s.forward, i, BadData, BadForward()); }
    case GarbleForward(i) => if i < |s.forward| { OneDegrades(s.forward, i, BadData, BadForward()); }
    case LoseBackward(i) => if i < |s.backward| { OneDegrades(s.backward, i, BadAnswer(0), BadBackward()); }
    case GarbleBackward(i, c) => if i < |s.backward| { OneDegrades(s.backward, i, BadAnswer(c), BadBackward()); }
    case _ =>
  }

  /** And they can degrade it in every way. */
  lemma {:induction false} ForwardReach(s: State, pre: seq<Data>, l: seq<Data>, t: seq<Data>, attempts: nat)
    returns (steps: seq<Step>)
    requires s.forward == pre + l && Degrades(l, t, BadForward())
    ensures (forall e :: e in steps ==> OnTheLine(e)) && Run(s, steps, attempts) == s.(forward := pre + t)
    decreases |l|
  {
    var n := |pre|;
    if l == [] {
      steps := [];
    } else if Degrades(l[1..], t, BadForward()) {
      assert Without(s.forward, n) == pre + l[1..];
      var more := ForwardReach(Next(s, LoseForward(n), attempts), pre, l[1..], t, attempts);
      steps := Chain(s, LoseForward(n), more, attempts);
    } else {
      assert pre + t == (pre + [t[0]]) + t[1..];
      if t[0] == l[0] {
        assert pre + l == (pre + [t[0]]) + l[1..];
        steps := ForwardReach(s, pre + [t[0]], l[1..], t[1..], attempts);
      } else {
        assert s.forward[n := BadData] == (pre + [t[0]]) + l[1..];
        var more := ForwardReach(Next(s, GarbleForward(n), attempts), pre + [t[0]], l[1..], t[1..], attempts);
        steps := Chain(s, GarbleForward(n), more, attempts);
      }
    }
  }

  lemma Chain(s: State, e: Step, more: seq<Step>, attempts: nat) returns (steps: seq<Step>)
    requires OnTheLine(e) && forall x :: x in more ==> OnTheLine(x)
    ensures (forall x :: x in steps ==> OnTheLine(x))
    ensures Run(s, steps, attempts) == Run(Next(s, e, attempts), more, attempts)
  {
    steps := [e] + more;
    assert steps[1..] == more;
  }

  lemma {:induction false} BackwardReach(s: State, pre: seq<Answer>, l: seq<Answer>, t: seq<Answer>, attempts: nat)
    returns (steps: seq<Step>)
    requires s.backward == pre + l && Degrades(l, t, BadBackward())
    ensures (forall e :: e in steps ==> OnTheLine(e)) && Run(s, steps, attempts) == s.(backward := pre + t)
    decreases |l|
  {
    var n := |pre|;
    if l == [] {
      steps := [];
    } else if Degrades(l[1..], t, BadBackward()) {
      assert Without(s.backward, n) == pre + l[1..];
      var more := BackwardReach(Next(s, LoseBackward(n), attempts), pre, l[1..], t, attempts);
      steps := Chain(s, LoseBackward(n), more, attempts);
    } else {
      assert pre + t == (pre + [t[0]]) + t[1..];
      if t[0] == l[0] {
        assert pre + l == (pre + [t[0]]) + l[1..];
        steps := BackwardReach(s, pre + [t[0]], l[1..], t[1..], attempts);
      } else {
        var e := GarbleBackward(n, t[0].control);
        assert s.backward[n := t[0]] == (pre + [t[0]]) + l[1..];
        var more := BackwardReach(Next(s, e, attempts), pre + [t[0]], l[1..], t[1..], attempts);
        steps := Chain(s, e, more, attempts);
      }
    }
  }

  /** The step system of the lines, exactly: the line steps lead from `s` to `t` if and only if both
      lines may have degraded so and nothing else has changed. */
  ghost predicate Leads(s: State, steps: seq<Step>, attempts: nat, t: State) {
    (forall e :: e in steps ==> OnTheLine(e)) && Run(s, steps, attempts) == t
  }

  lemma LinesDegradeIff(s: State, t: State, attempts: nat)
    ensures (exists steps :: Leads(s, steps, attempts, t)) <==>
            && t == s.(forward := t.forward, backward := t.backward)
            && Degrades(s.forward, t.forward, BadForward()) && Degrades(s.backward, t.backward, BadBackward())
  {
    if steps :| Leads(s, steps, attempts, t) {
      LinesOnlyDegrade(s, steps, attempts);
    }
    if t == s.(forward := t.forward, backward := t.backward)
       && Degrades(s.forward, t.forward, BadForward()) && Degrades(s.backward, t.backward, BadBackward()) {
      assert [] + s.forward == s.forward && [] + s.backward == s.backward;
      assert [] + t.forward == t.forward && [] + t.backward == t.backward;
      var first := ForwardReach(s, [], s.forward, t.forward, attempts);
      var u := s.(forward := t.forward);
      var second := BackwardReach(u, [], u.backward, t.backward, attempts);
      RunAppend(s, first, second, attempts);
      assert Leads(s, first + second, attempts, t);
    }
  }
}
