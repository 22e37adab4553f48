/** The stop-and-wait protocol over two lossy FIFO lines: transmitter_write on one side,
    receiver_read on the other, one parity bit on the wire. Frame numbers in the messages are
    bookkeeping for the statements below; no step looks at them. */
module StopAndWait {
  import opened Bits
  import opened Codes
  import opened Control
  import opened Retry

  type Payload = seq<Byte>

  datatype Data = Data(control: Byte, payload: Payload, number: nat) | BadData

  /** A reply; a garbled one parses as a bad frame and leaves a control byte behind. */
  datatype Answer = Answer(control: Byte, number: nat, accepted: bool) | BadAnswer(control: Byte)

  datatype Phase = Idle | Waiting(payload: Payload, left: nat) | GaveUp(payload: Payload)

  datatype State = State(
    tx: nat, completed: seq<Payload>, phase: Phase,
    rx: nat, accepted: seq<Payload>,
    forward: seq<Data>, backward: seq<Answer>,
    log: seq<Answer>)                              // every reply the receiver ever sent

  /** What may happen next; an event that is not enabled changes nothing. */
  datatype Step =
    | BeginWrite(payload: Payload)
    | Timeout                             // at any moment while a reply is awaited
    | PortFails                           // the transmitter cannot write or read: its write returns -1
    | TakeAnswer
    | ReceiverTakes
    | LoseForward(i: nat)
    | LoseBackward(i: nat)
    | GarbleForward(i: nat)
    | GarbleBackward(i: nat, control: Byte)

  const INITIAL: State := State(0, [], Idle, 0, [], [], [], [])

  function Without<T>(s: seq<T>, i: nat): seq<T>
    requires i < |s|
  {
    s[..i] + s[i + 1..]
  }

  /** The data frame transmitter_write sends for its current frame number. */
  function Copy(s: State, payload: Payload): Data {
    Data(ControlByte(s.tx), payload, s.tx)
  }

  /** The transmitter meets event `e` in a write of `payload`. */
  function Transmit(s: State, payload: Payload, left: nat, e: Event): State
    requires left > 0
  {
    match Decide(left, ReplyByte(s.tx, true), e)
    case Done => s.(tx := s.tx + 1, completed := s.completed + [payload], phase := Idle)
    case GiveUp => s.(phase := GaveUp(payload))
    case Resend(l) =>
      if l == 0 then s.(phase := GaveUp(payload))
      else s.(phase := Waiting(payload, l), forward := s.forward + [Copy(s, payload)])
  }

  function Heard(a: Answer): Event {
    if a.Answer? then Received(a.control) else Garbled(a.control)
  }

  /** The receiver meets data frame `d`: it accepts exactly the control byte it expects. */
  function Receive(s: State, d: Data): State {
    if d.Data? && d.control == ControlByte(s.rx) then
      var a := Answer(ReplyByte(s.rx, true), s.rx, true);
      s.(rx := s.rx + 1, accepted := s.accepted + [d.payload], backward := s.backward + [a], log := s.log + [a])
    else
      var a := Answer(ReplyByte(s.rx, false), s.rx, false);
      s.(backward := s.backward + [a], log := s.log + [a])
  }

  /** One step, for a transmitter that is allowed `attempts` attempts per write. */
  function Next(s: State, e: Step, attempts: nat): State {
    match e
    case BeginWrite(p) =>
      if !s.phase.Idle? then s
      else if attempts == 0 then s.(phase := GaveUp(p))
      else s.(phase := Waiting(p, attempts), forward := s.forward + [Copy(s, p)])
    case Timeout =>
      if s.phase.Waiting? && s.phase.left > 0 then Transmit(s, s.phase.payload, s.phase.left, TimedOut) else s
    case PortFails =>
      if s.phase.Waiting? && s.phase.left > 0 then Transmit(s, s.phase.payload, s.phase.left, ReceiveFails) else s
    case TakeAnswer =>
      if s.phase.Waiting? && s.phase.left > 0 && s.backward != [] then
        Transmit(s.(backward := s.backward[1..]), s.phase.payload, s.phase.left, Heard(s.backward[0]))
      else s
    case ReceiverTakes =>
      if s.forward != [] then Receive(s.(forward := s.forward[1..]), s.forward[0]) else s
    case LoseForward(i) => if i < |s.forward| then s.(forward := Without(s.forward, i)) else s
    case LoseBackward(i) => if i < |s.backward| then s.(backward := Without(s.backward, i)) else s
    case GarbleForward(i) => if i < |s.forward| then s.(forward := s.forward[i := BadData]) else s
    case GarbleBackward(i, c) => if i < |s.backward| then s.(backward := s.backward[i := BadAnswer(c)]) else s
  }

  /** The step ends the current write with success: the reply at hand carries the control byte of
      the expected RR; a bad frame only needs to leave this byte behind, but on the last attempt. */
  predicate Completes(s: State, e: Step) {
    && e.TakeAnswer? && s.phase.Waiting? && s.phase.left > 0 && s.backward != []
    && s.backward[0].control == ReplyByte(s.tx, true)
    && (s.backward[0].BadAnswer? ==> s.phase.left == 1)
  }

  /** The transmitter takes a bad frame for its RR. */
  predicate Misread(s: State, e: Step) {
    Completes(s, e) && s.backward[0].BadAnswer?
  }

  /** The write succeeds although the receiver has not accepted its frame: the reply is a bad
      frame, or the RR of an earlier frame of the same parity. */
  predicate Mistaken(s: State, e: Step) {
    Completes(s, e) && s.rx == s.tx
  }

  /** The transmitter, waiting for a reply, meets the events of `script` until its write is over. */
  function TransmitAll(s: State, script: seq<Event>): State
    decreases |script|
  {
    if script == [] || !s.phase.Waiting? || s.phase.left == 0 then s
    else TransmitAll(Transmit(s, s.phase.payload, s.phase.left, script[0]), script[1..])
  }

  /** The exchange ends because a copy cannot be written. */
  predicate Unsent(left: nat, expected: Byte, script: seq<Event>) {
    var x := Exchange(left, expected, script);
    var k := |script| - |x.rest|;
    0 < k <= |script| && script[k - 1].SendFails?
  }

  /** The steps of the transmitter are the exchange that transmitter_write was proved to be: same
      verdict, same copies on the line, and the frame number grows on success only. A copy that
      could not be written counts as one lost on the line. */
  lemma {:induction false} WriteIsExchange(s: State, script: seq<Event>)
    requires s.phase.Waiting? && s.phase.left > 0
    ensures var x := Exchange(s.phase.left, ReplyByte(s.tx, true), script);
            var t := TransmitAll(s, script);
            && (t.phase.Idle? <==> x.success)
            && (t.phase.GaveUp? || (t.phase.Waiting? && t.phase.left > 0) <==> !x.success)
            && t.tx == s.tx + (if x.success then 1 else 0)
            && t.completed == s.completed + (if x.success then [s.phase.payload] else [])
            && (!t.phase.Waiting? ==>
                  |t.forward| + 1 == |s.forward| + x.sends
                                     + if Unsent(s.phase.left, ReplyByte(s.tx, true), script) then 1 else 0)
            && (t.phase.Waiting? ==>
                  && t.phase.payload == s.phase.payload && t.phase.left == s.phase.left - Failures(script)
                  && |t.forward| == |s.forward| + |script|)
            && (forall i :: |s.forward| <= i < |t.forward| ==> t.forward[i] == Copy(s, s.phase.payload))
            && s.forward <= t.forward && |x.rest| <= |script|
    decreases |script|
  {
    if script != [] {
      var u := Transmit(s, s.phase.payload, s.phase.left, script[0]);
      if u.phase.Waiting? {
        WriteIsExchange(u, script[1..]);
        assert |u.forward| == |s.forward| + 1;
        UnsentLater(s.phase.left, ReplyByte(s.tx, true), script);
      }
    }
  }

  lemma UnsentLater(left: nat, expected: Byte, script: seq<Event>)
    requires left > 0 && script != [] && Decide(left, expected, script[0]).Resend?
    ensures var more := Decide(left, expected, script[0]).left;
            more > 0 ==> (Unsent(left, expected, script) <==> Unsent(more, expected, script[1..]))
  {
    var more := Decide(left, expected, script[0]).left;
    SendsBounded(more, expected, script[1..]);
    var k := |script| - |Exchange(more, expected, script[1..]).rest|;
    if k > 1 {
      assert script[k - 1] == script[1..][k - 2];
    }
  }

  // ---------------------------------------------------------------------------
  // Safety

  /** What was accepted is what was completed, in order, plus at most the write under way. */
  ghost predicate Safe(s: State) {
    && |s.completed| == s.tx && |s.accepted| == s.rx
    && s.tx <= s.rx <= s.tx + 1
    && (s.rx == s.tx ==> s.accepted == s.completed)
    && (s.rx == s.tx + 1 ==> !s.phase.Idle? && s.accepted == s.completed + [s.phase.payload])
  }

  ghost predicate ForwardOk(s: State) {
    && (forall i :: 0 <= i < |s.forward| && s.forward[i].Data? ==>
          var d := s.forward[i];
          && s.rx - 1 <= d.number <= s.tx && d.control == ControlByte(d.number)
          && (d.number == s.tx ==> !s.phase.Idle? && d.payload == s.phase.payload))
    && (forall i, j :: 0 <= i < j < |s.forward| && s.forward[i].Data? && s.forward[j].Data? ==>
          s.forward[i].number <= s.forward[j].number)
  }

  /** Only accepted frames have an RR on the line, perhaps a late one. */
  ghost predicate BackwardOk(s: State) {
    forall i :: 0 <= i < |s.backward| && s.backward[i].Answer? ==>
      var a := s.backward[i];
      a.control == ReplyByte(a.number, a.accepted) && (a.accepted ==> a.number < s.rx)
  }

  ghost predicate Inv(s: State) {
    Safe(s) && ForwardOk(s) && BackwardOk(s)
  }

  /** From an invariant state every step keeps the invariant, unless the transmitter is mistaken. */
  lemma StepKeepsInv(s: State, e: Step, attempts: nat)
    requires Inv(s) && !Mistaken(s, e)
    ensures Inv(Next(s, e, attempts))
  {
    match e
    case BeginWrite(p) => WritingKeepsInv(s, e, attempts);
    case Timeout => WritingKeepsInv(s, e, attempts);
    case PortFails => WritingKeepsInv(s, e, attempts);
    case TakeAnswer => TakeAnswerKeepsInv(s, attempts);
    case ReceiverTakes => ReceiverKeepsInv(s, attempts);
    case LoseForward(i) => ForwardLineKeepsInv(s, e, attempts);
    case GarbleForward(i) => ForwardLineKeepsInv(s, e, attempts);
    case LoseBackward(i) => BackwardLineKeepsInv(s, e, attempts);
    case GarbleBackward(i, c) => BackwardLineKeepsInv(s, e, attempts);
  }

  lemma WritingKeepsInv(s: State, e: Step, attempts: nat)
    requires Inv(s) && (e.BeginWrite? || e.Timeout? || e.PortFails?)
    ensures Inv(Next(s, e, attempts))
  {}

  lemma ForwardLineKeepsInv(s: State, e: Step, attempts: nat)
    requires Inv(s) && (e.LoseForward? || e.GarbleForward?)
    ensures Inv(Next(s, e, attempts))
  {}

  lemma BackwardLineKeepsInv(s: State, e: Step, attempts: nat)
    requires Inv(s) && (e.LoseBackward? || e.GarbleBackward?)
    ensures Inv(Next(s, e, attempts))
  {}

  lemma TakeAnswerKeepsInv(s: State, attempts: nat)
    requires Inv(s) && !Mistaken(s, TakeAnswer)
    ensures Inv(Next(s, TakeAnswer, attempts))
  {
    CompletesIff(s, attempts);
  }

  /** The write under way ends with success exactly in a step that completes. */
  lemma CompletesIff(s: State, attempts: nat)
    requires BackwardOk(s)
    ensures var t := Next(s, TakeAnswer, attempts);
            if Completes(s, TakeAnswer) then
              t == s.(backward := s.backward[1..], tx := s.tx + 1,
                      completed := s.completed + [s.phase.payload], phase := Idle)
            else t.tx == s.tx
  {
    if s.phase.Waiting? && s.phase.left > 0 && s.backward != [] {
      RepliesAreDistinct(s.tx, s.tx, true, true);
    }
  }

  lemma ReceiverKeepsInv(s: State, attempts: nat)
    requires Inv(s)
    ensures Inv(Next(s, ReceiverTakes, attempts))
  {
    if s.forward != [] && s.forward[0].Data? {
      ParityDecides(s, s.forward[0]);
    }
  }

  /** Although the wire carries only a parity, the receiver accepts exactly the frame number it
      is waiting for, and answers every copy of an earlier frame with a REJ. */
  lemma ParityDecides(s: State, d: Data)
    requires Inv(s) && d in s.forward && d.Data?
    ensures d.control == ControlByte(s.rx) <==> d.number == s.rx
    ensures d.number == s.rx ==> s.rx == s.tx && !s.phase.Idle? && d.payload == s.phase.payload
    ensures d.number != s.rx ==> d.number < s.rx && Receive(s, d).accepted == s.accepted
                                 && IsReject(Receive(s, d).backward[|s.backward|].control)
  {
    RepliesAreDistinct(d.number, s.rx, false, false);
    var i :| 0 <= i < |s.forward| && s.forward[i] == d;
  }

  /** From an invariant state the steps that break safety are the mistaken ones. */
  lemma UnsafeIff(s: State, e: Step, attempts: nat)
    requires Inv(s)
    ensures Safe(Next(s, e, attempts)) <==> !Mistaken(s, e)
  {
    if Mistaken(s, e) {
      CompletesIff(s, attempts);
    } else {
      StepKeepsInv(s, e, attempts);
    }
  }

  function Run(s: State, steps: seq<Step>, attempts: nat): State
    decreases |steps|
  {
    if steps == [] then s else Run(Next(s, steps[0], attempts), steps[1..], attempts)
  }

  /** Every state of the run has the property, the first and the last one included. */
  ghost predicate Always(p: State -> bool, s: State, steps: seq<Step>, attempts: nat)
    decreases |steps|
  {
    p(s) && (steps == [] || Always(p, Next(s, steps[0], attempts), steps[1..], attempts))
  }

  /** No step of the run is of the kind. */
  ghost predicate Never(kind: (State, Step) -> bool, s: State, steps: seq<Step>, attempts: nat)
    decreases |steps|
  {
    steps == []
    || (!kind(s, steps[0]) && Never(kind, Next(s, steps[0], attempts), steps[1..], attempts))
  }

  /** Stop-and-wait safety, with its exact condition: every state of a run is safe if and only if
      the transmitter is never mistaken in it. */
  lemma SafetyIff(steps: seq<Step>, attempts: nat)
    ensures Always(Safe, INITIAL, steps, attempts) <==> Never(Mistaken, INITIAL, steps, attempts)
    ensures Never(Mistaken, INITIAL, steps, attempts) ==> Inv(Run(INITIAL, steps, attempts))
  {
    SafetyFrom(INITIAL, steps, attempts);
  }

  lemma {:induction false} SafetyFrom(s: State, steps: seq<Step>, attempts: nat)
    requires Inv(s)
    ensures Always(Safe, s, steps, attempts) <==> Never(Mistaken, s, steps, attempts)
    ensures Never(Mistaken, s, steps, attempts) ==> Inv(Run(s, steps, attempts))
    decreases |steps|
  {
    if steps != [] {
      var t := Next(s, steps[0], attempts);
      UnsafeIff(s, steps[0], attempts);
      if !Mistaken(s, steps[0]) {
        StepKeepsInv(s, steps[0], attempts);
        SafetyFrom(t, steps[1..], attempts);
      } else {
        assert !Always(Safe, t, steps[1..], attempts);
      }
    }
  }

  lemma {:induction false} RunAppend(s: State, a: seq<Step>, b: seq<Step>, attempts: nat)
    ensures Run(s, a + b, attempts) == Run(Run(s, a, attempts), b, attempts)
    decreases |a|
  {
    if a == [] {
      assert a + b == b;
    } else {
      assert (a + b)[1..] == a[1..] + b;
      RunAppend(Next(s, a[0], attempts), a[1..], b, attempts);
    }
  }

  lemma RunSnoc(s: State, steps: seq<Step>, e: Step, attempts: nat) returns (all: seq<Step>)
    ensures all == steps + [e] && Run(s, all, attempts) == Next(Run(s, steps, attempts), e, attempts)
  {
    all := steps + [e];
    RunAppend(s, steps, [e], attempts);
    assert [e][1..] == [];
  }

  // ---------------------------------------------------------------------------
  // Acknowledgements

  /** The frame numbers of the RRs in a list of replies. */
  function Acks(log: seq<Answer>): seq<nat> {
    if log == [] then []
    else (if log[0].Answer? && log[0].accepted then [log[0].number] else []) + Acks(log[1..])
  }

  lemma {:induction false} AcksSnoc(log: seq<Answer>, a: Answer)
    ensures Acks(log + [a]) == Acks(log) + (if a.Answer? && a.accepted then [a.number] else [])
  {
    if log == [] {
      assert log + [a] == [a] && [a][1..] == [];
    } else {
      assert (log + [a])[1..] == log[1..] + [a];
      AcksSnoc(log[1..], a);
    }
  }

  function Upto(n: nat): seq<nat> {
    seq(n, i => i)
  }

  /** RR uniqueness: over every run, misreads included, the receiver has sent the RRs of
      0, 1, .., rx-1, each exactly once and in this order. */
  lemma {:induction false} EachAckOnce(s: State, steps: seq<Step>, attempts: nat)
    requires Acks(s.log) == Upto(s.rx)
    ensures var t := Run(s, steps, attempts);
            Acks(t.log) == Upto(t.rx)
    decreases |steps|
  {
    if steps != [] {
      var t := Next(s, steps[0], attempts);
      if steps[0].ReceiverTakes? && s.forward != [] {
        AcksSnoc(s.log, t.log[|s.log|]);
        assert Upto(s.rx + 1) == Upto(s.rx) + [s.rx];
      }
      EachAckOnce(t, steps[1..], attempts);
    }
  }

  ghost predicate IsAck(a: Answer) {
    a.Answer? && a.accepted
  }

  /** At most one RR is in flight, and it is for the transmitter's current frame. */
  ghost predicate OneAck(s: State) {
    && (forall i :: 0 <= i < |s.backward| && IsAck(s.backward[i]) ==>
          s.backward[i].number == s.tx && s.rx == s.tx + 1)
    && (forall i, j :: 0 <= i < j < |s.backward| ==> !(IsAck(s.backward[i]) && IsAck(s.backward[j])))
  }

  /** The step ends the write and leaves its RR behind on the line. */
  ghost predicate Overtakes(s: State, e: Step) {
    Completes(s, e) && exists i :: 0 < i < |s.backward| && IsAck(s.backward[i])
  }

  lemma OneAckStep(s: State, e: Step, attempts: nat)
    requires Inv(s) && OneAck(s) && !Mistaken(s, e)
    ensures OneAck(Next(s, e, attempts)) <==> !Overtakes(s, e)
  {
    var t := Next(s, e, attempts);
    match e
    case TakeAnswer => OneAckTaken(s, attempts);
    case ReceiverTakes =>
      if s.forward != [] && s.forward[0].Data? {
        ParityDecides(s, s.forward[0]);
      }
    case BeginWrite(p) =>
    case Timeout =>
    case PortFails =>
    case LoseForward(i) =>
    case GarbleForward(i) =>
    case LoseBackward(i) =>
    case GarbleBackward(i, c) =>
  }

  lemma OneAckTaken(s: State, attempts: nat)
    requires Inv(s) && OneAck(s) && !Mistaken(s, TakeAnswer)
    ensures OneAck(Next(s, TakeAnswer, attempts)) <==> !Overtakes(s, TakeAnswer)
  {
    CompletesIff(s, attempts);
    var t := Next(s, TakeAnswer, attempts);
    if s.backward != [] && t.backward == s.backward[1..] {
      assert forall i :: 0 <= i < |t.backward| ==> t.backward[i] == s.backward[i + 1];
      assert forall i :: 0 < i < |s.backward| ==> s.backward[i] == t.backward[i - 1];
    }
  }

  /** At most one RR is ever in flight, and for the current frame, if and only if no misread
      leaves an RR behind; in particular when nothing is misread. */
  lemma OneAckIff(steps: seq<Step>, attempts: nat)
    requires Never(Mistaken, INITIAL, steps, attempts)
    ensures Always(OneAck, INITIAL, steps, attempts) <==> Never(Overtakes, INITIAL, steps, attempts)
  {
    OneAckFrom(INITIAL, steps, attempts);
  }

  lemma {:induction false} OneAckFrom(s: State, steps: seq<Step>, attempts: nat)
    requires Inv(s) && OneAck(s) && Never(Mistaken, s, steps, attempts)
    ensures Always(OneAck, s, steps, attempts) <==> Never(Overtakes, s, steps, attempts)
    decreases |steps|
  {
    if steps != [] {
      var t := Next(s, steps[0], attempts);
      OneAckStep(s, steps[0], attempts);
      StepKeepsInv(s, steps[0], attempts);
      if OneAck(t) {
        OneAckFrom(t, steps[1..], attempts);
      } else {
        assert !Always(OneAck, t, steps[1..], attempts);
      }
    }
  }

  /** Without a misread the transmitter is never mistaken and never overtakes an RR: a run in
      which corruption only ever shows as a bad frame is safe, with at most one RR in flight. */
  lemma {:induction false} NoMisreadSuffices(s: State, steps: seq<Step>, attempts: nat)
    requires Inv(s) && OneAck(s) && Never(Misread, s, steps, attempts)
    ensures Always(Safe, s, steps, attempts) && Always(OneAck, s, steps, attempts)
    decreases |steps|
  {
    if steps != [] {
      var e := steps[0];
      if Completes(s, e) {
        var a := s.backward[0];
        RepliesAreDistinct(a.number, s.tx, a.accepted, true);
        assert IsAck(a);
      }
      StepKeepsInv(s, e, attempts);
      OneAckStep(s, e, attempts);
      NoMisreadSuffices(Next(s, e, attempts), steps[1..], attempts);
    }
  }

  /** The receiver has accepted the current frame, but nothing on the line reads as its RR. */
  ghost predicate AckLost(s: State) {
    s.rx == s.tx + 1
    && forall i :: 0 <= i < |s.backward| && s.backward[i].Answer? ==>
         s.backward[i].control != ReplyByte(s.tx, true)
  }

  /** Losing the only RR of a frame leads there. */
  lemma AckGetsLost(p: Payload, attempts: nat) returns (steps: seq<Step>)
    requires attempts > 0
    ensures var s := Run(INITIAL, steps, attempts);
            AckLost(s) && Inv(s) && s.phase == Waiting(p, attempts)
    ensures Never(Misread, INITIAL, steps, attempts)
  {
    steps := [BeginWrite(p), ReceiverTakes, LoseBackward(0)];
    var s1 := Next(INITIAL, BeginWrite(p), attempts);
    var s2 := Next(s1, ReceiverTakes, attempts);
    var s3 := Next(s2, LoseBackward(0), attempts);
    assert steps[1..] == [ReceiverTakes, LoseBackward(0)];
    assert steps[1..][1..] == [LoseBackward(0)];
    assert steps[1..][1..][1..] == [];
    assert Run(s2, [LoseBackward(0)], attempts) == s3;
    assert Run(s1, steps[1..], attempts) == s3;
    assert Never(Misread, s2, [LoseBackward(0)], attempts);
    assert Never(Misread, s1, steps[1..], attempts);
    StepKeepsInv(INITIAL, BeginWrite(p), attempts);
    StepKeepsInv(s1, ReceiverTakes, attempts);
    StepKeepsInv(s2, LoseBackward(0), attempts);
  }

  lemma {:induction false} TxGrows(s: State, steps: seq<Step>, attempts: nat)
    ensures Run(s, steps, attempts).tx >= s.tx
    decreases |steps|
  {
    if steps != [] {
      TxGrows(Next(s, steps[0], attempts), steps[1..], attempts);
    }
  }

  /** An RR that is lost once is lost for good: every retransmission is answered with a REJ, so
      the write completes in exactly the runs with a misread, and until then nothing is accepted. */
  lemma {:induction false} LostAckIsFatal(s: State, steps: seq<Step>, attempts: nat)
    requires Inv(s) && AckLost(s)
    ensures var t := Run(s, steps, attempts);
            && (t.tx == s.tx <==> Never(Misread, s, steps, attempts))
            && (t.tx == s.tx ==> AckLost(t) && t.rx == s.rx && t.accepted == s.accepted
                                 && !t.phase.Idle? && t.phase.payload == s.phase.payload)
    decreases |steps|
  {
    if steps != [] {
      var t := Next(s, steps[0], attempts);
      if Misread(s, steps[0]) {
        CompletesIff(s, attempts);
        TxGrows(t, steps[1..], attempts);
      } else {
        StepKeepsInv(s, steps[0], attempts);
        LostAckStep(s, steps[0], attempts);
        LostAckIsFatal(t, steps[1..], attempts);
      }
    }
  }

  lemma LostAckStep(s: State, e: Step, attempts: nat)
    requires Inv(s) && AckLost(s) && !Misread(s, e)
    ensures var t := Next(s, e, attempts);
            && AckLost(t) && t.tx == s.tx && t.rx == s.rx && t.accepted == s.accepted
            && !t.phase.Idle? && t.phase.payload == s.phase.payload
  {
    if e.TakeAnswer? {
      CompletesIff(s, attempts);
    }
    if e.ReceiverTakes? && s.forward != [] {
      RepliesAreDistinct(s.rx, s.tx, false, true);
      if s.forward[0].Data? {
        ParityDecides(s, s.forward[0]);
      }
    }
  }

  /** A run without a misread that completes the write under way. */
  ghost predicate Finishes(s: State, steps: seq<Step>, attempts: nat) {
    Never(Misread, s, steps, attempts) && Run(s, steps, attempts).tx > s.tx
  }

  /** A write whose frame was accepted can still complete without a misread if and only if a
      reply that reads as its RR is on the line. */
  lemma RecoverableIff(s: State, attempts: nat)
    requires Inv(s) && s.rx == s.tx + 1 && s.phase.Waiting? && s.phase.left > 0
    ensures (exists steps :: Finishes(s, steps, attempts)) <==> !AckLost(s)
  {
    if AckLost(s) {
      forall steps ensures !Finishes(s, steps, attempts) {
        LostAckIsFatal(s, steps, attempts);
      }
    } else {
      var steps := Finish(s, attempts);
    }
  }

  /** Drop every reply in front of the RR, then take it. */
  lemma {:induction false} Finish(s: State, attempts: nat) returns (steps: seq<Step>)
    requires s.rx == s.tx + 1 && !AckLost(s) && s.phase.Waiting? && s.phase.left > 0
    ensures Finishes(s, steps, attempts)
    decreases |s.backward|
  {
    var a := s.backward[0];
    var e := if a.Answer? && a.control == ReplyByte(s.tx, true) then TakeAnswer else LoseBackward(0);
    var t := Next(s, e, attempts);
    if e.TakeAnswer? {
      RepliesAreDistinct(s.tx, s.tx, true, true);
      steps := [e];
      assert steps[1..] == [];
    } else {
      assert t.backward == s.backward[1..];
      assert !AckLost(t) by {
        var i :| 0 <= i < |s.backward| && s.backward[i].Answer? && s.backward[i].control == ReplyByte(s.tx, true);
        assert t.backward[i - 1] == s.backward[i];
      }
      var more := Finish(t, attempts);
      steps := [e] + more;
      assert steps[1..] == more;
    }
  }

  // ---------------------------------------------------------------------------
  // The two kinds of mistake happen

  lemma {:induction false} AlwaysSafeSnoc(s: State, steps: seq<Step>, e: Step, attempts: nat)
    requires Always(Safe, s, steps, attempts) && Safe(Next(Run(s, steps, attempts), e, attempts))
    ensures Always(Safe, s, steps + [e], attempts)
    decreases |steps|
  {
    var all := steps + [e];
    if steps == [] {
      assert all == [e] && [e][1..] == [];
    } else {
      assert all[0] == steps[0] && all[1..] == steps[1..] + [e];
      AlwaysSafeSnoc(Next(s, steps[0], attempts), steps[1..], e, attempts);
    }
  }

  /** One more step of a safe run from the initial state. */
  lemma Extend(steps: seq<Step>, s: State, e: Step) returns (all: seq<Step>, t: State)
    requires s == Run(INITIAL, steps, 3) && Always(Safe, INITIAL, steps, 3) && Safe(Next(s, e, 3))
    ensures all == steps + [e] && t == Next(s, e, 3)
    ensures t == Run(INITIAL, all, 3) && Always(Safe, INITIAL, all, 3)
  {
    all := RunSnoc(INITIAL, steps, e, 3);
    t := Next(s, e, 3);
    AlwaysSafeSnoc(INITIAL, steps, e, 3);
  }

  /** A first frame, sent three times, whose first two copies are garbled. */
  lemma TwoGarbledCopies(p: Payload) returns (steps: seq<Step>, s: State)
    ensures s == Run(INITIAL, steps, 3) && Always(Safe, INITIAL, steps, 3)
    ensures s == INITIAL.(phase := Waiting(p, 1), forward := [BadData, BadData, Data(ControlByte(0), p, 0)])
  {
    steps, s := Extend([], INITIAL, BeginWrite(p));
    steps, s := Extend(steps, s, Step.Timeout);
    steps, s := Extend(steps, s, Step.Timeout);
    steps, s := Extend(steps, s, GarbleForward(0));
    steps, s := Extend(steps, s, GarbleForward(1));
  }

  /** The first kind of mistake: a run of three attempts per write, safe throughout, in which no
      copy has been accepted yet and the bad frame in place of the REJ leaves the byte of the RR
      behind, which on the last attempt passes for it. */
  lemma MisreadRun(p: Payload) returns (steps: seq<Step>)
    ensures Always(Safe, INITIAL, steps, 3)
    ensures var s := Run(INITIAL, steps, 3);
            Misread(s, TakeAnswer) && Mistaken(s, TakeAnswer) && !Safe(Next(s, TakeAnswer, 3))
  {
    var s;
    steps, s := TwoGarbledCopies(p);
    steps, s := Extend(steps, s, ReceiverTakes);
    steps, s := Extend(steps, s, GarbleBackward(0, ReplyByte(0, true)));
    CompletesIff(s, 3);
  }

  /** It is accepted on the third copy. */
  lemma ThreeReplies(p: Payload) returns (steps: seq<Step>, s: State)
    ensures s == Run(INITIAL, steps, 3) && Always(Safe, INITIAL, steps, 3)
    ensures s.tx == 0 && s.completed == [] && s.phase == Waiting(p, 1) && s.rx == 1 && s.accepted == [p]
    ensures s.forward == [] && |s.backward| == 3 && s.backward[2] == Answer(ReplyByte(0, true), 0, true)
  {
    steps, s := TwoGarbledCopies(p);
    steps, s := Extend(steps, s, ReceiverTakes);
    steps, s := Extend(steps, s, ReceiverTakes);
    steps, s := Extend(steps, s, ReceiverTakes);
  }

  /** The bad frames in place of the other replies leave the RR bytes of frames 0 and 1 behind. */
  lemma BehindTwoGarbledReplies(p: Payload) returns (steps: seq<Step>, s: State)
    ensures s == Run(INITIAL, steps, 3) && Always(Safe, INITIAL, steps, 3)
    ensures s.tx == 0 && s.completed == [] && s.phase == Waiting(p, 1) && s.rx == 1 && s.accepted == [p]
    ensures s.forward == []
    ensures s.backward == [BadAnswer(ReplyByte(0, true)), BadAnswer(ReplyByte(1, true)),
                           Answer(ReplyByte(0, true), 0, true)]
  {
    steps, s := ThreeReplies(p);
    steps, s := Extend(steps, s, GarbleBackward(0, ReplyByte(0, true)));
    steps, s := Extend(steps, s, GarbleBackward(1, ReplyByte(1, true)));
  }

  /** A first misread does no harm by itself; the second frame is sent three times. */
  lemma SecondFrameSent(p: Payload, q: Payload) returns (steps: seq<Step>, s: State)
    ensures s == Run(INITIAL, steps, 3) && Always(Safe, INITIAL, steps, 3)
    ensures s.tx == 1 && s.completed == [p] && s.phase == Waiting(q, 1) && s.rx == 1 && s.accepted == [p]
    ensures s.forward != [] && s.forward[0] == Data(ControlByte(1), q, 1)
    ensures s.backward == [BadAnswer(ReplyByte(1, true)), Answer(ReplyByte(0, true), 0, true)]
  {
    steps, s := BehindTwoGarbledReplies(p);
    steps, s := Extend(steps, s, TakeAnswer);
    steps, s := Extend(steps, s, BeginWrite(q));
    steps, s := Extend(steps, s, Step.Timeout);
    steps, s := Extend(steps, s, Step.Timeout);
  }

  /** From there a second misread leaves both RRs on the line. */
  lemma TwoHarmlessMisreads(p: Payload, q: Payload) returns (steps: seq<Step>, s: State)
    ensures s == Run(INITIAL, steps, 3) && Always(Safe, INITIAL, steps, 3)
    ensures s.tx == 2 && s.completed == [p, q] && s.phase == Idle && s.rx == 2 && s.accepted == [p, q]
    ensures s.backward == [Answer(ReplyByte(0, true), 0, true), Answer(ReplyByte(1, true), 1, true)]
  {
    steps, s := SecondFrameSent(p, q);
    steps, s := Extend(steps, s, ReceiverTakes);
    steps, s := Extend(steps, s, TakeAnswer);
  }

  /** The second kind of mistake: a run of three attempts per write, safe throughout, at whose end
      two RRs are in flight and the genuine RR of frame 0 passes for that of frame 2, which the
      receiver has not accepted. */
  lemma StaleAckRun() returns (steps: seq<Step>)
    ensures Always(Safe, INITIAL, steps, 3)
    ensures var s := Run(INITIAL, steps, 3);
            && s.backward == [Answer(ReplyByte(0, true), 0, true), Answer(ReplyByte(1, true), 1, true)]
            && !OneAck(s) && Mistaken(s, TakeAnswer) && !Misread(s, TakeAnswer)
            && !Safe(Next(s, TakeAnswer, 3))
  {
    var p, q, r: Payload := [0], [1], [2];
    var s;
    steps, s := TwoHarmlessMisreads(p, q);
    steps, s := Extend(steps, s, BeginWrite(r));
    assert IsAck(s.backward[0]) && IsAck(s.backward[1]);
    RepliesAreDistinct(0, 2, true, true);
    CompletesIff(s, 3);
  }
}
