/** The AT engine as a concurrent system: any number of Send and SendPDU callers, the reader loop, time-outs
    and cancellations. The steps are the sections that a lock protects and the single channel and port
    operations between them (internal/modem/at/engine.go). */
module AtEngine {
  import opened Octets
  import opened AtLines
  import opened Text

  // ---------------------------------------------------------------- the state

  datatype CallKind = SendCmd(text: string) | SendPdu

  function CommandOf(kind: CallKind): string { if kind.SendPdu? then "AT+CMGS" else kind.text }

  /** Where a caller is. `Wait` is the select of Send; `Prompting`, `Settling`, `Paying` and `Finishing` are the
      stages of SendPDU; `Leaving` clears the flight, `Unlocking` releases the command lock. */
  datatype Stage = Queued | Locked | Writing | Wait | Prompting | Settling | Paying | Finishing | Leaving | Unlocking | Done

  /** One call: its response object, its response channel (capacity 1, holding references to response
      objects), its prompt channel (capacity 1), and for the books how often it was answered, whether a
      prompt was signalled to it and how often it wrote its payload. */
  datatype Call = Call(kind: CallKind, stage: Stage, resp: Response, chan: seq<nat>, promptBuf: nat,
                       answers: nat, signalled: bool, payloads: nat)

  /** The reader holds the prompt channel it read under the lock until it has signalled it. */
  datatype Reader = Reading | Signalling(ch: Option<nat>)

  /** `sent` keeps, for the books, what went into the channels, in order. */
  datatype Engine = Engine(calls: seq<Call>, cmdMu: Option<nat>, inFlight: Option<nat>, currentResp: Option<nat>,
                           activeCmd: string, promptChan: Option<nat>, urcs: seq<string>, reader: Reader,
                           sent: seq<(nat, Response)>)

  datatype Action =
    | Enter(kind: CallKind)      // a new caller
    | Lock(c: nat)               // cmdMu.Lock
    | Register(c: nat)           // the registration under respMu
    | Write(c: nat, ok: bool)    // the first write to the port
    | Receive(c: nat)            // a response is taken from the channel
    | TakePrompt(c: nat)
    | Elapse(c: nat)             // the settling delay is over
    | Pay(c: nat, ok: bool)      // the payload is written
    | GiveUp(c: nat)             // time-out or cancellation
    | Clear(c: nat)              // clearInFlight
    | Unlock(c: nat)
    | ReadLine(line: string)     // processLine
    | ReadPrompt                 // the reader picks up the prompt channel
    | SignalPrompt               // and signals it without blocking
    | TakeUrc

  const NEW_RESPONSE := Response([], false, false)

  // ---------------------------------------------------------------- the steps

  predicate At(s: Engine, c: nat, stage: Stage) { c < |s.calls| && s.calls[c].stage == stage }

  predicate Waiting(s: Engine, c: nat) { At(s, c, Wait) || At(s, c, Prompting) || At(s, c, Finishing) }

  function Go(s: Engine, c: nat, stage: Stage): Engine
    requires c < |s.calls|
  {
    s.(calls := s.calls[c := s.calls[c].(stage := stage)])
  }

  /** Would the line make the reader send on a channel that is full? It would then block with the lock held. */
  predicate Blocks(s: Engine, line: string) {
    && s.inFlight.Some? && s.inFlight.value < |s.calls|
    && Final(Classify(s.activeCmd, line))
    && |s.calls[s.inFlight.value].chan| >= 1
  }

  predicate Enabled(s: Engine, a: Action) {
    match a
    case Enter(_) => true
    case Lock(c) => At(s, c, Queued) && s.cmdMu.None?
    case Register(c) => At(s, c, Locked)
    case Write(c, _) => At(s, c, Writing)
    case Receive(c) => Waiting(s, c) && s.calls[c].chan != []
    case TakePrompt(c) => At(s, c, Prompting) && s.calls[c].promptBuf > 0
    case Elapse(c) => At(s, c, Settling)
    case Pay(c, _) => At(s, c, Paying)
    case GiveUp(c) => Waiting(s, c) || At(s, c, Settling)
    case Clear(c) => At(s, c, Leaving)
    case Unlock(c) => At(s, c, Unlocking)
    case ReadLine(line) => s.reader == Reading && !Blocks(s, line)
    case ReadPrompt => s.reader == Reading
    case SignalPrompt => s.reader.Signalling?
    case TakeUrc => s.urcs != []
  }

  function Registered(s: Engine, c: nat): Engine
    requires c < |s.calls|
  {
    var call := s.calls[c];
    s.(calls := s.calls[c := call.(stage := Writing, resp := NEW_RESPONSE)], inFlight := Some(c), currentResp := Some(c),
       activeCmd := CommandOf(call.kind), promptChan := if call.kind.SendPdu? then Some(c) else s.promptChan)
  }

  /** Put a response object into the channel of the command in flight and end the flight. */
  function Answered(s: Engine, resp: Response): Engine
    requires s.inFlight.Some? && s.inFlight.value < |s.calls|
    requires s.currentResp.Some? && s.currentResp.value < |s.calls|
  {
    var o, c := s.currentResp.value, s.inFlight.value;
    var calls := s.calls[o := s.calls[o].(resp := resp)];
    s.(calls := calls[c := calls[c].(chan := calls[c].chan + [o], answers := calls[c].answers + 1)], inFlight := None,
       sent := s.sent + [(c, resp)])
  }

  function LineRead(s: Engine, line: string): Engine {
    if s.inFlight.None? then s.(urcs := Push(s.urcs, line))
    else if s.currentResp.None? || s.currentResp.value >= |s.calls| || s.inFlight.value >= |s.calls| then s
    else
      var o := s.currentResp.value;
      var resp := s.calls[o].resp;
      match Classify(s.activeCmd, line)
      case Echo => s
      case Urc => s.(urcs := Push(s.urcs, line))
      case Data => s.(calls := s.calls[o := s.calls[o].(resp := resp.(lines := resp.lines + [line]))])
      case Success => Answered(s, resp.(ok := true))
      case Failure => Answered(s, resp.(error := true, lines := resp.lines + [line]))
  }

  function Do(s: Engine, a: Action): Engine
    requires Enabled(s, a)
  {
    match a
    case Enter(kind) => s.(calls := s.calls + [Call(kind, Queued, NEW_RESPONSE, [], 0, 0, false, 0)])
    case Lock(c) => Go(s, c, Locked).(cmdMu := Some(c))
    case Register(c) => Registered(s, c)
    case Write(c, ok) => Go(s, c, if !ok then Leaving else if s.calls[c].kind.SendPdu? then Prompting else Wait)
    case Receive(c) =>
      var call := s.calls[c];
      s.(calls := s.calls[c := call.(chan := call.chan[1..], stage := if call.kind.SendPdu? then Leaving else Unlocking)])
    case TakePrompt(c) =>
      var call := s.calls[c];
      s.(calls := s.calls[c := call.(promptBuf := call.promptBuf - 1, stage := Settling)])
    case Elapse(c) => Go(s, c, Paying)
    case Pay(c, ok) =>
      var call := s.calls[c];
      s.(calls := s.calls[c := call.(payloads := call.payloads + 1, stage := if ok then Finishing else Leaving)])
    case GiveUp(c) => Go(s, c, Leaving)
    case Clear(c) => Go(s, c, Unlocking).(inFlight := None, currentResp := None, activeCmd := "", promptChan := None)
    case Unlock(c) => Go(s, c, Done).(cmdMu := None)
    case ReadLine(line) => LineRead(s, line)
    case ReadPrompt => s.(reader := Signalling(s.promptChan))
    case SignalPrompt =>
      var ch := s.reader.ch;
      if ch.Some? && ch.value < |s.calls| && s.calls[ch.value].promptBuf == 0
      then s.(calls := s.calls[ch.value := s.calls[ch.value].(promptBuf := 1, signalled := true)], reader := Reading)
      else s.(reader := Reading)
    case TakeUrc => s.(urcs := s.urcs[1..])
  }

  // ---------------------------------------------------------------- what every step keeps

  predicate Early(stage: Stage) { stage == Queued || stage == Locked }

  /** Registered and not yet cleared. */
  predicate InCall(stage: Stage) {
    stage == Writing || stage == Wait || stage == Prompting || stage == Settling || stage == Paying || stage == Finishing
    || stage == Leaving
  }

  predicate HoldsLock(stage: Stage) { stage == Locked || InCall(stage) || stage == Unlocking }

  ghost predicate CallInv(s: Engine, c: nat)
    requires c < |s.calls|
  {
    var call := s.calls[c];
    && (HoldsLock(call.stage) <==> s.cmdMu == Some(c))
    && |call.chan| <= call.answers <= 1 && (call.chan != [] ==> call.chan[0] == c)
    && (Early(call.stage) ==> call.answers == 0 && call.payloads == 0 && !call.signalled)
    && (s.inFlight == Some(c) ==> InCall(call.stage) && call.answers == 0 && s.currentResp == Some(c))
    && (s.promptChan == Some(c) ==> InCall(call.stage) && call.kind.SendPdu?)
    && call.promptBuf <= 1 && (call.promptBuf > 0 ==> call.signalled)
    && call.payloads <= 1 && (call.payloads > 0 ==> call.signalled)
    && (call.stage == Settling || call.stage == Paying ==> call.signalled && call.payloads == 0)
    && (call.stage == Writing || call.stage == Wait || call.stage == Prompting ==> call.payloads == 0)
    && (call.stage == Finishing ==> call.signalled)
    && (s.reader == Signalling(Some(c)) ==> !Early(call.stage))
  }

  ghost predicate Inv(s: Engine) {
    && (forall c: nat :: c < |s.calls| ==> CallInv(s, c))
    && (s.cmdMu.Some? ==> s.cmdMu.value < |s.calls|)
    && (s.inFlight.Some? ==> s.inFlight.value < |s.calls|)
    && (s.currentResp.Some? ==> s.currentResp.value < |s.calls|)
    && (s.promptChan.Some? ==> s.promptChan.value < |s.calls|)
    && (s.reader.Signalling? && s.reader.ch.Some? ==> s.reader.ch.value < |s.calls|)
    && |s.urcs| <= URC_CAPACITY
  }

  const START := Engine([], None, None, None, "", None, [], Reading, [])

  /** A line touches the command in flight only, whose response object is the current one. */
  lemma LineCalls(s: Engine, line: string)
    requires Inv(s) && s.inFlight.Some?
    ensures var c, s' := s.inFlight.value, LineRead(s, line);
            && s.currentResp == Some(c) && |s'.calls| == |s.calls|
            && (forall d: nat :: d < |s.calls| && d != c ==> s'.calls[d] == s.calls[d])
            && (Final(Classify(s.activeCmd, line)) ==>
                  && s'.inFlight == None
                  && s'.calls[c] == s.calls[c].(resp := s'.calls[c].resp, chan := s.calls[c].chan + [c], answers := s.calls[c].answers + 1))
            && (!Final(Classify(s.activeCmd, line)) ==>
                  && s'.inFlight == s.inFlight
                  && s'.calls[c] == s.calls[c].(resp := s'.calls[c].resp))
            && s'.(calls := s.calls, inFlight := s.inFlight, urcs := s.urcs, sent := s.sent) == s
  {
    hide Classify;
    var c := s.inFlight.value;
    assert CallInv(s, c);
    var resp := s.calls[c].resp;
    var s' := LineRead(s, line);
    match Classify(s.activeCmd, line)
    case Echo =>
    case Urc =>
    case Data =>
    case Success =>
    case Failure =>
  }

  lemma LineKeepsInv(s: Engine, line: string)
    requires Inv(s)
    ensures Inv(LineRead(s, line))
  {
    hide Classify, LineRead, Push;
    var s' := LineRead(s, line);
    if s.inFlight.Some? {
      LineCalls(s, line);
      LineUrcs(s, line);
      assert CallInv(s, s.inFlight.value);
      forall c: nat | c < |s'.calls| ensures CallInv(s', c) { assert CallInv(s, c); }
    } else {
      LineIdle(s, line);
      forall c: nat | c < |s'.calls| ensures CallInv(s', c) { assert CallInv(s, c); }
    }
  }

  lemma LineUrcs(s: Engine, line: string)
    ensures |s.urcs| <= URC_CAPACITY ==> |LineRead(s, line).urcs| <= URC_CAPACITY
  {
    hide Classify;
  }

  lemma LineIdle(s: Engine, line: string)
    requires s.inFlight.None?
    ensures LineRead(s, line) == s.(urcs := Push(s.urcs, line))
  {
  }

  /** The caller that takes an action, if it is one of a caller. */
  function Actor(a: Action): Option<nat> {
    match a
    case Lock(c) => Some(c) case Register(c) => Some(c) case Write(c, _) => Some(c) case Receive(c) => Some(c)
    case TakePrompt(c) => Some(c) case Elapse(c) => Some(c) case Pay(c, _) => Some(c) case GiveUp(c) => Some(c)
    case Clear(c) => Some(c) case Unlock(c) => Some(c)
    case _ => None
  }

  lemma ActorKeepsInv(s: Engine, a: Action, c: nat)
    requires Inv(s) && Enabled(s, a) && Actor(a) == Some(c)
    ensures CallInv(Do(s, a), c)
  {
    hide Classify, LineRead, Inv;
    assert CallInv(s, c) by { CallsAreGood(s, c); }
  }

  lemma CallsAreGood(s: Engine, c: nat)
    requires Inv(s) && c < |s.calls|
    ensures CallInv(s, c)
  {
  }

  /** A caller's step leaves the other calls alone: they do not hold the lock. */
  lemma OthersKeepInv(s: Engine, a: Action, c: nat)
    requires Inv(s) && Enabled(s, a) && Actor(a).Some? && Actor(a).value != c < |s.calls|
    ensures Do(s, a).calls[c] == s.calls[c] && CallInv(Do(s, a), c)
  {
    hide Classify, LineRead, Inv;
    CallsAreGood(s, c);
    CallsAreGood(s, Actor(a).value);
  }

  lemma CallStepKeepsInv(s: Engine, a: Action, c: nat)
    requires Inv(s) && Enabled(s, a) && !a.ReadLine?
    requires c < |Do(s, a).calls|
    ensures CallInv(Do(s, a), c)
  {
    hide Classify, LineRead;
    if c < |s.calls| { assert CallInv(s, c); }
    if Actor(a) == Some(c) {
      ActorKeepsInv(s, a, c);
    } else if Actor(a).Some? {
      OthersKeepInv(s, a, c);
    }
  }

  lemma StepKeepsInv(s: Engine, a: Action)
    requires Inv(s) && Enabled(s, a)
    ensures Inv(Do(s, a))
  {
    hide Classify, LineRead, CallInv;
    if a.ReadLine? {
      LineKeepsInv(s, a.line);
    } else {
      forall c: nat | c < |Do(s, a).calls| ensures CallInv(Do(s, a), c) { CallStepKeepsInv(s, a, c); }
    }
  }

  /** A run: every action enabled in the state it meets. */
  function Run(acts: seq<Action>): (s: Option<Engine>)
  {
    if acts == [] then Some(START)
    else match Run(acts[..|acts| - 1])
         case None => None
         case Some(s) => if Enabled(s, acts[|acts| - 1]) then Some(Do(s, acts[|acts| - 1])) else None
  }

  lemma {:induction false} RunInv(acts: seq<Action>)
    requires Run(acts).Some?
    ensures Inv(Run(acts).value)
  {
    hide Do, Enabled, CallInv;
    if acts != [] {
      RunInv(acts[..|acts| - 1]);
      StepKeepsInv(Run(acts[..|acts| - 1]).value, acts[|acts| - 1]);
    }
  }

  // ---------------------------------------------------------------- the theorems

  /** In every interleaving: a command in flight has its own response object in place; no line ever makes the
      reader send on a full channel, so it never blocks while it holds the lock; and at most one caller is between
      taking and releasing the command lock. */
  lemma ReaderNeverBlocks(acts: seq<Action>, line: string)
    requires Run(acts).Some?
    ensures var s := Run(acts).value;
            && (s.inFlight.Some? ==> s.currentResp == s.inFlight)
            && !Blocks(s, line)
            && (forall c: nat, d: nat :: c < |s.calls| && d < |s.calls| && HoldsLock(s.calls[c].stage) && HoldsLock(s.calls[d].stage) ==> c == d)
  {
    hide Run, Classify;
    RunInv(acts);
    var s := Run(acts).value;
    forall c: nat, d: nat | c < |s.calls| && d < |s.calls| && HoldsLock(s.calls[c].stage) && HoldsLock(s.calls[d].stage)
      ensures c == d
    {
      assert CallInv(s, c) && CallInv(s, d);
    }
    if s.inFlight.Some? { assert CallInv(s, s.inFlight.value); }
  }

  /** Every command is answered at most once, and SendPDU writes its payload at most once and only after a prompt
      was signalled to it. */
  lemma AnsweredOnce(acts: seq<Action>, c: nat)
    requires Run(acts).Some? && c < |Run(acts).value.calls|
    ensures var call := Run(acts).value.calls[c];
            call.answers <= 1 && call.payloads <= 1 && (call.payloads == 1 ==> call.signalled)
  {
    hide Run;
    RunInv(acts);
    assert CallInv(Run(acts).value, c);
  }

  /** The response that a command was given is never touched again, by later lines or other commands. */
  lemma AnswersAreFinal(s: Engine, a: Action, c: nat)
    requires Inv(s) && Enabled(s, a) && c < |s.calls|
    requires s.calls[c].answers == 1
    ensures c < |Do(s, a).calls| && Do(s, a).calls[c].resp == s.calls[c].resp && Do(s, a).calls[c].answers == 1
  {
    hide Classify, LineRead;
    assert CallInv(s, c);
    if a.ReadLine? {
      if s.inFlight.Some? { LineCalls(s, a.line); } else { LineIdle(s, a.line); }
    }
  }

  // ---------------------------------------------------------------- attribution in every interleaving

  /** The sequential engine that the interleaved one simulates. */
  function Project(s: Engine): Shared {
    Shared(s.inFlight,
           if s.currentResp.Some? && s.currentResp.value < |s.calls| then Some(s.calls[s.currentResp.value].resp) else None,
           s.activeCmd, s.promptChan, s.urcs, s.sent)
  }

  /** What an action is to the sequential engine. */
  function Simulated(s: Engine, p: Shared, a: Action): Shared
    requires Enabled(s, a) && Ready(p)
  {
    match a
    case Register(c) => Begin(p, c, CommandOf(s.calls[c].kind), s.calls[c].kind.SendPdu?)
    case Clear(_) => Cleared(p)
    case ReadLine(line) => Process(p, line)
    case TakeUrc => p.(urcs := if p.urcs == [] then [] else p.urcs[1..])
    case _ => p
  }

  lemma ProjectReady(s: Engine)
    requires Inv(s)
    ensures Ready(Project(s))
    ensures s.inFlight.Some? ==> s.currentResp == s.inFlight && s.inFlight.value < |s.calls|
  {
    if s.inFlight.Some? { assert CallInv(s, s.inFlight.value); }
  }

  lemma LineProjects(s: Engine, line: string)
    requires Inv(s)
    ensures Ready(Project(s)) && Project(LineRead(s, line)) == Process(Project(s), line)
  {
    hide Classify, Push, Inv;
    ProjectReady(s);
    if s.inFlight.Some? {
      match Classify(s.activeCmd, line)
      case Echo =>
      case Urc =>
      case Data =>
      case Success =>
      case Failure =>
    }
  }

  /** The engine under any interleaving is the sequential engine: registering begins a command there, clearing
      clears it, every line is processed as there, and no other step of a caller or the reader is seen. */
  lemma StepProjects(s: Engine, a: Action)
    requires Inv(s) && Enabled(s, a)
    ensures Ready(Project(s)) && Project(Do(s, a)) == Simulated(s, Project(s), a)
  {
    hide Classify, LineRead, CallInv, Process;
    ProjectReady(s);
    if a.ReadLine? {
      LineProjects(s, a.line);
    }
  }

  /** Further actions from a state that is already reached. */
  function RunFrom(s: Engine, acts: seq<Action>): Option<Engine> {
    if acts == [] then Some(s)
    else match RunFrom(s, acts[..|acts| - 1])
         case None => None
         case Some(s') => if Enabled(s', acts[|acts| - 1]) then Some(Do(s', acts[|acts| - 1])) else None
  }

  /** The lines that the reader processes, in order. */
  function LinesOf(acts: seq<Action>): seq<string> {
    if acts == [] then []
    else LinesOf(acts[..|acts| - 1]) + if acts[|acts| - 1].ReadLine? then [acts[|acts| - 1].line] else []
  }

  /** Call `c` is in flight with the data collected so far, and nothing was answered since. */
  predicate Flying(p: Shared, c: nat, cmd: string, data: seq<string>, sent: seq<(nat, Response)>) {
    && p.inFlight == Some(c) && p.activeCmd == cmd && p.currentResp == Some(Response(data, false, false))
    && p.sent == sent
  }

  /** While a call is in flight nobody else registers or clears: the command lock is taken. */
  lemma NobodyElse(s: Engine, a: Action, c: nat)
    requires Inv(s) && s.inFlight == Some(c) && Enabled(s, a)
    ensures !a.Register? && (a.Clear? ==> a.c == c)
  {
    hide Classify, Inv;
    CallsAreGood(s, c) by { InFlightInRange(s); }
    if a.Register? || a.Clear? { CallsAreGood(s, a.c); }
  }

  lemma InFlightInRange(s: Engine)
    requires Inv(s) && s.inFlight.Some?
    ensures s.inFlight.value < |s.calls|
  {
  }

  lemma FlyingLine(p: Shared, c: nat, cmd: string, lines: seq<string>, line: string, sent: seq<(nat, Response)>)
    requires Flying(p, c, cmd, OfKind(cmd, lines, Data), sent) && !Final(Classify(cmd, line))
    ensures Flying(Process(p, line), c, cmd, OfKind(cmd, lines + [line], Data), sent)
  {
    hide Classify, Push;
    assert (lines + [line])[..|lines|] == lines;
    assert OfKind(cmd, lines, Data) + [] == OfKind(cmd, lines, Data);
  }

  lemma FlyingStep(s: Engine, a: Action, c: nat, cmd: string, lines: seq<string>, sent: seq<(nat, Response)>)
    requires Inv(s) && Enabled(s, a) && a != Clear(c)
    requires Flying(Project(s), c, cmd, OfKind(cmd, lines, Data), sent)
    requires a.ReadLine? ==> !Final(Classify(cmd, a.line))
    ensures Flying(Project(Do(s, a)), c, cmd,
                   OfKind(cmd, if a.ReadLine? then lines + [a.line] else lines, Data), sent)
  {
    hide Classify, Inv, Enabled, Do, Push;
    StepProjects(s, a);
    NobodyElse(s, a, c);
    if a.ReadLine? {
      FlyingLine(Project(s), c, cmd, lines, a.line, sent);
    }
  }

  lemma {:induction false} FlyingRun(s: Engine, acts: seq<Action>, c: nat, cmd: string, sent: seq<(nat, Response)>)
    requires Inv(s) && Flying(Project(s), c, cmd, [], sent)
    requires RunFrom(s, acts).Some? && Clear(c) !in acts
    requires forall i :: 0 <= i < |LinesOf(acts)| ==> !Final(Classify(cmd, LinesOf(acts)[i]))
    ensures Inv(RunFrom(s, acts).value)
    ensures Flying(Project(RunFrom(s, acts).value), c, cmd, OfKind(cmd, LinesOf(acts), Data), sent)
  {
    hide Classify, Inv, Enabled, Do, Project, Flying;
    if acts == [] {
      NoneOfKind(cmd, Data);
    } else {
      var n := |acts| - 1;
      var before := acts[..n];
      assert forall i :: 0 <= i < |LinesOf(before)| ==> LinesOf(acts)[i] == LinesOf(before)[i];
      FlyingRun(s, before, c, cmd, sent);
      var s' := RunFrom(s, before).value;
      assert acts[n] in acts;
      if acts[n].ReadLine? {
        assert LinesOf(acts)[|LinesOf(before)|] == acts[n].line;
      } else {
        assert LinesOf(acts) == LinesOf(before);
      }
      StepKeepsInv(s', acts[n]);
      FlyingStep(s', acts[n], c, cmd, LinesOf(before), sent);
    }
  }

  lemma {:induction false} AnswerStays(s: Engine, acts: seq<Action>, c: nat)
    requires Inv(s) && c < |s.calls| && s.calls[c].answers == 1
    requires RunFrom(s, acts).Some?
    ensures var s' := RunFrom(s, acts).value;
            Inv(s') && c < |s'.calls| && s'.calls[c].resp == s.calls[c].resp && s'.calls[c].answers == 1
  {
    hide Inv, Enabled, Do;
    if acts != [] {
      var n := |acts| - 1;
      AnswerStays(s, acts[..n], c);
      StepKeepsInv(RunFrom(s, acts[..n]).value, acts[n]);
      AnswersAreFinal(RunFrom(s, acts[..n]).value, acts[n], c);
    }
  }

  /** The line that ends the flight. */
  lemma FlightAnswered(s: Engine, c: nat, cmd: string, lines: seq<string>, final: string, sent: seq<(nat, Response)>)
    requires Inv(s) && Flying(Project(s), c, cmd, OfKind(cmd, lines, Data), sent)
    requires Final(Classify(cmd, final))
    ensures var s' := LineRead(s, final);
            && c < |s'.calls| && s'.calls[c].answers == 1
            && s'.calls[c].resp == Expected(cmd, lines, final)
            && s'.sent == sent + [(c, Expected(cmd, lines, final))]
  {
    hide Classify, OfKind, Push, LineRead;
    ProjectReady(s);
    CallsAreGood(s, c);
    LineProjects(s, final);
    LineCalls(s, final);
  }

  /** Whatever else happens meanwhile, other callers, prompts and consumers of the queue included: the call whose
      registration is followed by the lines `LinesOf(acts)` and then a final result, before it clears the flight, is answered
      with exactly what the sequential engine makes of these lines, and keeps that answer for ever. */
  lemma InterleavedAttribution(s: Engine, c: nat, acts: seq<Action>, final: string, later: seq<Action>)
    requires Inv(s) && At(s, c, Locked)
    requires RunFrom(Do(s, Register(c)), acts).Some? && Clear(c) !in acts
    requires var cmd := CommandOf(s.calls[c].kind);
             && Final(Classify(cmd, final))
             && forall i :: 0 <= i < |LinesOf(acts)| ==> !Final(Classify(cmd, LinesOf(acts)[i]))
    requires var flying := RunFrom(Do(s, Register(c)), acts).value;
             Enabled(flying, ReadLine(final)) && RunFrom(Do(flying, ReadLine(final)), later).Some?
    ensures var expected := Expected(CommandOf(s.calls[c].kind), LinesOf(acts), final);
            var answered := Do(RunFrom(Do(s, Register(c)), acts).value, ReadLine(final));
            && answered.sent == s.sent + [(c, expected)]
            && var s' := RunFrom(answered, later).value;
               && c < |s'.calls| && s'.calls[c].answers == 1 && s'.calls[c].resp == expected
               && (s'.calls[c].chan != [] ==> s'.calls[c].chan == [c])
  {
    hide Classify, Inv, Enabled, RunFrom, LineRead, LinesOf, Expected, OfKind, CallInv;
    var cmd := CommandOf(s.calls[c].kind);
    EnabledRegister(s, c);
    StepKeepsInv(s, Register(c));
    StepProjects(s, Register(c));
    FlyingRun(Do(s, Register(c)), acts, c, cmd, s.sent);
    var flying := RunFrom(Do(s, Register(c)), acts).value;
    FlightAnswered(flying, c, cmd, LinesOf(acts), final, s.sent);
    StepKeepsInv(flying, ReadLine(final));
    AnswerStays(Do(flying, ReadLine(final)), later, c);
    OwnChannel(RunFrom(Do(flying, ReadLine(final)), later).value, c);
  }

  /** The only object a channel ever holds is the caller's own response. */
  lemma OwnChannel(s: Engine, c: nat)
    requires Inv(s) && c < |s.calls|
    ensures s.calls[c].chan != [] ==> s.calls[c].chan == [c]
  {
    assert CallInv(s, c);
  }

  lemma EnabledRegister(s: Engine, c: nat)
    requires At(s, c, Locked)
    ensures Enabled(s, Register(c))
  {
  }

  /** A prompt leads to the payload: the reader picks the channel up and signals it, and the caller that waits for it can
      take the signal, settle and write its payload. */
  lemma PromptLeadsToPayload(s: Engine, c: nat)
    requires Inv(s) && s.reader == Reading && s.promptChan == Some(c) && At(s, c, Prompting) && s.calls[c].promptBuf == 0
    ensures Enabled(s, ReadPrompt) && Enabled(Do(s, ReadPrompt), SignalPrompt)
    ensures var signalled := Do(Do(s, ReadPrompt), SignalPrompt);
            && Enabled(signalled, TakePrompt(c))
            && Enabled(Do(signalled, TakePrompt(c)), Elapse(c))
            && Enabled(Do(Do(signalled, TakePrompt(c)), Elapse(c)), Pay(c, true))
            && var paid := Do(Do(Do(signalled, TakePrompt(c)), Elapse(c)), Pay(c, true));
               c < |paid.calls| && paid.calls[c].payloads == 1 && paid.calls[c].stage == Finishing
  {
    hide Classify, LineRead, Inv;
    CallsAreGood(s, c);
  }

  /** A caller that waits takes its answer as soon as it is there; Send then only unlocks, SendPDU clears the flight. */
  lemma AnswerIsTaken(s: Engine, c: nat)
    requires Inv(s) && Waiting(s, c) && s.calls[c].chan != []
    ensures Enabled(s, Receive(c)) && s.calls[c].chan == [c]
    ensures var s' := Do(s, Receive(c));
            && c < |s'.calls| && s'.calls[c].chan == [] && !Waiting(s', c)
            && (s.calls[c].kind.SendCmd? ==> Enabled(s', Unlock(c)))
            && (s.calls[c].kind.SendPdu? ==> Enabled(s', Clear(c)))
  {
    hide Classify, LineRead, Inv;
    CallsAreGood(s, c);
    OwnChannel(s, c);
  }

  /** The reference that a network gives to a PDU, "+CMGS: ...", is data of SendPDU and not a notification. */
  lemma PduReference(s: Engine, c: nat, data: seq<string>, line: string, sent: seq<(nat, Response)>)
    requires Inv(s) && Flying(Project(s), c, CommandOf(SendPdu), data, sent)
    requires ReplyLine(line, "+CMGS") && !ErrorLine(line)
    ensures Flying(Project(LineRead(s, line)), c, CommandOf(SendPdu), data + [line], sent)
  {
    hide Inv, Project, LineRead, Process, TrimSpace, Upper, ErrorLine;
    LineProjects(s, line);
    ReplyHasColon(line, "+CMGS");
    CmgsIsNamed();
    assert line != "AT+CMGS";
    ReplyIsData(Project(s), c, "AT+CMGS", data, line, "+CMGS");
  }

  lemma CmgsIsNamed()
    ensures Names("AT+CMGS", "+CMGS")
  {
    hide TrimSpace;
    TrimIdle("AT+CMGS");
    assert Upper("AT+CMGS") == "AT+CMGS" && "AT" + "+CMGS" == "AT+CMGS";
  }
}
