/** The pure-TCP MQTT client: packet identifiers (MQTT 3.1.1 section 2.3.1) and the matching of
    acknowledgements (section 4.3) (internal/mqtt/client_tcp.go). */
module MqttClient {
  import opened Octets

  const COUNTER_SIZE := 0x1_0000_0000
  const ID_SIZE := 0x1_0000
  const IDS := 0xFFFF

  // ---------------------------------------------------------------- packet identifiers

  /** One round of the loop in nextMsgID: the 32-bit counter is advanced and its low half taken. */
  function Advance(counter: nat): (c: nat)
    ensures c < COUNTER_SIZE
  {
    (counter + 1) % COUNTER_SIZE
  }

  /** The counter after nextMsgID; its low half is the identifier, zero is skipped. */
  function NextCounter(counter: nat): (c: nat)
    ensures c < COUNTER_SIZE && c % ID_SIZE != 0
  {
    var c := Advance(counter);
    if c % ID_SIZE != 0 then c else Advance(c)
  }

  class IdSource {
    var nextID: nat

    constructor ()
      ensures nextID == 0
    {
      nextID := 0;
    }

    method NextMsgID() returns (id: nat)
      requires nextID < COUNTER_SIZE
      modifies this
      ensures nextID == NextCounter(old(nextID)) && id == nextID % ID_SIZE && 1 <= id <= IDS
    {
      ghost var rounds := 2;
      id := 0;
      while id == 0
        invariant rounds == 2 ==> nextID == old(nextID) && id == 0
        invariant rounds == 1 ==> nextID == Advance(old(nextID)) && id == nextID % ID_SIZE
        invariant rounds == 0 ==> id != 0 && nextID == Advance(Advance(old(nextID))) && Advance(old(nextID)) % ID_SIZE == 0
        invariant 0 <= rounds <= 2 && (rounds == 0 ==> id == nextID % ID_SIZE)
        decreases rounds
      {
        nextID := (nextID + 1) % COUNTER_SIZE;
        id := nextID % ID_SIZE;
        rounds := rounds - 1;
      }
    }
  }

  function CounterAfter(counter: nat, n: nat): nat {
    if n == 0 then counter else NextCounter(CounterAfter(counter, n - 1))
  }

  /** The wrap of the 32-bit counter is invisible: every identifier is the one before plus one, 65535 followed
      by 1. */
  lemma NextId(counter: nat)
    requires counter < COUNTER_SIZE
    ensures NextCounter(counter) % ID_SIZE == counter % ID_SIZE % IDS + 1
  {
    var low, high := counter % ID_SIZE, counter / ID_SIZE;
    assert counter == ID_SIZE * high + low;
    if low < IDS {
      assert Advance(counter) == ID_SIZE * high + (low + 1);
      LowHalf(high, low + 1);
    } else {
      assert Advance(counter) == if high + 1 == ID_SIZE then 0 else ID_SIZE * (high + 1);
      LowHalf(if high + 1 == ID_SIZE then 0 else high + 1, 0);
      LowHalf(if high + 1 == ID_SIZE then 0 else high + 1, 1);
    }
  }

  lemma LowHalf(high: nat, low: nat)
    requires low < ID_SIZE
    ensures (ID_SIZE * high + low) % ID_SIZE == low
  {
  }

  lemma {:induction false} IdFormula(counter: nat, n: nat)
    requires counter < COUNTER_SIZE && n >= 1
    ensures CounterAfter(counter, n) < COUNTER_SIZE
    ensures CounterAfter(counter, n) % ID_SIZE == (counter % ID_SIZE + n - 1) % IDS + 1
    decreases n
  {
    hide NextCounter;
    if n == 1 {
      assert CounterAfter(counter, 0) == counter;
      NextId(counter);
    } else {
      IdFormula(counter, n - 1);
      NextId(CounterAfter(counter, n - 1));
      ModSucc(counter % ID_SIZE + n - 2);
    }
  }

  lemma ModSucc(a: nat)
    ensures (a % IDS + 1) % IDS == (a + 1) % IDS
  {
  }

  /** Any 65535 consecutively allocated identifiers are distinct and not zero. */
  lemma IdsDistinct(counter: nat, i: nat, j: nat)
    requires counter < COUNTER_SIZE && 1 <= i < j < i + IDS
    ensures CounterAfter(counter, i) % ID_SIZE != CounterAfter(counter, j) % ID_SIZE
    ensures CounterAfter(counter, i) % ID_SIZE != 0
  {
    IdFormula(counter, i);
    IdFormula(counter, j);
    ModDistinct(counter % ID_SIZE + i - 1, counter % ID_SIZE + j - 1);
  }

  lemma ModDistinct(a: nat, b: nat)
    requires a < b < a + IDS
    ensures a % IDS != b % IDS
  {
  }

  // ---------------------------------------------------------------- waiters

  /** PUBACK and PUBCOMP share a table, SUBACK has its own. */
  datatype Kind = Publish | Subscribe

  datatype Stage = Allocated | Registered | Waiting | Leaving | Done

  /** A call that waits for an acknowledgement: its identifier, the number of identifiers handed out before
      it, its channel of capacity one, and whether it ended in success. */
  datatype Waiter = Waiter(kind: Kind, id: nat, born: nat, stage: Stage, chan: nat, ok: bool)

  datatype Client = Client(counter: nat, handed: nat, acks: map<(Kind, nat), nat>, waiters: seq<Waiter>)

  datatype Action =
    | Allocate(kind: Kind)           // nextMsgID for a call that will wait
    | AllocateOnly                   // nextMsgID in resubscribeAll
    | Register(w: nat)
    | Write(w: nat, success: bool)
    | Ack(kind: Kind, id: nat)       // the read loop got an acknowledgement
    | Succeed(w: nat)
    | TimeOut(w: nat)
    | Deregister(w: nat)

  predicate At(s: Client, w: nat, stage: Stage) { w < |s.waiters| && s.waiters[w].stage == stage }

  predicate Enabled(s: Client, a: Action) {
    match a
    case Allocate(_) => true
    case AllocateOnly => true
    case Register(w) => At(s, w, Allocated)
    case Write(w, _) => At(s, w, Registered)
    case Ack(_, _) => true
    case Succeed(w) => At(s, w, Waiting) && s.waiters[w].chan > 0
    case TimeOut(w) => At(s, w, Waiting)
    case Deregister(w) => At(s, w, Leaving)
  }

  function Go(s: Client, w: nat, stage: Stage): Client
    requires w < |s.waiters|
  {
    s.(waiters := s.waiters[w := s.waiters[w].(stage := stage)])
  }

  function Handed(s: Client): Client { s.(counter := NextCounter(s.counter), handed := s.handed + 1) }

  function KeyOf(x: Waiter): (Kind, nat) { (x.kind, x.id) }

  function Do(s: Client, a: Action): Client
    requires Enabled(s, a)
  {
    match a
    case Allocate(kind) =>
      var s' := Handed(s);
      s'.(waiters := s'.waiters + [Waiter(kind, s'.counter % ID_SIZE, s.handed, Allocated, 0, false)])
    case AllocateOnly => Handed(s)
    case Register(w) => Go(s, w, Registered).(acks := s.acks[KeyOf(s.waiters[w]) := w])
    case Write(w, success) => Go(s, w, if success then Waiting else Leaving)
    case Ack(kind, id) =>
      if (kind, id) in s.acks && s.acks[(kind, id)] < |s.waiters| then
        var w := s.acks[(kind, id)];
        s.(waiters := s.waiters[w := s.waiters[w].(chan := 1)])
      else s
    case Succeed(w) => s.(waiters := s.waiters[w := s.waiters[w].(chan := 0, stage := Leaving, ok := true)])
    case TimeOut(w) => Go(s, w, Leaving)
    case Deregister(w) => Go(s, w, Done).(acks := s.acks - {KeyOf(s.waiters[w])})
  }

  const START := Client(0, 0, map[], [])

  function Run(acts: seq<Action>): (s: Option<Client>) {
    if acts == [] then Some(START)
    else match Run(acts[..|acts| - 1])
         case None => None
         case Some(s) => if Enabled(s, acts[|acts| - 1]) then Some(Do(s, acts[|acts| - 1])) else None
  }

  // ---------------------------------------------------------------- success needs an acknowledgement

  /** The run holds the registration of `w` and later an acknowledgement with its kind and identifier. */
  ghost predicate AckedAfter(acts: seq<Action>, w: nat, key: (Kind, nat)) {
    exists i, j :: 0 <= i < j < |acts| && acts[i] == Register(w) && acts[j] == Ack(key.0, key.1)
  }

  ghost predicate HasRegistered(acts: seq<Action>, w: nat) { Register(w) in acts }

  /** Table entries point to registered waiters of that kind and identifier; a filled channel or a success was
      preceded by an acknowledgement. */
  ghost predicate History(acts: seq<Action>, s: Client) {
    && (forall k :: k in s.acks ==>
          s.acks[k] < |s.waiters| && KeyOf(s.waiters[s.acks[k]]) == k && HasRegistered(acts, s.acks[k]))
    && (forall w: nat :: w < |s.waiters| && (s.waiters[w].chan > 0 || s.waiters[w].ok) ==>
          AckedAfter(acts, w, KeyOf(s.waiters[w])))
  }

  lemma AckedLonger(acts: seq<Action>, a: Action, w: nat, key: (Kind, nat))
    ensures AckedAfter(acts, w, key) ==> AckedAfter(acts + [a], w, key)
    ensures HasRegistered(acts, w) ==> HasRegistered(acts + [a], w)
    ensures HasRegistered(acts, w) && a == Ack(key.0, key.1) ==> AckedAfter(acts + [a], w, key)
    ensures a == Register(w) ==> HasRegistered(acts + [a], w)
  {
    var longer := acts + [a];
    if AckedAfter(acts, w, key) {
      var i, j :| 0 <= i < j < |acts| && acts[i] == Register(w) && acts[j] == Ack(key.0, key.1);
      assert longer[i] == Register(w) && longer[j] == Ack(key.0, key.1);
    }
    if HasRegistered(acts, w) {
      var i :| 0 <= i < |acts| && acts[i] == Register(w);
      assert longer[i] == Register(w);
      if a == Ack(key.0, key.1) { assert longer[|acts|] == a; }
    }
    if a == Register(w) { assert longer[|acts|] == a; }
  }

  lemma StepKeepsHistory(acts: seq<Action>, s: Client, a: Action)
    requires History(acts, s) && Enabled(s, a)
    ensures History(acts + [a], Do(s, a))
  {
    hide AckedAfter, HasRegistered;
    var s' := Do(s, a);
    forall k | k in s'.acks
      ensures s'.acks[k] < |s'.waiters| && KeyOf(s'.waiters[s'.acks[k]]) == k && HasRegistered(acts + [a], s'.acks[k])
    {
      AckedLonger(acts, a, s'.acks[k], k);
    }
    forall w: nat | w < |s'.waiters| && (s'.waiters[w].chan > 0 || s'.waiters[w].ok)
      ensures AckedAfter(acts + [a], w, KeyOf(s'.waiters[w]))
    {
      AckedLonger(acts, a, w, KeyOf(s'.waiters[w]));
    }
  }

  lemma {:induction false} RunHistory(acts: seq<Action>)
    requires Run(acts).Some?
    ensures History(acts, Run(acts).value)
  {
    hide History, Do, Enabled;
    if acts == [] {
      StartHistory();
    } else {
      var before := acts[..|acts| - 1];
      RunHistory(before);
      StepKeepsHistory(before, Run(before).value, acts[|acts| - 1]);
      assert before + [acts[|acts| - 1]] == acts;
    }
  }

  lemma StartHistory()
    ensures History([], START)
  {
  }

  /** In every interleaving a waiting call succeeds only after an acknowledgement with its kind and identifier
      was read after it had registered. */
  lemma SuccessNeedsAck(acts: seq<Action>, w: nat)
    requires Run(acts).Some? && w < |Run(acts).value.waiters| && Run(acts).value.waiters[w].ok
    ensures AckedAfter(acts, w, KeyOf(Run(acts).value.waiters[w]))
  {
    hide Run, AckedAfter;
    RunHistory(acts);
  }

  // ---------------------------------------------------------------- which entries are kept

  predicate Live(x: Waiter) { x.stage != Done }

  predicate InTable(x: Waiter) { x.stage == Registered || x.stage == Waiting || x.stage == Leaving }

  /** Identifiers repeat every 65535 numbers. */
  ghost predicate IdInv(s: Client) {
    && s.counter < COUNTER_SIZE
    && s.counter % ID_SIZE % IDS == s.handed % IDS
    && (forall w: nat :: w < |s.waiters| ==> s.waiters[w].born < s.handed && s.waiters[w].id == s.waiters[w].born % IDS + 1)
    && (forall v: nat, w: nat :: v < w < |s.waiters| ==> s.waiters[v].born < s.waiters[w].born)
  }

  lemma HandedKeeps(s: Client)
    requires s.counter < COUNTER_SIZE && s.counter % ID_SIZE % IDS == s.handed % IDS
    ensures Handed(s).counter < COUNTER_SIZE
    ensures Handed(s).counter % ID_SIZE == s.handed % IDS + 1
    ensures Handed(s).counter % ID_SIZE % IDS == (s.handed + 1) % IDS
  {
    NextId(s.counter);
  }

  lemma StepKeepsIds(s: Client, a: Action)
    requires IdInv(s) && Enabled(s, a)
    ensures IdInv(Do(s, a))
  {
    hide NextCounter;
    HandedKeeps(s);
  }

  lemma {:induction false} RunIds(acts: seq<Action>)
    requires Run(acts).Some?
    ensures IdInv(Run(acts).value)
  {
    hide IdInv, Do, Enabled;
    if acts == [] {
      StartIds();
    } else {
      RunIds(acts[..|acts| - 1]);
      StepKeepsIds(Run(acts[..|acts| - 1]).value, acts[|acts| - 1]);
    }
  }

  lemma StartIds()
    ensures IdInv(START)
  {
  }

  /** The table leads to call `w`: its acknowledgement would reach it. */
  predicate Holds(s: Client, w: nat) {
    w < |s.waiters| && KeyOf(s.waiters[w]) in s.acks && s.acks[KeyOf(s.waiters[w])] == w
  }

  /** Another call of the same kind, 65535 identifiers or a multiple of that apart, registers or leaves. */
  predicate Rival(s: Client, a: Action, w: nat) {
    && (a.Register? || a.Deregister?) && a.w != w && a.w < |s.waiters| && w < |s.waiters|
    && s.waiters[a.w].kind == s.waiters[w].kind && s.waiters[a.w].born % IDS == s.waiters[w].born % IDS
  }

  lemma StepHolds(s: Client, a: Action, w: nat)
    requires IdInv(s) && Enabled(s, a) && Holds(s, w) && InTable(s.waiters[w]) && a != Deregister(w)
    ensures Holds(Do(s, a), w) <==> !Rival(s, a, w)
  {
    hide NextCounter;
  }

  /** Between registering and leaving a call stays what it is. */
  lemma {:induction false} StaysInTable(acts: seq<Action>, i: nat, w: nat, n: nat)
    requires Run(acts).Some? && i < n <= |acts| && acts[i] == Register(w)
    requires forall j :: i < j < |acts| ==> acts[j] != Deregister(w)
    ensures Run(acts[..n]).Some? && w < |Run(acts[..n]).value.waiters| && InTable(Run(acts[..n]).value.waiters[w])
    ensures n == i + 1 ==> Holds(Run(acts[..n]).value, w)
    decreases n
  {
    hide Run, Do, InTable, Holds;
    RunPrefix(acts, n);
    RunStep(acts, n);
    if n == i + 1 {
      RegisterHolds(Run(acts[..i]).value, w);
    } else {
      StaysInTable(acts, i, w, n - 1);
      StepInTable(Run(acts[..n - 1]).value, acts[n - 1], w);
    }
  }

  lemma RegisterHolds(s: Client, w: nat)
    requires Enabled(s, Register(w))
    ensures var s' := Do(s, Register(w)); w < |s'.waiters| && InTable(s'.waiters[w]) && Holds(s', w)
  {
  }

  lemma StepInTable(s: Client, a: Action, w: nat)
    requires Enabled(s, a) && w < |s.waiters| && InTable(s.waiters[w]) && a != Deregister(w)
    ensures var s' := Do(s, a); w < |s'.waiters| && InTable(s'.waiters[w])
  {
    hide NextCounter;
  }

  lemma {:induction false} RunPrefix(acts: seq<Action>, n: nat)
    requires Run(acts).Some? && n <= |acts|
    ensures Run(acts[..n]).Some?
    decreases |acts|
  {
    hide Do, Enabled;
    if n == |acts| {
      assert acts[..n] == acts;
    } else {
      RunPrefix(acts[..|acts| - 1], n);
      assert acts[..|acts| - 1][..n] == acts[..n];
    }
  }

  ghost predicate HeldUntil(acts: seq<Action>, i: nat, w: nat, n: nat) {
    forall m :: i < m <= n <= |acts| ==> Run(acts[..m]).Some? && Holds(Run(acts[..m]).value, w)
  }

  ghost predicate NoRival(acts: seq<Action>, i: nat, w: nat, n: nat) {
    forall m :: i < m < n <= |acts| ==> Run(acts[..m]).Some? && !Rival(Run(acts[..m]).value, acts[m], w)
  }

  /** The exact condition: a registered call keeps its table entry until it leaves, if and only if no other call of its
      kind with the same identifier registers or leaves meanwhile. */
  lemma {:induction false} EntryKept(acts: seq<Action>, i: nat, w: nat, n: nat)
    requires Run(acts).Some? && i < n <= |acts| && acts[i] == Register(w)
    requires forall j :: i < j < |acts| ==> acts[j] != Deregister(w)
    ensures HeldUntil(acts, i, w, n) <==> NoRival(acts, i, w, n)
    decreases n
  {
    hide Run, Holds, Rival, InTable;
    StaysInTable(acts, i, w, n);
    if n > i + 1 {
      StaysInTable(acts, i, w, n - 1);
      var before := Run(acts[..n - 1]).value;
      EntryKept(acts, i, w, n - 1);
      RunIds(acts[..n - 1]);
      RunStep(acts, n);
      if HeldUntil(acts, i, w, n - 1) { StepHolds(before, acts[n - 1], w); }
      assert HeldUntil(acts, i, w, n) <==> HeldUntil(acts, i, w, n - 1) && Holds(Run(acts[..n]).value, w);
      assert NoRival(acts, i, w, n) <==> NoRival(acts, i, w, n - 1) && !Rival(before, acts[n - 1], w);
    }
  }

  lemma RunStep(acts: seq<Action>, n: nat)
    requires 0 < n <= |acts| && Run(acts[..n]).Some?
    ensures Run(acts[..n - 1]).Some? && Enabled(Run(acts[..n - 1]).value, acts[n - 1])
    ensures Run(acts[..n]).value == Do(Run(acts[..n - 1]).value, acts[n - 1])
  {
    hide Do, Enabled;
    assert acts[..n][..n - 1] == acts[..n - 1];
  }

  // ---------------------------------------------------------------- an acknowledgement is enough

  /** An acknowledgement that is read while the table leads to a call stays in the call's channel until it is taken. */
  lemma AckStays(s: Client, a: Action, w: nat)
    requires Enabled(s, a) && w < |s.waiters| && s.waiters[w].chan == 1 && a != Succeed(w)
    ensures w < |Do(s, a).waiters| && Do(s, a).waiters[w].chan == 1
  {
    hide NextCounter;
  }

  lemma AckFills(s: Client, w: nat)
    requires Holds(s, w)
    ensures var s' := Do(s, Ack(s.waiters[w].kind, s.waiters[w].id)); w < |s'.waiters| && s'.waiters[w].chan == 1
  {
  }

  lemma {:induction false} ChannelFilled(acts: seq<Action>, i: nat, w: nat, n: nat)
    requires Run(acts).Some? && i < n <= |acts| && Run(acts[..i]).Some? && Holds(Run(acts[..i]).value, w)
    requires var x := Run(acts[..i]).value.waiters[w]; acts[i] == Ack(x.kind, x.id)
    requires forall j :: i < j < |acts| ==> acts[j] != Succeed(w)
    ensures Run(acts[..n]).Some? && w < |Run(acts[..n]).value.waiters| && Run(acts[..n]).value.waiters[w].chan == 1
    decreases n
  {
    hide Run, Do, Enabled;
    RunPrefix(acts, n);
    RunStep(acts, n);
    if n == i + 1 {
      AckFills(Run(acts[..i]).value, w);
    } else {
      ChannelFilled(acts, i, w, n - 1);
      AckStays(Run(acts[..n - 1]).value, acts[n - 1], w);
    }
  }

  /** A call whose write succeeded, and whose acknowledgement was read while the table led to it, can succeed, and then
      does: it ends with success as soon as it has left. */
  lemma AckedCallSucceeds(acts: seq<Action>, i: nat, w: nat)
    requires Run(acts).Some? && i < |acts| && Run(acts[..i]).Some? && Holds(Run(acts[..i]).value, w)
    requires var x := Run(acts[..i]).value.waiters[w]; acts[i] == Ack(x.kind, x.id)
    requires forall j :: i < j < |acts| ==> acts[j] != Succeed(w)
    requires At(Run(acts).value, w, Waiting)
    ensures var s := Run(acts).value;
            && Enabled(s, Succeed(w))
            && Enabled(Do(s, Succeed(w)), Deregister(w))
            && var left := Do(Do(s, Succeed(w)), Deregister(w));
               w < |left.waiters| && left.waiters[w].ok && left.waiters[w].stage == Done
  {
    hide Run;
    ChannelFilled(acts, i, w, |acts|);
    assert acts[..|acts|] == acts;
  }

  // ---------------------------------------------------------------- a collision

  function Resubscribing(n: nat): (acts: seq<Action>)
    ensures |acts| == n
  {
    seq(n, _ => AllocateOnly)
  }

  lemma {:induction false} IdsGoBy(acts: seq<Action>, n: nat)
    requires Run(acts).Some?
    ensures Run(acts + Resubscribing(n)).Some?
    ensures var s, s' := Run(acts).value, Run(acts + Resubscribing(n)).value;
            s'.handed == s.handed + n && s'.acks == s.acks && s'.waiters == s.waiters
  {
    hide NextCounter, Run;
    if n == 0 {
      assert acts + Resubscribing(0) == acts;
    } else {
      IdsGoBy(acts, n - 1);
      RunSnoc(acts + Resubscribing(n - 1), AllocateOnly);
      assert acts + Resubscribing(n) == acts + Resubscribing(n - 1) + [AllocateOnly];
    }
  }

  lemma RunSnoc(acts: seq<Action>, a: Action)
    requires Run(acts).Some? && Enabled(Run(acts).value, a)
    ensures Run(acts + [a]) == Some(Do(Run(acts).value, a))
  {
    hide Do, Enabled;
    assert (acts + [a])[..|acts|] == acts;
  }

  /** A Publish that still waits when 65534 identifiers have been handed out after its own, and a second one. */
  function Collision(): seq<Action> {
    [Allocate(Publish), Register(0)] + Resubscribing(IDS - 1) + [Allocate(Publish)] + [Register(1)]
  }

  /** The second one has the same identifier and takes the entry over: the acknowledgement of the first one reaches
      the second. */
  lemma OldWaiterLosesItsEntry()
    ensures Run(Collision()).Some?
    ensures var s := Run(Collision()).value;
            && |s.waiters| == 2 && InTable(s.waiters[0]) && KeyOf(s.waiters[0]) == KeyOf(s.waiters[1]) && !Holds(s, 0)
            && var acked := Do(s, Ack(s.waiters[0].kind, s.waiters[0].id));
               acked.waiters[0].chan == 0 && acked.waiters[1].chan == 1
  {
    hide NextCounter, Run;
    RunNothing();
    RunSnoc([], Allocate(Publish));
    var one := [] + [Allocate(Publish)];
    RunIds(one);
    RunSnoc(one, Register(0));
    var two := one + [Register(0)];
    assert two == [Allocate(Publish), Register(0)];
    IdsGoBy(two, IDS - 1);
    var three := two + Resubscribing(IDS - 1);
    RunIds(three);
    RunSnoc(three, Allocate(Publish));
    var four := three + [Allocate(Publish)];
    RunIds(four);
    RunSnoc(four, Register(1));
  }

  lemma RunNothing()
    ensures Run([]) == Some(START)
  {
  }

  // ---------------------------------------------------------------- live waiters do not collide

  /** No call lives so long that 65535 further identifiers are handed out. */
  ghost predicate Prompt(s: Client) {
    forall w: nat :: w < |s.waiters| && Live(s.waiters[w]) ==> s.handed - s.waiters[w].born <= IDS
  }

  ghost predicate PromptRun(acts: seq<Action>) {
    forall n :: 0 <= n <= |acts| ==> Run(acts[..n]).Some? && Prompt(Run(acts[..n]).value)
  }

  ghost predicate TableInv(s: Client) {
    IdInv(s) && forall w: nat :: w < |s.waiters| && InTable(s.waiters[w]) ==> Holds(s, w)
  }

  /** Two live calls have different identifiers. */
  lemma LiveDistinct(s: Client, v: nat, w: nat)
    requires IdInv(s) && Prompt(s)
    requires v < w < |s.waiters| && Live(s.waiters[v]) && Live(s.waiters[w])
    ensures s.waiters[v].id != s.waiters[w].id
  {
    ModDistinct(s.waiters[v].born, s.waiters[w].born);
  }

  lemma Distinct(s: Client, v: nat, w: nat)
    requires IdInv(s) && Prompt(s) && v != w && v < |s.waiters| && w < |s.waiters|
    requires Live(s.waiters[v]) && Live(s.waiters[w])
    ensures s.waiters[v].id != s.waiters[w].id
  {
    if v < w { LiveDistinct(s, v, w); } else { LiveDistinct(s, w, v); }
  }

  lemma StepKeepsTable(s: Client, a: Action)
    requires TableInv(s) && Prompt(s) && Enabled(s, a)
    ensures TableInv(Do(s, a))
  {
    hide NextCounter, Prompt, IdInv;
    StepKeepsIds(s, a);
    var s' := Do(s, a);
    forall w: nat | w < |s'.waiters| && InTable(s'.waiters[w]) ensures Holds(s', w) {
      if a.Register? && a.w != w { Distinct(s, a.w, w); }
      if a.Deregister? && a.w != w { Distinct(s, a.w, w); }
    }
  }

  lemma {:induction false} RunTable(acts: seq<Action>)
    requires PromptRun(acts)
    ensures Run(acts).Some? && TableInv(Run(acts).value)
  {
    hide TableInv, Do, Enabled, Prompt;
    assert acts[..|acts|] == acts;
    if acts == [] {
      StartTable();
    } else {
      var before := acts[..|acts| - 1];
      forall n | 0 <= n <= |before| ensures Run(before[..n]).Some? && Prompt(Run(before[..n]).value) {
        assert before[..n] == acts[..n];
      }
      RunTable(before);
      assert before[..|before|] == before;
      StepKeepsTable(Run(before).value, acts[|acts| - 1]);
    }
  }

  lemma StartTable()
    ensures TableInv(START)
  {
  }

  /** While no call outlives 65535 further identifiers, every registered call keeps its own table entry: no other
      call overwrites or deletes it, so its acknowledgement reaches it. */
  lemma LiveWaitersKeepTheirEntries(acts: seq<Action>, w: nat)
    requires PromptRun(acts) && Run(acts).Some?
    requires w < |Run(acts).value.waiters| && InTable(Run(acts).value.waiters[w])
    ensures var s := Run(acts).value;
            var x := s.waiters[w];
            && Holds(s, w) && Do(s, Ack(x.kind, x.id)).waiters[w].chan == 1
            && forall v: nat :: v < |s.waiters| && v != w && Live(s.waiters[v]) ==> s.waiters[v].id != x.id
  {
    hide Run, IdInv;
    RunTable(acts);
    var s := Run(acts).value;
    assert acts[..|acts|] == acts;
    forall v: nat | v < |s.waiters| && v != w && Live(s.waiters[v]) ensures s.waiters[v].id != s.waiters[w].id {
      Distinct(s, v, w);
    }
  }
}
