/** Whole runs of the assembler: parts of any messages, timers (stale ones included), expiry and Close
    in any interleaving (internal/sms/assembler.go). */
module Reassembly {
  import opened Octets
  import opened Text
  import opened Splitting
  import opened Assembler
  import Timestamp

  /** `Fire` is a timer callback: it may come at any time, for any key, and its notice may already show
      `racing` parts that came after the flush. */
  datatype Event = Add(now: int, part: Part) | Fire(now: int, key: string, racing: map<int, string>) | Close

  ghost function Step(cfg: Config, st: State, ev: Event): (r: (State, Option<Assembled>))
    requires Inv(st)
    ensures Inv(r.0)
  {
    match ev
    case Add(now, part) => AddPreservesInv(cfg, st, now, part); AddPartSpec(cfg, st, now, part)
    case Fire(now, key, racing) => FirePreservesInv(st, now, key, racing); FlushSpec(st, now, key, racing)
    case Close => (State(map[], map[]), None)
  }

  ghost function Run(cfg: Config, st: State, evs: seq<Event>): (r: State)
    requires Inv(st)
    ensures Inv(r)
  {
    if evs == [] then st else Step(cfg, Run(cfg, st, evs[..|evs| - 1]), evs[|evs| - 1]).0
  }

  /** What event `i` of a run hands on: the result of AddPart or the notice of a flush. */
  ghost function Output(cfg: Config, st: State, evs: seq<Event>, i: nat): Option<Assembled>
    requires Inv(st) && i < |evs|
  {
    Step(cfg, Run(cfg, st, evs[..i]), evs[i]).1
  }

  /** In every interleaving no key is pending and flushed at once, and every stored message has between one
      part and all but one of its 2 .. 20 parts, filed under its own sender and reference. */
  lemma ReachableStates(cfg: Config, evs: seq<Event>, k: string)
    ensures Inv(State(map[], map[]))
    ensures var st := Run(cfg, State(map[], map[]), evs);
            && !(k in st.pending && k in st.flushed)
            && (k in st.pending ==> GoodEntry(st.pending[k]) && exists r: byte :: k == Key(st.pending[k].from, r))
            && (k in st.flushed ==> GoodEntry(st.flushed[k]) && exists r: byte :: k == Key(st.flushed[k].from, r))
  {
    var st := Run(cfg, State(map[], map[]), evs);
    assert GoodSlot(View(st, k)) && OwnKey(k, View(st, k));
  }

  // ---------------------------------------------------------------- one key at a time

  predicate Own(k: string, ev: Event) { ev.Add? && Stored(ev.part) && KeyOf(ev.part) == k }

  /** The assembly timer of this key. */
  predicate OwnTimer(k: string, ev: Event) { ev.Fire? && ev.key == k }

  /** A part or a timer of this key: what it hands on is about the key. */
  predicate Concerns(k: string, ev: Event) { Own(k, ev) || OwnTimer(k, ev) }

  /** What an event does to one key. */
  ghost function SlotStep(cfg: Config, k: string, s: Slot, ev: Event): (Slot, Option<Assembled>)
    requires GoodSlot(s)
  {
    match ev
    case Add(now, part) =>
      if !Stored(part) then (s, None)
      else if KeyOf(part) == k then SlotAdd(now, Aged(cfg, now, s), part)
      else (Aged(cfg, now, s), None)
    case Fire(now, key, racing) => if key == k then SlotFire(now, s, racing) else (s, None)
    case Close => (Idle, None)
  }

  /** The assembler is one independent machine per key: an event changes the slot of a key as the slot
      machine says, and its output is that of its own slot. */
  lemma Projection(cfg: Config, st: State, ev: Event, k: string)
    requires Inv(st)
    ensures GoodSlot(View(st, k))
    ensures View(Step(cfg, st, ev).0, k) == SlotStep(cfg, k, View(st, k), ev).0
    ensures Concerns(k, ev) ==> Step(cfg, st, ev).1 == SlotStep(cfg, k, View(st, k), ev).1
  {
    hide Put, Cleaned, View, SlotAdd, SlotFire, Aged, OwnKey, Key;
    assert GoodSlot(View(st, k));
    match ev
    case Add(now, part) =>
      if Stored(part) {
        CleanedSlots(cfg, now, st);
        var cleaned := Cleaned(cfg, now, st);
        assert GoodSlot(View(cleaned, KeyOf(part)));
        PutViews(cleaned, KeyOf(part), SlotAddOf(now, View(cleaned, KeyOf(part)), part));
      }
    case Fire(now, key, racing) =>
      PutViews(st, key, SlotFireOf(st, now, key, racing));
    case Close =>
      ViewEmpty(k);
  }

  ghost function SlotAddOf(now: int, s: Slot, part: Part): Slot {
    if Stored(part) && (s != Idle ==> s.e.totalParts >= 0) then SlotAdd(now, s, part).0 else s
  }

  ghost function SlotFireOf(st: State, now: int, key: string, racing: map<int, string>): Slot
    requires Inv(st)
  {
    assert GoodSlot(View(st, key));
    SlotFire(now, View(st, key), racing).0
  }

  lemma ViewEmpty(k: string)
    ensures View(State(map[], map[]), k) == Idle
  {
  }

  // ---------------------------------------------------------------- single parts

  /** Messages that need no reassembly are handed on as they are. */
  lemma SingleHandedOn(cfg: Config, st: State, now: int, part: Part)
    requires Inv(st) && (!part.isMultipart || part.totalParts <= 1)
    ensures var (st', out) := Step(cfg, st, Add(now, part));
            && st' == st && out.Some? && out.value.isComplete && !out.value.isUpdate && out.value.segments == 1
            && out.value.from == part.from && out.value.text == part.text
            && out.value.timestamp == part.timestamp && out.value.encoding == part.encoding
  {
    hide Inv;
  }

  /** Parts whose numbers make no sense are dropped without a trace. */
  lemma MalformedDropped(cfg: Config, st: State, now: int, part: Part)
    requires Inv(st) && part.isMultipart && part.totalParts >= 2
    requires part.partNumber < 1 || part.partNumber > part.totalParts || part.totalParts > 20
    ensures Step(cfg, st, Add(now, part)) == (st, None)
  {
    hide Inv;
  }

  /** When an entry has outlived itself: pending ones after the configured time, counted from their first part, and never
      without one; flushed ones after 15 minutes, counted from the flush, or the configured time if that is shorter. */
  predicate Outlived(cfg: Config, s: Slot, now: int) {
    match s
    case Idle => false
    case Pending(e) => cfg.ttl > 0 && now - e.since > cfg.ttl
    case Flushed(e) => now - e.since > 900_000_000_000 || (cfg.ttl > 0 && now - e.since > cfg.ttl)
  }

  lemma AgedOutlived(cfg: Config, s: Slot, now: int)
    ensures Aged(cfg, now, s) == if Outlived(cfg, s, now) then Idle else s
  {
  }

  /** What a part does to its own key: it starts a new message where there is none or an outlived one, and otherwise joins
      the one that is there, whose age, sender, time stamp and total it leaves alone. */
  lemma PartJoins(cfg: Config, st: State, now: int, part: Part)
    requires Inv(st) && part.isMultipart && 2 <= part.totalParts <= 20 && 1 <= part.partNumber <= part.totalParts
    ensures var k := Key(part.from, part.reference);
            var s := View(st, k);
            var (st', out) := Step(cfg, st, Add(now, part));
            if s == Idle || Outlived(cfg, s, now) then
              && View(st', k) == Pending(Entry(part.from, map[part.partNumber := part.text], part.totalParts, part.timestamp,
                                               part.encoding, now))
              && out == None
            else
              var e := s.e.(parts := s.e.parts[part.partNumber := part.text]);
              if |e.parts| == e.totalParts then
                View(st', k) == Idle && out.Some? && out.value.isComplete && out.value.isUpdate == s.Flushed?
              else
                View(st', k) == (if s.Pending? then Pending(e) else Flushed(e)) && (out.Some? <==> s.Flushed?)
  {
    hide Key, View, Step, Inv, Aged, Outlived, Join, Summary, Available;
    var k := Key(part.from, part.reference);
    Projection(cfg, st, Add(now, part), k);
    AgedOutlived(cfg, View(st, k), now);
    OneEntry(part.partNumber, part.text);
  }

  lemma OneEntry(i: int, text: string)
    ensures |map[i := text]| == 1 && map[][i := text] == map[i := text]
  {
    assert (map[i := text]).Keys == {i};
  }

  /** What it does to every other key: outlived entries are forgotten, and nothing else changes. */
  lemma OthersOutlive(cfg: Config, st: State, now: int, part: Part, k: string)
    requires Inv(st) && part.isMultipart && 2 <= part.totalParts <= 20 && 1 <= part.partNumber <= part.totalParts
    requires k != Key(part.from, part.reference)
    ensures View(Step(cfg, st, Add(now, part)).0, k) == if Outlived(cfg, View(st, k), now) then Idle else View(st, k)
  {
    hide Key, View, Step, Inv, Aged, Outlived;
    Projection(cfg, st, Add(now, part), k);
    AgedOutlived(cfg, View(st, k), now);
  }

  // ---------------------------------------------------------------- one message

  /** What a message takes from the part that comes first. */
  datatype Stamp = Stamp(timestamp: Timestamp.Time, encoding: Encoding)

  function StampOf(p: Part): Stamp { Stamp(p.timestamp, p.encoding) }

  datatype Message = Message(from: string, reference: byte, texts: seq<string>, stamp: Stamp)

  predicate ValidMessage(m: Message) { 2 <= |m.texts| <= MAX_PARTS }

  function MessageKey(m: Message): string { Key(m.from, m.reference) }

  predicate PartOf(m: Message, p: Part) {
    && p.from == m.from && p.reference == m.reference && p.isMultipart && p.totalParts == |m.texts|
    && 1 <= p.partNumber <= |m.texts| && p.text == m.texts[p.partNumber - 1]
  }

  /** A part within `lo .. hi`, which is one of `m` if it carries the key of `m`, or any timer. */
  predicate Calm(m: Message, ev: Event, lo: int, hi: int) {
    match ev
    case Add(now, part) => Stored(part) ==> lo <= now <= hi && (KeyOf(part) == MessageKey(m) ==> PartOf(m, part))
    case Fire(_, _, _) => true
    case Close => false
  }

  ghost predicate AllCalm(m: Message, evs: seq<Event>, lo: int, hi: int) {
    forall i :: 0 <= i < |evs| ==> Calm(m, evs[i], lo, hi)
  }

  /** The part numbers of `m` that a run brings. */
  function Seen(k: string, evs: seq<Event>): set<int> {
    if evs == [] then {}
    else Seen(k, evs[..|evs| - 1]) + if Own(k, evs[|evs| - 1]) then {evs[|evs| - 1].part.partNumber} else {}
  }

  /** The message's timer does not cut the run: it fires, if at all, before the first part. */
  ghost predicate Uncut(k: string, evs: seq<Event>) {
    forall i :: 0 <= i < |evs| && OwnTimer(k, evs[i]) ==> Seen(k, evs[..i]) == {}
  }

  /** The first part of the message that the run brings has its stamp. */
  ghost predicate FirstStamped(m: Message, evs: seq<Event>) {
    forall i :: 0 <= i < |evs| && Own(MessageKey(m), evs[i]) && Seen(MessageKey(m), evs[..i]) == {} ==> StampOf(evs[i].part) == m.stamp
  }

  /** The stamp of the first part that a run brings. */
  function FirstStamp(k: string, evs: seq<Event>): Option<Stamp> {
    if evs == [] then None
    else
      match FirstStamp(k, evs[..|evs| - 1])
      case Some(stamp) => Some(stamp)
      case None => if Own(k, evs[|evs| - 1]) then Some(StampOf(evs[|evs| - 1].part)) else None
  }

  lemma {:induction false} FirstStampIs(k: string, evs: seq<Event>)
    ensures FirstStamp(k, evs) == None <==> Seen(k, evs) == {}
    ensures forall i :: 0 <= i < |evs| && Own(k, evs[i]) && Seen(k, evs[..i]) == {} ==> FirstStamp(k, evs) == Some(StampOf(evs[i].part))
  {
    hide Key, Stored;
    if evs != [] {
      var before := evs[..|evs| - 1];
      FirstStampIs(k, before);
      forall i | 0 <= i < |evs| && Own(k, evs[i]) && Seen(k, evs[..i]) == {}
        ensures FirstStamp(k, evs) == Some(StampOf(evs[i].part))
      {
        if i < |before| { assert before[i] == evs[i] && before[..i] == evs[..i]; }
      }
    }
  }

  lemma StampedPrefix(m: Message, evs: seq<Event>)
    requires evs != [] && FirstStamped(m, evs)
    ensures FirstStamped(m, evs[..|evs| - 1])
    ensures Own(MessageKey(m), evs[|evs| - 1]) && Seen(MessageKey(m), evs[..|evs| - 1]) == {} ==> StampOf(evs[|evs| - 1].part) == m.stamp
  {
    hide Seen, Key;
    var before := evs[..|evs| - 1];
    forall i | 0 <= i < |before| && Own(MessageKey(m), before[i]) && Seen(MessageKey(m), before[..i]) == {}
      ensures StampOf(before[i].part) == m.stamp
    {
      assert before[i] == evs[i] && before[..i] == evs[..i];
    }
  }

  lemma UncutPrefix(k: string, evs: seq<Event>)
    requires evs != [] && Uncut(k, evs)
    ensures Uncut(k, evs[..|evs| - 1])
    ensures OwnTimer(k, evs[|evs| - 1]) ==> Seen(k, evs[..|evs| - 1]) == {}
  {
    hide Seen, OwnTimer;
    var before := evs[..|evs| - 1];
    forall i | 0 <= i < |before| && OwnTimer(k, before[i]) ensures Seen(k, before[..i]) == {} {
      assert before[i] == evs[i] && before[..i] == evs[..i];
    }
  }

  /** The part numbers 1 .. n. */
  function Numbers(n: nat): (r: set<int>)
    ensures forall i :: i in r <==> 1 <= i <= n
  {
    if n == 0 then {} else Numbers(n - 1) + {n}
  }

  function Collected(m: Message, seen: set<int>): map<int, string> {
    map i | i in seen && 1 <= i <= |m.texts| :: m.texts[i - 1]
  }

  lemma {:induction false} NumbersSize(n: nat)
    ensures |Numbers(n)| == n
  {
    if n > 0 {
      NumbersSize(n - 1);
    }
  }

  lemma SubsetSize(a: set<int>, b: set<int>)
    requires a <= b
    ensures |a| <= |b| && (|a| == |b| <==> a == b)
  {
    assert b == a + (b - a);
    assert |b| == |a| + |b - a|;
    if |b - a| == 0 {
      assert b - a == {};
    }
  }

  /** A set of part numbers is complete exactly when it has as many elements as the message has parts. */
  lemma CompleteWhenFull(m: Message, seen: set<int>)
    requires seen <= Numbers(|m.texts|)
    ensures |Collected(m, seen)| == |seen| <= |m.texts|
    ensures |Collected(m, seen)| == |m.texts| <==> seen == Numbers(|m.texts|)
  {
    NumbersSize(|m.texts|);
    SubsetSize(seen, Numbers(|m.texts|));
    assert Collected(m, seen).Keys == seen;
  }

  lemma {:induction false} FlattenSnoc(parts: seq<string>, t: string)
    ensures Flatten(parts + [t]) == Flatten(parts) + t
  {
    if parts == [] {
      assert [t][1..] == [];
      assert parts + [t] == [t];
    } else {
      assert (parts + [t])[1..] == parts[1..] + [t];
      FlattenSnoc(parts[1..], t);
    }
  }

  lemma {:induction false} JoinIsFlatten(m: Message, n: nat)
    requires n <= |m.texts|
    ensures Join(Collected(m, Numbers(|m.texts|)), n) == Flatten(m.texts[..n])
  {
    if n > 0 {
      JoinIsFlatten(m, n - 1);
      assert m.texts[..n] == m.texts[..n - 1] + [m.texts[n - 1]];
      FlattenSnoc(m.texts[..n - 1], m.texts[n - 1]);
    }
  }

  // ---------------------------------------------------------------- collecting

  ghost predicate Holds(m: Message, e: Entry, seen: set<int>) {
    && e.from == m.from && e.parts == Collected(m, seen) && e.totalParts == |m.texts|
    && Stamp(e.timestamp, e.encoding) == m.stamp
  }

  ghost predicate Collecting(m: Message, s: Slot, seen: set<int>, lo: int, hi: int) {
    && seen < Numbers(|m.texts|)
    && (seen == {} ==> s == Idle)
    && (seen != {} ==> s.Pending? && Holds(m, s.e, seen) && lo <= s.e.since <= hi)
  }

  ghost predicate InTime(cfg: Config, lo: int, hi: int) { cfg.ttl > 0 ==> hi - lo <= cfg.ttl }

  lemma AddToCollected(m: Message, seen: set<int>, i: int)
    requires 1 <= i <= |m.texts|
    ensures Collected(m, seen)[i := m.texts[i - 1]] == Collected(m, seen + {i})
  {
  }

  lemma CollectedNothing(m: Message)
    ensures Collected(m, {}) == map[]
  {
  }

  /** The message as AddPart hands it on. */
  ghost predicate Whole(m: Message, out: Option<Assembled>, update: bool) {
    && out.Some?
    && out.value.from == m.from
    && out.value.text == (if update then "[Updated] " + Flatten(m.texts) else Flatten(m.texts))
    && out.value.segments == |m.texts| && out.value.isComplete && out.value.isUpdate == update
    && Stamp(out.value.timestamp, out.value.encoding) == m.stamp
  }

  /** A part while collecting: nothing is handed on until the missing part arrives, then the whole message. */
  lemma CollectPart(cfg: Config, m: Message, s: Slot, seen: set<int>, ev: Event, lo: int, hi: int)
    requires ValidMessage(m) && InTime(cfg, lo, hi)
    requires Collecting(m, s, seen, lo, hi) && GoodSlot(s)
    requires Calm(m, ev, lo, hi) && Own(MessageKey(m), ev) && (seen == {} ==> StampOf(ev.part) == m.stamp)
    ensures var (s', out) := SlotStep(cfg, MessageKey(m), s, ev);
            var seen' := seen + {ev.part.partNumber};
            if seen' == Numbers(|m.texts|) then s' == Idle && Whole(m, out, false)
            else Collecting(m, s', seen', lo, hi) && out == None
  {
    hide Join, Summary, Available, Key, Collected, Numbers;
    var i := ev.part.partNumber;
    AddToCollected(m, seen, i);
    CollectedNothing(m);
    CompleteWhenFull(m, seen + {i});
    JoinIsFlatten(m, |m.texts|);
    assert m.texts[..|m.texts|] == m.texts;
  }

  /** Whatever else happens leaves the collected parts alone. */
  lemma CollectOther(cfg: Config, m: Message, s: Slot, seen: set<int>, ev: Event, lo: int, hi: int)
    requires InTime(cfg, lo, hi)
    requires Collecting(m, s, seen, lo, hi) && GoodSlot(s)
    requires Calm(m, ev, lo, hi) && !Own(MessageKey(m), ev)
    requires OwnTimer(MessageKey(m), ev) ==> seen == {}
    ensures SlotStep(cfg, MessageKey(m), s, ev).0 == s
    ensures OwnTimer(MessageKey(m), ev) ==> SlotStep(cfg, MessageKey(m), s, ev).1 == None
  {
    hide Key;
  }

  lemma {:induction false} CollectRun(cfg: Config, st: State, m: Message, evs: seq<Event>, lo: int, hi: int)
    requires Inv(st) && ValidMessage(m) && InTime(cfg, lo, hi)
    requires View(st, MessageKey(m)) == Idle
    requires AllCalm(m, evs, lo, hi) && Uncut(MessageKey(m), evs) && FirstStamped(m, evs)
    requires Seen(MessageKey(m), evs) != Numbers(|m.texts|)
    ensures Collecting(m, View(Run(cfg, st, evs), MessageKey(m)), Seen(MessageKey(m), evs), lo, hi)
    ensures forall i :: 0 <= i < |evs| && Concerns(MessageKey(m), evs[i]) ==> Output(cfg, st, evs, i) == None
  {
    hide Key, Step, SlotStep, View, Collecting, Numbers, Uncut, FirstStamped;
    var k := MessageKey(m);
    if evs == [] {
      CollectStart(m, lo, hi);
    } else {
      var n := |evs| - 1;
      var before := evs[..n];
      SeenWithin(m, before, lo, hi);
      SeenWithin(m, evs, lo, hi);
      UncutPrefix(k, evs);
      StampedPrefix(m, evs);
      CollectRun(cfg, st, m, before, lo, hi);
      var st' := Run(cfg, st, before);
      Projection(cfg, st', evs[n], k);
      if Own(k, evs[n]) {
        CollectPart(cfg, m, View(st', k), Seen(k, before), evs[n], lo, hi);
      } else {
        CollectOther(cfg, m, View(st', k), Seen(k, before), evs[n], lo, hi);
        assert Seen(k, evs) == Seen(k, before);
      }
      OutputsBefore(cfg, st, evs);
    }
  }

  lemma CollectStart(m: Message, lo: int, hi: int)
    requires ValidMessage(m)
    ensures Collecting(m, Idle, {}, lo, hi)
  {
    assert 1 in Numbers(|m.texts|);
  }

  /** A calm run only brings numbers of the message, and a longer run brings no fewer. */
  lemma {:induction false} SeenWithin(m: Message, evs: seq<Event>, lo: int, hi: int)
    requires AllCalm(m, evs, lo, hi)
    ensures Seen(MessageKey(m), evs) <= Numbers(|m.texts|)
    ensures evs != [] && Seen(MessageKey(m), evs) != Numbers(|m.texts|)
            ==> Seen(MessageKey(m), evs[..|evs| - 1]) != Numbers(|m.texts|)
  {
    hide Key;
    if evs != [] {
      assert Calm(m, evs[|evs| - 1], lo, hi);
      SeenWithin(m, evs[..|evs| - 1], lo, hi);
    }
  }

  /** Outputs of a prefix are outputs of the run. */
  lemma OutputsBefore(cfg: Config, st: State, evs: seq<Event>)
    requires Inv(st) && evs != []
    ensures forall i :: 0 <= i < |evs| - 1 ==> Output(cfg, st, evs[..|evs| - 1], i) == Output(cfg, st, evs, i)
  {
    hide Step;
    forall i | 0 <= i < |evs| - 1 ensures Output(cfg, st, evs[..|evs| - 1], i) == Output(cfg, st, evs, i) {
      assert evs[..|evs| - 1][..i] == evs[..i];
    }
  }

  /** What was sent is what is reassembled: parts in any order, repeated or not, between any other traffic.
      Nothing is handed on before the last missing part, then the texts in part order, and the key is free. */
  lemma Reassembles(cfg: Config, st: State, m: Message, evs: seq<Event>, lo: int, hi: int)
    requires Inv(st) && ValidMessage(m) && InTime(cfg, lo, hi)
    requires View(st, MessageKey(m)) == Idle
    requires evs != [] && AllCalm(m, evs, lo, hi) && Uncut(MessageKey(m), evs) && FirstStamped(m, evs)
    requires Seen(MessageKey(m), evs[..|evs| - 1]) != Numbers(|m.texts|)
    requires Seen(MessageKey(m), evs) == Numbers(|m.texts|)
    ensures forall i :: 0 <= i < |evs| - 1 && Concerns(MessageKey(m), evs[i]) ==> Output(cfg, st, evs, i) == None
    ensures Whole(m, Output(cfg, st, evs, |evs| - 1), false)
    ensures View(Run(cfg, st, evs), MessageKey(m)) == Idle
  {
    hide Key, Step, SlotStep, View, Collecting, Numbers, Whole, Uncut, FirstStamped;
    var k := MessageKey(m);
    var n := |evs| - 1;
    UncutPrefix(k, evs);
    StampedPrefix(m, evs);
    CollectRun(cfg, st, m, evs[..n], lo, hi);
    var st' := Run(cfg, st, evs[..n]);
    Projection(cfg, st', evs[n], k);
    CollectPart(cfg, m, View(st', k), Seen(k, evs[..n]), evs[n], lo, hi);
    OutputsBefore(cfg, st, evs);
  }

  // ---------------------------------------------------------------- late parts

  ghost predicate Late(m: Message, s: Slot, seen: set<int>, flushedAt: int) {
    && {} < seen < Numbers(|m.texts|)
    && s.Flushed? && Holds(m, s.e, seen) && s.e.since == flushedAt
  }

  predicate Bounds(seen: set<int>, lo: int, hi: int) { lo in seen && hi in seen && forall i :: i in seen ==> lo <= i <= hi }

  /** Part `i` of the message, or a mark in its place. */
  function Fragment(m: Message, seen: set<int>, i: int): string {
    if i in seen && 1 <= i <= |m.texts| then m.texts[i - 1] else " [...] "
  }

  function Fragments(m: Message, seen: set<int>, lo: int, hi: int): (fs: seq<string>)
    requires lo <= hi + 1
    ensures |fs| == hi + 1 - lo
  {
    seq(hi + 1 - lo, i requires 0 <= i => Fragment(m, seen, lo + i))
  }

  /** From the first to the last part that has arrived, every part in order, or a mark where it is missing. */
  ghost predicate Shows(m: Message, seen: set<int>, body: string) {
    exists lo, hi :: Bounds(seen, lo, hi) && body == Flatten(Fragments(m, seen, lo, hi))
  }

  predicate Ascending(nums: seq<int>) { forall i, j :: 0 <= i < j < |nums| ==> nums[i] < nums[j] }

  /** The numbers that have arrived, ascending, and the number of parts. */
  ghost predicate Lists(m: Message, seen: set<int>, heading: string) {
    && HasPrefix(heading, "Part ")
    && var (nums, total) := ReadSummary(heading);
       && total == |m.texts|
       && (forall i :: i in nums <==> i in seen) && Ascending(nums)
  }

  /** What a text about an incomplete message tells its reader. */
  ghost predicate Tells(m: Message, seen: set<int>, lead: string, text: string) {
    exists heading, body :: text == lead + heading + "]: " + body && Lists(m, seen, heading) && Shows(m, seen, body)
  }

  lemma {:induction false} AvailableShows(m: Message, seen: set<int>, lo: int, hi: int, n: nat)
    requires seen <= Numbers(|m.texts|) && Bounds(seen, lo, hi) && n <= |m.texts|
    ensures Available(Collected(m, seen), |m.texts|, n)
         == if n < lo then [] else Flatten(Fragments(m, seen, lo, if n < hi then n else hi))
  {
    hide Numbers, Bounds, Gap, Collected, Fragment, Fragments, Flatten;
    BoundsAre(seen, lo, hi);
    InNumbers(seen, |m.texts|, lo);
    if n > 0 {
      AvailableShows(m, seen, lo, hi, n - 1);
      PieceShown(m, seen, lo, hi, n);
      var before := Available(Collected(m, seen), |m.texts|, n - 1);
      assert before + [] == before;
      if lo <= n <= hi {
        FragmentsSnoc(m, seen, lo, n);
        assert n - 1 < hi;
      }
    }
  }

  lemma BoundsAre(seen: set<int>, lo: int, hi: int)
    requires Bounds(seen, lo, hi)
    ensures lo in seen && hi in seen && lo <= hi
  {
  }

  /** What one part number adds to the text. */
  lemma PieceShown(m: Message, seen: set<int>, lo: int, hi: int, n: nat)
    requires seen <= Numbers(|m.texts|) && Bounds(seen, lo, hi) && 0 < n <= |m.texts|
    ensures var parts, total := Collected(m, seen), |m.texts|;
            (if Gap(parts, total, n) then " [...] " else TextAt(parts, n))
            == if lo <= n <= hi then Fragment(m, seen, n) else []
  {
    hide Numbers;
    var parts, total := Collected(m, seen), |m.texts|;
    InNumbers(seen, total, lo);
    InNumbers(seen, total, hi);
    assert forall i :: i in parts <==> i in seen && 1 <= i <= total;
    assert n in seen ==> lo <= n <= hi;
    assert lo in parts && hi in parts;
  }

  lemma FragmentsSnoc(m: Message, seen: set<int>, lo: int, n: int)
    requires lo <= n
    ensures Flatten(Fragments(m, seen, lo, n)) == Flatten(Fragments(m, seen, lo, n - 1)) + Fragment(m, seen, n)
    ensures n == lo ==> Flatten(Fragments(m, seen, lo, n - 1)) == []
  {
    hide Fragment;
    assert Fragments(m, seen, lo, n) == Fragments(m, seen, lo, n - 1) + [Fragment(m, seen, n)];
    FlattenSnoc(Fragments(m, seen, lo, n - 1), Fragment(m, seen, n));
  }

  /** A set of part numbers that is not empty has a first and a last one. */
  lemma {:induction false} HasBounds(seen: set<int>, n: nat) returns (lo: int, hi: int)
    requires seen != {} && seen <= Numbers(n)
    ensures Bounds(seen, lo, hi)
    decreases n
  {
    if seen == {n} {
      lo, hi := n, n;
    } else if n in seen {
      var rest := seen - {n};
      lo, hi := HasBounds(rest, n - 1);
      assert forall i :: i in seen <==> i == n || i in rest;
      hi := n;
    } else {
      lo, hi := HasBounds(seen, n - 1);
    }
  }

  /** The texts of the assembler about an incomplete message say which parts are there, and show them. */
  lemma TextTells(m: Message, seen: set<int>, lead: string)
    requires seen != {} && seen <= Numbers(|m.texts|)
    ensures var parts, total := Collected(m, seen), |m.texts|;
            Tells(m, seen, lead, lead + Summary(parts, total) + "]: " + Available(parts, total, total))
  {
    hide Summary, Available, ReadSummary, Numbers;
    var parts, total := Collected(m, seen), |m.texts|;
    var lo, hi := HasBounds(seen, total);
    InNumbers(seen, total, hi);
    AvailableShows(m, seen, lo, hi, total);
    SummaryReadable(parts, total);
    PresentIsSeen(m, seen);
    assert Lists(m, seen, Summary(parts, total));
    assert Shows(m, seen, Available(parts, total, total));
  }

  lemma InNumbers(seen: set<int>, n: nat, i: int)
    requires seen <= Numbers(n) && i in seen
    ensures 1 <= i <= n
  {
  }

  lemma PresentIsSeen(m: Message, seen: set<int>)
    requires seen <= Numbers(|m.texts|)
    ensures var nums := Present(Collected(m, seen), |m.texts|);
            (forall i :: i in nums <==> i in seen) && Ascending(nums)
  {
    PresentAscending(Collected(m, seen), |m.texts|);
  }

  lemma {:induction false} PresentAscending(parts: map<int, string>, n: nat)
    ensures Ascending(Present(parts, n))
  {
    if n > 0 {
      PresentAscending(parts, n - 1);
      var before, nums := Present(parts, n - 1), Present(parts, n);
      forall i, j | 0 <= i < j < |nums| ensures nums[i] < nums[j] {
        assert before[i] in before && nums[i] == before[i] <= n - 1;
        if j < |before| { assert nums[j] == before[j]; } else { assert nums[j] == n; }
      }
    }
  }

  /** An update counts the parts so far and tells which they are. */
  ghost predicate PartialUpdate(m: Message, out: Option<Assembled>, seen: set<int>) {
    && out.Some? && out.value.from == m.from && out.value.segments == |seen|
    && !out.value.isComplete && out.value.isUpdate
    && Stamp(out.value.timestamp, out.value.encoding) == m.stamp
    && Tells(m, seen, "[Updated ", out.value.text)
  }

  /** The notice of a flush shows at least what had arrived, and exactly that unless another part raced it. */
  ghost predicate Notice(m: Message, out: Option<Assembled>, seen: set<int>, racing: map<int, string>) {
    && out.Some? && out.value.from == m.from && !out.value.isComplete && !out.value.isUpdate
    && Stamp(out.value.timestamp, out.value.encoding) == m.stamp
    && out.value.segments >= |seen|
    && (racing == map[] ==> out.value.segments == |seen| && Tells(m, seen, "[", out.value.text))
  }

  /** A timer that fires while collecting turns the message into a flushed one and reports what is there. */
  lemma FlushCollected(cfg: Config, m: Message, s: Slot, seen: set<int>, now: int, racing: map<int, string>, lo: int, hi: int)
    requires ValidMessage(m) && Collecting(m, s, seen, lo, hi) && GoodSlot(s) && seen != {}
    ensures var (s', out) := SlotStep(cfg, MessageKey(m), s, Fire(now, MessageKey(m), racing));
            Late(m, s', seen, now) && Notice(m, out, seen, racing)
  {
    hide Summary, Available, Key, Tells, Collected, Numbers;
    CompleteWhenFull(m, seen);
    SubsetSize(s.e.parts.Keys, (s.e.parts + racing).Keys);
    TextTells(m, seen, "[");
    assert racing == map[] ==> s.e.parts + racing == s.e.parts;
  }

  lemma LatePart(cfg: Config, m: Message, s: Slot, seen: set<int>, ev: Event, flushedAt: int)
    requires ValidMessage(m) && Late(m, s, seen, flushedAt) && GoodSlot(s)
    requires Calm(m, ev, flushedAt, flushedAt + FlushedTtl(cfg)) && Own(MessageKey(m), ev)
    ensures var (s', out) := SlotStep(cfg, MessageKey(m), s, ev);
            var seen' := seen + {ev.part.partNumber};
            if seen' == Numbers(|m.texts|) then s' == Idle && Whole(m, out, true)
            else Late(m, s', seen', flushedAt) && PartialUpdate(m, out, seen')
  {
    hide Join, Summary, Available, Key, Collected, Numbers, Tells;
    var i := ev.part.partNumber;
    AddToCollected(m, seen, i);
    CompleteWhenFull(m, seen + {i});
    JoinIsFlatten(m, |m.texts|);
    assert m.texts[..|m.texts|] == m.texts;
    TextTells(m, seen + {i}, "[Updated ");
  }

  lemma LateOther(cfg: Config, m: Message, s: Slot, seen: set<int>, ev: Event, flushedAt: int)
    requires Late(m, s, seen, flushedAt) && GoodSlot(s)
    requires Calm(m, ev, flushedAt, flushedAt + FlushedTtl(cfg)) && !Own(MessageKey(m), ev)
    ensures SlotStep(cfg, MessageKey(m), s, ev).0 == s
    ensures OwnTimer(MessageKey(m), ev) ==> SlotStep(cfg, MessageKey(m), s, ev).1 == None
  {
    hide Key;
  }

  /** One more event of a run whose late parts are not complete yet. */
  lemma LateStep(cfg: Config, st: State, m: Message, seen: set<int>, ev: Event, flushedAt: int)
    requires Inv(st) && ValidMessage(m)
    requires Late(m, View(st, MessageKey(m)), seen, flushedAt)
    requires Calm(m, ev, flushedAt, flushedAt + FlushedTtl(cfg))
    requires seen + Seen(MessageKey(m), [ev]) != Numbers(|m.texts|)
    ensures Late(m, View(Step(cfg, st, ev).0, MessageKey(m)), seen + Seen(MessageKey(m), [ev]), flushedAt)
    ensures Own(MessageKey(m), ev) ==> PartialUpdate(m, Step(cfg, st, ev).1, seen + Seen(MessageKey(m), [ev]))
    ensures OwnTimer(MessageKey(m), ev) ==> Step(cfg, st, ev).1 == None
  {
    hide Key, Step, SlotStep, View, Numbers, PartialUpdate, FlushedTtl;
    var k := MessageKey(m);
    Projection(cfg, st, ev, k);
    assert [ev][..0] == [];
    if Own(k, ev) {
      LatePart(cfg, m, View(st, k), seen, ev, flushedAt);
      assert Seen(k, [ev]) == {ev.part.partNumber};
    } else {
      LateOther(cfg, m, View(st, k), seen, ev, flushedAt);
      assert seen + Seen(k, [ev]) == seen;
    }
  }

  lemma SeenSnoc(k: string, evs: seq<Event>)
    requires evs != []
    ensures Seen(k, evs) == Seen(k, evs[..|evs| - 1]) + Seen(k, [evs[|evs| - 1]])
  {
    var ev := evs[|evs| - 1];
    assert [ev][..0] == [];
    assert Seen(k, [ev]) == if Own(k, ev) then {ev.part.partNumber} else {};
  }

  lemma {:induction false} LateRun(cfg: Config, st: State, m: Message, already: set<int>, evs: seq<Event>, flushedAt: int)
    requires Inv(st) && ValidMessage(m)
    requires Late(m, View(st, MessageKey(m)), already, flushedAt)
    requires AllCalm(m, evs, flushedAt, flushedAt + FlushedTtl(cfg))
    requires already + Seen(MessageKey(m), evs) != Numbers(|m.texts|)
    ensures Late(m, View(Run(cfg, st, evs), MessageKey(m)), already + Seen(MessageKey(m), evs), flushedAt)
    ensures forall i :: 0 <= i < |evs| && Own(MessageKey(m), evs[i]) ==>
              PartialUpdate(m, Output(cfg, st, evs, i), already + Seen(MessageKey(m), evs[..i + 1]))
    ensures forall i :: 0 <= i < |evs| && OwnTimer(MessageKey(m), evs[i]) ==> Output(cfg, st, evs, i) == None
  {
    hide Key, Step, SlotStep, View, Numbers, PartialUpdate, FlushedTtl, Own, OwnTimer, Calm;
    var k := MessageKey(m);
    if evs == [] {
      assert already + Seen(k, evs) == already;
    } else {
      var n := |evs| - 1;
      var before := evs[..n];
      var hi := flushedAt + FlushedTtl(cfg);
      SeenSnoc(k, evs);
      assert already + Seen(k, evs) == already + Seen(k, before) + Seen(k, [evs[n]]);
      SeenWithin(m, evs, flushedAt, hi);
      assert already + Seen(k, before) != Numbers(|m.texts|);
      LateRun(cfg, st, m, already, before, flushedAt);
      LateStep(cfg, Run(cfg, st, before), m, already + Seen(k, before), evs[n], flushedAt);
      OutputsBefore(cfg, st, evs);
      forall i | 0 <= i < |evs| && Own(k, evs[i])
        ensures PartialUpdate(m, Output(cfg, st, evs, i), already + Seen(k, evs[..i + 1]))
      {
        if i < n {
          assert before[..i + 1] == evs[..i + 1] && before[i] == evs[i];
        } else {
          assert evs[..i + 1] == evs;
        }
      }
    }
  }

  lemma {:induction false} RunConcat(cfg: Config, st: State, a: seq<Event>, b: seq<Event>)
    requires Inv(st)
    ensures Run(cfg, st, a + b) == Run(cfg, Run(cfg, st, a), b)
    decreases |b|
  {
    hide Step;
    if b == [] {
      assert a + b == a;
    } else {
      assert (a + b)[..|a + b| - 1] == a + b[..|b| - 1];
      RunConcat(cfg, st, a, b[..|b| - 1]);
    }
  }

  /** The run before the cut, the flush, and the late parts. */
  function CutRun(m: Message, early: seq<Event>, flushedAt: int, racing: map<int, string>, late: seq<Event>): seq<Event> {
    early + [Fire(flushedAt, MessageKey(m), racing)] + late
  }

  /** A late part hands on an incomplete update that counts the parts so far; a stale timer hands on nothing. */
  ghost predicate Updating(m: Message, ev: Event, out: Option<Assembled>, seen: set<int>) {
    && (Own(MessageKey(m), ev) ==> PartialUpdate(m, out, seen))
    && (OwnTimer(MessageKey(m), ev) ==> out == None)
  }

  /** Late parts on a flushed message: an update each, the last missing one the whole text. */
  lemma LateCompletes(cfg: Config, st: State, m: Message, already: set<int>, late: seq<Event>, flushedAt: int)
    requires Inv(st) && ValidMessage(m)
    requires Late(m, View(st, MessageKey(m)), already, flushedAt)
    requires late != [] && AllCalm(m, late, flushedAt, flushedAt + FlushedTtl(cfg))
    requires already + Seen(MessageKey(m), late[..|late| - 1]) != Numbers(|m.texts|)
    requires already + Seen(MessageKey(m), late) == Numbers(|m.texts|)
    ensures forall i :: 0 <= i < |late| - 1 ==>
              Updating(m, late[i], Output(cfg, st, late, i), already + Seen(MessageKey(m), late[..i + 1]))
    ensures Whole(m, Output(cfg, st, late, |late| - 1), true)
    ensures View(Run(cfg, st, late), MessageKey(m)) == Idle
  {
    hide Key, Step, SlotStep, View, Numbers, Whole, FlushedTtl, Late, Seen;
    var k := MessageKey(m);
    var last := |late| - 1;
    LateRun(cfg, st, m, already, late[..last], flushedAt);
    var st' := Run(cfg, st, late[..last]);
    Projection(cfg, st', late[last], k);
    LastOwn(m, already, late, flushedAt, flushedAt + FlushedTtl(cfg));
    LatePart(cfg, m, View(st', k), already + Seen(k, late[..last]), late[last], flushedAt);
    OutputsBefore(cfg, st, late);
    forall i | 0 <= i < last ensures Updating(m, late[i], Output(cfg, st, late, i), already + Seen(k, late[..i + 1])) {
      assert late[..last][i] == late[i] && late[..last][..i + 1] == late[..i + 1];
    }
  }

  /** The flush itself. */
  lemma FlushCut(cfg: Config, st: State, m: Message, early: seq<Event>, flushedAt: int, racing: map<int, string>,
                 lo: int, hi: int)
    requires Inv(st) && ValidMessage(m) && InTime(cfg, lo, hi)
    requires View(st, MessageKey(m)) == Idle
    requires AllCalm(m, early, lo, hi) && Uncut(MessageKey(m), early) && FirstStamped(m, early)
    requires Seen(MessageKey(m), early) != {} && Seen(MessageKey(m), early) != Numbers(|m.texts|)
    ensures var k := MessageKey(m);
            var evs := early + [Fire(flushedAt, k, racing)];
            && Late(m, View(Run(cfg, st, evs), k), Seen(k, early), flushedAt)
            && Notice(m, Output(cfg, st, evs, |early|), Seen(k, early), racing)
  {
    hide Key, Step, SlotStep, View, Numbers, Notice, Collecting, Late, Seen, Uncut, FirstStamped;
    var k := MessageKey(m);
    var fire := Fire(flushedAt, k, racing);
    CollectRun(cfg, st, m, early, lo, hi);
    var st1 := Run(cfg, st, early);
    Projection(cfg, st1, fire, k);
    FlushCollected(cfg, m, View(st1, k), Seen(k, early), flushedAt, racing, lo, hi);
    RunConcat(cfg, st, early, [fire]);
    RunOne(cfg, st1, fire);
    OutputOne(cfg, st1, fire);
    OutputSecond(cfg, st, early, [fire], 0);
  }

  /** Any arrival order cut at any point by a timer: the flush reports an incomplete message, every late part
      an update of it, and the part that was still missing the whole text once, after which the key is free.
      Stale timers of the message, before and after, do nothing. */
  lemma LatePartsComplete(cfg: Config, st: State, m: Message, early: seq<Event>, flushedAt: int,
                          racing: map<int, string>, late: seq<Event>, lo: int, hi: int)
    requires Inv(st) && ValidMessage(m) && InTime(cfg, lo, hi)
    requires View(st, MessageKey(m)) == Idle
    requires AllCalm(m, early, lo, hi) && Uncut(MessageKey(m), early) && FirstStamped(m, early)
    requires late != [] && AllCalm(m, late, flushedAt, flushedAt + FlushedTtl(cfg))
    requires Seen(MessageKey(m), early) != {}
    requires Seen(MessageKey(m), early) + Seen(MessageKey(m), late[..|late| - 1]) != Numbers(|m.texts|)
    requires Seen(MessageKey(m), early) + Seen(MessageKey(m), late) == Numbers(|m.texts|)
    ensures var evs, cut := CutRun(m, early, flushedAt, racing, late), |early|;
            && (forall i :: 0 <= i < cut && Concerns(MessageKey(m), evs[i]) ==> Output(cfg, st, evs, i) == None)
            && Notice(m, Output(cfg, st, evs, cut), Seen(MessageKey(m), early), racing)
            && (forall i :: cut < i < |evs| - 1 ==>
                  Updating(m, evs[i], Output(cfg, st, evs, i), Seen(MessageKey(m), early) + Seen(MessageKey(m), late[..i - cut])))
            && Whole(m, Output(cfg, st, evs, |evs| - 1), true)
            && View(Run(cfg, st, evs), MessageKey(m)) == Idle
  {
    hide Key, Step, View, Numbers, Whole, FlushedTtl, Collecting, Late, Seen, Run, Output, Notice, Updating,
         Inv, AllCalm, Uncut, FirstStamped, Concerns, InTime, ValidMessage, MessageKey;
    var k := MessageKey(m);
    var evs, cut, last := CutRun(m, early, flushedAt, racing, late), |early|, |late| - 1;
    var fire := Fire(flushedAt, k, racing);
    var head := early + [fire];
    assert evs == head + late && evs == early + ([fire] + late);
    SeenEarly(m, early, lo, hi, Seen(k, late[..last]), late, flushedAt, flushedAt + FlushedTtl(cfg));
    CollectRun(cfg, st, m, early, lo, hi);
    FlushCut(cfg, st, m, early, flushedAt, racing, lo, hi);
    OutputFirst(cfg, st, head, late, cut);
    var st' := Run(cfg, st, head);
    LateCompletes(cfg, st', m, Seen(k, early), late, flushedAt);
    RunConcat(cfg, st, head, late);
    OutputSecond(cfg, st, head, late, last);
    forall i | 0 <= i < cut && Concerns(k, evs[i]) ensures Output(cfg, st, evs, i) == None {
      OutputFirst(cfg, st, early, [fire] + late, i);
    }
    forall i | cut < i < |evs| - 1
      ensures Updating(m, evs[i], Output(cfg, st, evs, i), Seen(k, early) + Seen(k, late[..i - cut]))
    {
      assert evs[i] == late[i - cut - 1];
      OutputSecond(cfg, st, head, late, i - cut - 1);
    }
  }

  lemma OutputFirst(cfg: Config, st: State, a: seq<Event>, b: seq<Event>, i: nat)
    requires Inv(st) && i < |a|
    ensures Output(cfg, st, a + b, i) == Output(cfg, st, a, i)
  {
    hide Step;
    assert (a + b)[..i] == a[..i];
  }

  lemma OutputSecond(cfg: Config, st: State, a: seq<Event>, b: seq<Event>, j: nat)
    requires Inv(st) && j < |b|
    ensures Output(cfg, st, a + b, |a| + j) == Output(cfg, Run(cfg, st, a), b, j)
  {
    hide Step;
    assert (a + b)[..|a| + j] == a + b[..j];
    RunConcat(cfg, st, a, b[..j]);
  }

  lemma OutputOne(cfg: Config, st: State, ev: Event)
    requires Inv(st)
    ensures Output(cfg, st, [ev], 0) == Step(cfg, st, ev).1
  {
    hide Step;
    assert [ev][..0] == [];
    assert Run(cfg, st, []) == st;
  }

  lemma RunOne(cfg: Config, st: State, ev: Event)
    requires Inv(st)
    ensures Run(cfg, st, [ev]) == Step(cfg, st, ev).0
  {
    hide Step;
    assert [ev][..0] == [];
    assert Run(cfg, st, []) == st;
  }

  /** The early parts alone are not all of them. */
  lemma SeenEarly(m: Message, early: seq<Event>, lo: int, hi: int, lateSeen: set<int>, late: seq<Event>, lo': int, hi': int)
    requires AllCalm(m, early, lo, hi) && AllCalm(m, late, lo', hi') && late != []
    requires lateSeen == Seen(MessageKey(m), late[..|late| - 1])
    requires Seen(MessageKey(m), early) + lateSeen != Numbers(|m.texts|)
    ensures Seen(MessageKey(m), early) != Numbers(|m.texts|)
  {
    SeenWithin(m, early, lo, hi);
    SeenWithin(m, late[..|late| - 1], lo', hi');
  }

  /** The event that completes the numbers is a part of the message. */
  lemma LastOwn(m: Message, already: set<int>, evs: seq<Event>, lo: int, hi: int)
    requires evs != [] && AllCalm(m, evs, lo, hi)
    requires already + Seen(MessageKey(m), evs[..|evs| - 1]) != already + Seen(MessageKey(m), evs)
    ensures Own(MessageKey(m), evs[|evs| - 1])
    ensures already + Seen(MessageKey(m), evs)
         == already + Seen(MessageKey(m), evs[..|evs| - 1]) + {evs[|evs| - 1].part.partNumber}
  {
  }
}
