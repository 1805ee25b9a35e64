/** Delivery tracking (internal/sms/tracker.go): sends, reports and timeouts in any interleaving. */
module Tracker {
  import opened Octets
  import opened Text
  import opened Phone
  import StatusReport
  import Address

  datatype Status = Pending | Delivered | Failed | Expired

  datatype DeliveryEvent = DeliveryEvent(messageRef: byte, to: string, status: Status, modemID: string)

  datatype Item = Item(ref: byte, to: string, modemID: string)

  function KeyOf(item: Item): string { MakeKey(item.to, item.ref) }

  /** What became of a tracked send. */
  datatype Fate = Open | Overwritten | Closed

  datatype Entry = Entry(item: Item, fate: Fate)

  datatype Closing = Closing(id: nat, event: DeliveryEvent)

  /** The books of a run: every Track in order, which of them are pending, and the closing events. */
  datatype Ledger = Ledger(entries: seq<Entry>, open: map<string, nat>, closings: seq<Closing>)

  /** `Timeout` is a timer callback: it may be stale, and then hits whatever the key holds by now. */
  datatype Op = Track(item: Item) | Report(report: StatusReport.Report) | Timeout(key: string)

  // ---------------------------------------------------------------- the transitions

  function ReportStatus(r: StatusReport.Report): Status {
    if r.Delivered() then Delivered else if r.Permanent() then Failed else Pending
  }

  function TrackStep(l: Ledger, item: Item): Ledger {
    var k := KeyOf(item);
    var before := if k in l.open && l.open[k] < |l.entries|
                  then l.entries[l.open[k] := l.entries[l.open[k]].(fate := Overwritten)] else l.entries;
    Ledger(before + [Entry(item, Open)], l.open[k := |l.entries|], l.closings)
  }

  function CloseStep(l: Ledger, k: string, event: DeliveryEvent): Ledger
    requires k in l.open && l.open[k] < |l.entries|
  {
    var id := l.open[k];
    Ledger(l.entries[id := l.entries[id].(fate := Closed)], l.open - {k}, l.closings + [Closing(id, event)])
  }

  function Apply(l: Ledger, op: Op): Ledger {
    match op
    case Track(item) => TrackStep(l, item)
    case Report(r) =>
      var k := MakeKey(r.recipient, r.messageRef);
      if k in l.open && l.open[k] < |l.entries| then
        var item := l.entries[l.open[k]].item;
        CloseStep(l, k, DeliveryEvent(r.messageRef, item.to, ReportStatus(r), item.modemID))
      else l
    case Timeout(k) =>
      if k in l.open && l.open[k] < |l.entries| then
        var item := l.entries[l.open[k]].item;
        CloseStep(l, k, DeliveryEvent(item.ref, item.to, Expired, item.modemID))
      else l
  }

  function Run(ops: seq<Op>): Ledger {
    if ops == [] then Ledger([], map[], []) else Apply(Run(ops[..|ops| - 1]), ops[|ops| - 1])
  }

  // ---------------------------------------------------------------- what every step keeps

  function CountFate(es: seq<Entry>, f: Fate): nat {
    if es == [] then 0 else CountFate(es[..|es| - 1], f) + if es[|es| - 1].fate == f then 1 else 0
  }

  /** A closing event belongs to a tracked send that is closed now, and repeats its recipient, reference and modem. */
  ghost predicate Matches(l: Ledger, c: Closing) {
    && c.id < |l.entries| && l.entries[c.id].fate == Closed
    && c.event.to == l.entries[c.id].item.to
    && c.event.messageRef == l.entries[c.id].item.ref
    && c.event.modemID == l.entries[c.id].item.modemID
  }

  /** The pending map and the open entries are the same thing. */
  ghost predicate OpenInv(l: Ledger) {
    && (forall k :: k in l.open ==>
          l.open[k] < |l.entries| && l.entries[l.open[k]].fate == Open && KeyOf(l.entries[l.open[k]].item) == k)
    && (forall i :: 0 <= i < |l.entries| && l.entries[i].fate == Open ==>
          KeyOf(l.entries[i].item) in l.open && l.open[KeyOf(l.entries[i].item)] == i)
  }

  ghost predicate ClosingInv(l: Ledger) {
    && (forall i :: 0 <= i < |l.closings| ==> Matches(l, l.closings[i]))
    && (forall i, j :: 0 <= i < j < |l.closings| ==> l.closings[i].id != l.closings[j].id)
  }

  ghost predicate Inv(l: Ledger) {
    && OpenInv(l)
    && ClosingInv(l)
    && |l.open| == CountFate(l.entries, Open)
    && |l.closings| == CountFate(l.entries, Closed)
  }

  lemma {:induction false} CountUpdate(es: seq<Entry>, id: nat, g: Fate, f: Fate)
    requires id < |es|
    ensures CountFate(es[id := es[id].(fate := g)], f) + (if es[id].fate == f then 1 else 0)
         == CountFate(es, f) + (if g == f then 1 else 0)
  {
    var es' := es[id := es[id].(fate := g)];
    var n := |es| - 1;
    if id < n {
      assert es'[..n] == es[..n][id := es[id].(fate := g)];
      CountUpdate(es[..n], id, g, f);
    } else {
      assert es'[..n] == es[..n];
    }
  }

  lemma CountAppend(es: seq<Entry>, e: Entry, f: Fate)
    ensures CountFate(es + [e], f) == CountFate(es, f) + if e.fate == f then 1 else 0
  {
    assert (es + [e])[..|es|] == es;
  }

  lemma {:induction false} CountTotal(es: seq<Entry>)
    ensures CountFate(es, Open) + CountFate(es, Overwritten) + CountFate(es, Closed) == |es|
  {
    if es != [] { CountTotal(es[..|es| - 1]); }
  }

  lemma OpenSize(m: map<string, nat>, k: string, id: nat)
    ensures |m[k := id]| == |m| + if k in m then 0 else 1
    ensures |m - {k}| == |m| - if k in m then 1 else 0
  {
    assert m[k := id].Keys == m.Keys + {k};
    assert (m - {k}).Keys == m.Keys - {k};
  }

  lemma TrackOpen(l: Ledger, item: Item)
    requires OpenInv(l) && ClosingInv(l)
    ensures OpenInv(TrackStep(l, item)) && ClosingInv(TrackStep(l, item))
  {
    hide KeyOf;
    var l' := TrackStep(l, item);
    forall i | 0 <= i < |l'.closings| ensures Matches(l', l'.closings[i]) {
      assert Matches(l, l.closings[i]);
    }
  }

  lemma TrackCounts(l: Ledger, item: Item)
    requires OpenInv(l)
    ensures var l' := TrackStep(l, item);
            && |l'.open| - |l.open| == CountFate(l'.entries, Open) - CountFate(l.entries, Open)
            && CountFate(l'.entries, Closed) == CountFate(l.entries, Closed)
  {
    hide CountFate, KeyOf;
    var k := KeyOf(item);
    OpenSize(l.open, k, |l.entries|);
    var before := l.entries;
    if k in l.open {
      var id := l.open[k];
      before := l.entries[id := l.entries[id].(fate := Overwritten)];
      CountUpdate(l.entries, id, Overwritten, Open);
      CountUpdate(l.entries, id, Overwritten, Closed);
    }
    CountAppend(before, Entry(item, Open), Open);
    CountAppend(before, Entry(item, Open), Closed);
  }

  lemma TrackKeepsInv(l: Ledger, item: Item)
    requires Inv(l)
    ensures Inv(TrackStep(l, item))
  {
    hide OpenInv, ClosingInv, CountFate, KeyOf;
    TrackOpen(l, item);
    TrackCounts(l, item);
  }

  lemma CloseKeepsInv(l: Ledger, k: string, event: DeliveryEvent)
    requires Inv(l) && k in l.open
    requires var item := l.entries[l.open[k]].item;
             event.to == item.to && event.messageRef == item.ref && event.modemID == item.modemID
    ensures Inv(CloseStep(l, k, event))
  {
    hide CountFate, KeyOf;
    var id := l.open[k];
    OpenSize(l.open, k, 0);
    CountUpdate(l.entries, id, Closed, Open);
    CountUpdate(l.entries, id, Closed, Closed);
    var l' := CloseStep(l, k, event);
    assert forall i :: 0 <= i < |l.closings| ==> Matches(l, l.closings[i]) && l.closings[i].id != id;
  }

  lemma ApplyKeepsInv(l: Ledger, op: Op)
    requires Inv(l)
    ensures Inv(Apply(l, op))
  {
    hide CountFate, Inv, Key, CanonicalRecipient;
    match op
    case Track(item) => TrackKeepsInv(l, item);
    case Report(r) =>
      var k := MakeKey(r.recipient, r.messageRef);
      if k in l.open && l.open[k] < |l.entries| {
        var item := l.entries[l.open[k]].item;
        OpenKey(l, k);
        KeysDiffer(item.to, item.ref, r.recipient, r.messageRef);
        CloseKeepsInv(l, k, DeliveryEvent(r.messageRef, item.to, ReportStatus(r), item.modemID));
      }
    case Timeout(k) =>
      if k in l.open && l.open[k] < |l.entries| {
        var item := l.entries[l.open[k]].item;
        CloseKeepsInv(l, k, DeliveryEvent(item.ref, item.to, Expired, item.modemID));
      }
  }

  lemma OpenKey(l: Ledger, k: string)
    requires Inv(l) && k in l.open
    ensures l.open[k] < |l.entries| && KeyOf(l.entries[l.open[k]].item) == k
  {
  }

  lemma {:induction false} RunInv(ops: seq<Op>)
    ensures Inv(Run(ops))
  {
    hide Apply;
    if ops == [] {
      EmptyInv();
    } else {
      hide Inv;
      RunInv(ops[..|ops| - 1]);
      ApplyKeepsInv(Run(ops[..|ops| - 1]), ops[|ops| - 1]);
    }
  }

  lemma EmptyInv()
    ensures Inv(Ledger([], map[], []))
  {
  }

  function CountTracks(ops: seq<Op>): nat {
    if ops == [] then 0 else CountTracks(ops[..|ops| - 1]) + if ops[|ops| - 1].Track? then 1 else 0
  }

  lemma {:induction false} EveryTrackIsBooked(ops: seq<Op>)
    ensures |Run(ops).entries| == CountTracks(ops)
  {
    hide KeyOf, MakeKey;
    if ops != [] { EveryTrackIsBooked(ops[..|ops| - 1]); }
  }

  /** The key that an operation touches. */
  function Touches(op: Op): string {
    match op
    case Track(item) => KeyOf(item)
    case Report(r) => MakeKey(r.recipient, r.messageRef)
    case Timeout(k) => k
  }

  /** The status an operation closes a send with: a TP-ST below 0x20 means delivered, one from 0x40 to 0x5F failed
      for good (3GPP TS 23.040 section 9.2.3.15), and a timer means expired. */
  predicate ClosesWith(op: Op, status: Status) {
    match op
    case Track(_) => false
    case Report(r) =>
      && (status == Delivered <==> r.statusCode < 0x20)
      && (status == Failed <==> 0x40 <= r.statusCode < 0x60)
      && status != Expired
    case Timeout(_) => status == Expired
  }

  /** Closing `i` was made by operation `p`, on the key of the send it closes. */
  ghost predicate MadeBy(ops: seq<Op>, i: nat, p: nat) {
    && p < |ops| && i < |Run(ops).closings|
    && |Run(ops[..p]).closings| == i && |Run(ops[..p + 1]).closings| == i + 1
    && ClosesWith(ops[p], Run(ops).closings[i].event.status)
    && Touches(ops[p]) == MakeKey(Run(ops).closings[i].event.to, Run(ops).closings[i].event.messageRef)
  }

  ghost predicate HasCause(ops: seq<Op>, i: nat) { exists p: nat :: MadeBy(ops, i, p) }

  lemma StepCloses(l: Ledger, op: Op)
    requires Inv(l)
    ensures var l' := Apply(l, op);
            && (Touches(op) in l.open && !op.Track? <==> |l'.closings| == |l.closings| + 1)
            && (l'.closings == l.closings || |l'.closings| == |l.closings| + 1)
            && (|l'.closings| == |l.closings| + 1 ==>
                  var e := l'.closings[|l.closings|].event;
                  l'.closings[..|l.closings|] == l.closings && ClosesWith(op, e.status) && Touches(op) == MakeKey(e.to, e.messageRef))
  {
    hide CountFate, Key, CanonicalRecipient, ClosingInv;
    match op
    case Track(item) =>
    case Report(r) =>
      var k := MakeKey(r.recipient, r.messageRef);
      if k in l.open {
        var item := l.entries[l.open[k]].item;
        OpenKey(l, k);
        KeysDiffer(item.to, item.ref, r.recipient, r.messageRef);
      }
    case Timeout(k) =>
      if k in l.open { OpenKey(l, k); }
  }

  /** Every closing event was made by a report or a timer on its key, and has the status of what made it: it is
      expired if and only if a timer made it. */
  lemma {:induction false} ClosingCause(ops: seq<Op>, i: nat)
    requires i < |Run(ops).closings|
    ensures HasCause(ops, i)
  {
    hide Apply, Inv, ClosesWith, MakeKey, Touches;
    if ops != [] {
      var n := |ops| - 1;
      var before := ops[..n];
      RunInv(before);
      StepCloses(Run(before), ops[n]);
      assert ops[..n + 1] == ops;
      if i < |Run(before).closings| {
        ClosingCause(before, i);
        var p: nat :| MadeBy(before, i, p);
        assert before[..p] == ops[..p] && before[..p + 1] == ops[..p + 1] && before[p] == ops[p];
        assert Run(ops).closings[i] == Run(before).closings[i];
        assert MadeBy(ops, i, p);
      } else {
        assert MadeBy(ops, i, n);
      }
    }
  }

  /** Conservation: in every interleaving the tracked sends are the pending, the overwritten and the closed
      ones; no send is closed twice; a closing event repeats the reference and recipient of its Track, and has the
      status of the report or the timer that made it. */
  lemma Conservation(ops: seq<Op>)
    ensures var l := Run(ops);
            && CountTracks(ops) == |l.open| + CountFate(l.entries, Overwritten) + |l.closings|
            && (forall i :: 0 <= i < |l.closings| ==> Matches(l, l.closings[i]))
            && (forall i, j :: 0 <= i < j < |l.closings| ==> l.closings[i].id != l.closings[j].id)
            && (forall i: nat :: i < |l.closings| ==> HasCause(ops, i))
  {
    hide Run, CountTracks, CountFate, Matches, HasCause;
    RunInv(ops);
    forall i: nat | i < |Run(ops).closings| ensures HasCause(ops, i) { ClosingCause(ops, i); }
    CountTotal(Run(ops).entries);
    EveryTrackIsBooked(ops);
  }

  /** A later operation never reopens a send: its entry stays, and only a pending one changes its fate. */
  lemma FatesSettle(l: Ledger, op: Op, i: nat)
    requires Inv(l) && i < |l.entries|
    ensures i < |Apply(l, op).entries| && Apply(l, op).entries[i].item == l.entries[i].item
    ensures l.entries[i].fate != Open ==> Apply(l, op).entries[i].fate == l.entries[i].fate
    ensures |l.closings| <= |Apply(l, op).closings| && Apply(l, op).closings[..|l.closings|] == l.closings
  {
    hide CountFate, KeyOf, MakeKey;
  }

  // ---------------------------------------------------------------- the code

  class DeliveryTracker {
    var pending: map<string, Item>
    /** The callback log, in order. */
    var events: seq<DeliveryEvent>
    ghost var ledger: Ledger

    ghost predicate Valid()
      reads this
    {
      && Inv(ledger)
      && pending.Keys == ledger.open.Keys
      && forall k :: k in pending ==> ledger.open[k] < |ledger.entries| && pending[k] == ledger.entries[ledger.open[k]].item
    }

    constructor ()
      ensures Valid() && ledger == Ledger([], map[], []) && events == []
    {
      pending := map[];
      events := [];
      ledger := Ledger([], map[], []);
      EmptyInv();
    }

    method Track(ref: byte, to: string, modemID: string)
      requires Valid()
      modifies this
      ensures Valid() && ledger == Apply(old(ledger), Op.Track(Item(ref, to, modemID)))
      ensures events == old(events) + [DeliveryEvent(ref, to, Pending, modemID)]
    {
      hide MakeKey, CountFate, Inv;
      var item := Item(ref, to, modemID);
      var key := MakeKey(to, ref);
      ApplyKeepsInv(ledger, Op.Track(item));
      OpenDistinct(ledger);
      ledger := TrackStep(ledger, item);
      pending := pending[key := item];
      events := events + [DeliveryEvent(ref, to, Pending, modemID)];
    }

    /** Any report closes the entry; a temporary failure is reported as still pending. */
    method HandleReport(report: StatusReport.Report)
      requires Valid()
      modifies this
      ensures Valid() && ledger == Apply(old(ledger), Report(report))
      ensures events == old(events) + (if |ledger.closings| > |old(ledger).closings| then [ledger.closings[|ledger.closings| - 1].event] else [])
    {
      hide MakeKey, CountFate, Inv;
      var key := MakeKey(report.recipient, report.messageRef);
      ApplyKeepsInv(ledger, Report(report));
      OpenDistinct(ledger);
      if key !in pending {
        return;
      }
      var item := pending[key];
      var status := Delivered;
      if !report.Delivered() {
        status := if report.Permanent() then Failed else Pending;
      }
      ledger := Apply(ledger, Report(report));
      pending := pending - {key};
      events := events + [DeliveryEvent(report.messageRef, item.to, status, item.modemID)];
    }

    method HandleTimeout(key: string)
      requires Valid()
      modifies this
      ensures Valid() && ledger == Apply(old(ledger), Timeout(key))
      ensures events == old(events) + (if |ledger.closings| > |old(ledger).closings| then [ledger.closings[|ledger.closings| - 1].event] else [])
    {
      hide MakeKey, CountFate, Inv;
      ApplyKeepsInv(ledger, Timeout(key));
      OpenDistinct(ledger);
      if key !in pending {
        return;
      }
      var item := pending[key];
      ledger := Apply(ledger, Timeout(key));
      pending := pending - {key};
      events := events + [DeliveryEvent(item.ref, item.to, Expired, item.modemID)];
    }
  }

  /** Different keys hold different entries. */
  lemma OpenDistinct(l: Ledger)
    requires Inv(l)
    ensures forall k :: k in l.open ==> l.open[k] < |l.entries|
    ensures forall k, k' :: k in l.open && k' in l.open && k != k' ==> l.open[k] != l.open[k']
  {
  }

  // ---------------------------------------------------------------- through the wire

  function RunFrom(l: Ledger, ops: seq<Op>): Ledger {
    if ops == [] then l else Apply(RunFrom(l, ops[..|ops| - 1]), ops[|ops| - 1])
  }

  /** Operations on other keys leave a pending send alone. */
  lemma {:induction false} Undisturbed(l: Ledger, ops: seq<Op>, k: string)
    requires Inv(l) && k in l.open
    requires forall i :: 0 <= i < |ops| ==> Touches(ops[i]) != k
    ensures var l' := RunFrom(l, ops);
            && Inv(l') && k in l'.open && l'.open[k] == l.open[k] && l.open[k] < |l'.entries|
            && l'.entries[l.open[k]] == l.entries[l.open[k]]
  {
    hide KeyOf, MakeKey, Inv, CountFate;
    if ops == [] {
      OpenDistinct(l);
    } else {
      var before := RunFrom(l, ops[..|ops| - 1]);
      Undisturbed(l, ops[..|ops| - 1], k);
      OpenDistinct(before);
      ApplyKeepsInv(before, ops[|ops| - 1]);
    }
  }

  /** A send to a normalized number, tracked, with any operations on other keys after it: the report that the
      service centre writes for the same number and reference closes exactly that send. */
  lemma ReportClosesItsTrack(l: Ledger, raw: string, prefix: string, ref: byte, modemID: string, between: seq<Op>,
                             w: StatusReport.Wire)
    requires Inv(l) && Normalized(raw, prefix).Ok? && |DigitsOf(Normalized(raw, prefix).value)| <= 255
    requires forall i :: 0 <= i < |between| ==> Touches(between[i]) != MakeKey(Normalized(raw, prefix).value, ref)
    requires StatusReport.ValidWire(w) && w.mr == ref
    requires w.recipient == Address.EncodedAddress(Normalized(raw, prefix).value)
    ensures StatusReport.Decoded(StatusReport.Hex(w)).Ok?
    ensures var n := Normalized(raw, prefix).value;
            var r := StatusReport.Decoded(StatusReport.Hex(w)).value;
            var tracked := RunFrom(Apply(l, Op.Track(Item(ref, n, modemID))), between);
            var after := Apply(tracked, Report(r)).closings;
            && after == tracked.closings + [Closing(|l.entries|, DeliveryEvent(ref, n, ReportStatus(r), modemID))]
            && (ReportStatus(r) == Delivered <==> w.st < 0x20)
            && (ReportStatus(r) == Failed <==> 0x40 <= w.st < 0x60)
            && (ReportStatus(r) == Pending <==> 0x20 <= w.st < 0x40 || 0x60 <= w.st)
  {
    hide Key, CanonicalRecipient, Normalized, Address.EncodedAddress, Address.DecodedAddress, StatusReport.Decoded,
         StatusReport.Hex, Inv, RunFrom, Touches;
    var n := Normalized(raw, prefix).value;
    var first := Apply(l, Op.Track(Item(ref, n, modemID)));
    StatusReport.RoundTrip(w);
    WireKey(raw, prefix, ref);
    ApplyKeepsInv(l, Op.Track(Item(ref, n, modemID)));
    OpenDistinct(l);
    Undisturbed(first, between, MakeKey(n, ref));
  }
}
