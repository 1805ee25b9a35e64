/** A long text from EncodeSMS on one gateway to AddPart on another (internal/sms/pdu/encoder.go,
    internal/sms/pdu/decoder.go, internal/services/sms_urc.go, internal/sms/assembler.go). */
module EndToEnd {
  import opened Octets
  import opened Text
  import opened Splitting
  import opened Assembler
  import opened Reassembly
  import Encoder
  import Decoder
  import Gsm7
  import Relay
  import Submit
  import Timestamp

  /** How a decoded PDU becomes an incoming part. */
  function ToPart(d: Decoder.DecodedSMS): Part {
    Part(d.from, d.text, d.timestamp, d.hasUDH, d.reference, d.partNumber, d.totalParts, d.encoding)
  }

  datatype Sent = Sent(recipient: string, text: string, enc: Encoding, srr: bool, ref: byte)

  function Chosen(s: Sent): Encoding { Encoder.Selected(s.text, s.enc) }

  function Pieces(s: Sent): seq<string> { Encoder.Chunks(s.text, Chosen(s)) }

  predicate Long(s: Sent) { Encoder.Multipart(s.text, Chosen(s)) }

  /** A call of EncodeSMS that succeeded, for a recipient that fits the address field. The encoder never hands out
      the reference zero. */
  ghost predicate Sendable(s: Sent) {
    && Encoder.EncodedSMS(s.recipient, s.text, s.enc, s.srr, s.ref).Ok?
    && |DigitsOf(TrimSpace(s.recipient))| <= 255
    && s.ref != 0
  }

  ghost predicate LongSent(s: Sent) { Sendable(s) && Long(s) }

  ghost function Pdus(s: Sent): seq<Encoder.PDU>
    requires Sendable(s)
  {
    Encoder.EncodedSMS(s.recipient, s.text, s.enc, s.srr, s.ref).value
  }

  /** The service centre reads PDU `i` and forwards its coding scheme, length and user data in an
      SMS-DELIVER; the receiving gateway decodes that. */
  ghost function Forwarded(s: Sent, i: nat, e: Relay.Envelope): Option<Part>
    requires Sendable(s) && i < |Pdus(s)| && Relay.ValidEnvelope(e, Long(s))
  {
    match HexDecode(Pdus(s)[i].hex)
    case None => None
    case Some(octets) =>
      match Submit.Read(octets)
      case None => None
      case Some(f) =>
        match Decoder.Decoded(Relay.DeliverHex(e, Encoder.UserData(f.udl, f.dcs, f.ud)))
        case Ok(d) => Some(ToPart(d))
        case Err(_) => None
  }

  /** `part` is some PDU of `s`, forwarded from the number `from`. */
  ghost predicate Arrives(s: Sent, from: string, part: Part)
    requires LongSent(s)
  {
    exists i: nat, e: Relay.Envelope ::
      i < |Pdus(s)| && Relay.ValidEnvelope(e, true) && Relay.Sender(e) == from && Forwarded(s, i, e) == Some(part)
  }

  /** No part's length octet wrapped: GSM-7 pieces of at most 248 septets, others of at most 249 octets. */
  ghost predicate LengthsFit(s: Sent) { AllLengthsFit(Chosen(s), Pieces(s)) }

  ghost predicate AllLengthsFit(enc: Encoding, parts: seq<string>) {
    forall i :: 0 <= i < |parts| ==> Relay.LengthFits(enc, parts[i], true)
  }

  /** Every part still announces its whole header. */
  ghost predicate HeadersFit(s: Sent) {
    forall i :: 0 <= i < |Pieces(s)| ==> Relay.HeaderFits(Chosen(s), Pieces(s)[i])
  }

  /** What the receiver decodes from each piece. */
  function Gots(enc: Encoding, pieces: seq<string>): (texts: seq<string>)
    ensures |texts| == |pieces|
  {
    seq(|pieces|, i requires 0 <= i < |pieces| => Relay.Got(enc, pieces[i], true))
  }

  /** The message the receiving assembler sees. */
  function MessageOf(s: Sent, from: string, stamp: Stamp): Message { Message(from, s.ref, Gots(Chosen(s), Pieces(s)), stamp) }

  /** The text that arrives: the text that was sent, or less where a length octet wrapped. */
  function Arrived(s: Sent): string { Flatten(Gots(Chosen(s), Pieces(s))) }

  /** Forwarding in two steps: what the service centre reads, and what the receiver makes of it. */
  lemma ForwardedData(s: Sent, i: nat, e: Relay.Envelope)
    requires Sendable(s) && i < |Pdus(s)| && Relay.ValidEnvelope(e, Long(s))
    ensures if Long(s) then |Pdus(s)| == |Pieces(s)| >= 2 else |Pdus(s)| == 1
    ensures var ud := Submit.UserDataOf(s.text, Chosen(s), s.ref, i);
            Forwarded(s, i, e)
            == Some(ToPart(Relay.WithUserData(Long(s), Submit.Taken(ud), Relay.Blank(e, ud.dcs, Long(s)))))
  {
    hide HexDecode, Submit.Read, Decoder.Decoded, Relay.DeliverHex, Relay.WithUserData, Relay.Blank, Encoder.EncodedSMS,
         Submit.UserDataOf, Encoder.Chunks, Submit.LengthOf, Relay.Sender, TrimSpace, DigitsOf, Encoder.Multipart,
         Encoder.Selected, Submit.Announced;
    Submit.EncodedLayout(s.recipient, s.text, s.enc, s.srr, s.ref, i);
    var ud := Submit.Taken(Submit.UserDataOf(s.text, Chosen(s), s.ref, i));
    Relay.DecodeDeliver(e, ud, Long(s));
    assert Encoder.UserData(ud.udl, ud.dcs, ud.octets) == ud;
  }

  lemma SomePieces(s: Sent)
    requires Long(s)
    ensures |Pieces(s)| >= 2
    ensures forall i :: 0 <= i < |Pieces(s)| ==> Pieces(s)[i] != [] && |Pieces(s)[i]| <= 153
  {
    hide Greedy, TextWeight, Encoder.Selected;
    AtLeastTwo(Chosen(s), s.text, Encoder.MaxMultipart(Chosen(s)));
    GreedyIsPartition(Chosen(s), s.text, Encoder.MaxMultipart(Chosen(s)));
  }

  /** One forwarded PDU of a long text: its part number, total, reference and text, whatever the network put around
      it, as long as the header is announced; otherwise the receiver sees an empty message without parts. */
  lemma ForwardedPart(s: Sent, i: nat, e: Relay.Envelope)
    requires LongSent(s) && i < |Pdus(s)| && Relay.ValidEnvelope(e, true)
    ensures |Pdus(s)| == |Pieces(s)| >= 2
    ensures var p := Forwarded(s, i, e);
            && p.Some?
            && p.value.from == Relay.Sender(e) && p.value.isMultipart && p.value.timestamp == Timestamp.Decoded(e.scts)
            && (if Relay.HeaderFits(Chosen(s), Pieces(s)[i]) then
                  && p.value.reference == s.ref && p.value.partNumber == (i + 1) % 256
                  && p.value.totalParts == |Pieces(s)| % 256
                  && p.value.text == Relay.Got(Chosen(s), Pieces(s)[i], true)
                else p.value.reference == 0 && p.value.partNumber == 0 && p.value.totalParts == 0 && p.value.text == "")
            && (p.value.text == Relay.Received(Chosen(s), Pieces(s)[i])
                <==> Relay.LengthFits(Chosen(s), Pieces(s)[i], true))
  {
    hide Sendable, Pdus, Pieces, Chosen, Encoder.Multipart, Relay.WithUserData, Forwarded, Encoder.PartUserData, Relay.Got,
         Relay.HeaderFits, Relay.LengthFits, Relay.Received, Relay.Sender, Submit.Taken, Timestamp.Decoded, Decoder.EncodingOf;
    ForwardedData(s, i, e);
    SomePieces(s);
    PartData(s, i);
    var ud := Encoder.PartUserData(Pieces(s)[i], Chosen(s), s.ref, i + 1, |Pieces(s)|);
    Relay.PartSurvives(Pieces(s)[i], Chosen(s), s.ref, i + 1, |Pieces(s)|, Relay.Blank(e, ud.dcs, true));
    Relay.GotLength(Chosen(s), Pieces(s)[i], true);
    HeaderlessIsShort(Chosen(s), Pieces(s)[i]);
  }

  lemma PartData(s: Sent, i: nat)
    requires Long(s) && i < |Pieces(s)|
    ensures Submit.UserDataOf(s.text, Chosen(s), s.ref, i)
         == Encoder.PartUserData(Pieces(s)[i], Chosen(s), s.ref, i + 1, |Pieces(s)|)
  {
    hide Encoder.PartUserData, Encoder.Multipart, Encoder.Selected, Greedy;
  }

  lemma HeaderlessIsShort(enc: Encoding, text: string)
    requires text != []
    ensures !Relay.HeaderFits(enc, text) ==> !Relay.LengthFits(enc, text, true) && Relay.Received(enc, text) != ""
  {
  }

  /** A part that the assembler stores under the message's key. */
  lemma ArrivingPart(s: Sent, from: string, part: Part, stamp: Stamp)
    requires LongSent(s) && |Pieces(s)| <= MAX_PARTS
    requires Arrives(s, from, part) && Stored(part)
    ensures ValidMessage(MessageOf(s, from, stamp))
    ensures PartOf(MessageOf(s, from, stamp), part) && Relay.HeaderFits(Chosen(s), Pieces(s)[part.partNumber - 1])
  {
    hide Sendable, Encoder.Multipart, Relay.ValidEnvelope, Relay.Got, Relay.Received, Relay.LengthFits, Relay.HeaderFits, Pieces,
         Chosen, Pdus, Forwarded;
    var i: nat, e: Relay.Envelope :|
      i < |Pdus(s)| && Relay.ValidEnvelope(e, true) && Relay.Sender(e) == from && Forwarded(s, i, e) == Some(part);
    ForwardedPart(s, i, e);
  }

  // ---------------------------------------------------------------- the text

  lemma SubstitutedConcat(s: string, t: string)
    ensures Gsm7.Substituted(s + t) == Gsm7.Substituted(s) + Gsm7.Substituted(t)
  {
    hide Gsm7.Substitute;
  }

  /** Pieces that all fit arrive as the expected text; otherwise characters are missing. */
  lemma {:induction false} GotPieces(enc: Encoding, parts: seq<string>)
    ensures |Flatten(Gots(enc, parts))| <= |Flatten(parts)|
    ensures if AllLengthsFit(enc, parts) then Flatten(Gots(enc, parts)) == Relay.Received(enc, Flatten(parts))
            else |Flatten(Gots(enc, parts))| < |Flatten(parts)|
  {
    hide Relay.Got, Relay.LengthFits, Gsm7.Substituted;
    if parts != [] {
      var rest := parts[1..];
      assert Gots(enc, parts)[1..] == Gots(enc, rest);
      GotPieces(enc, rest);
      Relay.GotLength(enc, parts[0], true);
      SubstitutedConcat(parts[0], Flatten(rest));
      assert AllLengthsFit(enc, parts) <==> Relay.LengthFits(enc, parts[0], true) && AllLengthsFit(enc, rest) by {
        assert forall i :: 0 <= i < |rest| ==> rest[i] == parts[i + 1];
        assert forall i :: 1 <= i < |parts| ==> parts[i] == rest[i - 1];
      }
    }
  }

  /** What arrives is the text as the encoding can carry it exactly when no length octet wrapped, and shorter
      otherwise; it is the very text exactly when moreover GSM-7, if it was used, covers it. The automatic choice
      never uses GSM-7 otherwise. */
  lemma WholeText(s: Sent)
    ensures |Arrived(s)| <= |s.text|
    ensures |Arrived(s)| == |s.text| <==> LengthsFit(s)
    ensures Arrived(s) == Relay.Received(Chosen(s), s.text) <==> LengthsFit(s)
    ensures Arrived(s) == s.text <==> LengthsFit(s) && (Chosen(s) == Gsm7 ==> Encoder.CoveredByGsm7(s.text))
    ensures s.enc == Auto ==> (Chosen(s) == Gsm7 ==> Encoder.CoveredByGsm7(s.text))
  {
    hide Greedy, TextWeight, Gsm7.InAlphabet, Relay.LengthFits, Relay.Received;
    var enc := Chosen(s);
    GreedyIsPartition(enc, s.text, Encoder.MaxMultipart(enc));
    GotPieces(enc, Pieces(s));
    Relay.ReceivedUnchanged(enc, s.text);
  }

  // ---------------------------------------------------------------- the theorems

  ghost predicate TrafficEvent(s: Sent, from: string, ev: Event, lo: int, hi: int)
    requires LongSent(s)
  {
    match ev
    case Add(now, part) =>
      Stored(part) ==> lo <= now <= hi && (KeyOf(part) == Key(from, s.ref) ==> Arrives(s, from, part))
    case Fire(_, _, _) => true
    case Close => false
  }

  /** Any traffic, in which whatever carries the key of the sent message is one of its forwarded parts. */
  ghost predicate Traffic(s: Sent, from: string, evs: seq<Event>, lo: int, hi: int)
    requires LongSent(s)
  {
    forall i :: 0 <= i < |evs| ==> TrafficEvent(s, from, evs[i], lo, hi)
  }

  lemma TrafficIsCalm(s: Sent, from: string, evs: seq<Event>, lo: int, hi: int, stamp: Stamp)
    requires LongSent(s) && |Pieces(s)| <= MAX_PARTS
    requires Traffic(s, from, evs, lo, hi)
    ensures AllCalm(MessageOf(s, from, stamp), evs, lo, hi)
  {
    hide Sendable, Encoder.Multipart, Arrives, Key, Pieces, PartOf, Relay.HeaderFits;
    var m := MessageOf(s, from, stamp);
    forall i | 0 <= i < |evs| ensures Calm(m, evs[i], lo, hi) {
      assert TrafficEvent(s, from, evs[i], lo, hi);
      if evs[i].Add? && Stored(evs[i].part) && KeyOf(evs[i].part) == MessageKey(m) {
        ArrivingPart(s, from, evs[i].part, stamp);
      }
    }
  }

  /** What a complete message of the assembler says about the text that was sent. */
  ghost predicate Delivers(s: Sent, from: string, stamp: Option<Stamp>, out: Option<Assembled>, update: bool) {
    && out.Some? && out.value.isComplete && out.value.isUpdate == update
    && out.value.segments == |Pieces(s)| && out.value.from == from
    && stamp == Some(Stamp(out.value.timestamp, out.value.encoding))
    && out.value.text == (if update then "[Updated] " + Arrived(s) else Arrived(s))
    && (Arrived(s) == Relay.Received(Chosen(s), s.text) <==> LengthsFit(s))
    && (Arrived(s) == s.text <==> LengthsFit(s) && (Chosen(s) == Gsm7 ==> Encoder.CoveredByGsm7(s.text)))
    && |Arrived(s)| <= |s.text|
  }

  lemma WholeDelivers(s: Sent, from: string, stamp: Stamp, out: Option<Assembled>, update: bool)
    requires Whole(MessageOf(s, from, stamp), out, update)
    ensures Delivers(s, from, Some(stamp), out, update)
  {
    hide Chosen, Pieces, Relay.Received, LengthsFit, Relay.Got, Encoder.CoveredByGsm7;
    WholeText(s);
  }

  /** Every text that EncodeSMS cuts into 2 .. 20 parts: its forwarded parts, in any order and with repeats,
      among any other traffic, yield nothing until the last missing one and then a complete message, which is
      the text exactly when no part's length octet wrapped and the encoding covers it, stamped like the part that
      came first. */
  lemma SentIsReceived(cfg: Config, st: State, s: Sent, from: string, evs: seq<Event>, lo: int, hi: int)
    requires LongSent(s) && |Pieces(s)| <= MAX_PARTS
    requires Inv(st) && View(st, Key(from, s.ref)) == Idle && InTime(cfg, lo, hi)
    requires evs != [] && Traffic(s, from, evs, lo, hi) && Uncut(Key(from, s.ref), evs)
    requires Seen(Key(from, s.ref), evs[..|evs| - 1]) != Numbers(|Pieces(s)|)
    requires Seen(Key(from, s.ref), evs) == Numbers(|Pieces(s)|)
    ensures forall i :: 0 <= i < |evs| - 1 && Concerns(Key(from, s.ref), evs[i]) ==> Output(cfg, st, evs, i) == None
    ensures Delivers(s, from, FirstStamp(Key(from, s.ref), evs), Output(cfg, st, evs, |evs| - 1), false)
    ensures View(Run(cfg, st, evs), Key(from, s.ref)) == Idle
  {
    hide Sendable, Long, Traffic, Key, Pieces, Chosen, View, Seen, Numbers, Run, Output, Concerns, AllCalm, Uncut,
         Delivers, Whole, InTime, FirstStamp, Own;
    FirstStampIs(Key(from, s.ref), evs);
    SomeNumber(s);
    var stamp := FirstStamp(Key(from, s.ref), evs).value;
    var m := MessageOf(s, from, stamp);
    TrafficIsCalm(s, from, evs, lo, hi, stamp);
    SomePiece(s, from, stamp);
    Reassembles(cfg, st, m, evs, lo, hi);
    WholeDelivers(s, from, stamp, Output(cfg, st, evs, |evs| - 1), false);
  }

  lemma SomeNumber(s: Sent)
    requires Long(s)
    ensures Numbers(|Pieces(s)|) != {}
  {
    hide Encoder.Multipart, Pieces;
    SomePieces(s);
    assert 1 in Numbers(|Pieces(s)|);
  }

  lemma SomePiece(s: Sent, from: string, stamp: Stamp)
    requires LongSent(s) && |Pieces(s)| <= MAX_PARTS
    ensures ValidMessage(MessageOf(s, from, stamp))
  {
    hide Greedy, Sendable;
    AtLeastTwo(Chosen(s), s.text, Encoder.MaxMultipart(Chosen(s)));
  }

  /** The same text when the assembly timer cuts the arrival: nothing, then a notice of what is there, an update for
      every late part, and in the end one complete update. */
  lemma SentIsReceivedLate(cfg: Config, st: State, s: Sent, from: string, early: seq<Event>, flushedAt: int,
                           racing: map<int, string>, late: seq<Event>, lo: int, hi: int)
    requires LongSent(s) && |Pieces(s)| <= MAX_PARTS
    requires Inv(st) && View(st, Key(from, s.ref)) == Idle && InTime(cfg, lo, hi)
    requires Traffic(s, from, early, lo, hi) && Uncut(Key(from, s.ref), early)
    requires late != [] && Traffic(s, from, late, flushedAt, flushedAt + FlushedTtl(cfg))
    requires Seen(Key(from, s.ref), early) != {}
    requires Seen(Key(from, s.ref), early) + Seen(Key(from, s.ref), late[..|late| - 1]) != Numbers(|Pieces(s)|)
    requires Seen(Key(from, s.ref), early) + Seen(Key(from, s.ref), late) == Numbers(|Pieces(s)|)
    ensures FirstStamp(Key(from, s.ref), early).Some?
    ensures var evs := early + [Fire(flushedAt, Key(from, s.ref), racing)] + late;
            var stamp := FirstStamp(Key(from, s.ref), early).value;
            && (forall i :: 0 <= i < |early| && Concerns(Key(from, s.ref), evs[i]) ==> Output(cfg, st, evs, i) == None)
            && Notice(MessageOf(s, from, stamp), Output(cfg, st, evs, |early|), Seen(Key(from, s.ref), early), racing)
            && (forall i :: |early| < i < |evs| - 1 ==>
                  Updating(MessageOf(s, from, stamp), evs[i], Output(cfg, st, evs, i),
                           Seen(Key(from, s.ref), early) + Seen(Key(from, s.ref), late[..i - |early|])))
            && Delivers(s, from, Some(stamp), Output(cfg, st, evs, |evs| - 1), true)
            && View(Run(cfg, st, evs), Key(from, s.ref)) == Idle
  {
    hide Sendable, Long, Traffic, Key, Pieces, Chosen, View, Seen, Numbers, Run, Output, Concerns, AllCalm, Uncut,
         Delivers, Whole, InTime, FirstStamp, Own, FlushedTtl, Notice, Updating;
    FirstStampIs(Key(from, s.ref), early);
    var stamp := FirstStamp(Key(from, s.ref), early).value;
    var m := MessageOf(s, from, stamp);
    TrafficIsCalm(s, from, early, lo, hi, stamp);
    TrafficIsCalm(s, from, late, flushedAt, flushedAt + FlushedTtl(cfg), stamp);
    SomePiece(s, from, stamp);
    LatePartsComplete(cfg, st, m, early, flushedAt, racing, late, lo, hi);
    var evs := CutRun(m, early, flushedAt, racing, late);
    WholeDelivers(s, from, stamp, Output(cfg, st, evs, |evs| - 1), true);
  }

  // ---------------------------------------------------------------- when a header is lost

  /** Any traffic at all, as long as whatever carries the key is a forwarded part of the sent message. */
  ghost predicate OnlyArrivals(s: Sent, from: string, evs: seq<Event>)
    requires LongSent(s)
  {
    forall i :: 0 <= i < |evs| && evs[i].Add? && KeyOf(evs[i].part) == Key(from, s.ref) ==> Arrives(s, from, evs[i].part)
  }

  /** The slot never holds part `j` of `n`. */
  ghost predicate Lacks(s: Slot, n: nat, j: int) {
    s != Idle ==> s.e.totalParts == n && j !in s.e.parts && forall i :: i in s.e.parts ==> 1 <= i <= n
  }

  lemma LacksStep(cfg: Config, k: string, s: Slot, ev: Event, n: nat, j: int)
    requires GoodSlot(s) && Lacks(s, n, j) && 1 <= j <= n
    requires Own(k, ev) ==> ev.part.totalParts == n && ev.part.partNumber != j
    ensures Lacks(SlotStep(cfg, k, s, ev).0, n, j)
    ensures Own(k, ev) ==> var out := SlotStep(cfg, k, s, ev).1; out.Some? ==> !out.value.isComplete
  {
    hide Key, Summary, Available, Join;
    if Own(k, ev) {
      var aged := Aged(cfg, ev.now, s);
      var e := WithPart(if aged == Idle then Fresh(ev.now, ev.part) else aged.e, ev.part);
      OneMissing(e.parts, n, j);
    }
  }

  lemma OneMissing(parts: map<int, string>, n: nat, j: int)
    requires 1 <= j <= n && j !in parts && forall i :: i in parts ==> 1 <= i <= n
    ensures |parts| < n
  {
    NumbersSize(n);
    assert j in Numbers(n);
    assert parts.Keys <= Numbers(n);
    SubsetSize(parts.Keys, Numbers(n));
  }

  /** Whatever arrives under the message's key has its header. */
  lemma KeyedPart(s: Sent, from: string, part: Part)
    requires LongSent(s) && Arrives(s, from, part) && KeyOf(part) == Key(from, s.ref)
    ensures |part.text| <= 153
    ensures part.isMultipart && part.totalParts == |Pieces(s)| % 256
    ensures |Pieces(s)| <= 255 ==> 1 <= part.partNumber <= |Pieces(s)|
                                   && Relay.HeaderFits(Chosen(s), Pieces(s)[part.partNumber - 1])
  {
    hide Sendable, Encoder.Multipart, Relay.ValidEnvelope, Relay.LengthFits, Relay.HeaderFits, Relay.Received, Relay.Got, Pdus,
         Forwarded, Pieces, Chosen, Key;
    var i: nat, e: Relay.Envelope :|
      i < |Pdus(s)| && Relay.ValidEnvelope(e, true) && Relay.Sender(e) == from && Forwarded(s, i, e) == Some(part);
    ForwardedPart(s, i, e);
    KeyInjective(part.from, part.reference, from, s.ref);
    NeverZero(s);
    SomePieces(s);
    Relay.GotLength(Chosen(s), Pieces(s)[i], true);
  }

  lemma NeverZero(s: Sent)
    requires Sendable(s)
    ensures s.ref != 0
  {
  }

  lemma {:induction false} LacksRun(cfg: Config, st: State, s: Sent, from: string, evs: seq<Event>, j: nat)
    requires LongSent(s) && |Pieces(s)| <= 255 && j < |Pieces(s)| && !Relay.HeaderFits(Chosen(s), Pieces(s)[j])
    requires Inv(st) && View(st, Key(from, s.ref)) == Idle && OnlyArrivals(s, from, evs)
    ensures Lacks(View(Run(cfg, st, evs), Key(from, s.ref)), |Pieces(s)|, j + 1)
  {
    hide Sendable, Encoder.Multipart, Relay.HeaderFits, Pieces, Chosen, Arrives, Key, View, Step, SlotStep;
    if evs != [] {
      var n := |evs| - 1;
      LacksRun(cfg, st, s, from, evs[..n], j);
      var st' := Run(cfg, st, evs[..n]);
      Projection(cfg, st', evs[n], Key(from, s.ref));
      if Own(Key(from, s.ref), evs[n]) {
        KeyedPart(s, from, evs[n].part);
      }
      LacksStep(cfg, Key(from, s.ref), View(st', Key(from, s.ref)), evs[n], |Pieces(s)|, j + 1);
    }
  }

  /** When the length octet of one part has wrapped to less than its header, the message is never completed: whatever
      arrives, and when, no part of it hands on a complete message. */
  lemma LostHeader(cfg: Config, st: State, s: Sent, from: string, evs: seq<Event>, j: nat, i: nat)
    requires LongSent(s) && |Pieces(s)| <= MAX_PARTS && j < |Pieces(s)| && !Relay.HeaderFits(Chosen(s), Pieces(s)[j])
    requires Inv(st) && View(st, Key(from, s.ref)) == Idle && OnlyArrivals(s, from, evs)
    requires i < |evs| && evs[i].Add? && KeyOf(evs[i].part) == Key(from, s.ref)
    ensures var out := Output(cfg, st, evs, i); out.Some? ==> !out.value.isComplete
  {
    hide Sendable, Encoder.Multipart, Relay.HeaderFits, Pieces, Chosen, Arrives, Key, View, SlotStep, Run, AddPartSpec, Lacks;
    var k := Key(from, s.ref);
    var st' := Run(cfg, st, evs[..i]);
    assert OnlyArrivals(s, from, evs[..i]);
    LacksRun(cfg, st, s, from, evs[..i], j);
    KeyedPart(s, from, evs[i].part);
    SomePieces(s);
    assert Stored(evs[i].part);
    Projection(cfg, st', evs[i], k);
    LacksStep(cfg, k, View(st', k), evs[i], |Pieces(s)|, j + 1);
  }

  // ---------------------------------------------------------------- a plain delivery

  /** The parts as they arrive in order, all forwarded in the same envelope, at one instant. */
  ghost function InOrder(s: Sent, e: Relay.Envelope, now: int, n: nat): (evs: seq<Event>)
    requires LongSent(s) && n <= |Pdus(s)| && Relay.ValidEnvelope(e, true)
    ensures |evs| == n
  {
    if n == 0 then []
    else
      ForwardedPart(s, n - 1, e);
      InOrder(s, e, now, n - 1) + [Add(now, Forwarded(s, n - 1, e).value)]
  }

  lemma InOrderPart(s: Sent, e: Relay.Envelope, now: int, i: nat)
    requires LongSent(s) && i < |Pdus(s)| && Relay.ValidEnvelope(e, true)
    requires |Pieces(s)| <= MAX_PARTS
    ensures |Pdus(s)| == |Pieces(s)| && Forwarded(s, i, e).Some?
    ensures var ev := Add(now, Forwarded(s, i, e).value);
            && TrafficEvent(s, Relay.Sender(e), ev, now, now) && Arrives(s, Relay.Sender(e), ev.part)
            && (Relay.HeaderFits(Chosen(s), Pieces(s)[i]) ==> Own(Key(Relay.Sender(e), s.ref), ev) && ev.part.partNumber == i + 1)
            && (!Relay.HeaderFits(Chosen(s), Pieces(s)[i]) ==> Single(ev.part))
  {
    hide Sendable, Encoder.Multipart, Key, Forwarded, Relay.ValidEnvelope, Relay.Sender, Pdus, Pieces, Chosen, Relay.HeaderFits,
         Relay.Got, Relay.Received, Relay.LengthFits;
    ForwardedPart(s, i, e);
    assert Arrives(s, Relay.Sender(e), Forwarded(s, i, e).value);
  }

  lemma InOrderSnoc(s: Sent, e: Relay.Envelope, now: int, n: nat)
    requires LongSent(s) && n <= |Pdus(s)| && Relay.ValidEnvelope(e, true)
    ensures n == 0 ==> InOrder(s, e, now, n) == []
    ensures n > 0 ==> Forwarded(s, n - 1, e).Some?
                      && InOrder(s, e, now, n) == InOrder(s, e, now, n - 1) + [Add(now, Forwarded(s, n - 1, e).value)]
  {
    hide Sendable, Encoder.Multipart, Forwarded, Relay.ValidEnvelope, Pdus, Pieces;
    if n > 0 { ForwardedPart(s, n - 1, e); }
  }

  /** A part of the message, or the empty message that one without its header has become. */
  ghost predicate Scrap(s: Sent, from: string, ev: Event)
    requires LongSent(s)
  {
    ev.Add? && Arrives(s, from, ev.part) && (Own(Key(from, s.ref), ev) || Single(ev.part))
  }

  lemma {:induction false} InOrderArrives(s: Sent, e: Relay.Envelope, now: int, n: nat)
    requires LongSent(s) && n <= |Pdus(s)| && Relay.ValidEnvelope(e, true)
    requires |Pieces(s)| <= MAX_PARTS
    ensures Traffic(s, Relay.Sender(e), InOrder(s, e, now, n), now, now)
    ensures forall i :: 0 <= i < n ==> Scrap(s, Relay.Sender(e), InOrder(s, e, now, n)[i])
    ensures HeadersFit(s) ==> Seen(Key(Relay.Sender(e), s.ref), InOrder(s, e, now, n)) == Numbers(n)
  {
    hide Sendable, Encoder.Multipart, Key, Forwarded, Relay.ValidEnvelope, Relay.Sender, Pdus, Pieces, Chosen, TrafficEvent, Own,
         Arrives, InOrder, Relay.HeaderFits;
    InOrderSnoc(s, e, now, n);
    if n > 0 {
      InOrderArrives(s, e, now, n - 1);
      InOrderPart(s, e, now, n - 1);
      var evs := InOrder(s, e, now, n);
      assert evs[..n - 1] == InOrder(s, e, now, n - 1);
    }
  }

  ghost predicate CompleteOutput(s: Sent, out: Option<Assembled>) {
    out.Some? && out.value.isComplete && out.value.segments == |Pieces(s)|
  }

  /** The plain case: the parts delivered in order to a new assembler end in the complete message if all headers are
      announced; otherwise nothing is ever completed. */
  lemma DeliveredInOrder(cfg: Config, s: Sent, e: Relay.Envelope, now: int)
    requires LongSent(s) && |Pieces(s)| <= MAX_PARTS && Relay.ValidEnvelope(e, true)
    ensures Inv(State(map[], map[]))
    ensures var evs := InOrder(s, e, now, |Pdus(s)|);
            && evs != []
            && (HeadersFit(s) ==>
                  Delivers(s, Relay.Sender(e), FirstStamp(Key(Relay.Sender(e), s.ref), evs),
                           Output(cfg, State(map[], map[]), evs, |evs| - 1), false))
            && (!HeadersFit(s) ==>
                  forall i :: 0 <= i < |evs| ==> !CompleteOutput(s, Output(cfg, State(map[], map[]), evs, i)))
  {
    hide Sendable, Encoder.Multipart, Delivers, Key, Forwarded, Relay.ValidEnvelope, Relay.Sender, Pieces, Chosen, Traffic, Uncut,
         Output, Run, HeadersFit, Scrap, CompleteOutput, InOrder, View, Seen;
    var n := |Pdus(s)|;
    var st := State(map[], map[]);
    var from := Relay.Sender(e);
    SomePdu(s, e);
    ReachableStates(cfg, [], Key(from, s.ref));
    ViewEmpty(Key(from, s.ref));
    InOrderArrives(s, e, now, n);
    var evs := InOrder(s, e, now, n);
    if HeadersFit(s) {
      InOrderCompletes(cfg, st, s, e, now);
    } else {
      forall i | 0 <= i < |evs| ensures !CompleteOutput(s, Output(cfg, st, evs, i)) {
        NothingCompleted(cfg, st, s, from, evs, i);
      }
    }
  }

  lemma InOrderCompletes(cfg: Config, st: State, s: Sent, e: Relay.Envelope, now: int)
    requires LongSent(s) && |Pieces(s)| <= MAX_PARTS && Relay.ValidEnvelope(e, true) && HeadersFit(s)
    requires Inv(st) && View(st, Key(Relay.Sender(e), s.ref)) == Idle && |Pdus(s)| == |Pieces(s)| >= 2
    ensures var evs := InOrder(s, e, now, |Pdus(s)|);
            Delivers(s, Relay.Sender(e), FirstStamp(Key(Relay.Sender(e), s.ref), evs), Output(cfg, st, evs, |evs| - 1), false)
  {
    hide Sendable, Encoder.Multipart, Delivers, Key, Forwarded, Relay.ValidEnvelope, Relay.Sender, Pieces, Chosen, Traffic, Uncut,
         Output, Run, HeadersFit, Arrives, Own, View, Seen, InOrder;
    var n := |Pdus(s)|;
    var from := Relay.Sender(e);
    InOrderArrives(s, e, now, n);
    InOrderArrives(s, e, now, n - 1);
    var evs := InOrder(s, e, now, n);
    assert evs[..n - 1] == InOrder(s, e, now, n - 1) by { InOrderSnoc(s, e, now, n); }
    assert n in Numbers(n) && n !in Numbers(n - 1);
    NoTimer(Key(from, s.ref), evs);
    SentIsReceived(cfg, st, s, from, evs, now, now);
  }

  lemma NothingCompleted(cfg: Config, st: State, s: Sent, from: string, evs: seq<Event>, i: nat)
    requires LongSent(s) && |Pieces(s)| <= MAX_PARTS && !HeadersFit(s)
    requires Inv(st) && View(st, Key(from, s.ref)) == Idle
    requires i < |evs| && forall i :: 0 <= i < |evs| ==> Scrap(s, from, evs[i])
    ensures !CompleteOutput(s, Output(cfg, st, evs, i))
  {
    hide Sendable, Encoder.Multipart, Relay.HeaderFits, Pieces, Chosen, Arrives, Key, View, Run, AddPartSpec;
    var j :| 0 <= j < |Pieces(s)| && !Relay.HeaderFits(Chosen(s), Pieces(s)[j]);
    assert Scrap(s, from, evs[i]);
    SomePieces(s);
    if Single(evs[i].part) {
      DroppedPart(cfg, Run(cfg, st, evs[..i]), evs[i].now, evs[i].part);
    } else {
      LostHeader(cfg, st, s, from, evs, j, i);
    }
  }

  lemma DroppedPart(cfg: Config, st: State, now: int, part: Part)
    requires Inv(st) && !Stored(part)
    ensures AddPartSpec(cfg, st, now, part)
         == (st, if Single(part) then Some(Assembled(part.from, part.text, part.timestamp, 1, part.encoding, true, false)) else None)
  {
  }

  lemma NoTimer(k: string, evs: seq<Event>)
    requires forall i :: 0 <= i < |evs| ==> evs[i].Add?
    ensures Uncut(k, evs)
  {
  }

  lemma SomePdu(s: Sent, e: Relay.Envelope)
    requires LongSent(s) && Relay.ValidEnvelope(e, true)
    ensures |Pdus(s)| == |Pieces(s)| >= 2
  {
    hide Greedy, TextWeight;
    AtLeastTwo(Chosen(s), s.text, Encoder.MaxMultipart(Chosen(s)));
  }

  // ---------------------------------------------------------------- a single PDU

  lemma OnePdu(s: Sent)
    requires Sendable(s) && !Long(s)
    ensures |Pdus(s)| == 1
  {
  }

  /** A text that needs one PDU only is handed on at once, in whatever state the assembler is; it is the text exactly
      when the length octet did not wrap and the encoding covers it. */
  lemma SingleIsReceived(cfg: Config, st: State, s: Sent, e: Relay.Envelope, now: int)
    requires Sendable(s) && !Long(s) && Relay.ValidEnvelope(e, false) && Inv(st)
    ensures |Pdus(s)| == 1 && Forwarded(s, 0, e).Some?
    ensures var got := Relay.Got(Chosen(s), s.text, false);
            var (st', out) := Step(cfg, st, Add(now, Forwarded(s, 0, e).value));
            && st' == st
            && out.Some? && out.value.isComplete && !out.value.isUpdate && out.value.segments == 1
            && out.value.from == Relay.Sender(e) && out.value.timestamp == Timestamp.Decoded(e.scts)
            && out.value.text == got
            && |got| <= |s.text|
            && (got == Relay.Received(Chosen(s), s.text) <==> Relay.LengthFits(Chosen(s), s.text, false))
            && (got == s.text <==> Relay.LengthFits(Chosen(s), s.text, false)
                                   && (Chosen(s) == Gsm7 ==> Encoder.CoveredByGsm7(s.text)))
  {
    hide Sendable, Pdus, Chosen, Encoder.Multipart, Relay.WithUserData, Forwarded, Encoder.SingleUserData, Relay.Got,
         Relay.LengthFits, Relay.Received, Relay.Sender, Submit.Taken, Timestamp.Decoded, Decoder.EncodingOf, Inv,
         Encoder.CoveredByGsm7, AddPartSpec;
    OnePdu(s);
    ForwardedData(s, 0, e);
    var ud := Encoder.SingleUserData(s.text, Chosen(s));
    Relay.SingleSurvives(s.text, Chosen(s), Relay.Blank(e, ud.dcs, false));
    Relay.GotLength(Chosen(s), s.text, false);
    Relay.ReceivedUnchanged(Chosen(s), s.text);
    DroppedPart(cfg, st, now, Forwarded(s, 0, e).value);
  }

  // ---------------------------------------------------------------- many messages at once

  /** Up to 255 long texts sent one after the other by an encoder whose last reference was `ref`. */
  ghost predicate Consecutive(ref: byte, ss: seq<Sent>) {
    && ref != 0 && |ss| <= 255
    && forall i :: 0 <= i < |ss| ==> LongSent(ss[i]) && |Pieces(ss[i])| <= MAX_PARTS && ss[i].ref == Encoder.RefAfter(ref, i + 1)
  }

  ghost predicate OneOf(ss: seq<Sent>, from: string, part: Part)
    requires forall i :: 0 <= i < |ss| ==> LongSent(ss[i])
  {
    exists j :: 0 <= j < |ss| && Arrives(ss[j], from, part)
  }

  /** Any traffic in which every part from the sender belongs to one of these texts. */
  ghost predicate Mixed(ss: seq<Sent>, from: string, evs: seq<Event>, lo: int, hi: int)
    requires forall i :: 0 <= i < |ss| ==> LongSent(ss[i])
  {
    forall i :: 0 <= i < |evs| ==>
      match evs[i]
      case Add(now, part) => Stored(part) ==> lo <= now <= hi && (part.from == from ==> OneOf(ss, from, part))
      case Fire(_, _, _) => true
      case Close => false
  }

  /** References tell the texts apart, so each of them sees traffic of its own. */
  lemma MixedTraffic(ref: byte, ss: seq<Sent>, from: string, evs: seq<Event>, lo: int, hi: int, j: nat)
    requires Consecutive(ref, ss) && Mixed(ss, from, evs, lo, hi) && j < |ss|
    ensures Traffic(ss[j], from, evs, lo, hi)
  {
    hide Sendable, Encoder.Multipart, Arrives, Key, Pieces, Encoder.RefAfter;
    forall i | 0 <= i < |evs| ensures TrafficEvent(ss[j], from, evs[i], lo, hi) {
      if evs[i].Add? && Stored(evs[i].part) && KeyOf(evs[i].part) == Key(from, ss[j].ref) {
        var part := evs[i].part;
        KeyInjective(part.from, part.reference, from, ss[j].ref);
        var l :| 0 <= l < |ss| && Arrives(ss[l], from, part);
        StoredReference(ss[l], from, part);
        if l < j { Encoder.RefsDistinct(ref, l + 1, j + 1); }
        if j < l { Encoder.RefsDistinct(ref, j + 1, l + 1); }
      }
    }
  }

  lemma StoredReference(s: Sent, from: string, part: Part)
    requires LongSent(s) && |Pieces(s)| <= MAX_PARTS && Arrives(s, from, part) && Stored(part)
    ensures part.reference == s.ref
  {
    hide Sendable, Encoder.Multipart, Arrives, Pieces, Chosen, Relay.HeaderFits;
    ArrivingPart(s, from, part, StampOf(part));
  }

  /** The first event by which all numbers have been seen. */
  lemma {:induction false} CompletionPoint(k: string, evs: seq<Event>, n: nat) returns (p: nat)
    requires n > 0 && Seen(k, evs) == Numbers(n)
    ensures p < |evs| && Own(k, evs[p])
    ensures Seen(k, evs[..p]) != Numbers(n) && Seen(k, evs[..p + 1]) == Numbers(n)
    decreases |evs|
  {
    hide Own;
    assert n in Numbers(n);
    assert evs[..|evs|] == evs;
    var last := |evs| - 1;
    if Seen(k, evs[..last]) == Numbers(n) {
      p := CompletionPoint(k, evs[..last], n);
      assert evs[..last][..p] == evs[..p] && evs[..last][..p + 1] == evs[..p + 1];
    } else {
      p := last;
    }
  }

  lemma TrafficPrefix(s: Sent, from: string, evs: seq<Event>, lo: int, hi: int, n: nat)
    requires LongSent(s) && Traffic(s, from, evs, lo, hi) && Uncut(Key(from, s.ref), evs) && n <= |evs|
    ensures Traffic(s, from, evs[..n], lo, hi) && Uncut(Key(from, s.ref), evs[..n])
  {
    hide Sendable, Encoder.Multipart, TrafficEvent, Key, OwnTimer, Seen;
    var k := Key(from, s.ref);
    forall i | 0 <= i < n && OwnTimer(k, evs[..n][i]) ensures Seen(k, evs[..n][..i]) == {} {
      assert evs[..n][i] == evs[i] && evs[..n][..i] == evs[..i];
    }
  }

  /** Up to 255 consecutive long texts of one encoder, their parts interleaved in any way at one receiver, among any
      other traffic: each of them is completed, with nothing handed on before. */
  lemma InterleavedTexts(cfg: Config, st: State, ref: byte, ss: seq<Sent>, from: string, evs: seq<Event>, lo: int, hi: int, j: nat)
    requires Consecutive(ref, ss) && j < |ss|
    requires Inv(st) && View(st, Key(from, ss[j].ref)) == Idle && InTime(cfg, lo, hi)
    requires Mixed(ss, from, evs, lo, hi) && Uncut(Key(from, ss[j].ref), evs)
    requires Seen(Key(from, ss[j].ref), evs) == Numbers(|Pieces(ss[j])|)
    ensures exists p: nat ::
              && p < |evs| && Own(Key(from, ss[j].ref), evs[p])
              && Delivers(ss[j], from, FirstStamp(Key(from, ss[j].ref), evs[..p + 1]), Output(cfg, st, evs, p), false)
              && (forall i :: 0 <= i < p && Concerns(Key(from, ss[j].ref), evs[i]) ==> Output(cfg, st, evs, i) == None)
  {
    hide Sendable, Encoder.Multipart, Traffic, Mixed, Key, Pieces, Chosen, View, Seen, Numbers, Run, Output, Concerns, Own, Uncut,
         Delivers, InTime, Encoder.RefAfter;
    var k, s := Key(from, ss[j].ref), ss[j];
    MixedTraffic(ref, ss, from, evs, lo, hi, j);
    SomePieces(s);
    var p := CompletionPoint(k, evs, |Pieces(s)|);
    var upto := evs[..p + 1];
    TrafficPrefix(s, from, evs, lo, hi, p + 1);
    assert upto[..p] == evs[..p];
    SentIsReceived(cfg, st, s, from, upto, lo, hi);
    assert upto + evs[p + 1..] == evs;
    OutputFirst(cfg, st, upto, evs[p + 1..], p);
    forall i | 0 <= i < p && Concerns(k, evs[i]) ensures Output(cfg, st, evs, i) == None {
      assert upto[i] == evs[i];
      OutputFirst(cfg, st, upto, evs[p + 1..], i);
    }
  }

  // ---------------------------------------------------------------- texts that cannot wrap

  /** UCS-2 texts and GSM-7 texts without extension characters never wrap the length octet. */
  lemma CountedLengthsFit(s: Sent)
    requires Submit.CountedExactly(Chosen(s), s.text)
    ensures LengthsFit(s)
  {
    hide Greedy, TextWeight, Gsm7.InExtension, Gsm7.Encoded;
    var enc := Chosen(s);
    GreedyIsPartition(enc, s.text, Encoder.MaxMultipart(enc));
    forall i | 0 <= i < |Pieces(s)| ensures Relay.LengthFits(enc, Pieces(s)[i], true) {
      Submit.ChunkChars(Pieces(s), i);
      Submit.CostIsWeight(enc, Pieces(s)[i]);
    }
  }
}
