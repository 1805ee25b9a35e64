/** Long messages of other senders, whose user data headers the encoder of this gateway never writes: 16-bit references
    and other information elements, 3GPP TS 23.040 sections 9.2.3.24 and 9.2.3.24.8 (internal/sms/pdu/decoder.go). */
module ForeignSenders {
  import opened Octets
  import opened Text
  import opened Splitting
  import opened Assembler
  import opened Reassembly
  import Decoder
  import EndToEnd
  import Encoder
  import Gsm7
  import Relay
  import Septets
  import Timestamp
  import Ucs2

  // ---------------------------------------------------------------- user data with any header

  /** A header counts its own octets behind the first; `fill` bits bring GSM-7 text behind it to a septet boundary. */
  predicate Framed(header: seq<byte>, fill: nat) {
    header != [] && header[0] == |header| - 1 && fill < 7 && (8 * |header| + fill) % 7 == 0
  }

  /** What TP-UDL has to say. */
  function FieldLength(header: seq<byte>, fill: nat, enc: Encoding, text: string): nat {
    if enc == Gsm7 then (8 * |header| + fill) / 7 + |Gsm7.Encoded(text)| else |header| + |Ucs2.Encoded(text)|
  }

  /** A user data field as any sender writes it. */
  function Field(header: seq<byte>, fill: nat, enc: Encoding, text: string): Encoder.UserData
    requires FieldLength(header, fill, enc, text) <= 255
  {
    var udl := FieldLength(header, fill, enc, text);
    if enc == Gsm7 then Encoder.UserData(udl, 0x00, header + Septets.Packed(Gsm7.Encoded(text), fill))
    else Encoder.UserData(udl, 0x08, header + Ucs2.Encoded(text))
  }

  lemma OneFill(n: nat, fill: nat)
    requires fill < 7 && (8 * n + fill) % 7 == 0
    ensures Decoder.PadBits(n) == fill
  {
    var pad := Decoder.PadBits(n);
    assert (8 * n + pad) % 7 == 0;
  }

  /** Whatever the header holds, the text behind it comes back, and the fields are those of its first element. */
  lemma AnyHeader(header: seq<byte>, fill: nat, enc: Encoding, text: string, res: Decoder.DecodedSMS)
    requires Framed(header, fill) && FieldLength(header, fill, enc, text) <= 255 && res.text == []
    ensures var (reference, total, part) := Decoder.Concatenation(header);
            Relay.WithUserData(true, Field(header, fill, enc, text), res)
            == res.(reference := reference, totalParts := total, partNumber := part, text := Relay.Received(enc, text))
  {
    hide Gsm7.Encoded, Gsm7.Decoded, Gsm7.Substituted, Ucs2.Encoded, Ucs2.Decoded, Septets.Packed, Septets.Unpacked,
         Decoder.Concatenation, Decoder.PadBits;
    OneFill(|header|, fill);
    var ud := Field(header, fill, enc, text);
    var tail := if enc == Gsm7 then Septets.Packed(Gsm7.Encoded(text), fill) else Ucs2.Encoded(text);
    assert ud.octets == header + tail && ud.octets[..|header|] == header && ud.octets[|header|..] == tail;
    if enc == Gsm7 {
      var septets := Gsm7.Encoded(text);
      Septets.PackUnpack(septets, fill);
      Gsm7.RoundTripSubstituted(text);
      Relay.NothingKept(septets);
      assert septets == [] ==> septets[..0] == septets;
    } else {
      Ucs2.RoundTrip(text);
    }
  }

  // ---------------------------------------------------------------- the elements

  /** Concatenation with a 16-bit reference, and any further elements. */
  function WideHeader(reference: nat, total: byte, part: byte, more: seq<byte>): seq<byte>
    requires reference < 0x10000 && |more| <= 249
  {
    [6 + |more|, 0x08, 0x04, reference / 256, reference % 256, total, part] + more
  }

  /** Concatenation with an 8-bit reference, and any further elements. */
  function NarrowHeader(reference: byte, total: byte, part: byte, more: seq<byte>): seq<byte>
    requires |more| <= 250
  {
    [5 + |more|, 0x00, 0x03, reference, total, part] + more
  }

  /** The result of decoding an SMS-DELIVER with this user data. */
  predicate DecodesTo(e: Relay.Envelope, ud: Encoder.UserData, reference: byte, total: nat, part: nat, text: string)
    requires |e.sca| <= 255 && |e.scts| == 7
  {
    var r := Decoder.Decoded(Relay.DeliverHex(e, ud));
    && r.Ok?
    && r.value.reference == reference && r.value.totalParts == total && r.value.partNumber == part && r.value.text == text
    && r.value.hasUDH && r.value.from == Relay.Sender(e) && r.value.timestamp == Timestamp.Decoded(e.scts)
  }

  lemma FieldDecodes(e: Relay.Envelope, header: seq<byte>, fill: nat, enc: Encoding, text: string)
    requires Relay.ValidEnvelope(e, true) && Framed(header, fill) && FieldLength(header, fill, enc, text) <= 255
    ensures var (reference, total, part) := Decoder.Concatenation(header);
            DecodesTo(e, Field(header, fill, enc, text), reference, total, part, Relay.Received(enc, text))
  {
    hide Relay.WithUserData, Decoder.Decoded, Relay.DeliverHex, Decoder.Concatenation, Field, Relay.Received, Decoder.EncodingOf,
         Relay.Sender, Timestamp.Decoded, FieldLength, Framed;
    var ud := Field(header, fill, enc, text);
    Relay.DecodeDeliver(e, ud, true);
    AnyHeader(header, fill, enc, text, Relay.Blank(e, ud.dcs, true));
  }

  /** A 16-bit reference is kept to its low octet; total, part and text come back, whatever elements follow. */
  lemma WideDecodes(e: Relay.Envelope, reference: nat, total: byte, part: byte, more: seq<byte>, fill: nat, enc: Encoding,
                    text: string)
    requires Relay.ValidEnvelope(e, true) && reference < 0x10000 && |more| <= 249
    requires var h := WideHeader(reference, total, part, more); Framed(h, fill) && FieldLength(h, fill, enc, text) <= 255
    ensures DecodesTo(e, Field(WideHeader(reference, total, part, more), fill, enc, text), reference % 256, total, part,
                      Relay.Received(enc, text))
  {
    hide DecodesTo, Field, Relay.Received, FieldLength, Framed;
    FieldDecodes(e, WideHeader(reference, total, part, more), fill, enc, text);
  }

  lemma NarrowDecodes(e: Relay.Envelope, reference: byte, total: byte, part: byte, more: seq<byte>, fill: nat, enc: Encoding,
                      text: string)
    requires Relay.ValidEnvelope(e, true) && |more| <= 250
    requires var h := NarrowHeader(reference, total, part, more); Framed(h, fill) && FieldLength(h, fill, enc, text) <= 255
    ensures DecodesTo(e, Field(NarrowHeader(reference, total, part, more), fill, enc, text), reference, total, part,
                      Relay.Received(enc, text))
  {
    hide DecodesTo, Field, Relay.Received, FieldLength, Framed;
    FieldDecodes(e, NarrowHeader(reference, total, part, more), fill, enc, text);
  }

  /** A header that starts with any other element says nothing about parts, and its text comes back all the same. */
  lemma OtherElementDecodes(e: Relay.Envelope, header: seq<byte>, fill: nat, enc: Encoding, text: string)
    requires Relay.ValidEnvelope(e, true) && Framed(header, fill) && FieldLength(header, fill, enc, text) <= 255
    requires |header| > 1 ==> header[1] != 0x00 && header[1] != 0x08
    ensures DecodesTo(e, Field(header, fill, enc, text), 0, 0, 0, Relay.Received(enc, text))
  {
    hide DecodesTo, Field, Relay.Received, FieldLength;
    FieldDecodes(e, header, fill, enc, text);
  }

  /** The header that this gateway writes is the one with an 8-bit reference. */
  lemma OwnHeader(text: string, enc: Encoding, reference: byte, part: nat, total: nat)
    ensures Encoder.PartUserData(text, enc, reference, part, total).octets[..6]
         == NarrowHeader(reference, total % 256, part % 256, [])
  {
    hide Septets.Packed, Gsm7.Encoded, Ucs2.Encoded;
  }

  // ---------------------------------------------------------------- reassembly

  /** A long text of a sender with 16-bit references, cut as the sender likes. */
  datatype WideText = WideText(reference: nat, texts: seq<string>, enc: Encoding)

  predicate Fits(w: WideText, i: nat)
    requires i < |w.texts|
  {
    if w.enc == Gsm7 then 8 + |Gsm7.Encoded(w.texts[i])| <= 255 else 7 + |Ucs2.Encoded(w.texts[i])| <= 255
  }

  ghost predicate ValidWide(w: WideText) {
    w.reference < 0x10000 && 2 <= |w.texts| <= MAX_PARTS && forall i :: 0 <= i < |w.texts| ==> Fits(w, i)
  }

  /** Part `i` as it is sent: seven header octets are eight septets, so there are no fill bits. */
  ghost function WidePart(w: WideText, i: nat): Encoder.UserData
    requires ValidWide(w) && i < |w.texts|
  {
    assert Fits(w, i);
    Field(WideHeader(w.reference, |w.texts|, i + 1, []), 0, w.enc, w.texts[i])
  }

  ghost predicate Comes(w: WideText, from: string, part: Part)
    requires ValidWide(w)
  {
    exists i: nat, e: Relay.Envelope ::
      && i < |w.texts| && Relay.ValidEnvelope(e, true) && Relay.Sender(e) == from
      && Decoder.Decoded(Relay.DeliverHex(e, WidePart(w, i))).Ok?
      && part == EndToEnd.ToPart(Decoder.Decoded(Relay.DeliverHex(e, WidePart(w, i))).value)
  }

  function MessageOf(w: WideText, from: string, stamp: Stamp): Message {
    Message(from, w.reference % 256, seq(|w.texts|, i requires 0 <= i < |w.texts| => Relay.Received(w.enc, w.texts[i])), stamp)
  }

  lemma ComingPart(w: WideText, from: string, part: Part, stamp: Stamp)
    requires ValidWide(w) && Comes(w, from, part)
    ensures PartOf(MessageOf(w, from, stamp), part)
  {
    hide Relay.Received, Bit, Decoder.Decoded, Relay.DeliverHex, Field, WidePart, ValidWide, Relay.Sender;
    var i: nat, e: Relay.Envelope :|
      && i < |w.texts| && Relay.ValidEnvelope(e, true) && Relay.Sender(e) == from
      && Decoder.Decoded(Relay.DeliverHex(e, WidePart(w, i))).Ok?
      && part == EndToEnd.ToPart(Decoder.Decoded(Relay.DeliverHex(e, WidePart(w, i))).value);
    WidePartDecodes(w, i, e);
  }

  lemma WidePartDecodes(w: WideText, i: nat, e: Relay.Envelope)
    requires ValidWide(w) && i < |w.texts| && Relay.ValidEnvelope(e, true)
    ensures |w.texts| <= MAX_PARTS
    ensures DecodesTo(e, WidePart(w, i), w.reference % 256, |w.texts|, i + 1, Relay.Received(w.enc, w.texts[i]))
  {
    hide DecodesTo, Field, Relay.Received;
    assert Fits(w, i);
    WideDecodes(e, w.reference, |w.texts|, i + 1, [], 0, w.enc, w.texts[i]);
  }

  /** Any traffic in which whatever carries the key of the text is one of its parts. */
  ghost predicate WideTraffic(w: WideText, from: string, evs: seq<Event>, lo: int, hi: int)
    requires ValidWide(w)
  {
    forall i :: 0 <= i < |evs| ==>
      match evs[i]
      case Add(now, part) =>
        Stored(part) ==> lo <= now <= hi && (KeyOf(part) == Key(from, w.reference % 256) ==> Comes(w, from, part))
      case Fire(_, _, _) => true
      case Close => false
  }

  /** Such a text is reassembled from its parts in any order, among any other traffic. */
  lemma WideReassembled(cfg: Config, st: State, w: WideText, from: string, stamp: Stamp, evs: seq<Event>, lo: int, hi: int)
    requires ValidWide(w) && Inv(st) && View(st, Key(from, w.reference % 256)) == Idle && InTime(cfg, lo, hi)
    requires evs != [] && WideTraffic(w, from, evs, lo, hi) && Uncut(Key(from, w.reference % 256), evs)
    requires FirstStamp(Key(from, w.reference % 256), evs) == Some(stamp)
    requires Seen(Key(from, w.reference % 256), evs[..|evs| - 1]) != Numbers(|w.texts|)
    requires Seen(Key(from, w.reference % 256), evs) == Numbers(|w.texts|)
    ensures Whole(MessageOf(w, from, stamp), Output(cfg, st, evs, |evs| - 1), false)
    ensures View(Run(cfg, st, evs), Key(from, w.reference % 256)) == Idle
  {
    hide Relay.Received, Key, Comes, PartOf, View, Run, Output, Seen, Numbers, Whole, InTime, Uncut, FirstStamp, Inv;
    var m := MessageOf(w, from, stamp);
    FirstStampIs(Key(from, w.reference % 256), evs);
    forall i | 0 <= i < |evs| ensures Calm(m, evs[i], lo, hi) {
      if evs[i].Add? && Stored(evs[i].part) && KeyOf(evs[i].part) == MessageKey(m) {
        ComingPart(w, from, evs[i].part, stamp);
      }
    }
    Reassembles(cfg, st, m, evs, lo, hi);
  }

  /** Only the low octet tells such messages apart: two of one sender share their key if and only if it is the same. */
  lemma WideReferencesCollide(from: string, r: nat, r': nat)
    ensures Key(from, r % 256) == Key(from, r' % 256) <==> r % 256 == r' % 256
  {
    if Key(from, r % 256) == Key(from, r' % 256) { KeyInjective(from, r % 256, from, r' % 256); }
  }
}
