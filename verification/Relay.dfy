/** From one gateway to another: what DecodeSMS makes of an SMS-DELIVER that carries the user data
    of an encoded PDU, as far as its length octet announces it. The network chooses everything else in it. */
module Relay {
  import opened Octets
  import opened Text
  import opened Splitting
  import opened Decoder
  import Address
  import Encoder
  import Gsm7
  import Septets
  import Submit
  import Timestamp
  import Ucs2

  /** The fields of an SMS-DELIVER that the network fills in. */
  datatype Envelope = Envelope(sca: seq<byte>, firstOctet: byte, sender: Address.Encoded, pid: byte, scts: seq<byte>)

  ghost predicate ValidEnvelope(e: Envelope, hasUDH: bool) {
    && |e.sca| <= 255
    && e.firstOctet % 4 == 0 && Bit(e.firstOctet, 6) == hasUDH
    && |e.sender.bcd| == Address.BcdLength(e.sender.digitCount)
    && |e.scts| == 7
  }

  function Sender(e: Envelope): string {
    Address.DecodedAddress(e.sender.bcd, e.sender.digitCount, e.sender.typeOfAddr)
  }

  function DeliverTpdu(e: Envelope, ud: Encoder.UserData): seq<byte> {
    [e.firstOctet, e.sender.digitCount, e.sender.typeOfAddr] + e.sender.bcd
    + ([e.pid, ud.dcs] + e.scts + [ud.udl] + ud.octets)
  }

  function DeliverHex(e: Envelope, ud: Encoder.UserData): string
    requires |e.sca| <= 255
  {
    HexString(DeliverOctets(e, ud))
  }

  /** The result before its user data is looked at. */
  function Blank(e: Envelope, dcs: byte, udh: bool): DecodedSMS
    requires |e.scts| == 7
  {
    DecodedSMS(Sender(e), [], Timestamp.Decoded(e.scts), EncodingOf(dcs), udh, 0, 0, 0)
  }

  function WithUserData(udh: bool, ud: Encoder.UserData, res: DecodedSMS): DecodedSMS {
    if udh then WithHeader(ud.octets, ud.udl, EncodingOf(ud.dcs), res) else Plain(ud.octets, ud.udl, EncodingOf(ud.dcs), res)
  }

  lemma DecodeDeliverTpdu(e: Envelope, ud: Encoder.UserData, udh: bool)
    requires ValidEnvelope(e, udh)
    ensures DecodedTpdu(DeliverTpdu(e, ud)) == Ok(WithUserData(udh, ud, Blank(e, ud.dcs, udh)))
  {
    hide Bit, WithHeader, Plain, Address.DecodedAddress, EncodingOf, Timestamp.Decoded;
    var t := DeliverTpdu(e, ud);
    var n := |e.sender.bcd|;
    var rest := [e.pid, ud.dcs] + e.scts + [ud.udl] + ud.octets;
    assert t[3..3 + n] == e.sender.bcd;
    assert t[3 + n..] == rest;
    assert rest[2..9] == e.scts && rest[9] == ud.udl && rest[10..] == ud.octets;
  }

  /** Any SMS-DELIVER, with a user data header or without. */
  lemma DecodeDeliver(e: Envelope, ud: Encoder.UserData, udh: bool)
    requires ValidEnvelope(e, udh)
    ensures Decoded(DeliverHex(e, ud)) == Ok(WithUserData(udh, ud, Blank(e, ud.dcs, udh)))
  {
    hide HexDecode, HexString, Bit, DecodedTpdu, WithUserData, Blank, EncodingOf, Timestamp.Decoded;
    var t := DeliverTpdu(e, ud);
    var data := [|e.sca|] + e.sca + t;
    HexRoundTrip(data);
    assert |t| >= 13;
    assert data[1 + data[0] as int..] == t;
    DecodeDeliverTpdu(e, ud, udh);
  }

  /** The octets behind an SMS-DELIVER. */
  function DeliverOctets(e: Envelope, ud: Encoder.UserData): seq<byte>
    requires |e.sca| <= 255
  {
    [|e.sca|] + e.sca + DeliverTpdu(e, ud)
  }

  ghost predicate IsDeliver(octets: seq<byte>) {
    exists e: Envelope, ud: Encoder.UserData :: ValidEnvelope(e, Bit(e.firstOctet, 6)) && octets == DeliverOctets(e, ud)
  }

  lemma DeliverParts(t: seq<byte>) returns (e: Envelope, ud: Encoder.UserData)
    requires DecodedTpdu(t).Ok?
    ensures |e.sca| == 0 && ValidEnvelope(e, Bit(e.firstOctet, 6)) && t == DeliverTpdu(e, ud)
  {
    hide Bit, WithHeader, Plain, Address.DecodedAddress, EncodingOf, Timestamp.Decoded;
    var n := Address.BcdLength(t[1]);
    var rest := t[3 + n..];
    e := Envelope([], t[0], Address.Encoded(t[1], t[2], t[3..3 + n]), rest[0], rest[2..9]);
    ud := Encoder.UserData(rest[9], rest[1], rest[10..]);
    assert rest == [e.pid, ud.dcs] + e.scts + [ud.udl] + ud.octets;
    assert t == [t[0], t[1], t[2]] + t[3..3 + n] + rest;
  }

  /** Exactly the layout of SMS-DELIVER is accepted, and every error has its cause. */
  lemma AcceptsExactlyDeliver(pduHex: string)
    ensures var r, data := Decoded(pduHex), HexDecode(pduHex);
            && (r.Ok? <==> data.Some? && IsDeliver(data.value))
            && (r == Err(InvalidHex) <==> data.None?)
            && (r == Err(UnsupportedMessageType) <==>
                  data.Some? && |data.value| >= 11 && 1 + data.value[0] as int < |data.value|
                  && data.value[1 + data.value[0] as int] % 4 != 0)
  {
    hide HexDecode, DecodedTpdu, IsDeliver;
    var data := HexDecode(pduHex);
    if data.Some? {
      TpduErrors(data.value);
      if Decoded(pduHex).Ok? { LayoutOf(data.value); }
      if IsDeliver(data.value) { LayoutDecodes(data.value); }
    }
  }

  lemma TpduErrors(data: seq<byte>)
    ensures |data| >= 11 && 1 + data[0] as int < |data| ==>
              var t := data[1 + data[0] as int..];
              && DecodedTpdu(t) != Err(InvalidHex)
              && (DecodedTpdu(t) == Err(UnsupportedMessageType) <==> t[0] % 4 != 0)
  {
    hide Bit, WithHeader, Plain, Address.DecodedAddress, EncodingOf, Timestamp.Decoded;
  }

  lemma LayoutOf(data: seq<byte>)
    requires |data| >= 11 && 1 + data[0] as int < |data| && DecodedTpdu(data[1 + data[0] as int..]).Ok?
    ensures IsDeliver(data)
  {
    hide DecodedTpdu, DeliverTpdu, Bit;
    var n := data[0] as int;
    var e, ud := DeliverParts(data[1 + n..]);
    var e' := e.(sca := data[1..1 + n]);
    SameTpdu(e, e', ud);
    assert data == [n] + data[1..1 + n] + data[1 + n..];
    assert ValidEnvelope(e', Bit(e'.firstOctet, 6)) && data == DeliverOctets(e', ud);
  }

  lemma SameTpdu(e: Envelope, e': Envelope, ud: Encoder.UserData)
    requires e' == e.(sca := e'.sca)
    ensures DeliverTpdu(e', ud) == DeliverTpdu(e, ud)
  {
  }

  lemma LayoutDecodes(data: seq<byte>)
    requires IsDeliver(data)
    ensures |data| >= 11 && 1 + data[0] as int < |data| && DecodedTpdu(data[1 + data[0] as int..]).Ok?
  {
    hide DecodedTpdu, Bit;
    var e: Envelope, ud: Encoder.UserData :| ValidEnvelope(e, Bit(e.firstOctet, 6)) && data == DeliverOctets(e, ud);
    assert |DeliverTpdu(e, ud)| >= 13;
    assert data[1 + data[0] as int..] == DeliverTpdu(e, ud);
    DecodeDeliverTpdu(e, ud, Bit(e.firstOctet, 6));
  }

  // ---------------------------------------------------------------- what is left of a text

  /** The text as the wire can carry it: GSM-7 replaces characters outside its alphabet by '?'. */
  function Received(enc: Encoding, text: string): string {
    if enc == Gsm7 then Gsm7.Substituted(text) else text
  }

  /** That is the text itself unless GSM-7 does not cover it. */
  lemma ReceivedUnchanged(enc: Encoding, text: string)
    ensures |Received(enc, text)| == |text|
    ensures Received(enc, text) == text <==> (enc == Gsm7 ==> Encoder.CoveredByGsm7(text))
  {
    hide Gsm7.InAlphabet, Gsm7.Encoded, Gsm7.Decoded;
    if enc == Gsm7 {
      Gsm7.RoundTripSubstituted(text);
      Gsm7.RoundTrip(text);
    }
  }

  /** The length octet does not wrap. */
  predicate LengthFits(enc: Encoding, text: string, udh: bool) { Encoder.Length(enc, text, udh) <= 255 }

  /** Of `n` units behind `header` ones, those that the length, taken modulo 256, still announces. */
  function Kept(n: nat, header: nat): (k: nat)
    ensures k <= n
    ensures k == n <==> n == 0 || header + n <= 255
  {
    var announced := (header + n) % 256;
    if announced < header then 0 else announced - header
  }

  /** The text the receiver really gets from a PDU: when the length octet wrapped, the decoding of the first
      septets or octets only. */
  function Got(enc: Encoding, text: string, udh: bool): string {
    if enc == Gsm7 then
      var septets := Gsm7.Encoded(text);
      Gsm7.Decoded(septets[..Kept(|septets|, if udh then 7 else 0)])
    else
      var octets := Ucs2.Encoded(text);
      Ucs2.Decoded(octets[..Kept(|octets|, if udh then 6 else 0)])
  }

  /** Nothing is ever added; the text is whole, and the one expected, exactly when the length octet fits. */
  lemma GotLength(enc: Encoding, text: string, udh: bool)
    ensures |Got(enc, text, udh)| <= |text|
    ensures |Got(enc, text, udh)| == |text| <==> LengthFits(enc, text, udh)
    ensures Got(enc, text, udh) == Received(enc, text) <==> LengthFits(enc, text, udh)
  {
    hide Gsm7.Encoded, Gsm7.Decoded, Gsm7.Substituted, Ucs2.Encoded, Ucs2.Decoded;
    if enc == Gsm7 {
      var septets := Gsm7.Encoded(text);
      Gsm7.RoundTripSubstituted(text);
      if LengthFits(enc, text, udh) {
        assert septets[..|septets|] == septets;
      } else {
        assert Kept(|septets|, if udh then 7 else 0) < |text|;
      }
    } else {
      var octets := Ucs2.Encoded(text);
      Ucs2.RoundTrip(text);
      if LengthFits(enc, text, udh) {
        assert octets[..|octets|] == octets;
      } else {
        assert Kept(|octets|, if udh then 6 else 0) / 2 < |text|;
      }
    }
  }

  lemma NothingKept(septets: seq<byte>)
    ensures Gsm7.Decoded(septets[..0]) == [] && Ucs2.Decoded(septets[..0]) == []
  {
  }

  /** The septets that a cut of their packed form still holds. */
  lemma UnpackTaken(septets: seq<byte>, m: nat, k: nat, startBit: nat)
    requires forall x :: x in septets ==> x < 128
    requires k <= |septets| && m <= |Septets.Packed(septets, startBit)| && startBit + 7 * k <= 8 * m
    ensures Septets.Unpacked(Septets.Packed(septets, startBit)[..m], k, startBit) == septets[..k]
  {
    hide Septets.Packed, Septets.Unpacked;
    Septets.UnpackCut(Septets.Packed(septets, startBit), m, k, startBit);
    Septets.PackUnpackPrefix(septets, startBit, k);
  }

  // ---------------------------------------------------------------- a single PDU

  /** The user data of a message without a header gives back its text, as far as the length octet announces it. */
  lemma SingleSurvives(text: string, enc: Encoding, res: DecodedSMS)
    requires res.text == []
    ensures WithUserData(false, Submit.Taken(Encoder.SingleUserData(text, enc)), res)
         == res.(text := Got(enc, text, false))
  {
    hide Gsm7.Encoded, Gsm7.Decoded, Ucs2.Encoded, Ucs2.Decoded, Septets.Packed, Septets.Unpacked, Submit.Announced;
    var ud := Encoder.SingleUserData(text, enc);
    SingleTaken(text, enc);
    var taken := Submit.Taken(ud);
    if enc == Gsm7 {
      var septets := Gsm7.Encoded(text);
      NothingKept(septets);
      UnpackTaken(septets, |taken.octets|, ud.udl, 0);
    } else {
      NothingKept(Ucs2.Encoded(text));
    }
  }

  lemma SingleTaken(text: string, enc: Encoding)
    ensures var ud := Encoder.SingleUserData(text, enc);
            var m := Submit.Announced(ud.udl, ud.dcs);
            && m <= |ud.octets| && Submit.Taken(ud) == ud.(octets := ud.octets[..m])
            && (enc == Gsm7 ==> 7 * ud.udl <= 8 * m && ud.udl == Kept(|Gsm7.Encoded(text)|, 0))
            && (enc != Gsm7 ==> m == ud.udl == Kept(|Ucs2.Encoded(text)|, 0))
            && (m == 0 <==> ud.udl == 0)
            && EncodingOf(ud.dcs) == if enc == Gsm7 then Gsm7 else Ucs2
  {
    hide Gsm7.Encoded, Ucs2.Encoded, Septets.Packed;
    Submit.SingleAnnounced(text, enc);
  }

  /** The decoder alone, given all the octets: it heeds the length of GSM-7 text only. */
  lemma PlainOfSingle(text: string, enc: Encoding, res: DecodedSMS)
    requires res.text == []
    ensures var ud := Encoder.SingleUserData(text, enc);
            var got := WithUserData(false, ud, res);
            && got == res.(text := got.text)
            && got.text == (if enc == Gsm7 then Gsm7.Decoded(Gsm7.Encoded(text)[..|Gsm7.Encoded(text)| % 256]) else text)
            && (got.text == Received(enc, text) <==> (enc == Gsm7 ==> |Gsm7.Encoded(text)| <= 255))
  {
    hide Gsm7.Encoded, Gsm7.Decoded, Ucs2.Encoded, Ucs2.Decoded, Septets.Packed, Septets.Unpacked, Gsm7.Substituted;
    if enc == Gsm7 {
      GotLength(enc, text, false);
      var septets := Gsm7.Encoded(text);
      NothingKept(septets);
      Septets.PackUnpackPrefix(septets, 0, |septets| % 256);
    } else {
      Ucs2.RoundTrip(text);
      NothingKept(Ucs2.Encoded(text));
    }
  }

  // ---------------------------------------------------------------- a part

  /** The announced octets hold the whole concatenation header. */
  predicate HeaderFits(enc: Encoding, text: string) { Encoder.Length(enc, text, true) % 256 >= 6 }

  lemma HeaderFields(ref: byte, total: nat, part: nat, tail: seq<byte>, m: nat)
    requires 6 <= m <= 6 + |tail|
    ensures var ud := (Encoder.Header(ref, total, part) + tail)[..m];
            && ud[0] == 5 && ud[6..] == tail[..m - 6]
            && Concatenation(ud[..6]) == (ref, total % 256, part % 256)
  {
    var ud := (Encoder.Header(ref, total, part) + tail)[..m];
    assert ud[..6] == Encoder.Header(ref, total, part);
  }

  /** Seven header septets are skipped and the rest unpacked from bit 1: the part's header fields come back,
      and of its text what the length octet announces. When the length has wrapped to less than the header, all
      of that is lost. */
  lemma PartSurvives(text: string, enc: Encoding, ref: byte, part: nat, total: nat, res: DecodedSMS)
    requires text != [] && res.text == []
    ensures var got := WithUserData(true, Submit.Taken(Encoder.PartUserData(text, enc, ref, part, total)), res);
            if HeaderFits(enc, text) then
              got == res.(reference := ref, totalParts := total % 256, partNumber := part % 256, text := Got(enc, text, true))
            else got == res
  {
    hide Gsm7.Encoded, Gsm7.Decoded, Ucs2.Encoded, Ucs2.Decoded, Septets.Packed, Septets.Unpacked, Encoder.Header,
         Concatenation, Submit.Announced;
    assert PadBits(6) == 1;
    var ud := Encoder.PartUserData(text, enc, ref, part, total);
    PartTaken(text, enc, ref, part, total);
    var m := Submit.Announced(ud.udl, ud.dcs);
    var tail := if enc == Gsm7 then Septets.Packed(Gsm7.Encoded(text), 1) else Ucs2.Encoded(text);
    if HeaderFits(enc, text) {
      HeaderFields(ref, total, part, tail, m);
      if enc == Gsm7 {
        var septets := Gsm7.Encoded(text);
        NothingKept(septets);
        if ud.udl >= 7 { UnpackTaken(septets, m - 6, Kept(|septets|, 7), 1); }
      }
    } else {
      HeaderCut(ref, total, part, tail, m);
    }
  }

  lemma HeaderCut(ref: byte, total: nat, part: nat, tail: seq<byte>, m: nat)
    requires m < 6
    ensures var ud := (Encoder.Header(ref, total, part) + tail)[..m]; ud == [] || 1 + ud[0] as int > |ud|
  {
  }

  lemma PartTaken(text: string, enc: Encoding, ref: byte, part: nat, total: nat)
    requires text != []
    ensures var ud := Encoder.PartUserData(text, enc, ref, part, total);
            var m := Submit.Announced(ud.udl, ud.dcs);
            && m <= |ud.octets| && Submit.Taken(ud) == ud.(octets := ud.octets[..m])
            && (m >= 6 <==> HeaderFits(enc, text))
            && (HeaderFits(enc, text) && enc == Gsm7 ==>
                  && (ud.udl >= 7 ==> 1 + 7 * Kept(|Gsm7.Encoded(text)|, 7) <= 8 * (m - 6))
                  && Kept(|Gsm7.Encoded(text)|, 7) == if ud.udl >= 7 then ud.udl - 7 else 0)
            && (HeaderFits(enc, text) && enc != Gsm7 ==> m == ud.udl == 6 + Kept(|Ucs2.Encoded(text)|, 6))
            && EncodingOf(ud.dcs) == if enc == Gsm7 then Gsm7 else Ucs2
  {
    hide Gsm7.Encoded, Ucs2.Encoded, Septets.Packed;
    Submit.PartAnnounced(text, enc, ref, part, total);
  }
}
