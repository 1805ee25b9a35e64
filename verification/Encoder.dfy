/** Building SMS-SUBMIT PDUs, 3GPP TS 23.040 sections 9.2.2.2 and 9.2.3.24.1
    (internal/sms/pdu/encoder.go). */
module Encoder {
  import opened Octets
  import opened Text
  import opened Splitting
  import Address
  import Gsm7
  import Septets
  import Ucs2

  datatype PDU = PDU(commandLength: nat, hex: string, hasUDH: bool, encoding: Encoding, partNumber: nat, totalParts: nat)

  datatype Error = EmptyRecipient | EmptyText

  /** TP-UDL, TP-DCS and the octets of TP-UD. */
  datatype UserData = UserData(udl: byte, dcs: byte, octets: seq<byte>)

  // ---------------------------------------------------------------- encoding and limits

  predicate CoveredByGsm7(text: string) { forall c :: c in text ==> Gsm7.InAlphabet(c) }

  function Selected(text: string, enc: Encoding): (e: Encoding)
    ensures e != Auto
  {
    if enc != Auto then enc else if CoveredByGsm7(text) then Gsm7 else Ucs2
  }

  function MaxSingle(enc: Encoding): nat { if enc == Gsm7 then 160 else 70 }

  function MaxMultipart(enc: Encoding): nat { if enc == Gsm7 then 153 else 67 }

  /** The septets or UTF-16 units that a piece really takes on the wire. */
  function Cost(enc: Encoding, text: string): nat {
    if enc == Gsm7 then |Gsm7.Encoded(text)| else Ucs2.TextUnits(text)
  }

  /** What TP-UDL should say: septets for GSM-7 and octets otherwise, header included. */
  function Length(enc: Encoding, text: string, udh: bool): nat {
    if enc == Gsm7 then (if udh then 7 else 0) + Cost(enc, text) else (if udh then 6 else 0) + 2 * Cost(enc, text)
  }

  // ---------------------------------------------------------------- user data

  function SingleUserData(text: string, enc: Encoding): UserData {
    if enc == Gsm7 then
      var septets := Gsm7.Encoded(text);
      UserData(|septets| % 256, 0x00, Septets.Packed(septets, 0))
    else
      var bytes := Ucs2.Encoded(text);
      UserData(|bytes| % 256, 0x08, bytes)
  }

  /** The concatenation header: length 5, element 0 of length 3, reference, total, part. */
  function Header(ref: byte, total: nat, part: nat): (h: seq<byte>)
    ensures |h| == 6
  {
    [0x05, 0x00, 0x03, ref, total % 256, part % 256]
  }

  /** Six header octets and one padding bit are seven septets; the text starts at bit 1. */
  function PartUserData(text: string, enc: Encoding, ref: byte, part: nat, total: nat): UserData {
    var udh := Header(ref, total, part);
    if enc == Gsm7 then
      var septets := Gsm7.Encoded(text);
      UserData((7 + |septets|) % 256, 0x00, udh + Septets.Packed(septets, 1))
    else
      var bytes := Ucs2.Encoded(text);
      UserData((|udh| + |bytes|) % 256, 0x08, udh + bytes)
  }

  // ---------------------------------------------------------------- the TPDU

  function FirstOctet(udh: bool, srr: bool): byte {
    0x11 + (if udh then 0x40 else 0) + (if srr then 0x20 else 0)
  }

  /** The PDU as hexadecimal text: SMSC, first octet, TP-MR, TP-DA, TP-PID, TP-DCS, TP-VP, TP-UDL, TP-UD. */
  function BuildPDU(recipient: string, firstOctet: byte, ud: UserData, hasUDH: bool, enc: Encoding,
                    part: nat, total: nat): PDU
  {
    var tpduHex := HexByte(firstOctet) + "00" + Address.FormatAddressHex(recipient) + "00"
                   + HexByte(ud.dcs) + "AA" + HexByte(ud.udl) + HexString(ud.octets);
    PDU(|tpduHex| / 2, "00" + tpduHex, hasUDH, enc, part, total)
  }

  function SinglePDU(recipient: string, text: string, enc: Encoding, srr: bool): PDU {
    BuildPDU(recipient, FirstOctet(false, srr), SingleUserData(text, enc), false, enc, 1, 1)
  }

  function PartPDU(recipient: string, text: string, enc: Encoding, srr: bool, ref: byte, part: nat, total: nat): PDU {
    BuildPDU(recipient, FirstOctet(true, srr), PartUserData(text, enc, ref, part, total), true, enc, part, total)
  }

  // ---------------------------------------------------------------- EncodeSMS

  predicate Multipart(text: string, enc: Encoding) { TextWeight(enc, text) > MaxSingle(enc) }

  function Chunks(text: string, enc: Encoding): seq<string> { Greedy(enc, text, MaxMultipart(enc)) }

  function EncodedSMS(recipient: string, text: string, enc: Encoding, srr: bool, ref: byte): Result<seq<PDU>, Error> {
    if TrimSpace(recipient) == "" then Err(EmptyRecipient)
    else if text == "" then Err(EmptyText)
    else
      var e := Selected(text, enc);
      if !Multipart(text, e) then Ok([SinglePDU(recipient, text, e, srr)])
      else
        var chunks := Chunks(text, e);
        Ok(seq(|chunks|, i requires 0 <= i < |chunks| => PartPDU(recipient, chunks[i], e, srr, ref, i + 1, |chunks|)))
  }

  /** References run through 1 .. 255; zero is skipped. */
  function NextRef(ref: byte): (next: byte)
    ensures next != 0
  {
    if ref == 255 then 1 else ref + 1
  }

  function RefAfter(ref: byte, n: nat): byte { if n == 0 then ref else NextRef(RefAfter(ref, n - 1)) }

  lemma {:induction false} RefFormula(ref: byte, n: nat)
    requires ref != 0
    ensures RefAfter(ref, n) == (ref - 1 + n) % 255 + 1
  {
    if n > 0 { RefFormula(ref, n - 1); }
  }

  /** Any 255 consecutive long messages carry different references, and none of them zero. */
  lemma RefsDistinct(ref: byte, i: nat, j: nat)
    requires ref != 0 && i < j < i + 255
    ensures RefAfter(ref, i) != RefAfter(ref, j) && RefAfter(ref, i) != 0
  {
    RefFormula(ref, i);
    RefFormula(ref, j);
  }

  class SmsEncoder {
    var refCounter: byte

    /** The start value comes from the clock, zero replaced by one. */
    constructor (seed: byte)
      ensures refCounter == if seed == 0 then 1 else seed
    {
      refCounter := if seed == 0 then 1 else seed;
    }

    method NextRefNumber() returns (ref: byte)
      modifies this
      ensures ref == refCounter == NextRef(old(refCounter))
    {
      var next := (refCounter + 1) % 256;
      if next == 0 {
        next := 1;
      }
      refCounter := next;
      ref := refCounter;
    }

    method EncodeSMS(recipient: string, text: string, enc: Encoding, srr: bool) returns (r: Result<seq<PDU>, Error>)
      modifies this
      ensures r == EncodedSMS(recipient, text, enc, srr, NextRef(old(refCounter)))
      ensures refCounter == if r.Ok? && Multipart(text, Selected(text, enc)) then NextRef(old(refCounter))
                            else old(refCounter)
    {
      hide TrimSpace, TextWeight, PartPDU, SinglePDU, Greedy, Gsm7.InAlphabet;
      if TrimSpace(recipient) == "" {
        return Err(EmptyRecipient);
      }
      if text == "" {
        return Err(EmptyText);
      }
      var selectedEnc := enc;
      if enc == Auto {
        var covered := Gsm7.IsGSM7(text);
        selectedEnc := if covered then Gsm7 else Ucs2;
      }
      var maxSingle, maxMultipart := 70, 67;
      if selectedEnc == Gsm7 {
        maxSingle, maxMultipart := 160, 153;
      }
      var totalUnits := CountUnits(text, selectedEnc);
      if totalUnits <= maxSingle {
        return Ok([SinglePDU(recipient, text, selectedEnc, srr)]);
      }
      var ref := NextRefNumber();
      var chunks := SplitChunks(text, selectedEnc, maxMultipart);
      var pdus: seq<PDU> := [];
      for i := 0 to |chunks|
        invariant |pdus| == i
        invariant forall j :: 0 <= j < i ==> pdus[j] == PartPDU(recipient, chunks[j], selectedEnc, srr, ref, j + 1, |chunks|)
        invariant refCounter == ref
      {
        pdus := pdus + [PartPDU(recipient, chunks[i], selectedEnc, srr, ref, i + 1, |chunks|)];
      }
      assert chunks == Chunks(text, selectedEnc);
      assert pdus == EncodedSMS(recipient, text, enc, srr, ref).value;
      r := Ok(pdus);
    }
  }

  /** The loop that counts UTF-16 units; other encodings count characters. */
  method CountUnits(text: string, enc: Encoding) returns (totalUnits: nat)
    ensures totalUnits == TextWeight(enc, text)
  {
    if enc != Ucs2 {
      return |text|;
    }
    totalUnits := 0;
    for i := 0 to |text|
      invariant totalUnits == TextWeight(enc, text[..i])
    {
      assert text[..i + 1] == text[..i] + [text[i]];
      WeightConcat(enc, text[..i], [text[i]]);
      WeightOfChar(text[i]);
      if text[i] as int > 0xFFFF {
        totalUnits := totalUnits + 2;
      } else {
        totalUnits := totalUnits + 1;
      }
    }
    assert text[..|text|] == text;
  }
}
