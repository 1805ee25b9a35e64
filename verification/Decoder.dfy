/** Reading SMS-DELIVER PDUs, 3GPP TS 23.040 sections 9.2.2.1 and 9.2.3.24
    (internal/sms/pdu/decoder.go). */
module Decoder {
  import opened Octets
  import opened Text
  import opened Splitting
  import Address
  import Gsm7
  import Septets
  import Timestamp
  import Ucs2

  datatype DecodedSMS = DecodedSMS(from: string, text: string, timestamp: Timestamp.Time, encoding: Encoding,
                                   hasUDH: bool, reference: byte, partNumber: nat, totalParts: nat)

  datatype Error = InvalidHex | Truncated | UnsupportedMessageType

  // ---------------------------------------------------------------- user data

  function DecodedText(octets: seq<byte>, enc: Encoding, septets: int, startBit: nat): string {
    if enc == Ucs2 then Ucs2.Decoded(octets)
    else if septets > 0 then Gsm7.Decoded(Septets.Unpacked(octets, septets, startBit))
    else []
  }

  /** Reference, total and part of the concatenation element, 8-bit or 16-bit reference; the code looks
      at the first element only and keeps the low octet of a 16-bit reference. */
  function Concatenation(udh: seq<byte>): (byte, nat, nat) {
    if |udh| >= 6 && udh[1] == 0x00 then (udh[3], udh[4], udh[5])
    else if |udh| >= 7 && udh[1] == 0x08 then (udh[4], udh[5], udh[6])
    else (0, 0, 0)
  }

  function PadBits(udhOctets: nat): (pad: nat)
    ensures pad < 7 && (8 * udhOctets + pad) % 7 == 0
  {
    (7 - 8 * udhOctets % 7) % 7
  }

  /** The user data of a message with a header: `ud` starts at the header length octet. A header that runs
      past the end leaves the fields untouched. */
  function WithHeader(ud: seq<byte>, udl: nat, enc: Encoding, res: DecodedSMS): DecodedSMS {
    if ud == [] || 1 + ud[0] as int > |ud| then res
    else
      var n := 1 + ud[0] as int;
      var (reference, total, part) := Concatenation(ud[..n]);
      var septets := udl - (8 * n + PadBits(n)) / 7;
      res.(reference := reference, totalParts := total, partNumber := part,
           text := DecodedText(ud[n..], enc, septets, PadBits(n)))
  }

  function Plain(ud: seq<byte>, udl: nat, enc: Encoding, res: DecodedSMS): DecodedSMS {
    if ud == [] then res else res.(text := DecodedText(ud, enc, udl, 0))
  }

  // ---------------------------------------------------------------- the TPDU

  function EncodingOf(dcs: byte): Encoding { if dcs / 4 % 4 == 2 then Ucs2 else Gsm7 }

  function DecodedTpdu(t: seq<byte>): Result<DecodedSMS, Error> {
    if t == [] then Err(Truncated)
    else if t[0] % 4 != 0 then Err(UnsupportedMessageType)
    else if |t| < 3 then Err(Truncated)
    else
      var bcdLen := Address.BcdLength(t[1]);
      if 3 + bcdLen + 2 > |t| || 3 + bcdLen + 9 >= |t| then Err(Truncated)
      else
        var from := Address.DecodedAddress(t[3..3 + bcdLen], t[1], t[2]);
        var rest := t[3 + bcdLen..];
        var enc := EncodingOf(rest[1]);
        var hasUDH := Bit(t[0], 6);
        var res := DecodedSMS(from, [], Timestamp.Decoded(rest[2..9]), enc, hasUDH, 0, 0, 0);
        Ok(if hasUDH then WithHeader(rest[10..], rest[9], enc, res) else Plain(rest[10..], rest[9], enc, res))
  }

  function Decoded(pduHex: string): Result<DecodedSMS, Error> {
    match HexDecode(pduHex)
    case None => Err(InvalidHex)
    case Some(data) =>
      if |data| < 11 || 1 + data[0] as int >= |data| then Err(Truncated) else DecodedTpdu(data[1 + data[0] as int..])
  }

  // ---------------------------------------------------------------- the code

  method ParseUDH(data: seq<byte>, start: nat, udl: nat, enc: Encoding, initial: DecodedSMS) returns (res: DecodedSMS)
    requires start <= |data|
    requires initial.reference == 0 && initial.totalParts == 0 && initial.partNumber == 0 && initial.text == []
    ensures res == WithHeader(data[start..], udl, enc, initial)
  {
    hide Ucs2.Decoded, Gsm7.Decoded, Septets.Unpacked;
    res := initial;
    var offset := start;
    if offset >= |data| {
      return;
    }
    var udhLen := data[offset] as int;
    var udhTotalBytes := 1 + udhLen;
    if offset + udhTotalBytes > |data| {
      return;
    }
    var udhData := data[offset..offset + udhTotalBytes];
    assert udhData == data[start..][..udhTotalBytes];
    offset := offset + udhTotalBytes;
    if |udhData| >= 6 && udhData[1] == 0x00 {
      res := res.(reference := udhData[3], totalParts := udhData[4], partNumber := udhData[5]);
    } else if |udhData| >= 7 && udhData[1] == 0x08 {
      res := res.(reference := udhData[4], totalParts := udhData[5], partNumber := udhData[6]);
    }
    assert data[offset..] == data[start..][udhTotalBytes..];
    if enc == Ucs2 {
      var text := Ucs2.DecodeUCS2(data[offset..]);
      res := res.(text := text);
    } else {
      var udhBits := udhTotalBytes * 8;
      var padBits := (7 - udhBits % 7) % 7;
      assert padBits == PadBits(udhTotalBytes);
      var septetsToSkip := (udhBits + padBits) / 7;
      var remainingSeptets := udl - septetsToSkip;
      if remainingSeptets > 0 {
        var septets := Septets.UnpackSeptets(data[offset..], remainingSeptets, padBits);
        var text := Gsm7.DecodeGSM7(septets);
        res := res.(text := text);
      }
    }
  }

  method ParsePlainUD(udBytes: seq<byte>, udl: nat, enc: Encoding, initial: DecodedSMS) returns (res: DecodedSMS)
    requires initial.text == []
    ensures res == Plain(udBytes, udl, enc, initial)
  {
    hide Ucs2.Decoded;
    res := initial;
    if |udBytes| == 0 {
      return;
    }
    if enc == Ucs2 {
      var text := Ucs2.DecodeUCS2(udBytes);
      res := res.(text := text);
    } else {
      var septets := Septets.UnpackSeptets(udBytes, udl, 0);
      var text := Gsm7.DecodeGSM7(septets);
      res := res.(text := text);
    }
  }

  /** Total on every input: no octet is read past the end, whatever the length fields say. */
  method DecodeSMS(pduHex: string) returns (r: Result<DecodedSMS, Error>)
    ensures r == Decoded(pduHex)
  {
    hide HexDecode, Bit, Address.DecodedAddress, WithHeader, Plain, Timestamp.Decoded;
    var decoded := HexDecode(pduHex);
    if decoded.None? {
      return Err(InvalidHex);
    }
    var data := decoded.value;
    if |data| < 11 {
      return Err(Truncated);
    }
    var offset := 0;
    var scaLen := data[offset] as int;
    offset := offset + 1 + scaLen;
    if offset >= |data| {
      return Err(Truncated);
    }
    ghost var t := data[offset..];
    ghost var base := offset;

    var firstOctet := data[offset];
    if firstOctet % 4 != 0 {
      return Err(UnsupportedMessageType);
    }
    var hasUDH := Bit(firstOctet, 6);
    offset := offset + 1;

    if offset + 2 > |data| {
      return Err(Truncated);
    }
    var digitCount := data[offset] as int;
    offset := offset + 1;
    var toa := data[offset];
    offset := offset + 1;
    var bcdLen := (digitCount + 1) / 2;
    if offset + bcdLen > |data| {
      return Err(Truncated);
    }
    assert data[offset..offset + bcdLen] == t[3..3 + bcdLen];
    var from := Address.DecodeAddress(data[offset..offset + bcdLen], digitCount, toa);
    offset := offset + bcdLen;
    ghost var rest := t[offset - base..];

    if offset + 2 > |data| {
      return Err(Truncated);
    }
    offset := offset + 1;
    var dcs := data[offset];
    offset := offset + 1;
    var encoding := Gsm7;
    if dcs / 4 % 4 == 2 {
      encoding := Ucs2;
    }

    if offset + 7 > |data| {
      return Err(Truncated);
    }
    assert data[offset..offset + 7] == rest[2..9];
    var timestamp := Timestamp.Decoded(data[offset..offset + 7]);
    offset := offset + 7;

    if offset >= |data| {
      return Err(Truncated);
    }
    var udl := data[offset] as int;
    offset := offset + 1;

    var res := DecodedSMS(from, [], timestamp, encoding, hasUDH, 0, 0, 0);
    assert data[offset..] == rest[10..];
    if hasUDH {
      res := ParseUDH(data, offset, udl, encoding, res);
    } else {
      res := ParsePlainUD(data[offset..], udl, encoding, res);
    }
    r := Ok(res);
  }
}
