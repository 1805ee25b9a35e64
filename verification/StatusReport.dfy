/** Reading SMS-STATUS-REPORT PDUs, 3GPP TS 23.040 section 9.2.2.3 (internal/sms/pdu/status_report.go). */
module StatusReport {
  import opened Octets
  import opened Text
  import Address
  import Timestamp

  datatype Report = Report(messageRef: byte, recipient: string, scTimestamp: Timestamp.Time,
                           discharge: Timestamp.Time, statusCode: byte)
  {
    predicate Delivered() { statusCode <= 0x1F }
    predicate Permanent() { 0x40 <= statusCode <= 0x5F }
  }

  datatype Error = InvalidHex | Truncated | NotStatusReport

  function DecodedTpdu(t: seq<byte>): Result<Report, Error> {
    if t == [] then Err(Truncated)
    else if t[0] % 4 != 2 then Err(NotStatusReport)
    else if |t| < 4 then Err(Truncated)
    else
      var bcdLen := Address.BcdLength(t[2]);
      if 4 + bcdLen + 14 >= |t| then Err(Truncated)
      else
        var rest := t[4 + bcdLen..];
        Ok(Report(t[1], Address.DecodedAddress(t[4..4 + bcdLen], t[2], t[3]),
                  Timestamp.Decoded(rest[..7]), Timestamp.Decoded(rest[7..14]), rest[14]))
  }

  function Decoded(pduHex: string): Result<Report, Error> {
    match HexDecode(pduHex)
    case None => Err(InvalidHex)
    case Some(data) =>
      if |data| < 18 || 1 + data[0] as int >= |data| then Err(Truncated) else DecodedTpdu(data[1 + data[0] as int..])
  }

  /** Total on every input, like DecodeSMS. */
  method DecodeStatusReport(pduHex: string) returns (r: Result<Report, Error>)
    ensures r == Decoded(pduHex)
  {
    hide HexDecode, Address.DecodedAddress, Timestamp.Decoded;
    var decoded := HexDecode(pduHex);
    if decoded.None? {
      return Err(InvalidHex);
    }
    var data := decoded.value;
    if |data| < 18 {
      return Err(Truncated);
    }
    var offset := 0;
    var scaLen := data[offset] as int;
    offset := offset + 1 + scaLen;
    if offset >= |data| {
      return Err(Truncated);
    }
    ghost var base := offset;
    ghost var t := data[offset..];
    var firstOctet := data[offset];
    if firstOctet % 4 != 2 {
      return Err(NotStatusReport);
    }
    offset := offset + 1;
    if offset >= |data| {
      return Err(Truncated);
    }
    var msgRef := data[offset];
    offset := offset + 1;
    if offset + 2 > |data| {
      return Err(Truncated);
    }
    var digitCount := data[offset] as int;
    offset := offset + 1;
    var toa := data[offset];
    offset := offset + 1;
    var bcdLen := (digitCount + 1) / 2;
    if offset + bcdLen > |data| {
      return Err(Truncated);
    }
    assert data[offset..offset + bcdLen] == t[4..4 + bcdLen];
    var recipient := Address.DecodeAddress(data[offset..offset + bcdLen], digitCount, toa);
    offset := offset + bcdLen;
    ghost var rest := t[offset - base..];
    if offset + 7 > |data| {
      return Err(Truncated);
    }
    assert data[offset..offset + 7] == rest[..7];
    var scTimestamp := Timestamp.Decoded(data[offset..offset + 7]);
    offset := offset + 7;
    if offset + 7 > |data| {
      return Err(Truncated);
    }
    assert data[offset..offset + 7] == rest[7..14];
    var discharge := Timestamp.Decoded(data[offset..offset + 7]);
    offset := offset + 7;
    if offset >= |data| {
      return Err(Truncated);
    }
    r := Ok(Report(msgRef, recipient, scTimestamp, discharge, data[offset]));
  }

  // ---------------------------------------------------------------- round trip

  /** A status report as a service centre writes it; `tail` are optional parameters that are not read. */
  datatype Wire = Wire(sca: seq<byte>, firstOctet: byte, mr: byte, recipient: Address.Encoded, scts: seq<byte>,
                       dt: seq<byte>, st: byte, tail: seq<byte>)

  ghost predicate ValidWire(w: Wire) {
    && |w.sca| <= 255 && w.firstOctet % 4 == 2
    && |w.recipient.bcd| == Address.BcdLength(w.recipient.digitCount)
    && |w.scts| == 7 && |w.dt| == 7
  }

  function Tpdu(w: Wire): seq<byte> {
    [w.firstOctet, w.mr, w.recipient.digitCount, w.recipient.typeOfAddr] + w.recipient.bcd
    + (w.scts + w.dt + [w.st] + w.tail)
  }

  function Hex(w: Wire): string
    requires |w.sca| <= 255
  {
    HexString(ReportOctets(w))
  }

  lemma RoundTrip(w: Wire)
    requires ValidWire(w)
    ensures Decoded(Hex(w)) ==
            Ok(Report(w.mr, Address.DecodedAddress(w.recipient.bcd, w.recipient.digitCount, w.recipient.typeOfAddr),
                      Timestamp.Decoded(w.scts), Timestamp.Decoded(w.dt), w.st))
  {
    hide HexDecode, HexString, Address.DecodedAddress, Timestamp.Decoded;
    var t := Tpdu(w);
    var data := [|w.sca|] + w.sca + t;
    HexRoundTrip(data);
    assert data[1 + data[0] as int..] == t;
    var n := |w.recipient.bcd|;
    var rest := w.scts + w.dt + [w.st] + w.tail;
    assert t[4..4 + n] == w.recipient.bcd && t[4 + n..] == rest;
    assert rest[..7] == w.scts && rest[7..14] == w.dt && rest[14] == w.st;
  }

  function ReportOctets(w: Wire): seq<byte>
    requires |w.sca| <= 255
  {
    [|w.sca|] + w.sca + Tpdu(w)
  }

  ghost predicate IsStatusReport(octets: seq<byte>) { exists w: Wire :: ValidWire(w) && octets == ReportOctets(w) }

  /** Exactly the layout of SMS-STATUS-REPORT is accepted, and every error has its cause. */
  lemma AcceptsExactlyReports(pduHex: string)
    ensures var r, data := Decoded(pduHex), HexDecode(pduHex);
            && (r.Ok? <==> data.Some? && IsStatusReport(data.value))
            && (r == Err(InvalidHex) <==> data.None?)
            && (r == Err(NotStatusReport) <==>
                  data.Some? && |data.value| >= 18 && 1 + data.value[0] as int < |data.value|
                  && data.value[1 + data.value[0] as int] % 4 != 2)
  {
    hide HexDecode, IsStatusReport, Address.DecodedAddress, Timestamp.Decoded;
    var data := HexDecode(pduHex);
    if data.Some? {
      if Decoded(pduHex).Ok? { LayoutOf(data.value); }
      if IsStatusReport(data.value) { LayoutDecodes(data.value); }
    }
  }

  lemma LayoutOf(data: seq<byte>)
    requires |data| >= 18 && 1 + data[0] as int < |data| && DecodedTpdu(data[1 + data[0] as int..]).Ok?
    ensures IsStatusReport(data)
  {
    hide Address.DecodedAddress, Timestamp.Decoded;
    var t := data[1 + data[0] as int..];
    var n := Address.BcdLength(t[2]);
    var rest := t[4 + n..];
    var w := Wire(data[1..1 + data[0] as int], t[0], t[1], Address.Encoded(t[2], t[3], t[4..4 + n]), rest[..7], rest[7..14],
                  rest[14], rest[15..]);
    assert rest == w.scts + w.dt + [w.st] + w.tail;
    assert t == Tpdu(w);
    assert data == ReportOctets(w);
  }

  lemma LayoutDecodes(data: seq<byte>)
    requires IsStatusReport(data)
    ensures |data| >= 18 && 1 + data[0] as int < |data| && DecodedTpdu(data[1 + data[0] as int..]).Ok?
  {
    hide Address.DecodedAddress, Timestamp.Decoded;
    var w: Wire :| ValidWire(w) && data == ReportOctets(w);
    assert data[1 + data[0] as int..] == Tpdu(w);
  }
}
