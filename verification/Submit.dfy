/** What the PDUs of the encoder are worth to a service centre that reads them by the layout
    of SMS-SUBMIT (3GPP TS 23.040 section 9.2.2.2), and when they respect its 140-octet limit. */
module Submit {
  import opened Octets
  import opened Text
  import opened Splitting
  import opened Encoder
  import Address
  import Gsm7
  import Septets
  import Ucs2

  /** The fields of an SMS-SUBMIT with a relative validity period. */
  datatype Fields = Fields(firstOctet: byte, mr: byte, destination: string, pid: byte, dcs: byte, vp: byte,
                           udl: byte, ud: seq<byte>)

  /** The octets of user data that TP-UDL announces: it counts septets under the default alphabet and octets
      under every other coding scheme (section 9.2.3.16). */
  function Announced(udl: byte, dcs: byte): nat { if dcs / 4 % 4 == 0 then (7 * udl + 7) / 8 else udl }

  /** An independent reader: skips the SMSC address, takes the fields in turn and as much user data as TP-UDL
      announces. */
  function Read(octets: seq<byte>): Option<Fields> {
    if |octets| == 0 || 1 + octets[0] + 4 > |octets| then None
    else
      var t := octets[1 + octets[0]..];
      var bcdLen := Address.BcdLength(t[2]);
      if 4 + bcdLen + 4 > |t| then None
      else
        var rest := t[4 + bcdLen..];
        var n := Announced(rest[3], rest[1]);
        if 4 + n > |rest| then None
        else Some(Fields(t[0], t[1], Address.DecodedAddress(t[4..4 + bcdLen], t[2], t[3]),
                         rest[0], rest[1], rest[2], rest[3], rest[4..4 + n]))
  }

  function AddressOctets(recipient: string): seq<byte> {
    var a := Address.EncodedAddress(recipient);
    [a.digitCount, a.typeOfAddr] + a.bcd
  }

  /** The octets behind the hexadecimal text of `BuildPDU`. */
  function Tpdu(recipient: string, firstOctet: byte, ud: UserData): seq<byte> {
    [firstOctet, 0x00] + AddressOctets(recipient) + [0x00, ud.dcs, 0xAA, ud.udl] + ud.octets
  }

  lemma HexOne(b: byte)
    ensures HexString([b]) == HexByte(b)
  {
    assert [b][1..] == [];
    assert HexString([b]) == HexByte(b) + HexString([]);
  }

  lemma HexZero()
    ensures HexByte(0x00) == "00" && HexByte(0xAA) == "AA"
  {
  }

  /** The text is the hexadecimal form of one SMSC octet and the TPDU, and the command length
      (3GPP TS 27.005 section 4.3) counts the TPDU only. */
  lemma PduOctets(recipient: string, firstOctet: byte, ud: UserData, udh: bool, enc: Encoding, part: nat, total: nat)
    ensures var p := BuildPDU(recipient, firstOctet, ud, udh, enc, part, total);
            && HexDecode(p.hex) == Some([0x00] + Tpdu(recipient, firstOctet, ud))
            && p.commandLength == |Tpdu(recipient, firstOctet, ud)|
  {
    hide HexString, HexByte, HexDecode, Address.EncodedAddress;
    var a := Address.EncodedAddress(recipient);
    HexZero();
    HexOne(0x00); HexOne(firstOctet); HexOne(a.digitCount); HexOne(a.typeOfAddr);
    HexOne(ud.dcs); HexOne(0xAA); HexOne(ud.udl);
    var head := [firstOctet] + [0x00];
    HexConcat([firstOctet], [0x00]);
    var address := [a.digitCount] + [a.typeOfAddr] + a.bcd;
    HexConcat([a.digitCount], [a.typeOfAddr]);
    HexConcat([a.digitCount] + [a.typeOfAddr], a.bcd);
    var middle := [0x00] + [ud.dcs] + [0xAA] + [ud.udl];
    HexConcat([0x00], [ud.dcs]);
    HexConcat([0x00] + [ud.dcs], [0xAA]);
    HexConcat([0x00] + [ud.dcs] + [0xAA], [ud.udl]);
    HexConcat(head, address);
    HexConcat(head + address, middle);
    HexConcat(head + address + middle, ud.octets);
    var tpdu := head + address + middle + ud.octets;
    assert tpdu == Tpdu(recipient, firstOctet, ud);
    HexConcat([0x00], tpdu);
    HexRoundTrip([0x00] + tpdu);
    var p := BuildPDU(recipient, firstOctet, ud, udh, enc, part, total);
    assert p.hex == HexString([0x00] + tpdu);
  }

  /** User data as a reader takes it: no more than its length announces. */
  function Taken(ud: UserData): UserData {
    var n := Announced(ud.udl, ud.dcs);
    if n <= |ud.octets| then ud.(octets := ud.octets[..n]) else ud
  }

  lemma ReadTpdu(recipient: string, firstOctet: byte, ud: UserData)
    requires |DigitsOf(TrimSpace(recipient))| <= 255 && Announced(ud.udl, ud.dcs) <= |ud.octets|
    ensures Read([0x00] + Tpdu(recipient, firstOctet, ud))
         == Some(Fields(firstOctet, 0x00, Address.Canonical(recipient), 0x00, ud.dcs, 0xAA, ud.udl, Taken(ud).octets))
  {
    hide Address.DecodedAddress, Tpdu, Address.EncodedAddress, Address.BcdLength, DigitsOf, TrimSpace, Address.Canonical,
         Announced, Read;
    var a := Address.EncodedAddress(recipient);
    var pre, post := [firstOctet, 0x00, a.digitCount, a.typeOfAddr], [0x00, ud.dcs, 0xAA, ud.udl] + ud.octets;
    TpduParts(recipient, firstOctet, ud);
    Address.RoundTrip(recipient);
    ReadParts(pre, a.bcd, post);
    var n := Announced(ud.udl, ud.dcs);
    assert post[4..4 + n] == ud.octets[..n];
  }

  lemma TpduParts(recipient: string, firstOctet: byte, ud: UserData)
    requires |DigitsOf(TrimSpace(recipient))| <= 255
    ensures var a := Address.EncodedAddress(recipient);
            && Tpdu(recipient, firstOctet, ud)
               == [firstOctet, 0x00, a.digitCount, a.typeOfAddr] + a.bcd + ([0x00, ud.dcs, 0xAA, ud.udl] + ud.octets)
            && |a.bcd| == Address.BcdLength(a.digitCount)
  {
    hide Address.Bcd, DigitsOf, TrimSpace;
  }

  lemma ReadParts(pre: seq<byte>, bcd: seq<byte>, post: seq<byte>)
    requires |pre| == 4 && |bcd| == Address.BcdLength(pre[2]) && |post| >= 4
    requires 4 + Announced(post[3], post[1]) <= |post|
    ensures Read([0x00] + (pre + bcd + post))
         == Some(Fields(pre[0], pre[1], Address.DecodedAddress(bcd, pre[2], pre[3]), post[0], post[1], post[2], post[3],
                        post[4..4 + Announced(post[3], post[1])]))
  {
    hide Address.DecodedAddress, Announced;
    var t := pre + bcd + post;
    assert ([0x00] + t)[1..] == t;
    assert t[4..4 + |bcd|] == bcd && t[4 + |bcd|..] == post;
  }

  /** The hexadecimal text stands for some octets, and the command length counts all but the first of them. */
  ghost predicate WellFormed(p: PDU) { HexDecode(p.hex).Some? && p.commandLength == |HexDecode(p.hex).value| - 1 }

  /** A service centre reads this user data, and everything else as it was meant. */
  ghost predicate Carries(p: PDU, recipient: string, firstOctet: byte, ud: UserData) {
    && HexDecode(p.hex).Some?
    && Read(HexDecode(p.hex).value)
       == Some(Fields(firstOctet, 0x00, Address.Canonical(recipient), 0x00, ud.dcs, 0xAA, ud.udl, ud.octets))
  }

  function UserDataOf(text: string, enc: Encoding, ref: byte, i: nat): UserData
    requires Multipart(text, enc) ==> i < |Chunks(text, enc)|
  {
    if Multipart(text, enc) then PartUserData(Chunks(text, enc)[i], enc, ref, i + 1, |Chunks(text, enc)|)
    else SingleUserData(text, enc)
  }

  /** When nothing is sent at all: a recipient of white space only, or an empty text. */
  lemma EncodeErrors(recipient: string, text: string, enc: Encoding, srr: bool, ref: byte)
    ensures var r, blank := EncodedSMS(recipient, text, enc, srr, ref), forall c :: c in recipient ==> IsSpace(c);
            && (r == Err(EmptyRecipient) <==> blank)
            && (r == Err(EmptyText) <==> !blank && text == "")
            && (r.Ok? <==> !blank && text != "")
  {
    hide TrimSpace, IsSpace, Multipart, SinglePDU, PartPDU, Chunks, Selected;
    TrimToNothing(recipient);
  }

  /** What TP-UDL of PDU `i` should say. */
  function LengthOf(text: string, enc: Encoding, i: nat): nat
    requires Multipart(text, enc) ==> i < |Chunks(text, enc)|
  {
    if Multipart(text, enc) then Length(enc, Chunks(text, enc)[i], true) else Length(enc, text, false)
  }

  lemma WrappedSeptets(n: nat)
    ensures (7 * (n % 256) + 7) / 8 <= (7 * n + 7) / 8
    ensures (7 * (n % 256) + 7) / 8 == (7 * n + 7) / 8 <==> n <= 255
  {
    if n > 255 {
      var q := n / 256;
      assert n == 256 * q + n % 256;
      assert (7 * n + 7) / 8 >= (7 * (n % 256) + 7 + 8 * 224) / 8;
    }
  }

  /** The length octet never announces more than there is, and all of it exactly when it did not wrap. */
  lemma SingleAnnounced(text: string, enc: Encoding)
    ensures var ud := SingleUserData(text, enc);
            && ud.udl == Length(enc, text, false) % 256
            && Announced(ud.udl, ud.dcs) <= |ud.octets|
            && (Taken(ud) == ud <==> Length(enc, text, false) <= 255)
  {
    hide Gsm7.Encoded, Ucs2.Encoded, Septets.Packed;
    WrappedSeptets(|Gsm7.Encoded(text)|);
    TakenAll(SingleUserData(text, enc));
  }

  /** The pieces of a text are never empty. */
  lemma PartAnnounced(text: string, enc: Encoding, ref: byte, part: nat, total: nat)
    requires text != []
    ensures var ud := PartUserData(text, enc, ref, part, total);
            && ud.udl == Length(enc, text, true) % 256
            && Announced(ud.udl, ud.dcs) <= |ud.octets|
            && (Taken(ud) == ud <==> Length(enc, text, true) <= 255)
  {
    hide Gsm7.Encoded, Ucs2.Encoded, Septets.Packed;
    WrappedSeptets(7 + |Gsm7.Encoded(text)|);
    TakenAll(PartUserData(text, enc, ref, part, total));
  }

  lemma TakenAll(ud: UserData)
    requires Announced(ud.udl, ud.dcs) <= |ud.octets|
    ensures Taken(ud) == ud <==> Announced(ud.udl, ud.dcs) == |ud.octets|
  {
    hide Announced;
    assert ud.octets[..|ud.octets|] == ud.octets;
  }

  /** Every PDU of a successful EncodeSMS, read back by the layout of the standard. If and only if the digits of the
      recipient can be counted in one octet its fields are found, with as much of the user data as TP-UDL announces;
      that is all of it if and only if the length did not wrap. Parts are numbered from one, agree on the total, and
      there are at least two of them whenever a header is present. */
  lemma EncodedLayout(recipient: string, text: string, enc: Encoding, srr: bool, ref: byte, i: nat)
    requires EncodedSMS(recipient, text, enc, srr, ref).Ok?
    requires i < |EncodedSMS(recipient, text, enc, srr, ref).value|
    ensures var pdus := EncodedSMS(recipient, text, enc, srr, ref).value;
            var e := Selected(text, enc);
            && pdus[i].hasUDH == Multipart(text, e)
            && (if pdus[i].hasUDH then |pdus| == |Chunks(text, e)| >= 2 else |pdus| == 1)
            && pdus[i].totalParts == |pdus| && pdus[i].partNumber == i + 1
            && pdus[i].encoding == e
            && WellFormed(pdus[i])
            && var first, ud := FirstOctet(Multipart(text, e), srr), UserDataOf(text, e, ref, i);
               && (Carries(pdus[i], recipient, first, Taken(ud)) <==> |DigitsOf(TrimSpace(recipient))| <= 255)
               && (Carries(pdus[i], recipient, first, ud)
                   <==> |DigitsOf(TrimSpace(recipient))| <= 255 && LengthOf(text, e, i) <= 255)
  {
    hide HexDecode, HexString, HexByte, Read, Tpdu, BuildPDU, Greedy, DigitsOf, TrimSpace, PartUserData, SingleUserData, TextWeight,
         Length, Taken, Announced;
    var e := Selected(text, enc);
    var ud := UserDataOf(text, e, ref, i);
    var first := FirstOctet(Multipart(text, e), srr);
    if Multipart(text, e) {
      AtLeastTwo(e, text, MaxMultipart(e));
      GreedyIsPartition(e, text, MaxMultipart(e));
      PartAnnounced(Chunks(text, e)[i], e, ref, i + 1, |Chunks(text, e)|);
      Described(recipient, first, ud, true, e, i + 1, |Chunks(text, e)|);
    } else {
      SingleAnnounced(text, e);
      Described(recipient, first, ud, false, e, 1, 1);
    }
  }

  lemma Described(recipient: string, firstOctet: byte, ud: UserData, udh: bool, enc: Encoding, part: nat, total: nat)
    requires Announced(ud.udl, ud.dcs) <= |ud.octets|
    ensures var p := BuildPDU(recipient, firstOctet, ud, udh, enc, part, total);
            && p.hasUDH == udh && p.encoding == enc && p.partNumber == part && p.totalParts == total
            && WellFormed(p)
            && (Carries(p, recipient, firstOctet, Taken(ud)) <==> |DigitsOf(TrimSpace(recipient))| <= 255)
            && (Carries(p, recipient, firstOctet, ud) <==> |DigitsOf(TrimSpace(recipient))| <= 255 && Taken(ud) == ud)
  {
    hide HexDecode, Read, Tpdu, HexString, HexByte, DigitsOf, TrimSpace, Address.FormatAddressHex, Address.Canonical, Announced;
    PduOctets(recipient, firstOctet, ud, udh, enc, part, total);
    if |DigitsOf(TrimSpace(recipient))| <= 255 {
      ReadTpdu(recipient, firstOctet, ud);
    } else {
      WrappedCount(recipient, firstOctet, ud);
    }
  }

  /** A digit count that wrapped announces too few digits for the recipient. */
  lemma WrappedCount(recipient: string, firstOctet: byte, ud: UserData)
    requires |DigitsOf(TrimSpace(recipient))| > 255
    ensures var r := Read([0x00] + Tpdu(recipient, firstOctet, ud));
            r.Some? ==> |r.value.destination| < |Address.Canonical(recipient)|
  {
    hide Address.ReadDigits, Address.Bcd, DigitsOf, TrimSpace, Announced;
    var t := Tpdu(recipient, firstOctet, ud);
    assert ([0x00] + t)[1..] == t;
  }

  /** The first octet says SMS-SUBMIT with a relative validity period, and whether a header is present and a
      delivery report is wanted; nothing else. */
  lemma FirstOctetFields(udh: bool, srr: bool)
    ensures var o := FirstOctet(udh, srr);
            && !Bit(o, 1) && Bit(o, 0)
            && Bit(o, 4) && !Bit(o, 3) && !Bit(o, 2) && !Bit(o, 7)
            && Bit(o, 6) == udh && Bit(o, 5) == srr
  {
    assert Bit(0x11, 0) && !Bit(0x11, 1) && !Bit(0x11, 2) && !Bit(0x11, 3) && Bit(0x11, 4) && !Bit(0x11, 5)
           && !Bit(0x11, 6) && !Bit(0x11, 7);
    assert Bit(0x31, 0) && !Bit(0x31, 1) && !Bit(0x31, 2) && !Bit(0x31, 3) && Bit(0x31, 4) && Bit(0x31, 5)
           && !Bit(0x31, 6) && !Bit(0x31, 7);
    assert Bit(0x51, 0) && !Bit(0x51, 1) && !Bit(0x51, 2) && !Bit(0x51, 3) && Bit(0x51, 4) && !Bit(0x51, 5)
           && Bit(0x51, 6) && !Bit(0x51, 7);
    assert Bit(0x71, 0) && !Bit(0x71, 1) && !Bit(0x71, 2) && !Bit(0x71, 3) && Bit(0x71, 4) && Bit(0x71, 5)
           && Bit(0x71, 6) && !Bit(0x71, 7);
  }

  // ---------------------------------------------------------------- cuts

  function AllSeptets(parts: seq<string>): seq<byte> {
    if parts == [] then [] else Gsm7.Encoded(parts[0]) + AllSeptets(parts[1..])
  }

  function AllUnits(parts: seq<string>): seq<Ucs2.unit> {
    if parts == [] then [] else Ucs2.Utf16(parts[0]) + AllUnits(parts[1..])
  }

  /** The pieces encoded one by one are the text encoded at once: no cut falls inside an escape pair or a
      surrogate pair. */
  lemma {:induction false} NoPairIsSplit(parts: seq<string>)
    ensures AllSeptets(parts) == Gsm7.Encoded(Flatten(parts))
    ensures AllUnits(parts) == Ucs2.Utf16(Flatten(parts))
  {
    if parts != [] {
      NoPairIsSplit(parts[1..]);
      Gsm7.EncodedConcat(parts[0], Flatten(parts[1..]));
      Ucs2.Utf16Concat(parts[0], Flatten(parts[1..]));
    }
  }

  // ---------------------------------------------------------------- the 140-octet limit

  /** A single PDU fits exactly when its real cost is within the limit the encoder checked. */
  lemma SingleFits(text: string, enc: Encoding)
    ensures |SingleUserData(text, enc).octets| <= 140 <==> Cost(enc, text) <= MaxSingle(enc)
    ensures SingleUserData(text, enc).udl == Length(enc, text, false) <==> Length(enc, text, false) <= 255
  {
    hide Gsm7.Encoded, Ucs2.Encoded, Septets.Packed;
  }

  lemma PartFits(text: string, enc: Encoding, ref: byte, part: nat, total: nat)
    ensures |PartUserData(text, enc, ref, part, total).octets| <= 140 <==> Cost(enc, text) <= MaxMultipart(enc)
    ensures PartUserData(text, enc, ref, part, total).udl == Length(enc, text, true) <==> Length(enc, text, true) <= 255
  {
    hide Gsm7.Encoded, Ucs2.Encoded, Septets.Packed;
  }

  /** The texts whose counted weight is their real cost: all of UCS-2, and GSM-7 without extension
      characters. */
  ghost predicate CountedExactly(enc: Encoding, text: string) {
    match enc
    case Ucs2 => true
    case Gsm7 => forall c :: c in text ==> !Gsm7.InExtension(c)
    case _ => false
  }

  lemma CostIsWeight(enc: Encoding, text: string)
    requires CountedExactly(enc, text)
    ensures Cost(enc, text) == TextWeight(enc, text)
  {
    if enc == Ucs2 {
      Ucs2Weight(text);
    } else {
      Gsm7.EncodedLength(text);
    }
  }

  lemma {:induction false} ChunkChars(parts: seq<string>, i: nat)
    requires i < |parts|
    ensures forall c :: c in parts[i] ==> c in Flatten(parts)
  {
    if i > 0 { ChunkChars(parts[1..], i - 1); }
  }

  /** Every PDU of such a text carries at most 140 octets of user data and its true count in TP-UDL. */
  lemma AllFit(text: string, enc: Encoding, ref: byte, i: nat)
    requires CountedExactly(enc, text)
    requires Multipart(text, enc) ==> i < |Chunks(text, enc)|
    ensures var ud := UserDataOf(text, enc, ref, i);
            && |ud.octets| <= 140
            && ud.udl == (if enc == Ucs2 then |ud.octets|
                          else if Multipart(text, enc) then 7 + |Gsm7.Encoded(Chunks(text, enc)[i])|
                          else |Gsm7.Encoded(text)|)
  {
    hide Greedy, TextWeight, Gsm7.Encoded, Ucs2.Encoded, Septets.Packed, Gsm7.InExtension;
    if Multipart(text, enc) {
      var chunks := Chunks(text, enc);
      GreedyIsPartition(enc, text, MaxMultipart(enc));
      ChunkChars(chunks, i);
      CostIsWeight(enc, chunks[i]);
      PartFits(chunks[i], enc, ref, i + 1, |chunks|);
    } else {
      CostIsWeight(enc, text);
      SingleFits(text, enc);
    }
  }

  lemma {:induction false} RepeatCost(c: char, n: nat)
    requires Gsm7.InExtension(c)
    ensures |Gsm7.Encoded(Repeat(c, n))| == 2 * n
  {
    if n > 0 { RepeatCost(c, n - 1); assert Repeat(c, n)[1..] == Repeat(c, n - 1); }
  }

  lemma Caret()
    ensures Gsm7.InExtension('^') && Gsm7.InAlphabet('^')
  {
  }

  /** A text that is counted exactly is sent as one PDU if and only if it fits 140 octets without a header. */
  lemma OnePduWhenItFits(recipient: string, text: string, enc: Encoding, srr: bool, ref: byte)
    requires EncodedSMS(recipient, text, enc, srr, ref).Ok? && CountedExactly(Selected(text, enc), text)
    ensures |EncodedSMS(recipient, text, enc, srr, ref).value| == 1
       <==> |SingleUserData(text, Selected(text, enc)).octets| <= 140
  {
    hide Greedy, TextWeight, Gsm7.Encoded, Ucs2.Encoded, Septets.Packed, Gsm7.InExtension, Gsm7.InAlphabet, TrimSpace, PartPDU,
         SinglePDU, SingleUserData, CountedExactly;
    var e := Selected(text, enc);
    SingleFits(text, e);
    CostIsWeight(e, text);
    if Multipart(text, e) { AtLeastTwo(e, text, MaxMultipart(e)); }
  }

  /** Characters are counted, but extension characters take two septets: 160 carets are sent as one
      message of 280 octets whose TP-UDL has wrapped to 64, so that a reader takes 56 of them. */
  lemma ExtensionOverflow()
    ensures var text := Repeat('^', 160);
            && Selected(text, Auto) == Gsm7
            && !Multipart(text, Gsm7)
            && |SingleUserData(text, Gsm7).octets| == 280
            && SingleUserData(text, Gsm7).udl == 64
            && |Taken(SingleUserData(text, Gsm7)).octets| == 56
  {
    hide Gsm7.Encoded, Septets.Packed, Repeat, TextWeight, Gsm7.InAlphabet, Gsm7.InExtension;
    var text := Repeat('^', 160);
    Caret();
    RepeatCost('^', 160);
    assert CoveredByGsm7(text);
    assert |Gsm7.Encoded(text)| == 320;
  }
}
