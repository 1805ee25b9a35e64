/** Worked examples from the tests of the repository and from the standards. They fix what laws between a writer and its
    reader leave open: the order of octets and of semi-octets, and the layout as literal octets. */
module KnownAnswers {
  import opened Octets
  import opened Text
  import opened Splitting
  import Address
  import Assembler
  import Decoder
  import Encoder
  import ForeignSenders
  import Relay
  import Timestamp
  import Ucs2

  lemma TwoOctets(a: char, b: char, c: char, d: char)
    requires HexValue(a).Some? && HexValue(b).Some? && HexValue(c).Some? && HexValue(d).Some?
    ensures HexDecode([a, b, c, d])
         == Some([16 * HexValue(a).value + HexValue(b).value, 16 * HexValue(c).value + HexValue(d).value])
  {
    hide HexValue;
    var x: byte, y: byte := 16 * HexValue(a).value + HexValue(b).value, 16 * HexValue(c).value + HexValue(d).value;
    assert [a, b, c, d][2..] == [c, d] && [c, d][2..] == [];
    assert HexDecode([]) == Some([]);
    assert [y] + [] == [y] && [x] + [y] == [x, y];
    assert HexDecode([c, d]) == Some([y]);
  }

  lemma Hexadecimal()
    ensures HexString([0x1A, 0xF0]) == "1AF0"
    ensures HexDecode("1AF0") == Some([0x1A, 0xF0]) && HexDecode("1af0") == Some([0x1A, 0xF0])
    ensures HexDecode("1") == None && HexDecode("1G") == None
  {
    hide HexDecode, HexString;
    TwoOctets('1', 'A', 'F', '0');
    TwoOctets('1', 'a', 'f', '0');
    OddAndForeign();
    HexOfTwo(0x1A, 0xF0);
    assert HexByte(0x1A) == "1A" && HexByte(0xF0) == "F0";
  }

  lemma HexOfTwo(a: byte, b: byte)
    ensures HexString([a, b]) == HexByte(a) + HexByte(b)
  {
    assert [a, b][1..] == [b] && [b][1..] == [];
    assert HexString([b]) == HexByte(b) + HexString([]);
  }

  lemma OddAndForeign()
    ensures HexDecode("1") == None && HexDecode("1G") == None
  {
  }

  lemma SixOctets(d: string)
    requires |d| == 11 && AllDigits(d)
    ensures var v := (i: int) requires 0 <= i < 11 => Address.DigitValue(d[i]);
            Address.Bcd(d) == [16 * v(1) + v(0), 16 * v(3) + v(2), 16 * v(5) + v(4), 16 * v(7) + v(6), 16 * v(9) + v(8),
                               0xF0 + v(10)]
  {
    hide Address.Bcd, Address.DigitValue;
    Address.BcdAt(d, 0); Address.BcdAt(d, 1); Address.BcdAt(d, 2); Address.BcdAt(d, 3); Address.BcdAt(d, 4); Address.BcdAt(d, 5);
  }

  /** "+79964126670" is written 0B 91 97 69 14 62 76 F0. */
  lemma WrittenAddress()
    ensures Address.EncodedAddress("+79964126670") == Address.Encoded(11, 0x91, [0x97, 0x69, 0x14, 0x62, 0x76, 0xF0])
  {
    hide TrimSpace, DigitsOf, Address.Bcd;
    var d := "79964126670";
    assert "+79964126670"[1..] == d && "+79964126670"[0] == '+';
    TrimIdle("+79964126670");
    DigitsOfDigits(d);
    Address.PlusIsNoDigit("+79964126670");
    SixOctets(d);
  }

  /** Numbers without a plus sign are of the unknown type. */
  lemma NationalType(number: string)
    requires !HasPrefix(TrimSpace(number), "+")
    ensures Address.EncodedAddress(number).typeOfAddr == 0x81
  {
    hide TrimSpace, DigitsOf, Address.Bcd;
  }

  /** 62 90 22 90 00 00 23: the 22nd of September 2026, nine o'clock, eight hours east of Greenwich. */
  lemma ReadTimeStamp()
    ensures Timestamp.Decoded([0x62, 0x90, 0x22, 0x90, 0x00, 0x00, 0x23]) == Timestamp.Time(2026, 9, 22, 9, 0, 0, 8 * 3600)
    ensures Timestamp.Decoded([0x62, 0x90, 0x22, 0x90, 0x00, 0x00, 0x2B]).offset == -8 * 3600
  {
    hide Timestamp.TwoDigits, Timestamp.Quarters;
    TimeFields();
    ZoneFields();
  }

  lemma TimeFields()
    ensures Timestamp.TwoDigits(0x62) == 26 && Timestamp.TwoDigits(0x90) == 9
    ensures Timestamp.TwoDigits(0x22) == 22 && Timestamp.TwoDigits(0x00) == 0
  {
  }

  lemma ZoneFields()
    ensures Timestamp.Quarters(0x23) == 32 && Timestamp.Quarters(0x2B) == -32
  {
  }

  /** Bits 3 and 2 of the coding scheme choose UCS-2 (3GPP TS 23.038 section 4). */
  lemma CodingScheme(dcs: byte)
    ensures Decoder.EncodingOf(dcs) == (if Bit(dcs, 3) && !Bit(dcs, 2) then Ucs2 else Gsm7)
  {
    assert Bit(dcs, 2) == (dcs / 2 / 2 % 2 == 1);
    assert Bit(dcs, 3) == (dcs / 2 / 2 / 2 % 2 == 1);
    assert dcs / 2 / 2 == dcs / 4 && dcs / 2 / 2 / 2 == dcs / 8;
  }

  lemma FourUnits(a: char, b: char, c: char, d: char)
    requires a as int <= 0xFFFF && b as int <= 0xFFFF && c as int <= 0xFFFF && d as int <= 0xFFFF
    ensures Ucs2.Encoded([a, b, c, d]) == [a as int / 256, a as int % 256, b as int / 256, b as int % 256,
                                           c as int / 256, c as int % 256, d as int / 256, d as int % 256]
  {
    assert [a, b, c, d][1..] == [b, c, d] && [b, c, d][1..] == [c, d] && [c, d][1..] == [d] && [d][1..] == [];
    assert Ucs2.Utf16([d]) == [d as int] + Ucs2.Utf16([]);
    assert Ucs2.Utf16([c, d]) == [c as int] + Ucs2.Utf16([d]);
    assert Ucs2.Utf16([b, c, d]) == [b as int] + Ucs2.Utf16([c, d]);
    assert Ucs2.Utf16([a, b, c, d]) == [a as int] + Ucs2.Utf16([b, c, d]);
  }

  /** The supplementary character U+1F6A8 is the surrogate pair D83D DEA8, high octets first. */
  lemma SurrogatePair()
    ensures Ucs2.Encoded("\U{1F6A8}") == [0xD8, 0x3D, 0xDE, 0xA8]
  {
    assert "\U{1F6A8}"[1..] == [];
    assert Ucs2.Utf16("\U{1F6A8}") == [0xD83D, 0xDEA8];
  }

  const TEST: string := "\U{422}\U{435}\U{441}\U{442}"

  const HEADER: seq<byte> := [0x05, 0x00, 0x03, 0xA7, 0x02, 0x01]

  const ENVELOPE := Relay.Envelope([], 0x44, Address.Encoded(11, 0x91, [0x97, 0x12, 0x34, 0x56, 0x78, 0xF9]), 0x00,
                                   [0x62, 0x90, 0x22, 0x90, 0x00, 0x00, 0x23])

  lemma ValidExample()
    ensures Relay.ValidEnvelope(ENVELOPE, true) && Bit(0x44, 6)
  {
    assert Bit(0x11, 4);
  }

  lemma ExampleField()
    ensures ForeignSenders.FieldLength(HEADER, 1, Ucs2, TEST) == 14
    ensures ForeignSenders.Field(HEADER, 1, Ucs2, TEST)
         == Encoder.UserData(14, 0x08, HEADER + [0x04, 0x22, 0x04, 0x35, 0x04, 0x41, 0x04, 0x42])
  {
    hide Ucs2.Encoded;
    FourUnits('\U{422}', '\U{435}', '\U{441}', '\U{442}');
  }

  /** The SMS-DELIVER 00 44 0B 91 97 12 34 56 78 F9 00 08 62 90 22 90 00 00 23 0E 05 00 03 A7 02 01 04 22 04 35 04 41
      04 42 is part 1 of 2 of message A7 with the text of four Cyrillic letters. */
  lemma MultipartDeliver()
    ensures |ENVELOPE.sca| == 0 && |ENVELOPE.scts| == 7
    ensures var ud := Encoder.UserData(14, 0x08, HEADER + [0x04, 0x22, 0x04, 0x35, 0x04, 0x41, 0x04, 0x42]);
            && Relay.DeliverOctets(ENVELOPE, ud)
               == [0x00, 0x44, 0x0B, 0x91] + [0x97, 0x12, 0x34, 0x56, 0x78, 0xF9] + [0x00, 0x08]
                  + [0x62, 0x90, 0x22, 0x90, 0x00, 0x00, 0x23] + [0x0E] + HEADER
                  + [0x04, 0x22, 0x04, 0x35, 0x04, 0x41, 0x04, 0x42]
            && ForeignSenders.DecodesTo(ENVELOPE, ud, 0xA7, 2, 1, TEST)
  {
    hide Bit, ForeignSenders.DecodesTo, ForeignSenders.Field, ForeignSenders.FieldLength;
    ValidExample();
    ExampleField();
    assert ForeignSenders.NarrowHeader(0xA7, 2, 1, []) == HEADER;
    ForeignSenders.NarrowDecodes(ENVELOPE, 0xA7, 2, 1, [], 1, Ucs2, TEST);
  }

  lemma OneOfTwo(parts: map<int, string>)
    requires parts == map[1 := "Hello"]
    ensures Assembler.Summary(parts, 2) == "Part 1/2"
  {
    assert Assembler.Present(parts, 0) == [] && Assembler.Present(parts, 1) == [1] && Assembler.Present(parts, 2) == [1];
    assert Itoa(1) == "1" && Itoa(2) == "2";
  }

  lemma HelloIsThere(parts: map<int, string>)
    requires parts == map[1 := "Hello"]
    ensures Assembler.Available(parts, 2, 2) == "Hello"
  {
    assert !Assembler.Gap(parts, 2, 1) && !Assembler.Gap(parts, 2, 2);
    hide Assembler.Gap;
    assert Assembler.Available(parts, 2, 0) == "";
    assert Assembler.Available(parts, 2, 1) == "Hello";
  }

  /** Part 1 of 2, "Hello", when its timer fires. */
  lemma NoticeOfOnePart(e: Assembler.Entry)
    requires e.parts == map[1 := "Hello"] && e.totalParts == 2
    ensures Assembler.FlushNotice(e).text == "[Part 1/2]: Hello" && Assembler.FlushNotice(e).segments == 1
    ensures Assembler.Progress(e).text == "[Updated Part 1/2]: Hello"
  {
    hide Assembler.Summary, Assembler.Available;
    assert e.parts.Keys == {1};
    OneOfTwo(e.parts);
    HelloIsThere(e.parts);
  }

  /** White space, and what is left when it is trimmed. */
  lemma WhiteSpace()
    ensures IsSpace('\t') && IsSpace('\n') && IsSpace('\r') && IsSpace('\U{0B}') && IsSpace('\U{0C}') && IsSpace(' ')
    ensures IsSpace('\U{85}') && IsSpace('\U{A0}') && IsSpace('\U{2003}') && IsSpace('\U{3000}')
    ensures !IsSpace('0') && !IsSpace('+') && !IsSpace('_') && !IsSpace('\U{200B}') && !IsSpace('\0')
  {
  }
}
