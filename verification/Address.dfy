/** TP addresses in semi-octets, 3GPP TS 23.040 section 9.1.2.5 (internal/sms/pdu/address.go). */
module Address {
  import opened Octets
  import opened Text

  const INTERNATIONAL: byte := 0x91
  const NATIONAL: byte := 0x81

  datatype Encoded = Encoded(digitCount: byte, typeOfAddr: byte, bcd: seq<byte>)

  function DigitValue(c: char): (v: byte)
    requires IsDigit(c)
    ensures v < 10
  {
    c as int - '0' as int
  }

  /** Two digits an octet, the first in the low half; an odd last digit is padded with 0xF. */
  function Bcd(d: string): (bcd: seq<byte>)
    requires AllDigits(d)
    ensures |bcd| == (|d| + 1) / 2
  {
    if d == [] then []
    else if |d| == 1 then [0xF0 + DigitValue(d[0])]
    else [16 * DigitValue(d[1]) + DigitValue(d[0])] + Bcd(d[2..])
  }

  /** Octets that `digitCount` digits take. */
  function BcdLength(digitCount: nat): nat { (digitCount + 1) / 2 }

  predicate International(number: string) { HasPrefix(TrimSpace(number), "+") }

  function EncodedAddress(number: string): Encoded {
    var d := DigitsOf(TrimSpace(number));
    Encoded(|d| % 256, if International(number) then INTERNATIONAL else NATIONAL, Bcd(d))
  }

  /** The loop that filters the digits of the number. */
  method FilterDigits(s: string) returns (digits: string)
    ensures digits == DigitsOf(s)
  {
    digits := [];
    for i := 0 to |s|
      invariant digits == DigitsOf(s[..i])
    {
      assert s[..i + 1] == s[..i] + [s[i]];
      DigitsOfConcat(s[..i], [s[i]]);
      assert [s[i]][1..] == [];
      if IsDigit(s[i]) {
        digits := digits + [s[i]];
      }
    }
    assert s[..|s|] == s;
  }

  lemma {:induction false} BcdAt(d: string, k: nat)
    requires AllDigits(d) && 2 * k < |d|
    ensures Bcd(d)[k] == (if 2 * k + 1 < |d| then 16 * DigitValue(d[2 * k + 1]) else 0xF0) + DigitValue(d[2 * k])
  {
    if k > 0 { BcdAt(d[2..], k - 1); }
  }

  method EncodeAddress(number: string) returns (a: Encoded)
    ensures a == EncodedAddress(number)
  {
    hide TrimSpace, DigitsOf;
    var clean := TrimSpace(number);
    var toa := NATIONAL;
    if HasPrefix(clean, "+") {
      toa := INTERNATIONAL;
      PlusIsNoDigit(clean);
      clean := clean[1..];
    }
    var digits := FilterDigits(clean);
    var bcd := new byte[(|digits| + 1) / 2](_ => 0);
    var i := 0;
    while i < |digits|
      invariant 0 <= i <= |digits| + 1 && i % 2 == 0
      invariant forall k :: 0 <= k < i / 2 ==> bcd[k] == Bcd(digits)[k]
    {
      var high := if i + 1 < |digits| then DigitValue(digits[i + 1]) else 0x0F;
      bcd[i / 2] := 16 * high + DigitValue(digits[i]);
      BcdAt(digits, i / 2);
      i := i + 2;
    }
    assert bcd[..] == Bcd(digits);
    a := Encoded(|digits| % 256, toa, bcd[..]);
  }

  lemma PlusIsNoDigit(s: string)
    requires HasPrefix(s, "+")
    ensures DigitsOf(s) == DigitsOf(s[1..])
  {
  }

  /** `FormatAddressHex`: the TP-DA field as hexadecimal text. */
  function FormatAddressHex(number: string): string {
    var a := EncodedAddress(number);
    HexByte(a.digitCount) + HexByte(a.typeOfAddr) + HexString(a.bcd)
  }

  // ---------------------------------------------------------------- reading

  /** At most `max` digits; halves that hold no digit are skipped. */
  function ReadDigits(bcd: seq<byte>, max: nat): (d: string)
    ensures AllDigits(d)
    ensures |d| <= max
  {
    if bcd == [] then []
    else
      var a := if bcd[0] % 16 <= 9 && max > 0 then [DigitChar(bcd[0] % 16)] else [];
      var b := if bcd[0] / 16 <= 9 && max > |a| then [DigitChar(bcd[0] / 16)] else [];
      a + b + ReadDigits(bcd[1..], max - |a| - |b|)
  }

  function DecodedAddress(bcd: seq<byte>, digitCount: nat, typeOfAddr: byte): string {
    (if typeOfAddr == INTERNATIONAL then "+" else "") + ReadDigits(bcd, digitCount)
  }

  lemma ReadStep(bcd: seq<byte>, i: nat, max: nat)
    requires i < |bcd|
    ensures ReadDigits(bcd[i..], max) ==
            var a := if bcd[i] % 16 <= 9 && max > 0 then [DigitChar(bcd[i] % 16)] else [];
            var b := if bcd[i] / 16 <= 9 && max > |a| then [DigitChar(bcd[i] / 16)] else [];
            a + b + ReadDigits(bcd[i + 1..], max - |a| - |b|)
  {
    hide DigitChar;
    assert bcd[i..][1..] == bcd[i + 1..];
  }

  method DecodeAddress(bcd: seq<byte>, digitCount: nat, typeOfAddr: byte) returns (s: string)
    ensures s == DecodedAddress(bcd, digitCount, typeOfAddr)
  {
    hide DigitChar, ReadDigits;
    s := [];
    if typeOfAddr == INTERNATIONAL {
      s := "+";
    }
    var digitsRead := 0;
    assert bcd[0..] == bcd;
    for i := 0 to |bcd|
      invariant digitsRead <= digitCount
      invariant s + ReadDigits(bcd[i..], digitCount - digitsRead) == DecodedAddress(bcd, digitCount, typeOfAddr)
    {
      ReadStep(bcd, i, digitCount - digitsRead);
      var low := bcd[i] % 16;
      var high := bcd[i] / 16;
      if low <= 9 && digitsRead < digitCount {
        s := s + [DigitChar(low)];
        digitsRead := digitsRead + 1;
      }
      if high <= 9 && digitsRead < digitCount {
        s := s + [DigitChar(high)];
        digitsRead := digitsRead + 1;
      }
    }
    assert bcd[|bcd|..] == [];
    ReadNothing(digitCount - digitsRead);
  }

  lemma DigitCharValue(c: char)
    requires IsDigit(c)
    ensures DigitChar(DigitValue(c)) == c
  {
  }

  function Less(max: nat, k: nat): nat { if max > k then max - k else 0 }

  lemma ReadPair(low: byte, high: byte, rest: seq<byte>, max: nat)
    requires low < 10
    requires high < 10 || high == 15
    ensures ReadDigits([16 * high + low] + rest, max) ==
            (if max == 0 then []
             else if max == 1 || high == 15 then [DigitChar(low)]
             else [DigitChar(low), DigitChar(high)]) + ReadDigits(rest, Less(max, if high < 10 then 2 else 1))
  {
    var bcd := [16 * high + low] + rest;
    assert bcd[0] % 16 == low && bcd[0] / 16 == high;
    assert bcd[1..] == rest;
  }

  lemma {:induction false} BcdRoundTrip(d: string, max: nat)
    requires AllDigits(d)
    ensures ReadDigits(Bcd(d), max) == d[..if max < |d| then max else |d|]
    decreases |d|
  {
    hide ReadDigits, DigitChar, DigitValue;
    if |d| == 0 {
      ReadNothing(max);
    } else if |d| == 1 {
      DigitCharValue(d[0]);
      ReadPair(DigitValue(d[0]), 15, [], max);
      ReadNothing(Less(max, 1));
      assert Bcd(d) == [16 * 15 + DigitValue(d[0])] + [];
    } else {
      DigitCharValue(d[0]);
      DigitCharValue(d[1]);
      ReadPair(DigitValue(d[0]), DigitValue(d[1]), Bcd(d[2..]), max);
      BcdRoundTrip(d[2..], Less(max, 2));
    }
  }

  lemma ReadNothing(max: nat)
    ensures ReadDigits([], max) == []
  {
  }

  /** What a written address reads back as: formatting is gone, the international mark is kept. */
  function Canonical(number: string): string {
    (if International(number) then "+" else "") + DigitsOf(TrimSpace(number))
  }

  /** The digit count is one octet, so the number survives exactly when it has at most 255 digits. */
  lemma RoundTrip(number: string)
    ensures var a := EncodedAddress(number);
            (DecodedAddress(a.bcd, a.digitCount, a.typeOfAddr) == Canonical(number)
             <==> |DigitsOf(TrimSpace(number))| <= 255)
  {
    hide ReadDigits, Bcd, TrimSpace, DigitsOf;
    var d := DigitsOf(TrimSpace(number));
    BcdRoundTrip(d, |d| % 256);
  }

  /** With 256 digits the count wraps to zero, and no digit is read back. */
  lemma TooManyDigits()
    ensures var number := Repeat('1', 256);
            var a := EncodedAddress(number);
            && a.digitCount == 0 && DecodedAddress(a.bcd, a.digitCount, a.typeOfAddr) == ""
            && Canonical(number) == number
  {
    hide Repeat, ReadDigits, Bcd, TrimSpace, DigitsOf;
    var number := Repeat('1', 256);
    assert forall i :: 0 <= i < |number| ==> number[i] in number;
    TrimIdle(number);
    DigitsOfDigits(number);
    BcdRoundTrip(number, 0);
  }

  /** Halves that hold no digit, such as '*' in 0xA, are skipped. */
  lemma NoDigit(max: nat)
    requires max >= 2
    ensures ReadDigits([0xA1, 0xF2], max) == "12"
  {
    assert [0xA1, 0xF2][1..] == [0xF2] && [0xF2][1..] == [];
    ReadNothing(max - 2);
    assert ReadDigits([0xF2], max - 1) == "2" + ReadDigits([], max - 2);
    assert ReadDigits([0xA1, 0xF2], max) == "1" + ReadDigits([0xF2], max - 1);
  }
}
