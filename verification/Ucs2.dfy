/** UCS-2 text: UTF-16 code units written big-endian (internal/sms/pdu/ucs2.go). */
module Ucs2 {
  import opened Octets

  type unit = u: int | 0 <= u < 0x10000

  const REPLACEMENT: char := '\U{FFFD}'

  /** UTF-16 code units that one character takes: two for a supplementary character. */
  function Units(c: char): nat { if c as int > 0xFFFF then 2 else 1 }

  function TextUnits(s: string): (n: nat)
    ensures |s| <= n <= 2 * |s|
  {
    if s == [] then 0 else Units(s[0]) + TextUnits(s[1..])
  }

  /** `utf16.Encode` of one character: supplementary characters become a surrogate pair. */
  function CharUnits(c: char): (us: seq<unit>)
    ensures |us| == Units(c)
  {
    var r := c as int;
    if r <= 0xFFFF then [r]
    else [0xD800 + (r - 0x10000) / 0x400, 0xDC00 + (r - 0x10000) % 0x400]
  }

  function Utf16(s: string): (us: seq<unit>)
    ensures |us| == TextUnits(s)
  {
    if s == [] then [] else CharUnits(s[0]) + Utf16(s[1..])
  }

  predicate HighSurrogate(u: unit) { 0xD800 <= u < 0xDC00 }

  predicate LowSurrogate(u: unit) { 0xDC00 <= u < 0xE000 }

  function Supplementary(high: int, low: int): char
    requires 0xD800 <= high < 0xDC00 && 0xDC00 <= low < 0xE000
  {
    (0x10000 + (high - 0xD800) * 0x400 + (low - 0xDC00)) as char
  }

  /** `utf16.Decode`: an unpaired surrogate becomes the replacement character. */
  function Utf16Text(us: seq<unit>): (text: string)
    ensures |text| <= |us|
  {
    if us == [] then []
    else if !HighSurrogate(us[0]) && !LowSurrogate(us[0]) then [us[0] as char] + Utf16Text(us[1..])
    else if HighSurrogate(us[0]) && |us| > 1 && LowSurrogate(us[1]) then
      [Supplementary(us[0], us[1])] + Utf16Text(us[2..])
    else [REPLACEMENT] + Utf16Text(us[1..])
  }

  function BigEndian(us: seq<unit>): (bytes: seq<byte>)
    ensures |bytes| == 2 * |us|
  {
    seq(2 * |us|, i requires 0 <= i < 2 * |us| => if i % 2 == 0 then us[i / 2] / 256 else us[i / 2] % 256)
  }

  function Word(high: int, low: int): int { 256 * high + low }

  function FromBigEndian(bytes: seq<byte>): (us: seq<unit>)
    ensures |us| == |bytes| / 2
  {
    seq(|bytes| / 2, i requires 0 <= i < |bytes| / 2 => Word(bytes[2 * i], bytes[2 * i + 1]))
  }

  function Encoded(s: string): (bytes: seq<byte>)
    ensures |bytes| == 2 * TextUnits(s)
  {
    BigEndian(Utf16(s))
  }

  /** A trailing odd octet is dropped. */
  function Decoded(bytes: seq<byte>): (text: string)
    ensures |text| <= |bytes| / 2
  {
    Utf16Text(FromBigEndian(bytes))
  }

  method EncodeUCS2(s: string) returns (bytes: seq<byte>)
    ensures bytes == Encoded(s)
  {
    hide Utf16;
    var u16s := Utf16(s);
    var buf := new byte[|u16s| * 2](_ => 0);
    for i := 0 to |u16s|
      invariant forall j :: 0 <= j < 2 * i ==> buf[j] == BigEndian(u16s)[j]
    {
      buf[i * 2] := u16s[i] / 256;
      buf[i * 2 + 1] := u16s[i] % 256;
    }
    bytes := buf[..];
  }

  lemma WordAt(bytes: seq<byte>, i: nat)
    requires i < |bytes| / 2
    ensures FromBigEndian(bytes)[i] == Word(bytes[2 * i], bytes[2 * i + 1])
  {
  }

  method DecodeUCS2(bytes: seq<byte>) returns (text: string)
    ensures text == Decoded(bytes)
  {
    hide Utf16Text, FromBigEndian, Word;
    var even := bytes;
    if |bytes| % 2 != 0 {
      even := bytes[..|bytes| - 1];
    }
    var u16s := new unit[|even| / 2](_ => 0);
    for i := 0 to |even| / 2
      invariant forall j :: 0 <= j < i ==> u16s[j] == FromBigEndian(bytes)[j]
    {
      WordAt(bytes, i);
      u16s[i] := Word(even[i * 2], even[i * 2 + 1]);
    }
    assert u16s[..] == FromBigEndian(bytes);
    text := Utf16Text(u16s[..]);
  }

  // ---------------------------------------------------------------- round trips

  lemma BigEndianRoundTrip(us: seq<unit>)
    ensures FromBigEndian(BigEndian(us)) == us
  {
    var back := FromBigEndian(BigEndian(us));
    forall i | 0 <= i < |us| ensures back[i] == us[i] {
      assert BigEndian(us)[2 * i] == us[i] / 256;
      assert BigEndian(us)[2 * i + 1] == us[i] % 256;
    }
  }

  lemma DecodeChar(c: char, rest: seq<unit>)
    ensures Utf16Text(CharUnits(c) + rest) == [c] + Utf16Text(rest)
  {
    var us := CharUnits(c);
    var r := c as int;
    if r <= 0xFFFF {
      assert (us + rest)[1..] == rest;
    } else {
      assert (us + rest)[2..] == rest;
      assert (r - 0x10000) / 0x400 < 0x400;
    }
  }

  lemma {:induction false} Utf16RoundTrip(s: string)
    ensures Utf16Text(Utf16(s)) == s
  {
    hide CharUnits, Utf16Text;
    if s == [] {
      Utf16Empty();
    } else {
      DecodeChar(s[0], Utf16(s[1..]));
      Utf16RoundTrip(s[1..]);
    }
  }

  lemma Utf16Empty()
    ensures Utf16Text([]) == []
  {
  }

  /** Every text of Unicode scalar values survives, and its length is what the splitter counts. */
  lemma RoundTrip(s: string)
    ensures Decoded(Encoded(s)) == s
    ensures |Encoded(s)| == 2 * TextUnits(s)
  {
    BigEndianRoundTrip(Utf16(s));
    Utf16RoundTrip(s);
  }

  lemma {:induction false} Utf16Concat(s: string, t: string)
    ensures Utf16(s + t) == Utf16(s) + Utf16(t)
  {
    hide CharUnits;
    if s == [] {
      assert s + t == t;
    } else {
      assert (s + t)[1..] == s[1..] + t;
      Utf16Concat(s[1..], t);
    }
  }

  /** The octets of a prefix come first. */
  lemma EncodedPrefix(s: string, t: string)
    ensures |Encoded(s + t)| == 2 * TextUnits(s) + 2 * TextUnits(t)
    ensures Encoded(s + t)[..2 * TextUnits(s)] == Encoded(s)
  {
    hide Utf16;
    Utf16Concat(s, t);
    forall i | 0 <= i < 2 * TextUnits(s) ensures Encoded(s + t)[i] == Encoded(s)[i] {
      assert Utf16(s + t)[i / 2] == Utf16(s)[i / 2];
    }
  }

  /** An odd octet at the end is dropped, and unpaired surrogates are replaced. */
  lemma StrayOctets(bytes: seq<byte>, b: byte)
    requires |bytes| % 2 == 0
    ensures Decoded(bytes + [b]) == Decoded(bytes)
  {
    hide Utf16Text;
    assert FromBigEndian(bytes + [b]) == FromBigEndian(bytes);
  }

  lemma StraySurrogate(u: unit, us: seq<unit>)
    requires 0xD800 <= u < 0xE000
    requires !(u < 0xDC00 && us != [] && 0xDC00 <= us[0] < 0xE000)
    ensures Utf16Text([u] + us) == "\U{FFFD}" + Utf16Text(us)
  {
    assert ([u] + us)[1..] == us;
    assert us != [] ==> ([u] + us)[1] == us[0];
  }
}
