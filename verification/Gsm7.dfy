/** The GSM 7-bit alphabet, 3GPP TS 23.038 sections 6.2.1 and 6.2.1.1 (internal/sms/pdu/gsm7.go). */
module Gsm7 {
  import opened Octets

  const ESC: byte := 0x1B

  /** The basic table: `gsm7BasicTable[code]`; most of the printable codes stand for themselves. */
  function BasicChar(code: byte): (c: char)
    requires code < 128
  {
    match code
    case 0x00 => '@'        case 0x01 => '\U{A3}'   case 0x02 => '$'        case 0x03 => '\U{A5}'
    case 0x04 => '\U{E8}'   case 0x05 => '\U{E9}'   case 0x06 => '\U{F9}'   case 0x07 => '\U{EC}'
    case 0x08 => '\U{F2}'   case 0x09 => '\U{C7}'   case 0x0B => '\U{D8}'   case 0x0C => '\U{F8}'
    case 0x0E => '\U{C5}'   case 0x0F => '\U{E5}'   case 0x10 => '\U{394}'  case 0x11 => '_'
    case 0x12 => '\U{3A6}'  case 0x13 => '\U{393}'  case 0x14 => '\U{39B}'  case 0x15 => '\U{3A9}'
    case 0x16 => '\U{3A0}'  case 0x17 => '\U{3A8}'  case 0x18 => '\U{3A3}'  case 0x19 => '\U{398}'
    case 0x1A => '\U{39E}'  case 0x1B => '\0'       case 0x1C => '\U{C6}'   case 0x1D => '\U{E6}'
    case 0x1E => '\U{DF}'   case 0x1F => '\U{C9}'   case 0x24 => '\U{A4}'   case 0x40 => '\U{A1}'
    case 0x5B => '\U{C4}'   case 0x5C => '\U{D6}'   case 0x5D => '\U{D1}'   case 0x5E => '\U{DC}'
    case 0x5F => '\U{A7}'   case 0x60 => '\U{BF}'   case 0x7B => '\U{E4}'   case 0x7C => '\U{F6}'
    case 0x7D => '\U{F1}'   case 0x7E => '\U{FC}'   case 0x7F => '\U{E0}'
    case _ => code as char
  }

  /** The extension table, reached through ESC. */
  function ExtensionChar(code: byte): (c: Option<char>)
  {
    match code
    case 0x0A => Some('\U{0C}')
    case 0x14 => Some('^')
    case 0x28 => Some('{')
    case 0x29 => Some('}')
    case 0x2F => Some('\\')
    case 0x3C => Some('[')
    case 0x3D => Some('~')
    case 0x3E => Some(']')
    case 0x40 => Some('|')
    case 0x65 => Some('\U{20AC}')
    case _ => None
  }

  /** `runeToGSM7Basic[c]`: the code of a character in the basic table, ESC's slot left out. */
  function BasicCode(c: char): (code: Option<byte>)
  {
    match c
    case '@' => Some(0x00)        case '\U{A3}' => Some(0x01)   case '$' => Some(0x02)
    case '\U{A5}' => Some(0x03)   case '\U{E8}' => Some(0x04)   case '\U{E9}' => Some(0x05)
    case '\U{F9}' => Some(0x06)   case '\U{EC}' => Some(0x07)   case '\U{F2}' => Some(0x08)
    case '\U{C7}' => Some(0x09)   case '\n' => Some(0x0A)       case '\U{D8}' => Some(0x0B)
    case '\U{F8}' => Some(0x0C)   case '\r' => Some(0x0D)       case '\U{C5}' => Some(0x0E)
    case '\U{E5}' => Some(0x0F)   case '\U{394}' => Some(0x10)  case '_' => Some(0x11)
    case '\U{3A6}' => Some(0x12)  case '\U{393}' => Some(0x13)  case '\U{39B}' => Some(0x14)
    case '\U{3A9}' => Some(0x15)  case '\U{3A0}' => Some(0x16)  case '\U{3A8}' => Some(0x17)
    case '\U{3A3}' => Some(0x18)  case '\U{398}' => Some(0x19)  case '\U{39E}' => Some(0x1A)
    case '\U{C6}' => Some(0x1C)   case '\U{E6}' => Some(0x1D)   case '\U{DF}' => Some(0x1E)
    case '\U{C9}' => Some(0x1F)   case '\U{A4}' => Some(0x24)   case '\U{A1}' => Some(0x40)
    case '\U{C4}' => Some(0x5B)   case '\U{D6}' => Some(0x5C)   case '\U{D1}' => Some(0x5D)
    case '\U{DC}' => Some(0x5E)   case '\U{A7}' => Some(0x5F)   case '\U{BF}' => Some(0x60)
    case '\U{E4}' => Some(0x7B)   case '\U{F6}' => Some(0x7C)   case '\U{F1}' => Some(0x7D)
    case '\U{FC}' => Some(0x7E)   case '\U{E0}' => Some(0x7F)
    case _ =>
      if ' ' <= c <= '#' || '%' <= c <= '?' || 'A' <= c <= 'Z' || 'a' <= c <= 'z' then Some(c as int) else None
  }

  /** `runeToGSM7Ext[c]`. */
  function ExtensionCode(c: char): (code: Option<byte>)
  {
    match c
    case '\U{0C}' => Some(0x0A)
    case '^' => Some(0x14)
    case '{' => Some(0x28)
    case '}' => Some(0x29)
    case '\\' => Some(0x2F)
    case '[' => Some(0x3C)
    case '~' => Some(0x3D)
    case ']' => Some(0x3E)
    case '|' => Some(0x40)
    case '\U{20AC}' => Some(0x65)
    case _ => None
  }

  lemma CodeOfBasicChar(code: byte)
    requires code < 128 && code != ESC
    ensures BasicCode(BasicChar(code)) == Some(code)
  {
  }

  lemma BasicCharOfCode(c: char)
    requires BasicCode(c).Some?
    ensures var code := BasicCode(c).value; code < 128 && code != ESC && BasicChar(code) == c
  {
  }

  /** The rune maps are the inverses of the tables: the basic table names no character twice. */
  lemma BasicInverse(c: char, code: byte)
    ensures BasicCode(c) == Some(code) <==> code < 128 && code != ESC && BasicChar(code) == c
  {
    hide *;
    if code < 128 && code != ESC { CodeOfBasicChar(code); }
    if BasicCode(c).Some? { BasicCharOfCode(c); }
  }

  lemma ExtensionInverse(c: char, code: byte)
    ensures ExtensionCode(c) == Some(code) <==> ExtensionChar(code) == Some(c)
  {
  }

  /** The default alphabet as the standard prints it, sixteen codes a row; the slot of ESC is left empty. */
  function AlphabetRow(row: nat): (chars: string)
    requires row < 8
    ensures |chars| == 16
  {
    match row
    case 0 => "@\U{A3}$\U{A5}\U{E8}\U{E9}\U{F9}\U{EC}\U{F2}\U{C7}\n\U{D8}\U{F8}\r\U{C5}\U{E5}"
    case 1 => "\U{394}_\U{3A6}\U{393}\U{39B}\U{3A9}\U{3A0}\U{3A8}\U{3A3}\U{398}\U{39E}\0\U{C6}\U{E6}\U{DF}\U{C9}"
    case 2 => " !\"#\U{A4}%&'()*+,-./"
    case 3 => "0123456789:;<=>?"
    case 4 => "\U{A1}ABCDEFGHIJKLMNO"
    case 5 => "PQRSTUVWXYZ\U{C4}\U{D6}\U{D1}\U{DC}\U{A7}"
    case 6 => "\U{BF}abcdefghijklmno"
    case 7 => "pqrstuvwxyz\U{E4}\U{F6}\U{F1}\U{FC}\U{E0}"
  }

  lemma FirstRows(row: nat, column: nat)
    requires row < 2 && column < 16
    ensures BasicChar(16 * row + column) == AlphabetRow(row)[column]
  {
    match row
    case 0 =>
    case 1 =>
  }

  lemma MiddleRows(row: nat, column: nat)
    requires 2 <= row < 5 && column < 16
    ensures BasicChar(16 * row + column) == AlphabetRow(row)[column]
  {
    match row
    case 2 =>
    case 3 =>
    case 4 =>
  }

  lemma LastRows(row: nat, column: nat)
    requires 5 <= row < 8 && column < 16
    ensures BasicChar(16 * row + column) == AlphabetRow(row)[column]
  {
    match row
    case 5 =>
    case 6 =>
    case 7 =>
  }

  /** Both tables are those of the standard. */
  lemma StandardAlphabet(code: byte)
    ensures code < 128 ==> BasicChar(code) == AlphabetRow(code / 16)[code % 16]
    ensures ExtensionChar(code) ==
            if code == 0x0A then Some('\U{0C}') else if code == 0x14 then Some('^') else if code == 0x28 then Some('{')
            else if code == 0x29 then Some('}') else if code == 0x2F then Some('\\') else if code == 0x3C then Some('[')
            else if code == 0x3D then Some('~') else if code == 0x3E then Some(']') else if code == 0x40 then Some('|')
            else if code == 0x65 then Some('\U{20AC}') else None
  {
    hide BasicChar, AlphabetRow;
    var row, column := code / 16, code % 16;
    if row < 2 {
      FirstRows(row, column);
    } else if row < 5 {
      MiddleRows(row, column);
    } else if row < 8 {
      LastRows(row, column);
    }
  }

  // ---------------------------------------------------------------- texts

  predicate InAlphabet(c: char) { BasicCode(c).Some? || ExtensionCode(c).Some? }

  predicate InExtension(c: char) { BasicCode(c).None? && ExtensionCode(c).Some? }

  method IsGSM7(s: string) returns (ok: bool)
    ensures ok <==> forall c :: c in s ==> InAlphabet(c)
  {
    for i := 0 to |s|
      invariant forall j :: 0 <= j < i ==> InAlphabet(s[j])
    {
      if BasicCode(s[i]).None? {
        if ExtensionCode(s[i]).None? {
          assert s[i] in s;
          return false;
        }
      }
    }
    return true;
  }

  /** The septets of one character; a character outside the alphabet becomes '?'. */
  function CharSeptets(c: char): (septets: seq<byte>)
    ensures 1 <= |septets| <= 2
    ensures forall s :: s in septets ==> s < 128
    ensures |septets| == 2 <==> InExtension(c)
  {
    if BasicCode(c).Some? then [BasicCode(c).value]
    else if ExtensionCode(c).Some? then [ESC, ExtensionCode(c).value]
    else [0x3F]
  }

  function Encoded(s: string): (septets: seq<byte>)
    ensures forall x :: x in septets ==> x < 128
    ensures |s| <= |septets| <= 2 * |s|
  {
    if s == [] then [] else CharSeptets(s[0]) + Encoded(s[1..])
  }

  /** Texts may be cut between characters: the septets of the pieces are those of the whole. */
  lemma {:induction false} EncodedConcat(s: string, t: string)
    ensures Encoded(s + t) == Encoded(s) + Encoded(t)
  {
    hide CharSeptets;
    if s == [] {
      assert s + t == t;
    } else {
      assert (s + t)[1..] == s[1..] + t;
      EncodedConcat(s[1..], t);
    }
  }

  lemma EncodedSnoc(s: string, i: nat)
    requires i < |s|
    ensures Encoded(s[..i + 1]) == Encoded(s[..i]) + CharSeptets(s[i])
  {
    assert s[..i + 1] == s[..i] + [s[i]];
    EncodedConcat(s[..i], [s[i]]);
    assert [s[i]][1..] == [];
    assert Encoded([s[i]]) == CharSeptets(s[i]) + Encoded([]);
  }

  method EncodeGSM7(s: string) returns (septets: seq<byte>)
    ensures septets == Encoded(s)
  {
    hide Encoded, BasicCode, ExtensionCode;
    septets := [];
    assert Encoded(s[..0]) == [] by { assert |Encoded(s[..0])| == 0; }
    for i := 0 to |s|
      invariant septets == Encoded(s[..i])
    {
      EncodedSnoc(s, i);
      if BasicCode(s[i]).Some? {
        septets := septets + [BasicCode(s[i]).value];
      } else if ExtensionCode(s[i]).Some? {
        septets := septets + [ESC, ExtensionCode(s[i]).value];
      } else {
        septets := septets + [0x3F];
      }
    }
    assert s[..|s|] == s;
  }

  /** An ESC that no extension character follows yields NUL and swallows the next septet. */
  function Decoded(septets: seq<byte>): (text: string)
    ensures |text| <= |septets|
  {
    if septets == [] then []
    else if septets[0] == ESC && |septets| > 1 then
      (match ExtensionChar(septets[1])
       case Some(c) => [c]
       case None => [BasicChar(ESC)]) + Decoded(septets[2..])
    else if septets[0] < 128 then [BasicChar(septets[0])] + Decoded(septets[1..])
    else Decoded(septets[1..])
  }

  /** What one round of the decoding loop adds, and where it leaves the index. */
  lemma DecodedStep(septets: seq<byte>, i: nat)
    requires i < |septets|
    ensures Decoded(septets[i..]) ==
            if septets[i] == ESC && i + 1 < |septets| then
              [if ExtensionChar(septets[i + 1]).Some? then ExtensionChar(septets[i + 1]).value else BasicChar(ESC)]
              + Decoded(septets[i + 2..])
            else if septets[i] < 128 then [BasicChar(septets[i])] + Decoded(septets[i + 1..])
            else Decoded(septets[i + 1..])
  {
    hide BasicChar, ExtensionChar;
    var rest := septets[i..];
    assert rest[1..] == septets[i + 1..];
    if i + 1 < |septets| {
      assert rest[2..] == septets[i + 2..];
    }
  }

  method DecodeGSM7(septets: seq<byte>) returns (text: string)
    ensures text == Decoded(septets)
  {
    hide Decoded, BasicChar, ExtensionChar;
    text := [];
    var i := 0;
    assert septets[0..] == septets;
    while i < |septets|
      invariant 0 <= i <= |septets|
      invariant text + Decoded(septets[i..]) == Decoded(septets)
    {
      var s := septets[i];
      DecodedStep(septets, i);
      if s == ESC && i + 1 < |septets| {
        i := i + 1;
        var ext := ExtensionChar(septets[i]);
        if ext.Some? {
          text := text + [ext.value];
          i := i + 1;
          continue;
        }
      }
      if s < 128 {
        text := text + [BasicChar(s)];
      }
      i := i + 1;
    }
    assert |Decoded(septets[i..])| == 0;
  }

  // ---------------------------------------------------------------- round trips

  /** What a text becomes on the wire: characters outside the alphabet are replaced by '?'. */
  function Substitute(c: char): char { if InAlphabet(c) then c else '?' }

  function Substituted(s: string): (r: string)
    ensures |r| == |s|
  {
    seq(|s|, i requires 0 <= i < |s| => Substitute(s[i]))
  }

  lemma DecodeChar(c: char, rest: seq<byte>)
    ensures Decoded(CharSeptets(c) + rest) == [Substitute(c)] + Decoded(rest)
  {
    hide BasicCode, ExtensionCode, BasicChar, ExtensionChar;
    QuestionMark();
    var s := CharSeptets(c);
    if BasicCode(c).Some? {
      BasicInverse(c, s[0]);
      assert (s + rest)[1..] == rest;
    } else if ExtensionCode(c).Some? {
      ExtensionInverse(c, s[1]);
      assert (s + rest)[2..] == rest;
    } else {
      assert (s + rest)[1..] == rest;
    }
  }

  lemma QuestionMark()
    ensures BasicCode('?') == Some(0x3F) && BasicChar(0x3F) == '?'
  {
  }

  lemma {:induction false} RoundTripSubstituted(s: string)
    ensures Decoded(Encoded(s)) == Substituted(s)
  {
    if s != [] {
      DecodeChar(s[0], Encoded(s[1..]));
      RoundTripSubstituted(s[1..]);
      assert Substituted(s) == [Substitute(s[0])] + Substituted(s[1..]);
    }
  }

  /** Decoding gives the text back exactly when the alphabet covers it. */
  lemma RoundTrip(s: string)
    ensures Decoded(Encoded(s)) == s <==> forall c :: c in s ==> InAlphabet(c)
  {
    hide BasicCode, ExtensionCode, Encoded, Decoded;
    RoundTripSubstituted(s);
    QuestionMark();
    if forall c :: c in s ==> InAlphabet(c) {
      assert forall i :: 0 <= i < |s| ==> s[i] in s;
      assert Substituted(s) == s;
    } else {
      var c :| c in s && !InAlphabet(c);
      var i :| 0 <= i < |s| && s[i] == c;
      assert Substituted(s)[i] == '?';
    }
  }

  lemma {:induction false} EncodedLength(s: string)
    ensures |Encoded(s)| == |s| <==> forall c :: c in s ==> !InExtension(c)
  {
    if s != [] {
      EncodedLength(s[1..]);
      assert forall c :: c in s <==> c == s[0] || c in s[1..];
    }
  }

  /** Septets that no encoder of this alphabet writes: an ESC before a code without extension character, or at the end,
      gives NUL. */
  lemma StrayEscape(code: byte, rest: seq<byte>)
    ensures ExtensionChar(code) == None ==> Decoded([0x1B, code] + rest) == "\0" + Decoded(rest)
    ensures Decoded([0x1B]) == "\0"
  {
    hide ExtensionChar, BasicCode, ExtensionCode;
    assert ([0x1B, code] + rest)[2..] == rest;
    assert [0x1B][1..] == [];
  }
}
