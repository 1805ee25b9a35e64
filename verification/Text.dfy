/** The string operations the gateway leans on: trimming, decimal and hexadecimal numbers,
    digit filtering and the "name:number" keys of the assembler and the delivery tracker. */
module Text {
  import opened Octets

  // ---------------------------------------------------------------- white space

  /** Unicode White_Space, as `strings.TrimSpace` uses it. */
  predicate IsSpace(c: char) {
    '\t' <= c <= '\r' || c == ' ' || c == '\U{85}' || c == '\U{A0}' || c == '\U{1680}'
    || '\U{2000}' <= c <= '\U{200A}' || c == '\U{2028}' || c == '\U{2029}' || c == '\U{202F}'
    || c == '\U{205F}' || c == '\U{3000}'
  }

  function TrimLeft(s: string): (r: string)
    ensures |r| <= |s| && r == s[|s| - |r|..]
    ensures r != [] ==> !IsSpace(r[0])
  {
    if s != [] && IsSpace(s[0]) then TrimLeft(s[1..]) else s
  }

  function TrimRight(s: string): (r: string)
    ensures r <= s
    ensures r != [] ==> !IsSpace(r[|r| - 1])
  {
    if s != [] && IsSpace(s[|s| - 1]) then TrimRight(s[..|s| - 1]) else s
  }

  function TrimSpace(s: string): (r: string)
    ensures r != [] ==> !IsSpace(r[0]) && !IsSpace(r[|r| - 1])
    ensures |r| <= |s|
    ensures forall c :: c in r ==> c in s
  {
    TrimRight(TrimLeft(s))
  }

  /** Text without white space at its ends is left alone; so trimming twice is trimming once. */
  lemma TrimIdle(s: string)
    requires s != [] ==> !IsSpace(s[0]) && !IsSpace(s[|s| - 1])
    ensures TrimSpace(s) == s
  {
  }

  /** Nothing is left exactly of white space. */
  lemma {:induction false} TrimToNothing(s: string)
    ensures TrimSpace(s) == "" <==> forall c :: c in s ==> IsSpace(c)
  {
    hide IsSpace;
    TrimLeftFirst(s);
    var l := TrimLeft(s);
    if l != [] {
      assert !IsSpace(l[0]) && l[0] in s;
      TrimRightKeeps(l);
    }
  }

  lemma {:induction false} TrimLeftFirst(s: string)
    ensures TrimLeft(s) == [] <==> forall c :: c in s ==> IsSpace(c)
    ensures forall c :: c in TrimLeft(s) ==> c in s
  {
    hide IsSpace;
    if s != [] && IsSpace(s[0]) {
      TrimLeftFirst(s[1..]);
      assert forall c :: c in s <==> c == s[0] || c in s[1..];
    } else if s != [] {
      assert s[0] in s;
    }
  }

  lemma {:induction false} TrimRightKeeps(s: string)
    requires s != [] && !IsSpace(s[0])
    ensures TrimRight(s) != []
  {
    hide IsSpace;
    if IsSpace(s[|s| - 1]) { TrimRightKeeps(s[..|s| - 1]); }
  }

  predicate HasPrefix(s: string, p: string) { p <= s }

  /** The string up to the first `stop`, all of it when there is none. */
  function Before(s: string, stop: char): (r: string)
    ensures r <= s
  {
    if s == [] || s[0] == stop then [] else [s[0]] + Before(s[1..], stop)
  }

  /** What follows the first `stop`. */
  function After(s: string, stop: char): (r: string)
    ensures r != [] ==> |r| < |s|
    ensures stop in s ==> |r| < |s|
  {
    if s == [] then [] else if s[0] == stop then s[1..] else After(s[1..], stop)
  }

  lemma {:induction false} CutAtStop(a: string, stop: char, b: string)
    requires stop !in a
    ensures Before(a + [stop] + b, stop) == a && After(a + [stop] + b, stop) == b
  {
    var s := a + [stop] + b;
    if a == [] {
      assert s[1..] == b;
    } else {
      assert s[1..] == a[1..] + [stop] + b;
      CutAtStop(a[1..], stop, b);
      assert [a[0]] + a[1..] == a;
    }
  }

  /** `strings.Repeat` of one character. */
  function Repeat(c: char, n: nat): (s: string)
    ensures |s| == n
    ensures forall x :: x in s ==> x == c
  {
    if n == 0 then [] else [c] + Repeat(c, n - 1)
  }

  // ---------------------------------------------------------------- digits

  predicate IsDigit(c: char) { '0' <= c <= '9' }

  predicate AllDigits(s: string) { forall i :: 0 <= i < |s| ==> IsDigit(s[i]) }

  /** The ASCII digits of a string, in order. */
  function DigitsOf(s: string): (d: string)
    ensures AllDigits(d)
    ensures |d| <= |s|
  {
    if s == [] then [] else (if IsDigit(s[0]) then [s[0]] else []) + DigitsOf(s[1..])
  }

  lemma {:induction false} DigitsOfDigits(s: string)
    requires AllDigits(s)
    ensures DigitsOf(s) == s
  {
    if s != [] { DigitsOfDigits(s[1..]); }
  }

  lemma {:induction false} DigitsOfConcat(s: string, t: string)
    ensures DigitsOf(s + t) == DigitsOf(s) + DigitsOf(t)
  {
    hide IsDigit;
    if s == [] {
      assert s + t == t;
      assert DigitsOf(s) + DigitsOf(t) == DigitsOf(t);
    } else {
      assert (s + t)[1..] == s[1..] + t;
      DigitsOfConcat(s[1..], t);
      var head := if IsDigit(s[0]) then [s[0]] else [];
      assert head + (DigitsOf(s[1..]) + DigitsOf(t)) == head + DigitsOf(s[1..]) + DigitsOf(t);
    }
  }

  lemma {:induction false} DigitsOfTrim(s: string)
    ensures DigitsOf(TrimSpace(s)) == DigitsOf(s)
  {
    TrimLeftDigits(s);
    TrimRightDigits(TrimLeft(s));
  }

  lemma {:induction false} TrimLeftDigits(s: string)
    ensures DigitsOf(TrimLeft(s)) == DigitsOf(s)
  {
    if s != [] && IsSpace(s[0]) { TrimLeftDigits(s[1..]); }
  }

  lemma {:induction false} TrimRightDigits(s: string)
    ensures DigitsOf(TrimRight(s)) == DigitsOf(s)
  {
    if s != [] && IsSpace(s[|s| - 1]) {
      TrimRightDigits(s[..|s| - 1]);
      DigitsOfConcat(s[..|s| - 1], [s[|s| - 1]]);
      assert s == s[..|s| - 1] + [s[|s| - 1]];
      assert DigitsOf([s[|s| - 1]]) == [];
    }
  }

  function DigitChar(d: nat): (c: char)
    requires d < 10
    ensures IsDigit(c)
  {
    '0' + d as char
  }

  /** `%d`. */
  function Itoa(n: nat): (s: string)
    ensures s != [] && AllDigits(s)
  {
    if n < 10 then [DigitChar(n)] else Itoa(n / 10) + [DigitChar(n % 10)]
  }

  function Atoi(s: string): int {
    if s == [] then 0 else 10 * Atoi(s[..|s| - 1]) + (s[|s| - 1] as int - '0' as int)
  }

  lemma {:induction false} ItoaRoundTrip(n: nat)
    ensures Atoi(Itoa(n)) == n
  {
    if n >= 10 {
      ItoaRoundTrip(n / 10);
      assert Itoa(n)[..|Itoa(n)| - 1] == Itoa(n / 10);
    } else {
      assert Itoa(n)[..0] == [];
    }
  }

  // ---------------------------------------------------------------- keys

  /** `fmt.Sprintf("%s:%d", name, number)`. */
  function Key(name: string, number: nat): string { name + ":" + Itoa(number) }

  /** Whatever the names hold, colons and digits included, two pairs never share a key. */
  lemma KeyInjective(a: string, m: nat, b: string, n: nat)
    requires Key(a, m) == Key(b, n)
    ensures a == b && m == n
  {
    var k := Key(a, m);
    var x, y := Itoa(m), Itoa(n);
    assert k[|k| - |x|..] == x && k[|k| - |y|..] == y;
    assert k[|k| - |x| - 1] == ':' && k[|k| - |y| - 1] == ':';
    assert a == k[..|k| - |x| - 1] && b == k[..|k| - |y| - 1];
    ItoaRoundTrip(m);
    ItoaRoundTrip(n);
  }

  // ---------------------------------------------------------------- hexadecimal

  function HexDigit(d: nat): char
    requires d < 16
  {
    if d < 10 then '0' + d as char else 'A' + (d - 10) as char
  }

  function HexValue(c: char): (v: Option<nat>)
    ensures v.Some? ==> v.value < 16
  {
    if '0' <= c <= '9' then Some(c as int - '0' as int)
    else if 'A' <= c <= 'F' then Some(c as int - 'A' as int + 10)
    else if 'a' <= c <= 'f' then Some(c as int - 'a' as int + 10)
    else None
  }

  /** `%02X`. */
  function HexByte(b: byte): (s: string)
    ensures |s| == 2
  {
    [HexDigit(b / 16), HexDigit(b % 16)]
  }

  function HexString(bytes: seq<byte>): (s: string)
    ensures |s| == 2 * |bytes|
  {
    if bytes == [] then [] else HexByte(bytes[0]) + HexString(bytes[1..])
  }

  /** `hex.DecodeString`: an odd length or a foreign character is an error. */
  function HexDecode(s: string): (r: Option<seq<byte>>)
    ensures r.Some? ==> |s| == 2 * |r.value|
  {
    if s == [] then Some([])
    else if |s| == 1 || HexValue(s[0]).None? || HexValue(s[1]).None? then None
    else match HexDecode(s[2..])
         case None => None
         case Some(rest) => Some([16 * HexValue(s[0]).value + HexValue(s[1]).value] + rest)
  }

  lemma HexDigitValue(d: nat)
    requires d < 16
    ensures HexValue(HexDigit(d)) == Some(d)
  {
  }

  lemma {:induction false} HexRoundTrip(bytes: seq<byte>)
    ensures HexDecode(HexString(bytes)) == Some(bytes)
  {
    if bytes != [] {
      var s := HexString(bytes);
      assert s[0] == HexDigit(bytes[0] / 16) && s[1] == HexDigit(bytes[0] % 16);
      assert s[2..] == HexString(bytes[1..]);
      HexDigitValue(bytes[0] / 16);
      HexDigitValue(bytes[0] % 16);
      HexRoundTrip(bytes[1..]);
      assert HexDecode(s) == Some([16 * (bytes[0] / 16) + bytes[0] % 16] + bytes[1..]);
      assert [bytes[0]] + bytes[1..] == bytes;
    }
  }

  lemma {:induction false} HexConcat(a: seq<byte>, b: seq<byte>)
    ensures HexString(a + b) == HexString(a) + HexString(b)
  {
    if a == [] {
      assert a + b == b;
    } else {
      assert (a + b)[1..] == a[1..] + b;
      HexConcat(a[1..], b);
    }
  }
}
