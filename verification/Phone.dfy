/** Phone numbers on their way from the user to the wire and back: NormalizePhoneNumber
    (internal/sms/validator.go) and the recipient keys of the tracker (internal/sms/tracker.go). */
module Phone {
  import opened Octets
  import opened Text
  import Address

  datatype Error = EmptyPhoneNumber | TooShort | TooLong | InvalidCharacters

  predicate Formatting(c: char) { c == ' ' || c == '-' || c == '(' || c == ')' || c == '.' }

  /** '+' is allowed at the start only; digits and formatting anywhere. */
  predicate WellSpelled(t: string) {
    forall i :: 0 <= i < |t| ==> (t[i] == '+' && i == 0) || IsDigit(t[i]) || Formatting(t[i])
  }

  function CleanPrefix(prefix: string): string {
    var p := TrimSpace(prefix);
    if HasPrefix(p, "+") then p else "+" + p
  }

  function Normalized(raw: string, prefix: string): Result<string, Error> {
    var t := TrimSpace(raw);
    var d := DigitsOf(t);
    if t == "" then Err(EmptyPhoneNumber)
    else if !WellSpelled(t) then Err(InvalidCharacters)
    else if d == "" then Err(EmptyPhoneNumber)
    else if |d| < 2 then Err(TooShort)
    else if HasPrefix(t, "+") then
      if |d| < 3 then Err(TooShort) else if |d| > 15 then Err(TooLong) else Ok("+" + d)
    else if |d| == 11 && d[0] == '8' then Ok("+7" + d[1..])
    else if |d| <= 6 then Ok(d)
    else if |d| == 10 && prefix != "" then Ok(CleanPrefix(prefix) + d)
    else if |d| > 15 then Err(TooLong)
    else Ok("+" + d)
  }

  method NormalizePhoneNumber(raw: string, defaultCountryPrefix: string) returns (r: Result<string, Error>)
    ensures r == Normalized(raw, defaultCountryPrefix)
  {
    hide TrimSpace, DigitsOf;
    var trimmed := TrimSpace(raw);
    if trimmed == "" {
      return Err(EmptyPhoneNumber);
    }
    var hasPlus := false;
    var digits := "";
    DigitsOfNothing();
    for i := 0 to |trimmed|
      invariant forall j :: 0 <= j < i ==> (trimmed[j] == '+' && j == 0) || IsDigit(trimmed[j]) || Formatting(trimmed[j])
      invariant hasPlus <==> i > 0 && trimmed[0] == '+'
      invariant digits == DigitsOf(trimmed[..i])
    {
      DigitsOfSnoc(trimmed, i);
      if trimmed[i] == '+' {
        if i == 0 {
          hasPlus := true;
        } else {
          return Err(InvalidCharacters);
        }
      } else if '0' <= trimmed[i] <= '9' {
        digits := digits + [trimmed[i]];
      } else if !Formatting(trimmed[i]) {
        return Err(InvalidCharacters);
      }
    }
    assert trimmed[..|trimmed|] == trimmed;
    if |digits| == 0 {
      return Err(EmptyPhoneNumber);
    }
    if |digits| < 2 {
      return Err(TooShort);
    }
    if hasPlus {
      if |digits| < 3 {
        return Err(TooShort);
      }
      if |digits| > 15 {
        return Err(TooLong);
      }
      return Ok("+" + digits);
    }
    if |digits| == 11 && digits[0] == '8' {
      return Ok("+7" + digits[1..]);
    }
    if |digits| <= 6 {
      return Ok(digits);
    }
    if |digits| == 10 && defaultCountryPrefix != "" {
      return Ok(CleanPrefix(defaultCountryPrefix) + digits);
    }
    if |digits| > 15 {
      return Err(TooLong);
    }
    return Ok("+" + digits);
  }

  lemma DigitsOfNothing()
    ensures forall s: string :: DigitsOf(s[..0]) == []
  {
  }

  lemma DigitsOfSnoc(s: string, i: nat)
    requires i < |s|
    ensures DigitsOf(s[..i + 1]) == if IsDigit(s[i]) then DigitsOf(s[..i]) + [s[i]] else DigitsOf(s[..i])
  {
    assert s[..i + 1] == s[..i] + [s[i]];
    DigitsOfConcat(s[..i], [s[i]]);
    assert [s[i]][1..] == [];
    assert DigitsOf([s[i]]) == if IsDigit(s[i]) then [s[i]] else [];
  }

  // ---------------------------------------------------------------- keys

  /** Best-effort canonical form of a recipient. */
  function CanonicalRecipient(raw: string): string {
    var t := TrimSpace(raw);
    var d := DigitsOf(t);
    if t == "" then raw
    else if d == "" then t
    else if HasPrefix(t, "+") then "+" + d
    else if |d| == 11 && d[0] == '8' then "+7" + d[1..]
    else d
  }

  function MakeKey(to: string, ref: byte): string { Key(CanonicalRecipient(to), ref) }

  /** A plus sign or nothing, then digits. */
  ghost predicate Dialable(n: string) {
    exists d: string :: d != "" && AllDigits(d) && (n == d || n == "+" + d)
  }

  lemma DialableFacts(d: string)
    requires d != "" && AllDigits(d)
    ensures TrimSpace(d) == d && TrimSpace("+" + d) == "+" + d
    ensures DigitsOf(d) == d && DigitsOf("+" + d) == d
    ensures !HasPrefix(d, "+") && HasPrefix("+" + d, "+")
  {
    hide TrimSpace, DigitsOf;
    TrimIdle(d);
    TrimIdle("+" + d);
    DigitsOfDigits(d);
    Address.PlusIsNoDigit("+" + d);
    assert ("+" + d)[1..] == d;
  }

  lemma CanonicalOfDigits(d: string)
    requires d != "" && AllDigits(d)
    ensures CanonicalRecipient("+" + d) == "+" + d
    ensures CanonicalRecipient(d) == if |d| == 11 && d[0] == '8' then "+7" + d[1..] else d
  {
    hide TrimSpace, DigitsOf;
    DialableFacts(d);
  }

  /** Canonical forms are left alone. */
  lemma CanonicalIdempotent(raw: string)
    ensures CanonicalRecipient(CanonicalRecipient(raw)) == CanonicalRecipient(raw)
  {
    hide TrimSpace, DigitsOf;
    var t := TrimSpace(raw);
    var d := DigitsOf(t);
    if t != "" {
      if d == "" {
        TrimIdle(t);
      } else if HasPrefix(t, "+") {
        CanonicalOfDigits(d);
      } else if |d| == 11 && d[0] == '8' {
        assert "+7" + d[1..] == "+" + ("7" + d[1..]);
        CanonicalOfDigits("7" + d[1..]);
      } else {
        CanonicalOfDigits(d);
      }
    }
  }

  /** Keys tell canonical recipients and references apart. */
  lemma KeysDiffer(a: string, m: byte, b: string, n: byte)
    ensures MakeKey(a, m) == MakeKey(b, n) <==> CanonicalRecipient(a) == CanonicalRecipient(b) && m == n
  {
    if MakeKey(a, m) == MakeKey(b, n) {
      KeyInjective(CanonicalRecipient(a), m, CanonicalRecipient(b), n);
    }
  }

  // ---------------------------------------------------------------- the wire

  /** The form in which a number travels: its own canonical form, for the address field as for the keys. */
  ghost predicate Settled(n: string) {
    && Dialable(n) && CanonicalRecipient(n) == n && Address.Canonical(n) == n
  }

  lemma SettledDigits(d: string)
    requires d != "" && AllDigits(d)
    ensures Settled("+" + d) && DigitsOf(TrimSpace("+" + d)) == d
    ensures !(|d| == 11 && d[0] == '8') ==> Settled(d) && DigitsOf(TrimSpace(d)) == d
  {
    hide TrimSpace, DigitsOf, CanonicalRecipient;
    DialableFacts(d);
    CanonicalOfDigits(d);
    assert Address.Canonical(d) == d;
  }

  /** A default prefix made of digits, such as "+7". */
  ghost predicate DigitPrefix(prefix: string) { AllDigits(CleanPrefix(prefix)[1..]) }

  /** The one case in which the caller's prefix becomes part of the number. */
  predicate PrefixUsed(raw: string, prefix: string) {
    var t := TrimSpace(raw);
    !HasPrefix(t, "+") && |DigitsOf(t)| == 10 && prefix != ""
  }

  /** What NormalizePhoneNumber accepts: without a default prefix in it, it is dialable, has at most 15 digits
      and is its own canonical form, as national 11-digit numbers have already become international. With a
      prefix it starts with a plus sign, and is dialable if and only if the prefix is made of digits. */
  lemma NormalizedShape(raw: string, prefix: string)
    requires Normalized(raw, prefix).Ok?
    ensures var n := Normalized(raw, prefix).value;
            && (!PrefixUsed(raw, prefix) ==> Settled(n) && |DigitsOf(TrimSpace(n))| <= 15)
            && (PrefixUsed(raw, prefix) ==> HasPrefix(n, "+") && (Settled(n) <==> DigitPrefix(prefix)))
  {
    hide TrimSpace, DigitsOf, WellSpelled, Settled;
    var n := Normalized(raw, prefix).value;
    var t := TrimSpace(raw);
    var d := DigitsOf(t);
    if HasPrefix(t, "+") {
      SettledDigits(d);
    } else if |d| == 11 && d[0] == '8' {
      assert n == "+" + ("7" + d[1..]);
      SettledDigits("7" + d[1..]);
    } else if |d| == 10 && prefix != "" {
      var p := CleanPrefix(prefix);
      assert n == "+" + (p[1..] + d);
      PrefixedShape(p[1..], d);
    } else {
      SettledDigits(d);
    }
  }

  lemma PrefixedShape(p: string, d: string)
    requires AllDigits(d) && d != ""
    ensures Settled("+" + (p + d)) <==> AllDigits(p)
  {
    hide TrimSpace, DigitsOf, CanonicalRecipient, Address.Canonical;
    var n := "+" + (p + d);
    if AllDigits(p) {
      SettledDigits(p + d);
    } else {
      var i :| 0 <= i < |p| && !IsDigit(p[i]);
      assert n[1 + i] == p[i];
      assert !Dialable(n);
    }
  }

  /** Whatever was accepted starts with a plus sign or a digit and ends with a digit. */
  lemma NormalizedEnds(raw: string, prefix: string)
    requires Normalized(raw, prefix).Ok?
    ensures var n := Normalized(raw, prefix).value;
            && TrimSpace(n) == n && DigitsOf(n) != ""
            && (HasPrefix(n, "+") || (AllDigits(n) && |n| <= 6))
  {
    hide TrimSpace, DigitsOf, WellSpelled;
    var n := Normalized(raw, prefix).value;
    var d := DigitsOf(TrimSpace(raw));
    assert IsDigit(n[|n| - 1]);
    TrimIdle(n);
    LastDigit(n);
  }

  lemma LastDigit(n: string)
    requires n != "" && IsDigit(n[|n| - 1])
    ensures DigitsOf(n) != ""
  {
    DigitsOfSnoc(n, |n| - 1);
    assert n[..|n|] == n;
  }

  /** Encoded as an address, read back and canonicalised, a normalized number gives the key it was tracked
      under, if and only if its digits can be counted in one octet; only a default prefix of more than 245 digits
      breaks that. */
  lemma WireKey(raw: string, prefix: string, ref: byte)
    requires Normalized(raw, prefix).Ok?
    ensures var n := Normalized(raw, prefix).value;
            var a := Address.EncodedAddress(n);
            var back := Address.DecodedAddress(a.bcd, a.digitCount, a.typeOfAddr);
            && (MakeKey(back, ref) == MakeKey(n, ref) <==> |DigitsOf(n)| <= 255)
            && (!PrefixUsed(raw, prefix) || (DigitPrefix(prefix) && |DigitsOf(n)| <= 255) ==> back == n)
  {
    hide TrimSpace, DigitsOf, Normalized, Address.EncodedAddress, Address.DecodedAddress, CanonicalRecipient, Dialable, Key,
         PrefixUsed;
    var n := Normalized(raw, prefix).value;
    NormalizedShape(raw, prefix);
    NormalizedEnds(raw, prefix);
    Address.RoundTrip(n);
    BackCanonical(n);
    var a := Address.EncodedAddress(n);
    KeysDiffer(Address.DecodedAddress(a.bcd, a.digitCount, a.typeOfAddr), ref, n, ref);
  }

  /** The canonical recipient does not change on the wire, if and only if the digits can be counted. */
  lemma BackCanonical(n: string)
    requires TrimSpace(n) == n && DigitsOf(n) != "" && (HasPrefix(n, "+") || (AllDigits(n) && |n| <= 6))
    ensures var a := Address.EncodedAddress(n);
            CanonicalRecipient(Address.DecodedAddress(a.bcd, a.digitCount, a.typeOfAddr)) == CanonicalRecipient(n)
            <==> |DigitsOf(n)| <= 255
  {
    hide TrimSpace, DigitsOf, Address.EncodedAddress, Address.DecodedAddress, CanonicalRecipient;
    BackForm(n);
    var d := DigitsOf(n);
    if HasPrefix(n, "+") {
      CanonicalForm(n);
      CanonicalPlus(d[..|d| % 256]);
    }
  }

  /** What is read back: as many digits as the wrapped count announces. */
  lemma BackForm(n: string)
    requires TrimSpace(n) == n && (HasPrefix(n, "+") || (AllDigits(n) && |n| <= 6))
    ensures var a := Address.EncodedAddress(n);
            var d := DigitsOf(n);
            && Address.DecodedAddress(a.bcd, a.digitCount, a.typeOfAddr)
               == (if HasPrefix(n, "+") then "+" + d[..|d| % 256] else n)
            && |d| <= |n|
  {
    hide TrimSpace, DigitsOf, Address.Bcd, Address.ReadDigits;
    var d := DigitsOf(n);
    Address.BcdRoundTrip(d, |d| % 256);
    if !HasPrefix(n, "+") {
      DigitsOfDigits(n);
      assert d[..|d|] == d;
    }
  }

  lemma CanonicalForm(n: string)
    requires TrimSpace(n) == n && DigitsOf(n) != "" && HasPrefix(n, "+")
    ensures CanonicalRecipient(n) == "+" + DigitsOf(n)
  {
    hide TrimSpace, DigitsOf;
  }

  lemma CanonicalPlus(d: string)
    requires AllDigits(d)
    ensures CanonicalRecipient("+" + d) == "+" + d
  {
    hide TrimSpace, DigitsOf;
    if d == "" {
      assert "+" + d == "+";
      TrimIdle("+");
      Address.PlusIsNoDigit("+");
      DigitsOfDigits(d);
      assert "+"[1..] == d;
    } else {
      CanonicalOfDigits(d);
    }
  }

  /** A report that names the recipient in the national form "8..." finds the entry of "+7...". */
  lemma NationalKey(d: string, ref: byte)
    requires |d| == 10 && AllDigits(d)
    ensures var a := Address.EncodedAddress("8" + d);
            && a.typeOfAddr == Address.NATIONAL
            && MakeKey(Address.DecodedAddress(a.bcd, a.digitCount, a.typeOfAddr), ref) == MakeKey("+7" + d, ref)
  {
    hide TrimSpace, DigitsOf, Address.DecodedAddress, Address.Bcd, Key;
    var national, international := "8" + d, "7" + d;
    assert national[1..] == d && "+7" + d == "+" + international;
    CanonicalOfDigits(national);
    CanonicalOfDigits(international);
    DialableFacts(national);
    Address.RoundTrip(national);
    assert Address.Canonical(national) == national;
  }

  /** Both spellings are normalized to the same number. */
  lemma NationalNormalized(d: string, prefix: string)
    requires |d| == 10 && AllDigits(d)
    ensures Normalized("8" + d, prefix) == Ok("+7" + d)
    ensures Normalized("+7" + d, prefix) == Ok("+7" + d)
  {
    hide TrimSpace, DigitsOf;
    var national, international := "8" + d, "7" + d;
    assert national[1..] == d && "+7" + d == "+" + international;
    DialableFacts(national);
    DialableFacts(international);
  }

  /** What is accepted, and each error: a number is spelled with digits, formatting and a leading plus sign only, and has
      at least two digits, behind a plus sign three, and at most fifteen. */
  lemma AcceptedExactly(raw: string, prefix: string)
    ensures var t := TrimSpace(raw);
            var r, n, least := Normalized(raw, prefix), |DigitsOf(t)|, if HasPrefix(t, "+") then 3 else 2;
            && (r.Ok? <==> WellSpelled(t) && least <= n <= 15)
            && (r == Err(InvalidCharacters) <==> !WellSpelled(t))
            && (r == Err(EmptyPhoneNumber) <==> WellSpelled(t) && n == 0)
            && (r == Err(TooShort) <==> WellSpelled(t) && 0 < n < least)
            && (r == Err(TooLong) <==> WellSpelled(t) && n > 15)
  {
    hide TrimSpace, DigitsOf;
    var t := TrimSpace(raw);
    DigitsOfNothing();
    assert t == "" ==> t[..0] == t;
  }

  /** The digits of an accepted number are those of the input, with 7 for the 8 of the national form or behind the digits
      of the default prefix, and a plus sign comes before all but short codes. */
  lemma NormalizedDigits(raw: string, prefix: string)
    requires Normalized(raw, prefix).Ok?
    ensures var n, d := Normalized(raw, prefix).value, DigitsOf(raw);
            var plus := HasPrefix(TrimSpace(raw), "+");
            && (HasPrefix(n, "+") <==> plus || |d| > 6)
            && (!plus && |d| == 11 && d[0] == '8' ==> DigitsOf(n) == "7" + d[1..])
            && (PrefixUsed(raw, prefix) ==> DigitsOf(n) == DigitsOf(prefix) + d)
            && (!(!plus && |d| == 11 && d[0] == '8') && !PrefixUsed(raw, prefix) ==> DigitsOf(n) == d)
  {
    hide TrimSpace, DigitsOf, WellSpelled;
    DigitsOfTrim(raw);
    DigitsOfTrim(prefix);
    var n, d := Normalized(raw, prefix).value, DigitsOf(raw);
    AcceptedExactly(raw, prefix);
    DialableFacts(d);
    if PrefixUsed(raw, prefix) {
      DigitsOfConcat(CleanPrefix(prefix), d);
      PlusDropped(TrimSpace(prefix));
    } else if !HasPrefix(TrimSpace(raw), "+") && |d| == 11 && d[0] == '8' {
      DialableFacts("7" + d[1..]);
      assert n == "+" + ("7" + d[1..]);
    }
  }

  lemma PlusDropped(p: string)
    ensures DigitsOf("+" + p) == DigitsOf(p)
  {
    Address.PlusIsNoDigit("+" + p);
    assert ("+" + p)[1..] == p;
  }

  // ---------------------------------------------------------------- default prefixes that break it

  /** A national number behind a default prefix. */
  lemma PrefixPut(d: string, prefix: string)
    requires |d| == 10 && AllDigits(d) && prefix != "" && TrimSpace(prefix) == prefix && HasPrefix(prefix, "+")
    ensures Normalized(d, prefix) == Ok(prefix + d) && PrefixUsed(d, prefix)
  {
    hide TrimSpace, DigitsOf;
    DialableFacts(d);
  }

  /** The prefix "+7-" is put before a number as it is, and the result cannot be dialled. */
  lemma DashedPrefix()
    ensures var r := Normalized("9161234567", "+7-"); r == Ok("+7-9161234567") && !Settled(r.value)
  {
    hide TrimSpace, DigitsOf, Normalized, Settled, PrefixUsed;
    TrimIdle("+7-");
    PrefixPut("9161234567", "+7-");
    NormalizedShape("9161234567", "+7-");
    assert CleanPrefix("+7-")[1..][1] == '-';
    assert "+7-" + "9161234567" == "+7-9161234567";
  }

  /** A prefix of 246 digits makes 256, and the report for that number does not find its entry. */
  lemma EndlessPrefix(ref: byte)
    ensures var prefix := "+" + Repeat('1', 246);
            var n := prefix + "9161234567";
            var a := Address.EncodedAddress(n);
            && Normalized("9161234567", prefix) == Ok(n)
            && MakeKey(Address.DecodedAddress(a.bcd, a.digitCount, a.typeOfAddr), ref) != MakeKey(n, ref)
  {
    hide TrimSpace, DigitsOf, Normalized, Address.EncodedAddress, Address.DecodedAddress, CanonicalRecipient, Key, Repeat,
         PrefixUsed;
    var ones := Repeat('1', 246);
    var prefix, d := "+" + ones, "9161234567";
    assert forall i :: 0 <= i < |ones| ==> ones[i] in ones;
    DialableFacts(ones);
    PrefixPut(d, prefix);
    WireKey(d, prefix, ref);
    DigitsOfConcat(prefix, d);
    DigitsOfDigits(d);
  }
}
