/** Service centre time stamps, 3GPP TS 23.040 section 9.2.3.11 (internal/sms/pdu/timestamp.go). */
module Timestamp {
  import opened Octets

  /** A wall clock reading as it is handed to `time.Date`; `offset` is in seconds east of Greenwich. */
  datatype Time = Time(year: nat, month: nat, day: nat, hour: nat, minute: nat, second: nat, offset: int)

  /** Two semi-octets, the tens in the low one. */
  function TwoDigits(b: byte): nat { b % 16 * 10 + b / 16 }

  /** Quarters of an hour: three bits of tens, the sign in bit 3, units in the high half. */
  function Quarters(b: byte): int {
    var n := b % 8 * 10 + b / 16;
    if b / 8 % 2 == 1 then -n else n
  }

  function Decoded(t: seq<byte>): Time
    requires |t| == 7
  {
    Time(2000 + TwoDigits(t[0]), TwoDigits(t[1]), TwoDigits(t[2]), TwoDigits(t[3]), TwoDigits(t[4]), TwoDigits(t[5]),
         Quarters(t[6]) * 15 * 60)
  }

  // ---------------------------------------------------------------- round trip

  /** What seven octets can say: a year of this century, fields of two digits, a zone of whole quarters. */
  predicate Representable(t: Time) {
    && 2000 <= t.year < 2100 && t.month < 100 && t.day < 100 && t.hour < 100 && t.minute < 100 && t.second < 100
    && t.offset % 900 == 0 && -80 < t.offset / 900 < 80
  }

  function SwappedDigits(n: nat): byte
    requires n < 100
  {
    n % 10 * 16 + n / 10
  }

  function ZoneOctet(q: int): byte
    requires -80 < q < 80
  {
    if q < 0 then SwappedDigits(-q) + 8 else SwappedDigits(q)
  }

  /** A time stamp as a service centre writes it. */
  function Encoded(t: Time): (r: seq<byte>)
    requires Representable(t)
    ensures |r| == 7
  {
    [SwappedDigits(t.year - 2000), SwappedDigits(t.month), SwappedDigits(t.day), SwappedDigits(t.hour),
     SwappedDigits(t.minute), SwappedDigits(t.second), ZoneOctet(t.offset / 900)]
  }

  /** The halves of an octet; the low one of a zone octet holds the sign bit and the tens. */
  lemma Halves(high: nat, low: nat)
    requires high < 16 && low < 16
    ensures var b := 16 * high + low; b / 16 == high && b % 16 == low && b % 8 == low % 8 && b / 8 % 2 == low / 8
  {
    assert (16 * high + low) / 8 == 2 * high + low / 8;
  }

  lemma DigitsBack(n: nat)
    requires n < 100
    ensures TwoDigits(SwappedDigits(n)) == n
  {
    Halves(n % 10, n / 10);
  }

  lemma ZoneBack(q: int)
    requires -80 < q < 80
    ensures Quarters(ZoneOctet(q)) == q
  {
    var n := if q < 0 then -q else q;
    Halves(n % 10, n / 10 + if q < 0 then 8 else 0);
  }

  /** Every time that can be written is read back, zones on both sides of Greenwich included. */
  lemma RoundTrip(t: Time)
    requires Representable(t)
    ensures Decoded(Encoded(t)) == t
  {
    hide TwoDigits, SwappedDigits, Quarters, ZoneOctet;
    DigitsBack(t.year - 2000);
    DigitsBack(t.month);
    DigitsBack(t.day);
    DigitsBack(t.hour);
    DigitsBack(t.minute);
    DigitsBack(t.second);
    ZoneBack(t.offset / 900);
  }
}
