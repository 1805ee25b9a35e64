/** Septet packing, 3GPP TS 23.038 section 6.1.2.1 (internal/sms/pdu/gsm7.go). */
module Septets {
  import opened Octets

  // ---------------------------------------------------------------- what packing means

  /** Bit `p` of an octet string read as one little-endian bit stream; past the end it is 0. */
  predicate StreamBit(octets: seq<byte>, p: nat) {
    p / 8 < |octets| && Bit(octets[p / 8], p % 8)
  }

  /** Bit `q` of the septets written one after the other, seven bits each. */
  predicate SeptetBit(septets: seq<byte>, q: nat) {
    q / 7 < |septets| && Bit(septets[q / 7], q % 7)
  }

  /** Bit `p` of the packed stream: zero before `startBit` and after the last septet. */
  predicate PackedBit(septets: seq<byte>, startBit: nat, p: nat) {
    startBit <= p && SeptetBit(septets, p - startBit)
  }

  function PackedOctet(septets: seq<byte>, startBit: nat, b: nat): (r: byte)
    ensures forall j: nat :: j < 8 ==> Bit(r, j) == PackedBit(septets, startBit, 8 * b + j)
  {
    Octet((j: nat) => PackedBit(septets, startBit, 8 * b + j))
  }

  function PackedLength(count: nat, startBit: nat): nat {
    if count == 0 then 0 else (startBit + count * 7 + 7) / 8
  }

  function Packed(septets: seq<byte>, startBit: nat): (octets: seq<byte>)
    ensures |octets| == PackedLength(|septets|, startBit)
  {
    seq(PackedLength(|septets|, startBit), b requires 0 <= b => PackedOctet(septets, startBit, b))
  }

  /** Septet `i` read from the stream at `startBit`. */
  function UnpackedSeptet(octets: seq<byte>, startBit: nat, i: nat): (s: byte)
    ensures s < 128
    ensures forall j: nat :: j < 7 ==> Bit(s, j) == StreamBit(octets, startBit + 7 * i + j)
  {
    Low7(Octet((j: nat) => StreamBit(octets, startBit + 7 * i + j)))
  }

  function Unpacked(octets: seq<byte>, count: nat, startBit: nat): (septets: seq<byte>)
    ensures |septets| == count
  {
    seq(count, i requires 0 <= i => UnpackedSeptet(octets, startBit, i))
  }

  // ---------------------------------------------------------------- the code

  lemma DivMod8(q: nat, r: nat)
    requires r < 8
    ensures (8 * q + r) / 8 == q && (8 * q + r) % 8 == r
  {
  }

  lemma DivMod7(q: nat, r: nat)
    requires r < 7
    ensures (7 * q + r) / 7 == q && (7 * q + r) % 7 == r
  {
  }

  /** One septet adds exactly its own seven bits to the stream. */
  lemma PackedBitStep(septets: seq<byte>, n: nat, startBit: nat, p: nat)
    requires n < |septets|
    ensures PackedBit(septets[..n + 1], startBit, p)
         == (PackedBit(septets[..n], startBit, p)
             || (startBit + 7 * n <= p < startBit + 7 * n + 7 && Bit(septets[n], p - startBit - 7 * n)))
  {
    if startBit <= p {
      var q := p - startBit;
      DivMod7(q / 7, q % 7);
    }
  }

  lemma Low7Top(v: byte)
    ensures !Bit(Low7(v), 7)
  {
    var x := Low7(v);
    var y := x / 2 / 2 / 2;
    assert y < 16;
    assert Bit(x, 7) == Bit(y, 4);
    var z := y / 2 / 2;
    assert z < 4;
    assert Bit(y, 4) == Bit(z, 2);
  }

  /** What one loop round does to octet `b`: the low part of the septet goes to the octet that holds
      `bitPos`, the rest to the next one. */
  function RoundOctet(old': byte, septet: byte, bitPos: nat, b: nat): byte {
    if b == bitPos / 8 then Or(old', Shl(Low7(septet), bitPos % 8))
    else if b == bitPos / 8 + 1 then Or(old', Shr(Low7(septet), 8 - bitPos % 8))
    else old'
  }

  lemma RoundOctetBit(old': byte, septet: byte, byteIdx: nat, k: nat, b: nat, j: nat)
    requires j < 8 && k < 8
    ensures var bitPos, p := 8 * byteIdx + k, 8 * b + j;
            (Bit(RoundOctet(old', septet, bitPos, b), j)
             == (Bit(old', j) || (bitPos <= p < bitPos + 7 && Bit(septet, p - bitPos))))
  {
    hide Octet, Or, Shl, Shr, Low7, Bit;
    DivMod8(byteIdx, k);
    Low7Top(septet);
    if b == byteIdx + 1 && j + 8 - k == 7 {
      assert !Bit(Low7(septet), j + 8 - k);
    } else if b == byteIdx && j >= k && j - k == 7 {
      assert !Bit(Low7(septet), j - k);
    }
  }

  lemma PackedOctetStep(septets: seq<byte>, n: nat, startBit: nat, b: nat)
    requires n < |septets|
    ensures PackedOctet(septets[..n + 1], startBit, b)
         == RoundOctet(PackedOctet(septets[..n], startBit, b), septets[n], startBit + 7 * n, b)
  {
    hide *;
    var bitPos := startBit + 7 * n;
    var old' := PackedOctet(septets[..n], startBit, b);
    var new' := PackedOctet(septets[..n + 1], startBit, b);
    var want := RoundOctet(old', septets[n], bitPos, b);
    forall j: nat | j < 8 ensures Bit(new', j) == Bit(want, j) {
      PackedBitStep(septets, n, startBit, 8 * b + j);
      RoundOctetBit(old', septets[n], bitPos / 8, bitPos % 8, b, j);
    }
    SameOctet(new', want);
  }

  /** Before any septet is written every octet is zero. */
  lemma PackedNothing(startBit: nat, b: nat)
    ensures PackedOctet([], startBit, b) == 0
  {
    forall j: nat | j < 8 ensures Bit(PackedOctet([], startBit, b), j) == Bit(0, j) { ZeroBit(j); }
    SameOctet(PackedOctet([], startBit, b), 0);
  }

  /** The last septet never spills past the octets that were allocated. */
  lemma NoSpill(count: nat, n: nat, startBit: nat)
    requires n < count
    ensures (startBit + 7 * n) / 8 < PackedLength(count, startBit)
  {
    assert count * 7 >= n * 7 + 7;
  }

  /** One round of the packing loop. */
  method PackRound(buf: array<byte>, septet: byte, bitPos: nat)
    requires bitPos / 8 < buf.Length
    modifies buf
    ensures forall b :: 0 <= b < buf.Length ==> buf[b] == RoundOctet(old(buf[b]), septet, bitPos, b)
  {
    hide Or, Shl, Shr, Low7;
    var val := Low7(septet);
    var byteIdx := bitPos / 8;
    var bitOffset := bitPos % 8;
    buf[byteIdx] := Or(buf[byteIdx], Shl(val, bitOffset));
    if byteIdx + 1 < buf.Length {
      buf[byteIdx + 1] := Or(buf[byteIdx + 1], Shr(val, 8 - bitOffset));
    }
  }

  method PackSeptets(septets: seq<byte>, startBit: nat) returns (octets: seq<byte>)
    ensures octets == Packed(septets, startBit)
  {
    hide PackedOctet, RoundOctet;
    if |septets| == 0 {
      return [];
    }
    var totalBits := startBit + |septets| * 7;
    var numOctets := (totalBits + 7) / 8;
    var buf := new byte[numOctets](_ => 0);
    forall b | 0 <= b < numOctets ensures buf[b] == PackedOctet(septets[..0], startBit, b) {
      PackedNothing(startBit, b);
    }
    var bitPos := startBit;
    for n := 0 to |septets|
      invariant bitPos == startBit + 7 * n
      invariant forall b :: 0 <= b < numOctets ==> buf[b] == PackedOctet(septets[..n], startBit, b)
    {
      NoSpill(|septets|, n, startBit);
      PackRound(buf, septets[n], bitPos);
      forall b | 0 <= b < numOctets ensures buf[b] == PackedOctet(septets[..n + 1], startBit, b) {
        PackedOctetStep(septets, n, startBit, b);
      }
      bitPos := bitPos + 7;
    }
    assert septets[..|septets|] == septets;
    octets := buf[..];
  }

  /** One round of the unpacking loop: the second octet is read only when the septet reaches it. */
  method UnpackRound(octets: seq<byte>, bitPos: nat, ghost startBit: nat, ghost i: nat) returns (septet: byte)
    requires bitPos == startBit + 7 * i
    ensures septet == UnpackedSeptet(octets, startBit, i)
  {
    hide Octet, Or, Shl, Shr, Low7, Bit, UnpackedSeptet;
    var byteIdx := bitPos / 8;
    var bitOffset := bitPos % 8;
    var val: byte := 0;
    if byteIdx < |octets| {
      val := Shr(octets[byteIdx], bitOffset);
    }
    if bitOffset > 1 && byteIdx + 1 < |octets| {
      val := Or(val, Shl(octets[byteIdx + 1], 8 - bitOffset));
    }
    septet := Low7(val);
    forall j: nat | j < 7 ensures Bit(val, j) == StreamBit(octets, bitPos + j) {
      ZeroBit(j);
      if bitOffset + j < 8 {
        DivMod8(byteIdx, bitOffset + j);
      } else {
        DivMod8(byteIdx + 1, bitOffset + j - 8);
      }
    }
    SameSeptet(septet, UnpackedSeptet(octets, startBit, i));
  }

  method UnpackSeptets(octets: seq<byte>, numSeptets: nat, startBit: nat) returns (septets: seq<byte>)
    ensures septets == Unpacked(octets, numSeptets, startBit)
  {
    hide UnpackedSeptet;
    var buf := new byte[numSeptets](_ => 0);
    var bitPos := startBit;
    for i := 0 to numSeptets
      invariant bitPos == startBit + 7 * i
      invariant forall m :: 0 <= m < i ==> buf[m] == UnpackedSeptet(octets, startBit, m)
    {
      buf[i] := UnpackRound(octets, bitPos, startBit, i);
      bitPos := bitPos + 7;
    }
    septets := buf[..];
  }

  // ---------------------------------------------------------------- what it is for

  /** Every bit of the packed octets, and nothing but them: the bits before the start bit and after
      the last septet are zero, no two septets share a bit and no bit of the last septet is lost. */
  lemma PackedStream(septets: seq<byte>, startBit: nat, p: nat)
    requires septets != []
    ensures StreamBit(Packed(septets, startBit), p) == PackedBit(septets, startBit, p)
  {
    var octets := Packed(septets, startBit);
    if p / 8 < |octets| {
      assert octets[p / 8] == PackedOctet(septets, startBit, p / 8);
      DivMod8(p / 8, p % 8);
    } else {
      assert p >= startBit + |septets| * 7;
      assert (p - startBit) / 7 >= |septets|;
    }
  }

  lemma PackedBitAt(septets: seq<byte>, startBit: nat, i: nat, j: nat)
    requires i < |septets| && j < 7
    ensures PackedBit(septets, startBit, startBit + 7 * i + j) == Bit(septets[i], j)
  {
    DivMod7(i, j);
  }

  lemma PackUnpackBit(septets: seq<byte>, startBit: nat, i: nat, j: nat)
    requires i < |septets| && j < 7
    ensures Bit(UnpackedSeptet(Packed(septets, startBit), startBit, i), j) == Bit(septets[i], j)
  {
    hide *;
    PackedStream(septets, startBit, startBit + 7 * i + j);
    PackedBitAt(septets, startBit, i, j);
  }

  /** Octets behind the last septet that is read do not matter. */
  lemma UnpackCut(octets: seq<byte>, m: nat, count: nat, startBit: nat)
    requires m <= |octets| && startBit + 7 * count <= 8 * m
    ensures Unpacked(octets[..m], count, startBit) == Unpacked(octets, count, startBit)
  {
    hide UnpackedSeptet, Bit;
    forall i | 0 <= i < count
      ensures UnpackedSeptet(octets[..m], startBit, i) == UnpackedSeptet(octets, startBit, i)
    {
      var short, long := UnpackedSeptet(octets[..m], startBit, i), UnpackedSeptet(octets, startBit, i);
      forall j: nat | j < 7 ensures Bit(short, j) == Bit(long, j) {
        assert startBit + 7 * i + j < 8 * m;
      }
      SameSeptet(short, long);
    }
  }

  /** Reading fewer septets than were packed gives the first ones. */
  lemma PackUnpackPrefix(septets: seq<byte>, startBit: nat, count: nat)
    requires forall s :: s in septets ==> s < 128
    requires count <= |septets|
    ensures Unpacked(Packed(septets, startBit), count, startBit) == septets[..count]
  {
    var octets := Packed(septets, startBit);
    var back := Unpacked(octets, count, startBit);
    forall i | 0 <= i < count ensures back[i] == septets[i] {
      forall j: nat | j < 7 ensures Bit(back[i], j) == Bit(septets[i], j) {
        PackUnpackBit(septets, startBit, i, j);
      }
      assert septets[i] in septets;
      SameSeptet(back[i], septets[i]);
    }
  }

  /** Unpacking undoes packing, for every start bit and every sequence of septets. */
  lemma PackUnpack(septets: seq<byte>, startBit: nat)
    requires forall s :: s in septets ==> s < 128
    ensures Unpacked(Packed(septets, startBit), |septets|, startBit) == septets
  {
    PackUnpackPrefix(septets, startBit, |septets|);
  }
}
