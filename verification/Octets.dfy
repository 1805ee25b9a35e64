/** Octets as the source's `byte`: integers below 256, their bits, and the shifts and
    the OR that the septet packing applies to them. */
module Octets {

  type byte = x: int | 0 <= x < 256

  datatype Option<+T> = None | Some(value: T)

  datatype Result<+T, +E> = Ok(value: T) | Err(error: E)

  /** Bit `j` of a number, 0 being the least significant. */
  predicate Bit(x: nat, j: nat)
    decreases j
  {
    if j == 0 then x % 2 == 1 else Bit(x / 2, j - 1)
  }

  function Pow2(k: nat): (p: nat)
    ensures p >= 1
  {
    if k == 0 then 1 else 2 * Pow2(k - 1)
  }

  /** The number written by the given bits, least significant first. */
  function Value(bits: seq<bool>): (x: nat)
    ensures x < Pow2(|bits|)
  {
    if bits == [] then 0 else (if bits[0] then 1 else 0) + 2 * Value(bits[1..])
  }

  lemma {:induction false} ValueBit(bits: seq<bool>, j: nat)
    ensures Bit(Value(bits), j) == (j < |bits| && bits[j])
    decreases j
  {
    if bits == [] {
      ZeroBit(j);
    } else if j > 0 {
      assert Value(bits) / 2 == Value(bits[1..]);
      ValueBit(bits[1..], j - 1);
    }
  }

  lemma ZeroBit(j: nat)
    ensures !Bit(0, j)
  {
  }

  /** Numbers of the same width are equal when their bits are. */
  lemma {:induction false} SameBits(x: nat, y: nat, width: nat)
    requires x < Pow2(width) && y < Pow2(width)
    requires forall j: nat :: j < width ==> Bit(x, j) == Bit(y, j)
    ensures x == y
    decreases width
  {
    if width > 0 {
      assert Bit(x, 0) == Bit(y, 0);
      forall j: nat | j < width - 1 ensures Bit(x / 2, j) == Bit(y / 2, j) {
        assert Bit(x, j + 1) == Bit(y, j + 1);
      }
      SameBits(x / 2, y / 2, width - 1);
    }
  }

  lemma Pow2Eight()
    ensures Pow2(8) == 256 && Pow2(7) == 128
  {
    assert Pow2(4) == 16;
    assert Pow2(6) == 64;
  }

  /** The octet whose bit `j` is `f(j)`. */
  function Octet(f: nat -> bool): (x: byte)
    ensures forall j: nat :: j < 8 ==> Bit(x, j) == f(j)
  {
    Pow2Eight();
    var bits := seq(8, j requires 0 <= j < 8 => f(j));
    assert forall j: nat :: j < 8 ==> Bit(Value(bits), j) == f(j) by {
      forall j: nat | j < 8 ensures Bit(Value(bits), j) == f(j) { ValueBit(bits, j); }
    }
    Value(bits)
  }

  lemma SameOctet(x: byte, y: byte)
    requires forall j: nat :: j < 8 ==> Bit(x, j) == Bit(y, j)
    ensures x == y
  {
    Pow2Eight();
    SameBits(x, y, 8);
  }

  /** A septet has no bit 7, and its low seven bits determine it. */
  lemma SameSeptet(x: byte, y: byte)
    requires x < 128 && y < 128
    requires forall j: nat :: j < 7 ==> Bit(x, j) == Bit(y, j)
    ensures x == y
  {
    Pow2Eight();
    SameBits(x, y, 7);
  }

  /** `a | b`. */
  function Or(a: byte, b: byte): (r: byte)
    ensures forall j: nat :: j < 8 ==> Bit(r, j) == (Bit(a, j) || Bit(b, j))
  {
    Octet((j: nat) => Bit(a, j) || Bit(b, j))
  }

  /** `byte(v << k)`: bits shifted past the octet are lost. */
  function Shl(v: byte, k: nat): (r: byte)
    ensures forall j: nat :: j < 8 ==> Bit(r, j) == (j >= k && Bit(v, j - k))
  {
    Octet((j: nat) => j >= k && Bit(v, j - k))
  }

  /** `v >> k`. */
  function Shr(v: byte, k: nat): (r: byte)
    ensures forall j: nat :: j < 8 ==> Bit(r, j) == (j + k < 8 && Bit(v, j + k))
  {
    Octet((j: nat) => j + k < 8 && Bit(v, j + k))
  }

  /** `v & 0x7F`. */
  function Low7(v: byte): (r: byte)
    ensures r < 128
    ensures forall j: nat :: j < 7 ==> Bit(r, j) == Bit(v, j)
  {
    var bits := seq(7, j requires 0 <= j < 7 => Bit(v, j));
    Pow2Eight();
    assert forall j: nat :: j < 7 ==> Bit(Value(bits), j) == Bit(v, j) by {
      forall j: nat | j < 7 ensures Bit(Value(bits), j) == Bit(v, j) { ValueBit(bits, j); }
    }
    Value(bits)
  }
}
