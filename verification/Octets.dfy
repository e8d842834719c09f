/** Octets, big-endian 16-bit fields, single bits, and the joining of byte strings. */
module Octets {

  type byte = b: int | 0 <= b < 0x100
  type u16 = v: int | 0 <= v < 0x1_0000
  type bytes = seq<byte>

  datatype Option<+T> = None | Some(value: T)

  /** The big-endian 16-bit field at offset i. */
  function U16(s: bytes, i: nat): u16
    requires i + 2 <= |s|
  {
    (s[i] as int) * 0x100 + s[i + 1]
  }

  function PutU16(v: u16): bytes {
    [v / 0x100, v % 0x100]
  }

  function Join(parts: seq<bytes>): bytes {
    if parts == [] then [] else parts[0] + Join(parts[1..])
  }

  lemma Regroup(a: bytes, b: bytes, c: bytes)
    ensures a + (b + c) == a + b + c
  {
  }

  lemma {:induction false} JoinAppend(a: seq<bytes>, b: seq<bytes>)
    ensures Join(a + b) == Join(a) + Join(b)
  {
    if a == [] {
      assert a + b == b && [] + Join(b) == Join(b);
    } else {
      JoinAppend(a[1..], b);
      assert (a + b)[0] == a[0] && (a + b)[1..] == a[1..] + b;
      Regroup(a[0], Join(a[1..]), Join(b));
    }
  }

  function Pow2(k: nat): nat {
    if k == 0 then 1 else 2 * Pow2(k - 1)
  }

  /** Bit k of v, 0 being the least significant: `v >> k & 1`. */
  function BitAt(v: nat, k: nat): (r: byte)
    ensures r < 2
  {
    if k == 0 then v % 2 else BitAt(v / 2, k - 1)
  }

  /** v with bit k set or cleared, as `|= 1 << k` and `&^= 1 << k` change it. */
  function WithBit(v: nat, k: nat, on: bool): nat {
    if k == 0 then v / 2 * 2 + (if on then 1 else 0)
    else WithBit(v / 2, k - 1, on) * 2 + v % 2
  }

  lemma Doubled(a: nat, b: nat)
    requires b < 2
    ensures (a * 2 + b) / 2 == a && (a * 2 + b) % 2 == b
  {
  }

  /** Setting or clearing one bit gives that bit its value and leaves every other bit alone. */
  lemma {:induction false} WithBitChangesOneBit(v: nat, k: nat, on: bool, j: nat)
    ensures BitAt(WithBit(v, k, on), j) == if j == k then (if on then 1 else 0) else BitAt(v, j)
  {
    if k == 0 {
      Doubled(v / 2, if on then 1 else 0);
    } else {
      Doubled(WithBit(v / 2, k - 1, on), v % 2);
      if j > 0 {
        WithBitChangesOneBit(v / 2, k - 1, on, j - 1);
      }
    }
  }

  /** The changed value needs no more bits than the old one. */
  lemma {:induction false} WithBitFits(v: nat, k: nat, on: bool, width: nat)
    requires k < width && v < Pow2(width)
    ensures WithBit(v, k, on) < Pow2(width)
  {
    if k > 0 {
      WithBitFits(v / 2, k - 1, on, width - 1);
    }
  }

  /** The number with these binary digits, the last one first. */
  function FromBits(bits: seq<nat>): nat {
    if bits == [] then 0 else bits[0] + 2 * FromBits(bits[1..])
  }

  function BitsOf(v: nat, n: nat): seq<nat> {
    seq(n, k requires k >= 0 => BitAt(v, k))
  }

  /** The bits of a number are its binary digits. */
  lemma {:induction false} NumberIsItsBits(v: nat, n: nat)
    requires v < Pow2(n)
    ensures FromBits(BitsOf(v, n)) == v
  {
    if n > 0 {
      NumberIsItsBits(v / 2, n - 1);
      assert BitsOf(v, n)[1..] == BitsOf(v / 2, n - 1);
    }
  }

  function WithBitOfByte(b: byte, k: nat, on: bool): (r: byte)
    requires k < 8
    ensures r == WithBit(b, k, on)
  {
    assert Pow2(8) == 0x100;
    WithBitFits(b, k, on, 8);
    WithBit(b, k, on)
  }
}
