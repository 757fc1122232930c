/** Bytes, fixed-width integers and their little-endian layout on the wire. */
module Bytes {
  type byte = b: int | 0 <= b < 0x100
  type uint32 = n: int | 0 <= n < 0x1_0000_0000

  function Min(a: nat, b: nat): (m: nat)
    ensures m <= a && m <= b && (m == a || m == b)
  {
    if a < b then a else b
  }

  /** The number of values that fit in `width` bytes. */
  function Capacity(width: nat): (c: nat)
    ensures c > 0
  {
    if width == 0 then 1 else 0x100 * Capacity(width - 1)
  }

  function ToLittleEndian(n: nat, width: nat): (s: seq<byte>)
    ensures |s| == width
  {
    if width == 0 then [] else [n % 0x100] + ToLittleEndian(n / 0x100, width - 1)
  }

  function FromLittleEndian(s: seq<byte>): nat
  {
    if s == [] then 0 else s[0] + 0x100 * FromLittleEndian(s[1..])
  }

  /** Decoding undoes encoding for every number that fits. */
  lemma {:induction false} DecodeEncoded(n: nat, width: nat)
    requires n < Capacity(width)
    ensures FromLittleEndian(ToLittleEndian(n, width)) == n
  {
    if width > 0 {
      DecodeEncoded(n / 0x100, width - 1);
      assert ToLittleEndian(n, width)[1..] == ToLittleEndian(n / 0x100, width - 1);
    }
  }

  /** Every byte string is the encoding of the number it denotes, and that number fits. */
  lemma {:induction false} EncodeDecoded(s: seq<byte>)
    ensures FromLittleEndian(s) < Capacity(|s|)
    ensures ToLittleEndian(FromLittleEndian(s), |s|) == s
  {
    if s != [] {
      EncodeDecoded(s[1..]);
      var rest := FromLittleEndian(s[1..]);
      assert (s[0] + 0x100 * rest) / 0x100 == rest && (s[0] + 0x100 * rest) % 0x100 == s[0];
    }
  }

  /** The lowest byte comes first. */
  lemma LowByteFirst(s: seq<byte>)
    ensures |s| == 3 ==> FromLittleEndian(s) == s[0] as int + 0x100 * s[1] as int + 0x1_0000 * s[2] as int
    ensures |s| == 4 ==> FromLittleEndian(s) == s[0] as int + 0x100 * s[1] as int + 0x1_0000 * s[2] as int + 0x100_0000 * s[3] as int
  {
    if |s| == 3 || |s| == 4 {
      assert s[1..][1..] == s[2..] && s[2..][1..] == s[3..];
      assert FromLittleEndian(s[2..]) == s[2] + 0x100 * FromLittleEndian(s[3..]);
      if |s| == 4 {
        assert s[3..][1..] == [];
        assert FromLittleEndian(s[3..]) == s[3] + 0x100 * FromLittleEndian([]);
      }
    }
  }

  lemma CapacityOfFieldWidths()
    ensures Capacity(1) == 0x100 && Capacity(3) == 0x100_0000 && Capacity(4) == 0x1_0000_0000
  {
    assert Capacity(1) == 0x100 * Capacity(0);
    assert Capacity(2) == 0x100 * Capacity(1);
    assert Capacity(3) == 0x100 * Capacity(2);
    assert Capacity(4) == 0x100 * Capacity(3);
  }
}
