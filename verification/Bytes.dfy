/** Bytes, fixed-width big-endian integers and the Option type every other module uses. */
module Bytes {
  datatype Option<+T> = None | Some(value: T)

  type Byte = x: int | 0 <= x < 256
  type Uint32 = x: int | 0 <= x < 0x1_0000_0000

  /** 256 to the power n. */
  function Pow256(n: nat): (p: nat)
    ensures p > 0
  {
    if n == 0 then 1 else 256 * Pow256(n - 1)
  }

  /** The `width` low-order bytes of n, most significant byte first. */
  function BigEndian(n: nat, width: nat): (s: seq<Byte>)
    ensures |s| == width
  {
    if width == 0 then [] else BigEndian(n / 256, width - 1) + [n % 256]
  }

  /** The number that a byte string denotes, most significant byte first. */
  function FromBigEndian(s: seq<Byte>): (n: nat)
    ensures n < Pow256(|s|)
  {
    if s == [] then 0 else 256 * FromBigEndian(s[..|s| - 1]) + s[|s| - 1]
  }

  lemma {:induction false} DecodeEncode(n: nat, width: nat)
    requires n < Pow256(width)
    ensures FromBigEndian(BigEndian(n, width)) == n
  {
    if width > 0 {
      var s := BigEndian(n, width);
      DecodeEncode(n / 256, width - 1);
      assert s[..width - 1] == BigEndian(n / 256, width - 1);
    }
  }

  lemma {:induction false} EncodeDecode(s: seq<Byte>)
    ensures BigEndian(FromBigEndian(s), |s|) == s
  {
    if s != [] {
      EncodeDecode(s[..|s| - 1]);
      assert s == s[..|s| - 1] + [s[|s| - 1]];
    }
  }

  /** n >> (8 * i). */
  function ShiftRight8(n: nat, i: nat): nat {
    if i == 0 then n else ShiftRight8(n / 256, i - 1)
  }

  /** The next byte up, as a shift and a mask compute it, extends the encoding at the front. */
  lemma {:induction false} TopByte(n: nat, width: nat)
    ensures BigEndian(n, width + 1) == [ShiftRight8(n, width) % 256] + BigEndian(n, width)
  {
    if width > 0 {
      TopByte(n / 256, width - 1);
    }
  }

  lemma Pow256Values()
    ensures Pow256(1) == 0x100 && Pow256(2) == 0x1_0000 && Pow256(4) == 0x1_0000_0000
    ensures Pow256(8) == 0x1_0000_0000_0000_0000
  {
    assert Pow256(3) == 0x100_0000;
    assert Pow256(4) == 0x1_0000_0000;
    assert Pow256(6) == 0x1_0000_0000_0000;
  }

  /** The two-byte and four-byte readings the C code spells out with shifts. */
  lemma ShiftForms(a: Byte, b: Byte, c: Byte, d: Byte)
    ensures FromBigEndian([a, b]) == 0x100 * a + b
    ensures FromBigEndian([a, b, c, d]) == 0x100_0000 * a + 0x1_0000 * b + 0x100 * c + d
  {
    assert [a, b, c, d][..3] == [a, b, c] && [a, b, c][..2] == [a, b] && [a, b][..1] == [a] && [a][..0] == [];
    assert FromBigEndian([a]) == a;
    assert FromBigEndian([a, b]) == 0x100 * a + b;
    assert FromBigEndian([a, b, c]) == 0x1_0000 * a + 0x100 * b + c;
  }

  /** memcpy(buf + at, data, |data|). */
  method CopyInto(buf: array<Byte>, at: nat, data: seq<Byte>)
    requires at + |data| <= buf.Length
    modifies buf
    ensures buf[..] == old(buf[..at]) + data + old(buf[at + |data|..])
  {
    for i := 0 to |data|
      invariant buf[..] == old(buf[..at]) + data[..i] + old(buf[at + i..])
    {
      buf[at + i] := data[i];
    }
    assert data[..|data|] == data;
  }
}
