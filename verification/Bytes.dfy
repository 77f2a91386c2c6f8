/** Machine integers as bounded values, and the little-endian codec shared by the wire protocol and the log format. */
module Bytes {
  type Byte = b: int | 0 <= b < 0x100
  type Word16 = w: int | 0 <= w < 0x1_0000
  type Word32 = w: int | 0 <= w < 0x1_0000_0000
  type Word64 = w: int | 0 <= w < 0x1_0000_0000_0000_0000

  const WORD64_MAX := 0xffff_ffff_ffff_ffff

  datatype Option<+T> = None | Some(value: T)

  /** The number a little-endian byte string stands for. */
  function FromLe(s: seq<Byte>): nat {
    if s == [] then 0 else s[0] + 0x100 * FromLe(s[1..])
  }

  /** The low `width` bytes of `v`, least significant first. */
  function ToLe(v: nat, width: nat): (s: seq<Byte>)
    ensures |s| == width
  {
    if width == 0 then [] else [v % 0x100] + ToLe(v / 0x100, width - 1)
  }

  function Pow256(n: nat): (p: nat)
    ensures p > 0
  {
    if n == 0 then 1 else 0x100 * Pow256(n - 1)
  }

  lemma Pow256Values()
    ensures Pow256(1) == 0x100 && Pow256(2) == 0x1_0000
    ensures Pow256(4) == 0x1_0000_0000
    ensures Pow256(8) == 0x1_0000_0000_0000_0000
  {
    assert Pow256(3) == 0x100_0000;
    assert Pow256(4) == 0x1_0000_0000;
    assert Pow256(5) == 0x100_0000_0000;
    assert Pow256(6) == 0x1_0000_0000_0000;
    assert Pow256(7) == 0x100_0000_0000_0000;
  }

  lemma {:induction false} DecodeEncodeLe(v: nat, width: nat)
    requires v < Pow256(width)
    ensures FromLe(ToLe(v, width)) == v
  {
    if width > 0 {
      assert ToLe(v, width)[1..] == ToLe(v / 0x100, width - 1);
      DecodeEncodeLe(v / 0x100, width - 1);
    }
  }

  lemma {:induction false} EncodeDecodeLe(s: seq<Byte>)
    ensures FromLe(s) < Pow256(|s|)
    ensures ToLe(FromLe(s), |s|) == s
  {
    if s != [] {
      EncodeDecodeLe(s[1..]);
      assert FromLe(s) / 0x100 == FromLe(s[1..]) && FromLe(s) % 0x100 == s[0];
      assert [s[0]] + s[1..] == s;
    }
  }

  /** memcpy into an array: the bytes land at `offset` and nothing else moves. */
  method Store(destination: array<Byte>, offset: nat, bytes: seq<Byte>)
    requires offset + |bytes| <= destination.Length
    modifies destination
    ensures destination[..] == old(destination[..offset]) + bytes + old(destination[offset + |bytes|..])
  {
    forall i | 0 <= i < |bytes| {
      destination[offset + i] := bytes[i];
    }
  }
}
