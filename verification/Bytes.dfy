/** Bytes, machine integers and their big-endian encoding. */
module Bytes {
  newtype u8 = x: int | 0 <= x < 0x100
  type bytes = seq<u8>

  type u16 = x: int | 0 <= x < 0x1_0000
  type u32 = x: int | 0 <= x < 0x1_0000_0000
  type u64 = x: int | 0 <= x < 0x1_0000_0000_0000_0000

  const U16_MAX: int := 0xFFFF
  const U32_MAX: int := 0xFFFF_FFFF
  const U64_MAX: int := 0xFFFF_FFFF_FFFF_FFFF

  type Bytes4 = s: bytes | |s| == 4 witness seq(4, _ => 0)
  type Bytes32 = s: bytes | |s| == 32 witness seq(32, _ => 0)

  /** Rust's `n as u32` on a 64-bit `usize`: the value is truncated to its low 32 bits. */
  function AsU32(n: nat): u32 {
    n % 0x1_0000_0000
  }

  function Pow256(n: nat): (r: nat)
    ensures r >= 1
  {
    if n == 0 then 1 else 256 * Pow256(n - 1)
  }

  /** The low `width` bytes of `v`, most significant first. */
  function ToBE(v: nat, width: nat): (s: bytes)
    ensures |s| == width
  {
    if width == 0 then [] else ToBE(v / 256, width - 1) + [(v % 256) as u8]
  }

  function FromBE(s: bytes): nat {
    if |s| == 0 then 0 else FromBE(s[..|s| - 1]) * 256 + s[|s| - 1] as int
  }

  lemma {:induction false} FromToBE(v: nat, width: nat)
    requires v < Pow256(width)
    ensures FromBE(ToBE(v, width)) == v
  {
    if width > 0 {
      FromToBE(v / 256, width - 1);
      var s := ToBE(v, width);
      assert s[..|s| - 1] == ToBE(v / 256, width - 1);
    }
  }

  lemma {:induction false} ToFromBE(s: bytes)
    ensures FromBE(s) < Pow256(|s|)
    ensures ToBE(FromBE(s), |s|) == s
  {
    if |s| > 0 {
      ToFromBE(s[..|s| - 1]);
      assert s == s[..|s| - 1] + [s[|s| - 1]];
    }
  }

  lemma Pow256Values()
    ensures Pow256(2) == 0x1_0000
    ensures Pow256(4) == 0x1_0000_0000
    ensures Pow256(5) == 0x100_0000_0000
    ensures Pow256(8) == 0x1_0000_0000_0000_0000
  {
    assert Pow256(3) == 0x100_0000;
    assert Pow256(6) == 0x1_0000_0000_0000;
    assert Pow256(7) == 0x100_0000_0000_0000;
  }

  /** Big-endian: bytes in front weigh 256 to the number of bytes behind them. */
  lemma {:induction false} FromBEConcat(a: bytes, b: bytes)
    ensures FromBE(a + b) == FromBE(a) * Pow256(|b|) + FromBE(b)
    decreases |b|
  {
    if |b| == 0 {
      assert a + b == a;
    } else {
      var n := |b| - 1;
      assert (a + b)[..|a| + n] == a + b[..n];
      FromBEConcat(a, b[..n]);
      assert FromBE(a) * Pow256(n) * 256 == FromBE(a) * (256 * Pow256(n));
    }
  }

  /** A big-endian field of a fixed width determines its value and what follows it. */
  lemma BEUnambiguous(v1: nat, r1: bytes, v2: nat, r2: bytes, width: nat)
    requires v1 < Pow256(width) && v2 < Pow256(width)
    requires ToBE(v1, width) + r1 == ToBE(v2, width) + r2
    ensures v1 == v2 && r1 == r2
  {
    CancelPrefix(ToBE(v1, width), r1, ToBE(v2, width), r2);
    FromToBE(v1, width);
    FromToBE(v2, width);
  }

  lemma CancelPrefix<T>(a: seq<T>, b: seq<T>, c: seq<T>, d: seq<T>)
    requires a + b == c + d && |a| == |c|
    ensures a == c && b == d
  {
    assert a == (a + b)[..|a|] && c == (c + d)[..|c|];
    assert b == (a + b)[|a|..] && d == (c + d)[|c|..];
  }

  lemma SplitConcat<T>(a: seq<T>, b: seq<T>)
    ensures (a + b)[..|a|] == a && (a + b)[|a|..] == b
  {
  }
}
