/** Fixed-width unsigned integers (`u8` is a byte) and their little-endian byte encoding.

    Rust's `u32`, `u64` and `u128` are modelled as subranges of `int`; every
    wrapping operation of the source is written out with an explicit `%`.
    `LeBytes(x, n)` is what `x.to_le_bytes()` produces for an `n`-byte integer
    (what `core::hash::Hash` writes into a hasher on a little-endian target),
    and `FromLe` is its inverse. */
module Uint {

  const TwoTo32: int := 0x1_0000_0000
  const TwoTo64: int := 0x1_0000_0000_0000_0000
  const TwoTo128: int := 0x1_0000_0000_0000_0000_0000_0000_0000_0000

  newtype u8 = x: int | 0 <= x < 0x100
  newtype u32 = x: int | 0 <= x < 0x1_0000_0000
  newtype u64 = x: int | 0 <= x < 0x1_0000_0000_0000_0000
  newtype u128 = x: int | 0 <= x < 0x1_0000_0000_0000_0000_0000_0000_0000_0000

  /** `x.wrapping_add(1)` on a `u32`. */
  function WrappingInc(x: u32): (r: u32)
    ensures r as int == (x as int + 1) % TwoTo32
    ensures x as int < TwoTo32 - 1 ==> r as int == x as int + 1
    ensures x as int == TwoTo32 - 1 ==> r == 0
  {
    if x == 0xFFFF_FFFF then 0 else x + 1
  }

  /** 256 to the power `n`: the number of values an `n`-byte integer can hold. */
  function Pow256(n: nat): (r: nat)
    ensures r >= 1
  {
    if n == 0 then 1 else 256 * Pow256(n - 1)
  }

  lemma Pow256Widths()
    ensures Pow256(4) == TwoTo32 && Pow256(8) == TwoTo64 && Pow256(16) == TwoTo128
  {
    assert Pow256(4) == 0x1_0000_0000;
    assert Pow256(8) == 0x1_0000_0000 * Pow256(4);
    assert Pow256(16) == 0x1_0000_0000_0000_0000 * Pow256(8);
  }

  /** The `n` low-order bytes of `x`, least significant first. */
  function LeBytes(x: nat, n: nat): (r: seq<u8>)
    ensures |r| == n
  {
    if n == 0 then [] else [(x % 256) as u8] + LeBytes(x / 256, n - 1)
  }

  /** The number whose little-endian bytes are `s`. */
  function FromLe(s: seq<u8>): (r: nat)
    ensures r < Pow256(|s|)
  {
    if |s| == 0 then 0
    else
      var rest := FromLe(s[1..]);
      assert rest <= Pow256(|s| - 1) - 1;
      assert 256 * rest <= 256 * Pow256(|s| - 1) - 256;
      s[0] as int + 256 * rest
  }

  /** Decoding an encoding gives back the number, whenever it fits in `n` bytes. */
  lemma {:induction false} FromLeLeBytes(x: nat, n: nat)
    requires x < Pow256(n)
    ensures FromLe(LeBytes(x, n)) == x
  {
    if n > 0 {
      var s := LeBytes(x, n);
      assert s[1..] == LeBytes(x / 256, n - 1);
      FromLeLeBytes(x / 256, n - 1);
    }
  }

  /** Every byte string is the encoding of its own decoding. */
  lemma {:induction false} LeBytesFromLe(s: seq<u8>)
    ensures LeBytes(FromLe(s), |s|) == s
  {
    if |s| > 0 {
      var rest := FromLe(s[1..]);
      DivModByte(s[0] as int, rest);
      LeBytesFromLe(s[1..]);
      assert LeBytes(FromLe(s), |s|) == [s[0]] + LeBytes(rest, |s| - 1);
      assert s == [s[0]] + s[1..];
    }
  }

  lemma DivModByte(b: int, q: nat)
    requires 0 <= b < 256
    ensures (b + 256 * q) % 256 == b && (b + 256 * q) / 256 == q
  {}

  /** Two numbers that fit in `n` bytes have the same encoding only if they are equal. */
  lemma LeBytesInjective(x: nat, y: nat, n: nat)
    requires x < Pow256(n) && y < Pow256(n)
    ensures LeBytes(x, n) == LeBytes(y, n) <==> x == y
  {
    if LeBytes(x, n) == LeBytes(y, n) {
      FromLeLeBytes(x, n);
      FromLeLeBytes(y, n);
    }
  }

  /** Bitwise exclusive or of two naturals, one bit at a time from the least
      significant (Rust's `^` on unsigned integers). */
  function Xor(a: nat, b: nat): nat {
    if a == 0 then b
    else if b == 0 then a
    else (a + b) % 2 + 2 * Xor(a / 2, b / 2)
  }

  /** `x.wrapping_mul(y)` on `u128`, as `x` wrapping additions of `y`. */
  function WrappingMul128(x: nat, y: nat): u128 {
    if x == 0 then 0 else ((y + WrappingMul128(x - 1, y) as int) % TwoTo128) as u128
  }

  /** The repeated addition is the product modulo 2^128. */
  lemma {:induction false} WrappingMul128IsProduct(x: nat, y: nat)
    ensures WrappingMul128(x, y) as int == (x * y) % TwoTo128
  {
    if x > 0 {
      WrappingMul128IsProduct(x - 1, y);
      var p := (x - 1) * y;
      assert x * y == y + p;
      ModOfSum(y, p);
    }
  }

  lemma ModOfSum(a: nat, b: nat)
    ensures (a + b % TwoTo128) % TwoTo128 == (a + b) % TwoTo128
  {
    var q := b / TwoTo128;
    assert b == q * TwoTo128 + b % TwoTo128;
  }

  /** Bit `i` of `n`, counting from the least significant. */
  function Bit(n: nat, i: nat): (r: nat)
    ensures r < 2
    decreases i
  {
    if i == 0 then n % 2 else Bit(n / 2, i - 1)
  }

  lemma BitOfZero(i: nat)
    ensures Bit(0, i) == 0
  {}

  /** Every bit of `Xor(a, b)` is the exclusive or of the bits of `a` and `b`. */
  lemma {:induction false} XorBits(a: nat, b: nat, i: nat)
    ensures Bit(Xor(a, b), i) == (Bit(a, i) + Bit(b, i)) % 2
    decreases i
  {
    BitOfZero(i);
    if a != 0 && b != 0 {
      var c, x := (a + b) % 2, Xor(a / 2, b / 2);
      assert Xor(a, b) == c + 2 * x;
      LowBitSplit(c, x);
      if i == 0 {
        ParityOfSum(a, b);
      } else {
        XorBits(a / 2, b / 2, i - 1);
      }
    }
  }

  lemma LowBitSplit(c: nat, x: nat)
    requires c < 2
    ensures (c + 2 * x) % 2 == c && (c + 2 * x) / 2 == x
  {}

  lemma ParityOfSum(a: nat, b: nat)
    ensures (a + b) % 2 == (a % 2 + b % 2) % 2
  {
    assert a == 2 * (a / 2) + a % 2;
    assert b == 2 * (b / 2) + b % 2;
  }
}
