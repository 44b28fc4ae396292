/**
 * Little-endian integer serialisation (`int_to_bytes`, `bytes_to_int`) and the
 * byte-wise exclusive or of two 32-byte strings (`xor`).
 */
module ByteCodec {
  import opened Types

  function Pow256(k: nat): (r: nat)
    ensures r >= 1
  {
    if k == 0 then 1 else 256 * Pow256(k - 1)
  }

  /**
   * `int_to_bytes(n, length)`: the `length` least significant bytes of n, least
   * significant first. The source raises when n does not fit; every value it passes
   * is a uint64 that fits, and below Pow256(length) the two agree (IntToBytesRoundTrip).
   */
  function IntToBytes(n: nat, length: nat): (r: seq<byte>)
    ensures |r| == length
  {
    if length == 0 then [] else [(n % 256) as byte] + IntToBytes(n / 256, length - 1)
  }

  /** `bytes_to_int`: the little-endian value of a byte string. */
  function BytesToInt(s: seq<byte>): (r: nat)
    ensures r < Pow256(|s|)
  {
    if |s| == 0 then 0 else s[0] as nat + 256 * BytesToInt(s[1..])
  }

  /** Decoding an encoded integer that fits gives it back. */
  lemma {:induction false} IntToBytesRoundTrip(n: nat, length: nat)
    requires n < Pow256(length)
    ensures BytesToInt(IntToBytes(n, length)) == n
  {
    if length > 0 {
      var r := IntToBytes(n, length);
      assert r[1..] == IntToBytes(n / 256, length - 1);
      assert r[0] as nat == n % 256 by { ByteOfSmall(n % 256); }
      var p := Pow256(length - 1);
      assert n < 256 * p;
      assert n / 256 < p by { DivBelow(n, p); }
      IntToBytesRoundTrip(n / 256, length - 1);
      assert n == n % 256 + 256 * (n / 256);
    }
  }

  /** Encoding a decoded string gives it back. */
  lemma {:induction false} BytesToIntRoundTrip(s: seq<byte>)
    ensures IntToBytes(BytesToInt(s), |s|) == s
  {
    if |s| > 0 {
      var n := BytesToInt(s);
      var rest := BytesToInt(s[1..]);
      var b := s[0] as nat;
      assert n == b + 256 * rest;
      assert b < 256;
      DivModOfDigit(n, b, rest);
      assert (b as byte) == s[0];
      BytesToIntRoundTrip(s[1..]);
      assert IntToBytes(n, |s|) == [(n % 256) as byte] + IntToBytes(n / 256, |s| - 1);
    }
  }

  lemma ByteOfSmall(k: nat)
    requires k < 256
    ensures (k as byte) as nat == k
  {
  }

  lemma DivModOfDigit(n: nat, b: nat, rest: nat)
    requires b < 256 && n == b + 256 * rest
    ensures n % 256 == b && n / 256 == rest
  {
  }

  lemma DivBelow(n: nat, p: nat)
    requires n < 256 * p
    ensures n / 256 < p
  {
  }

  /** Exclusive or of the low `width` bits of x and y, bit by bit from the least significant. */
  function XorBits(x: nat, y: nat, width: nat): (r: nat)
    ensures r < Pow2(width)
  {
    if width == 0 then 0 else (x % 2 + y % 2) % 2 + 2 * XorBits(x / 2, y / 2, width - 1)
  }

  function Pow2(k: nat): (r: nat)
    ensures r >= 1
  {
    if k == 0 then 1 else 2 * Pow2(k - 1)
  }

  lemma {:induction false} XorBitsInvolution(x: nat, y: nat, width: nat)
    requires x < Pow2(width)
    ensures XorBits(XorBits(x, y, width), y, width) == x
  {
    if width > 0 {
      var z := XorBits(x, y, width);
      var rest := XorBits(x / 2, y / 2, width - 1);
      var low := (x % 2 + y % 2) % 2;
      assert z == low + 2 * rest;
      DivModOfBit(z, low, rest);
      assert x / 2 < Pow2(width - 1);
      XorBitsInvolution(x / 2, y / 2, width - 1);
      assert (low + y % 2) % 2 == x % 2;
    }
  }

  lemma DivModOfBit(n: nat, b: nat, rest: nat)
    requires b < 2 && n == b + 2 * rest
    ensures n % 2 == b && n / 2 == rest
  {
  }

  /** Exclusive or of two bytes. */
  function XorByte(x: byte, y: byte): byte {
    assert Pow2(8) == 256;
    XorBits(x as nat, y as nat, 8) as byte
  }

  lemma XorByteInvolution(x: byte, y: byte)
    ensures XorByte(XorByte(x, y), y) == x
  {
    assert Pow2(8) == 256;
    XorBitsInvolution(x as nat, y as nat, 8);
  }

  /** `xor`: the byte-wise exclusive or of two 32-byte strings. */
  function Xor(a: Bytes32, b: Bytes32): (r: Bytes32)
  {
    seq(32, i requires 0 <= i < 32 => XorByte(a[i], b[i]))
  }

  /** Mixing the same string in twice restores the original. */
  lemma XorInvolution(a: Bytes32, b: Bytes32)
    ensures Xor(Xor(a, b), b) == a
  {
    var r := Xor(Xor(a, b), b);
    forall i | 0 <= i < 32
      ensures r[i] == a[i]
    {
      XorByteInvolution(a[i], b[i]);
    }
  }
}
