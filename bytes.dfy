/** Byte strings and the integer/byte conversions the pipeline relies on:
    big-endian packing (`int.to_bytes(..., 'big')`, `struct.pack('>I', ...)`),
    bytewise XOR, and Python's clamping slice `s[i:j]`. */
module Bytes {

  /** A Python `bytes` element, or a `uint8` pixel channel value. */
  newtype byte = x: int | 0 <= x < 256

  type bytes = seq<byte>

  /** 2^32: the first value `struct.pack('>I', ...)` rejects. */
  const U32_LIMIT: nat := 0x1_0000_0000

  function Pow2(n: nat): (r: nat)
    ensures r >= 1
  {
    if n == 0 then 1 else 2 * Pow2(n - 1)
  }

  function Pow256(n: nat): (r: nat)
    ensures r >= 1
  {
    if n == 0 then 1 else 256 * Pow256(n - 1)
  }

  lemma {:induction false} Pow256IsPow2(n: nat)
    ensures Pow256(n) == Pow2(8 * n)
  {
    if n > 0 {
      Pow256IsPow2(n - 1);
      assert Pow2(8 * n) == 256 * Pow2(8 * (n - 1)) by {
        var m := 8 * (n - 1);
        assert Pow2(m + 8) == 2 * Pow2(m + 7);
        assert Pow2(m + 7) == 2 * Pow2(m + 6);
        assert Pow2(m + 6) == 2 * Pow2(m + 5);
        assert Pow2(m + 5) == 2 * Pow2(m + 4);
        assert Pow2(m + 4) == 2 * Pow2(m + 3);
        assert Pow2(m + 3) == 2 * Pow2(m + 2);
        assert Pow2(m + 2) == 2 * Pow2(m + 1);
        assert Pow2(m + 1) == 2 * Pow2(m);
      }
    }
  }

  lemma {:induction false} Pow2Monotone(a: nat, b: nat)
    requires a <= b
    ensures Pow2(a) <= Pow2(b)
  {
    if a < b {
      Pow2Monotone(a, b - 1);
    }
  }

  lemma Pow2Of32()
    ensures Pow2(32) == U32_LIMIT
  {
    Pow256IsPow2(4);
  }

  /** The unsigned integer a byte string denotes, most significant byte first. */
  function BytesValue(b: bytes): nat
  {
    if b == [] then 0 else 256 * BytesValue(b[..|b| - 1]) + b[|b| - 1] as nat
  }

  /** `v.to_bytes(n, 'big')` for a value that fits; for a larger value, the
      low `n` bytes of `v`. */
  function ToBytesBE(v: nat, n: nat): (r: bytes)
    ensures |r| == n
  {
    if n == 0 then [] else ToBytesBE(v / 256, n - 1) + [(v % 256) as byte]
  }

  lemma {:induction false} BytesValueBound(b: bytes)
    ensures BytesValue(b) < Pow256(|b|)
  {
    if b != [] {
      BytesValueBound(b[..|b| - 1]);
    }
  }

  /** Packing a value that fits into `n` bytes loses nothing. */
  lemma {:induction false} BytesValueOfToBytesBE(v: nat, n: nat)
    requires v < Pow256(n)
    ensures BytesValue(ToBytesBE(v, n)) == v
  {
    if n > 0 {
      var r := ToBytesBE(v, n);
      assert r[..n - 1] == ToBytesBE(v / 256, n - 1);
      BytesValueOfToBytesBE(v / 256, n - 1);
    }
  }

  /** Unpacking and re-packing at the same width gives the bytes back,
      leading zero bytes included. */
  lemma {:induction false} ToBytesBEOfBytesValue(b: bytes)
    ensures ToBytesBE(BytesValue(b), |b|) == b
  {
    if b != [] {
      var init := b[..|b| - 1];
      ToBytesBEOfBytesValue(init);
      var v := BytesValue(b);
      assert v / 256 == BytesValue(init) && v % 256 == b[|b| - 1] as nat;
      assert b == init + [b[|b| - 1]];
    }
  }

  /** `struct.pack('>I', v)`: four bytes, big-endian. */
  function PackU32BE(v: nat): (r: bytes)
    requires v < U32_LIMIT
    ensures |r| == 4
  {
    ToBytesBE(v, 4)
  }

  /** `struct.unpack('>I', b)[0]` for a 4-byte `b`. */
  function UnpackU32BE(b: bytes): (v: nat)
    requires |b| == 4
    ensures v < U32_LIMIT
  {
    BytesValueBound(b);
    BytesValue(b)
  }

  lemma UnpackPackU32(v: nat)
    requires v < U32_LIMIT
    ensures UnpackU32BE(PackU32BE(v)) == v
  {
    BytesValueOfToBytesBE(v, 4);
  }

  lemma PackUnpackU32(b: bytes)
    requires |b| == 4
    ensures PackU32BE(UnpackU32BE(b)) == b
  {
    ToBytesBEOfBytesValue(b);
  }

  /** The low `w` bits of `a ^ b`, one bit per step, least significant first. */
  function BitXor(a: nat, b: nat, w: nat): (r: nat)
    ensures r < Pow2(w)
  {
    if w == 0 then 0 else 2 * BitXor(a / 2, b / 2, w - 1) + (if a % 2 == b % 2 then 0 else 1)
  }

  /** XOR-ing twice with the same value gives back any value of `w` bits. */
  lemma {:induction false} BitXorInvolutive(a: nat, b: nat, w: nat)
    requires a < Pow2(w)
    ensures BitXor(BitXor(a, b, w), b, w) == a
  {
    if w > 0 {
      var c := BitXor(a / 2, b / 2, w - 1);
      var x := BitXor(a, b, w);
      assert x / 2 == c && x % 2 == (if a % 2 == b % 2 then 0 else 1);
      BitXorInvolutive(a / 2, b / 2, w - 1);
    }
  }

  /** Python's `a ^ b` on two byte values. */
  function XorByte(a: byte, b: byte): (r: byte)
  {
    Pow256IsPow2(1);
    BitXor(a as nat, b as nat, 8) as byte
  }

  lemma XorByteInvolutive(a: byte, b: byte)
    ensures XorByte(XorByte(a, b), b) == a
  {
    Pow256IsPow2(1);
    BitXorInvolutive(a as nat, b as nat, 8);
  }

  /** Python's `s[i:j]` for non-negative bounds: it clamps to the length
      instead of failing. */
  function Slice<T>(s: seq<T>, i: nat, j: nat): (r: seq<T>)
    ensures |s| >= j && i <= j ==> r == s[i..j]
    ensures i <= |s| < j ==> r == s[i..]
    ensures j <= i || |s| <= i ==> r == []
    ensures |r| <= |s|
  {
    var hi := if j <= |s| then j else |s|;
    var lo := if i <= hi then i else hi;
    s[lo..hi]
  }
}
