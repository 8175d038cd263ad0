/** Machine words as the C code uses them.

    A `uint64_t` that is only ever combined bit by bit (a Keccak lane) is a
    sequence of 64 bits, least significant bit first; the operators below are
    C's `^ & ~ | << >>` on it.  A `uint64_t` that is only ever added to (a nonce, a
    counter) is an integer reduced modulo 2^64. */
module Words {
  type Lane = s: seq<bool> | |s| == 64 witness seq(64, _ => false)

  newtype byte = x: int | 0 <= x < 256

  const U64_MODULUS: nat := 0x1_0000_0000_0000_0000

  const ZERO: Lane := seq(64, _ => false)

  function Xor(a: bool, b: bool): bool {
    a != b
  }

  function Xor64(a: Lane, b: Lane): Lane {
    seq(64, z requires 0 <= z < 64 => Xor(a[z], b[z]))
  }

  function And64(a: Lane, b: Lane): Lane {
    seq(64, z requires 0 <= z < 64 => a[z] && b[z])
  }

  function Or64(a: Lane, b: Lane): Lane {
    seq(64, z requires 0 <= z < 64 => a[z] || b[z])
  }

  function Not64(a: Lane): Lane {
    seq(64, z requires 0 <= z < 64 => !a[z])
  }

  // Shifting a uint64_t by 64 or more is undefined in C.
  function Shl64(a: Lane, o: nat): Lane
    requires o < 64
  {
    seq(64, z requires 0 <= z < 64 => z >= o && a[z - o])
  }

  function Shr64(a: Lane, o: nat): Lane
    requires o < 64
  {
    seq(64, z requires 0 <= z < 64 => z + o < 64 && a[z + o])
  }

  // The ROL64 macro.  Its second shift is by 64 - o, so o == 0 would be undefined.
  function Rol64(a: Lane, o: nat): (r: Lane)
    requires 0 < o < 64
    ensures forall z | 0 <= z < 64 :: r[z] == a[(z - o) % 64]
  {
    Or64(Shl64(a, o), Shr64(a, 64 - o))
  }

  // The lowest w bits of n, least significant first.
  function NatBits(n: nat, w: nat): (s: seq<bool>)
    ensures |s| == w
  {
    if w == 0 then [] else [n % 2 == 1] + NatBits(n / 2, w - 1)
  }

  function BitsValue(s: seq<bool>): nat {
    if s == [] then 0 else (if s[0] then 1 else 0) + 2 * BitsValue(s[1..])
  }

  function Pow2(n: nat): (p: nat)
    ensures p > 0
  {
    if n == 0 then 1 else 2 * Pow2(n - 1)
  }

  // The lane holding the number n (a C literal such as 0x8082ULL).
  function LaneOf(n: nat): Lane {
    NatBits(n, 64)
  }

  function ByteBits(b: byte): (s: seq<bool>)
    ensures |s| == 8
  {
    NatBits(b as nat, 8)
  }

  function ByteOfBits(s: seq<bool>): byte
    requires |s| == 8
  {
    BitsValueBound(s);
    assert Pow2(8) == 256;
    BitsValue(s) as byte
  }

  lemma {:induction false} BitsValueBound(s: seq<bool>)
    ensures BitsValue(s) < Pow2(|s|)
  {
    if s != [] {
      BitsValueBound(s[1..]);
    }
  }

  lemma {:induction false} BitsOfValue(s: seq<bool>)
    ensures NatBits(BitsValue(s), |s|) == s
  {
    if s != [] {
      BitsOfValue(s[1..]);
    }
  }

  lemma {:induction false} ValueOfBits(n: nat, w: nat)
    requires n < Pow2(w)
    ensures BitsValue(NatBits(n, w)) == n
  {
    if w > 0 {
      ValueOfBits(n / 2, w - 1);
      assert NatBits(n, w)[1..] == NatBits(n / 2, w - 1);
    }
  }

  lemma ByteOfByteBits(b: byte)
    ensures ByteOfBits(ByteBits(b)) == b
  {
    assert Pow2(8) == 256;
    ValueOfBits(b as nat, 8);
  }

  lemma ByteBitsOfByte(s: seq<bool>)
    requires |s| == 8
    ensures ByteBits(ByteOfBits(s)) == s
  {
    BitsOfValue(s);
  }
}
