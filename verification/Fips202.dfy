/** KECCAK as FIPS 202 defines it, on bit strings.

    A state is the 1600-bit string S of section 3.1; its array form is read
    through A(S, x, y, z).  The names of functions and variables are those of
    the standard, and so are the section numbers in the comments. */
module Fips202 {
  import opened Words

  type Bits = seq<bool>
  type State = s: Bits | |s| == 1600 witness seq(1600, _ => false)

  // ---------- 3.1: the state array ----------

  // Section 3.1.2: A[x,y,z] = S[w(5y + x) + z], with w = 64.
  function A(S: State, x: nat, y: nat, z: nat): bool
    requires x < 5 && y < 5 && z < 64
  {
    S[64 * (5 * y + x) + z]
  }

  // Section 3.1.3: the coordinates of the k-th bit of the string.
  function X(k: nat): (x: nat)
    ensures x < 5
  {
    k / 64 % 5
  }

  function Y(k: nat): (y: nat)
    requires k < 1600
    ensures y < 5
  {
    k / 320
  }

  function Z(k: nat): (z: nat)
    ensures z < 64
  {
    k % 64
  }

  // ---------- 3.2.1: theta ----------

  function ColumnParity(S: State, x: nat, z: nat): bool
    requires x < 5 && z < 64
  {
    Xor(Xor(Xor(Xor(A(S, x, 0, z), A(S, x, 1, z)), A(S, x, 2, z)), A(S, x, 3, z)), A(S, x, 4, z))
  }

  function ThetaBit(S: State, x: nat, y: nat, z: nat): bool
    requires x < 5 && y < 5 && z < 64
  {
    var D := Xor(ColumnParity(S, (x - 1) % 5, z), ColumnParity(S, (x + 1) % 5, (z - 1) % 64));
    Xor(A(S, x, y, z), D)
  }

  function Theta(S: State): State {
    seq(1600, k requires 0 <= k < 1600 => ThetaBit(S, X(k), Y(k), Z(k)))
  }

  // ---------- 3.2.2: rho ----------

  // The pair (x, y) at the start of iteration t of step 3 of Algorithm 2.
  function Walk(t: nat): (p: (nat, nat))
    ensures p.0 < 5 && p.1 < 5
  {
    if t == 0 then (1, 0) else
      var (x, y) := Walk(t - 1);
      (y, (2 * x + 3 * y) % 5)
  }

  // A'[x,y,z] after the first t iterations of step 3; lane (0, 0) is copied by step 1.
  function RhoBit(S: State, t: nat, x: nat, y: nat, z: nat): bool
    requires x < 5 && y < 5 && z < 64
  {
    if t == 0 then A(S, x, y, z)
    else if Walk(t - 1) == (x, y) then A(S, x, y, (z - t * (t + 1) / 2) % 64)
    else RhoBit(S, t - 1, x, y, z)
  }

  function Rho(S: State): State {
    seq(1600, k requires 0 <= k < 1600 => RhoBit(S, 24, X(k), Y(k), Z(k)))
  }

  // ---------- 3.2.3 and 3.2.4: pi and chi ----------

  function Pi(S: State): State {
    seq(1600, k requires 0 <= k < 1600 => A(S, (X(k) + 3 * Y(k)) % 5, X(k), Z(k)))
  }

  function ChiBit(S: State, x: nat, y: nat, z: nat): bool
    requires x < 5 && y < 5 && z < 64
  {
    Xor(A(S, x, y, z), Xor(A(S, (x + 1) % 5, y, z), true) && A(S, (x + 2) % 5, y, z))
  }

  function Chi(S: State): State {
    seq(1600, k requires 0 <= k < 1600 => ChiBit(S, X(k), Y(k), Z(k)))
  }

  // ---------- 3.2.5: iota ----------

  // The eight-bit register R of Algorithm 5, R[0] first.
  datatype Register = Register(r0: bool, r1: bool, r2: bool, r3: bool, r4: bool, r5: bool, r6: bool, r7: bool)

  // One pass through step 3: R = 0 || R; fold R[8] into R[0], R[4], R[5], R[6]; truncate.
  function Clock(R: Register): Register {
    Register(R.r7, R.r0, R.r1, R.r2, Xor(R.r3, R.r7), Xor(R.r4, R.r7), Xor(R.r5, R.r7), R.r6)
  }

  function Clocked(i: nat): Register {
    if i == 0 then Register(true, false, false, false, false, false, false, false) else Clock(Clocked(i - 1))
  }

  // Algorithm 5.
  function rc(t: nat): bool {
    if t % 255 == 0 then true else Clocked(t % 255).r0
  }

  // Algorithm 6, steps 2 and 3: RC[2^j - 1] = rc(j + 7 ir) for j from 0 to 6, all other bits 0.
  function RoundConstantBit(ir: nat, z: nat): bool {
    if z == 0 then rc(7 * ir)
    else if z == 1 then rc(1 + 7 * ir)
    else if z == 3 then rc(2 + 7 * ir)
    else if z == 7 then rc(3 + 7 * ir)
    else if z == 15 then rc(4 + 7 * ir)
    else if z == 31 then rc(5 + 7 * ir)
    else if z == 63 then rc(6 + 7 * ir)
    else false
  }

  function Iota(S: State, ir: nat): State {
    seq(1600, k requires 0 <= k < 1600 =>
      if X(k) == 0 && Y(k) == 0 then Xor(S[k], RoundConstantBit(ir, Z(k))) else S[k])
  }

  // ---------- 3.3 and 3.4: KECCAK-f[1600] = KECCAK-p[1600, 24] ----------

  function Rnd(S: State, ir: nat): State {
    Iota(Chi(Pi(Rho(Theta(S)))), ir)
  }

  // The first n rounds, with round indices 0 to n - 1.
  function Rounds(S: State, n: nat): State {
    if n == 0 then S else Rnd(Rounds(S, n - 1), n - 1)
  }

  function KeccakF1600(S: State): State {
    Rounds(S, 24)
  }

  // ---------- 5.1, 4 and 5.2: padding, sponge, KECCAK[c] ----------

  function Zeros(n: nat): (s: Bits)
    ensures |s| == n
  {
    seq(n, _ => false)
  }

  // Section 5.1: pad10*1(x, m).
  function Pad101(x: nat, m: nat): (s: Bits)
    requires x > 0
    ensures |s| >= 2
  {
    var j := (-(m as int) - 2) % x;
    [true] + Zeros(j) + [true]
  }

  function XorBits(s: Bits, t: Bits): (u: Bits)
    requires |s| == |t|
    ensures |u| == |s|
  {
    seq(|s|, i requires 0 <= i < |s| => Xor(s[i], t[i]))
  }

  // Section 4, steps 2 to 6: absorb the r-bit strings of P, one application of f each.
  function Absorb(S: State, P: Bits, r: nat): State
    requires 0 < r < 1600
    decreases |P|
  {
    if |P| < r then S
    else Absorb(KeccakF1600(XorBits(S, P[..r] + Zeros(1600 - r))), P[r..], r)
  }

  // Section 4, steps 7 to 10.
  function Squeeze(S: State, out: Bits, r: nat, d: nat): (s: Bits)
    requires 0 < r < 1600
    ensures |s| == d
    decreases d - |out|
  {
    var more := out + S[..r];
    if d <= |more| then more[..d] else Squeeze(KeccakF1600(S), more, r, d)
  }

  function Sponge(N: Bits, r: nat, d: nat): (s: Bits)
    requires 0 < r < 1600
    ensures |s| == d
  {
    Squeeze(Absorb(Zeros(1600), N + Pad101(r, |N|), r), [], r, d)
  }

  // Section 5.2: KECCAK[c](N, d), with r = 1600 - c.
  function Keccak(c: nat, N: Bits, d: nat): (s: Bits)
    requires 0 < c < 1600
    ensures |s| == d
  {
    Sponge(N, 1600 - c, d)
  }

  // ---------- Appendix B.1: byte strings as bit strings ----------

  function BytesToBits(m: seq<byte>): (s: Bits)
    ensures |s| == 8 * |m|
  {
    if m == [] then [] else ByteBits(m[0]) + BytesToBits(m[1..])
  }

  function BitsToBytes(s: Bits): (m: seq<byte>)
    requires |s| % 8 == 0
    ensures 8 * |m| == |s|
  {
    if s == [] then [] else [ByteOfBits(s[..8])] + BitsToBytes(s[8..])
  }

  // Keccak-256 on byte strings of any length: KECCAK[512](M, 256) without the SHA-3 suffix of section 6.1.
  function Keccak256(m: seq<byte>): (digest: seq<byte>)
    ensures |digest| == 32
  {
    BitsToBytes(Keccak(512, BytesToBits(m), 256))
  }
}
