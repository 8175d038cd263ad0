/** Keccak-f[1600] on 25 lanes, as a function of the state: the form that the
    in-place C code of keccak_miner.c is proved to compute. */
module KeccakLanes {
  import opened Words

  type LaneState = s: seq<Lane> | |s| == 25 witness seq(25, _ => ZERO)

  // ---------- the tables of the C code, as functions of the index ----------

  function RHO(i: nat): (o: nat)
    requires i < 24
    ensures 0 < o < 64
  {
    [1, 3, 6, 10, 15, 21, 28, 36, 45, 55, 2, 14,
     27, 41, 56, 8, 25, 43, 62, 18, 39, 61, 20, 44][i]
  }

  function PI(i: nat): (j: nat)
    requires i < 24
    ensures 0 < j < 25
  {
    [10, 7, 11, 17, 18, 3, 5, 16, 8, 21, 24, 4,
     15, 23, 19, 13, 12, 2, 20, 14, 22, 9, 6, 1][i]
  }

  function RC(r: nat): nat
    requires r < 24
  {
    [0x0000000000000001, 0x0000000000008082, 0x800000000000808a,
     0x8000000080008000, 0x000000000000808b, 0x0000000080000001,
     0x8000000080008081, 0x8000000000008009, 0x000000000000008a,
     0x0000000000000088, 0x0000000080008009, 0x000000008000000a,
     0x000000008000808b, 0x800000000000008b, 0x8000000000008089,
     0x8000000000008003, 0x8000000000008002, 0x8000000000000080,
     0x000000000000800a, 0x800000008000000a, 0x8000000080008081,
     0x8000000000008080, 0x0000000080000001, 0x8000000080008008][r]
  }

  // The inverse of PI; lane 0 is never moved.
  function StepOf(j: nat): (i: nat)
    requires 0 < j < 25
    ensures i < 24
  {
    [23, 17, 5, 11, 6, 22, 1, 8, 21, 0, 2, 16, 15, 19, 12, 7, 3, 4, 14, 18, 9, 20, 13, 10][j - 1]
  }

  lemma StepOfPi(i: nat)
    requires i < 24
    ensures StepOf(PI(i)) == i
  {
  }

  lemma PiOfStep(j: nat)
    requires 0 < j < 25
    ensures PI(StepOf(j)) == j
  {
  }

  // ---------- the steps ----------

  function ColumnParity(s: LaneState, x: nat): Lane
    requires x < 5
  {
    Xor64(Xor64(Xor64(Xor64(s[x], s[x + 5]), s[x + 10]), s[x + 15]), s[x + 20])
  }

  function ThetaMask(s: LaneState, x: nat): Lane
    requires x < 5
  {
    Xor64(ColumnParity(s, (x + 4) % 5), Rol64(ColumnParity(s, (x + 1) % 5), 1))
  }

  function Theta(s: LaneState): LaneState {
    seq(25, j requires 0 <= j < 25 => Xor64(s[j], ThetaMask(s, j % 5)))
  }

  // The lane that step i of the cycle moves: the one displaced at step i - 1.
  function Source(i: nat): (j: nat)
    requires i < 24
    ensures 0 < j < 25
  {
    if i == 0 then 1 else PI(i - 1)
  }

  // What step i of the cycle stores into lane PI(i).
  function Moved(s: LaneState, i: nat): Lane
    requires i < 24
  {
    Rol64(s[Source(i)], RHO(i))
  }

  function RhoPi(s: LaneState): LaneState {
    seq(25, j requires 0 <= j < 25 => if j == 0 then s[0] else Moved(s, StepOf(j)))
  }

  lemma RowArithmetic(r: nat, x: nat)
    requires r % 5 == 0 && x < 5
    ensures (r + x) / 5 * 5 == r && (r + x + 1) % 5 == (x + 1) % 5 && (r + x + 2) % 5 == (x + 2) % 5
  {
    var y := r / 5;
    assert r + x == 5 * y + x;
  }

  function ChiLane(s: LaneState, j: nat): Lane
    requires j < 25
  {
    var row := j / 5 * 5;
    Xor64(s[j], And64(Not64(s[row + (j + 1) % 5]), s[row + (j + 2) % 5]))
  }

  function Chi(s: LaneState): LaneState {
    seq(25, j requires 0 <= j < 25 => ChiLane(s, j))
  }

  function Iota(s: LaneState, r: nat): LaneState
    requires r < 24
  {
    s[0 := Xor64(s[0], LaneOf(RC(r)))]
  }

  function Round(s: LaneState, r: nat): LaneState
    requires r < 24
  {
    Iota(Chi(RhoPi(Theta(s))), r)
  }

  function Rounds(s: LaneState, n: nat): LaneState
    requires n <= 24
  {
    if n == 0 then s else Round(Rounds(s, n - 1), n - 1)
  }

  function KeccakF(s: LaneState): LaneState {
    Rounds(s, 24)
  }
}
