/** The lane form of Keccak-f[1600] is the bit form of FIPS 202. */
module KeccakRefinement {
  import opened Words
  import F = Fips202
  import L = KeccakLanes
  import C = RoundConstants

  // The state string of section 3.1 that 25 lanes stand for: lane 5y + x holds A[x, y, 0..64).
  function Flatten(s: L.LaneState): F.State {
    seq(1600, k requires 0 <= k < 1600 => s[k / 64][k % 64])
  }

  // ---------- coordinates ----------

  function Index(x: nat, y: nat, z: nat): (k: nat)
    requires x < 5 && y < 5 && z < 64
    ensures k < 1600 && F.X(k) == x && F.Y(k) == y && F.Z(k) == z
  {
    64 * (5 * y + x) + z
  }

  lemma LaneArithmetic(x: nat, y: nat)
    requires x < 5 && y < 5
    ensures (5 * y + x) / 5 == y && (5 * y + x) % 5 == x
    ensures (5 * y + x + 1) % 5 == (x + 1) % 5 && (5 * y + x + 2) % 5 == (x + 2) % 5
    ensures (x - 1) % 5 == (x + 4) % 5
  {
  }

  lemma FlattenA(s: L.LaneState, x: nat, y: nat, z: nat)
    requires x < 5 && y < 5 && z < 64
    ensures F.A(Flatten(s), x, y, z) == s[5 * y + x][z]
  {
  }

  lemma Coordinates(k: nat)
    requires k < 1600
    ensures 64 * (5 * F.Y(k) + F.X(k)) + F.Z(k) == k
  {
    assert k / 320 == k / 64 / 5;
  }

  lemma SameArray(S: F.State, T: F.State)
    requires forall x: nat, y: nat, z: nat | x < 5 && y < 5 && z < 64 :: F.A(S, x, y, z) == F.A(T, x, y, z)
    ensures S == T
  {
    hide F.X, F.Y, F.Z;
    forall k: nat | k < 1600
      ensures S[k] == T[k]
    {
      Coordinates(k);
      assert F.A(S, F.X(k), F.Y(k), F.Z(k)) == F.A(T, F.X(k), F.Y(k), F.Z(k));
    }
  }

  // ---------- theta and chi ----------

  lemma ParityRefines(s: L.LaneState, x: nat, z: nat)
    requires x < 5 && z < 64
    ensures F.ColumnParity(Flatten(s), x, z) == L.ColumnParity(s, x)[z]
  {
    hide Flatten, F.A;
    FlattenA(s, x, 0, z);
    FlattenA(s, x, 1, z);
    FlattenA(s, x, 2, z);
    FlattenA(s, x, 3, z);
    FlattenA(s, x, 4, z);
  }

  lemma ThetaBitRefines(s: L.LaneState, x: nat, y: nat, z: nat)
    requires x < 5 && y < 5 && z < 64
    ensures F.ThetaBit(Flatten(s), x, y, z) == L.Theta(s)[5 * y + x][z]
  {
    hide Flatten, F.A, F.ColumnParity, L.ColumnParity, L.ThetaMask;
    FlattenA(s, x, y, z);
    LaneArithmetic(x, y);
    var before, after := (x + 4) % 5, (x + 1) % 5;
    ParityRefines(s, before, z);
    ParityRefines(s, after, (z - 1) % 64);
    ThetaMaskBit(s, x, z);
  }

  lemma ThetaMaskBit(s: L.LaneState, x: nat, z: nat)
    requires x < 5 && z < 64
    ensures L.ThetaMask(s, x)[z] ==
            Xor(L.ColumnParity(s, (x + 4) % 5)[z], L.ColumnParity(s, (x + 1) % 5)[(z - 1) % 64])
  {
    hide L.ColumnParity, Rol64;
  }

  lemma ThetaA(S: F.State, x: nat, y: nat, z: nat)
    requires x < 5 && y < 5 && z < 64
    ensures F.A(F.Theta(S), x, y, z) == F.ThetaBit(S, x, y, z)
  {
    hide F.ThetaBit, F.X, F.Y, F.Z;
    var k := Index(x, y, z);
  }

  lemma ThetaRefines(s: L.LaneState)
    ensures Flatten(L.Theta(s)) == F.Theta(Flatten(s))
  {
    hide F.ThetaBit, F.Theta, F.A, L.Theta, Flatten;
    forall x: nat, y: nat, z: nat | x < 5 && y < 5 && z < 64
      ensures F.A(Flatten(L.Theta(s)), x, y, z) == F.A(F.Theta(Flatten(s)), x, y, z)
    {
      FlattenA(L.Theta(s), x, y, z);
      ThetaBitRefines(s, x, y, z);
      ThetaA(Flatten(s), x, y, z);
    }
    SameArray(Flatten(L.Theta(s)), F.Theta(Flatten(s)));
  }

  lemma ChiBitRefines(s: L.LaneState, x: nat, y: nat, z: nat)
    requires x < 5 && y < 5 && z < 64
    ensures F.ChiBit(Flatten(s), x, y, z) == L.Chi(s)[5 * y + x][z]
  {
    var j := 5 * y + x;
    FlattenA(s, x, y, z);
    FlattenA(s, (x + 1) % 5, y, z);
    FlattenA(s, (x + 2) % 5, y, z);
    LaneArithmetic(x, y);
    assert L.Chi(s)[j] == L.ChiLane(s, j);
  }

  lemma ChiA(S: F.State, x: nat, y: nat, z: nat)
    requires x < 5 && y < 5 && z < 64
    ensures F.A(F.Chi(S), x, y, z) == F.ChiBit(S, x, y, z)
  {
    hide F.ChiBit, F.X, F.Y, F.Z;
    var k := Index(x, y, z);
  }

  lemma ChiRefines(s: L.LaneState)
    ensures Flatten(L.Chi(s)) == F.Chi(Flatten(s))
  {
    hide F.ChiBit, F.Chi, F.A, L.Chi, Flatten;
    forall x: nat, y: nat, z: nat | x < 5 && y < 5 && z < 64
      ensures F.A(Flatten(L.Chi(s)), x, y, z) == F.A(F.Chi(Flatten(s)), x, y, z)
    {
      FlattenA(L.Chi(s), x, y, z);
      ChiBitRefines(s, x, y, z);
      ChiA(Flatten(s), x, y, z);
    }
    SameArray(Flatten(L.Chi(s)), F.Chi(Flatten(s)));
  }

  // ---------- rho and pi ----------

  function LaneIndex(p: (nat, nat)): nat {
    5 * p.1 + p.0
  }

  // Where pi sends the lane at index j.
  function PiTarget(j: nat): nat {
    var x, y := j % 5, j / 5;
    5 * ((2 * x + 3 * y) % 5) + y
  }

  lemma PiIsOneCycle(i: nat)
    requires i < 24
    ensures L.PI(i) == PiTarget(L.Source(i))
  {
    hide PiTarget, L.PI, L.Source;
    if i < 8 {
      PiStartsSo(i);
    } else if i < 16 {
      PiGoesOnSo(i);
    } else {
      PiEndsSo(i);
    }
  }

  lemma PiStartsSo(i: nat)
    requires i < 8
    ensures L.PI(i) == PiTarget(L.Source(i))
  {
  }

  lemma PiGoesOnSo(i: nat)
    requires 8 <= i < 16
    ensures L.PI(i) == PiTarget(L.Source(i))
  {
  }

  lemma PiEndsSo(i: nat)
    requires 16 <= i < 24
    ensures L.PI(i) == PiTarget(L.Source(i))
  {
  }

  function Offset(t: nat): nat {
    (t + 1) * (t + 2) / 2
  }

  lemma RhoStep(i: nat)
    requires 0 < i < 24
    ensures L.RHO(i) == (L.RHO(i - 1) + i + 1) % 64
  {
  }

  lemma OffsetStep(t: nat)
    requires t > 0
    ensures Offset(t) == Offset(t - 1) + t + 1 && Offset(0) == 1
  {
    assert (t + 1) * (t + 2) == t * (t + 1) + 2 * (t + 1);
  }

  lemma {:induction false} RhoIsTriangular(i: nat)
    requires i < 24
    ensures L.RHO(i) == Offset(i) % 64
  {
    hide L.RHO, Offset;
    RhoStart();
    if i > 0 {
      RhoIsTriangular(i - 1);
      RhoStep(i);
      OffsetStep(i);
      ModAdd64(Offset(i - 1), i + 1);
    }
  }

  lemma RhoStart()
    ensures L.RHO(0) == 1 == Offset(0) % 64
  {
  }

  lemma ModAdd64(a: int, b: int)
    ensures (a % 64 + b) % 64 == (a + b) % 64
  {
  }

  lemma WalkFollowsPi(t: nat)
    ensures LaneIndex(F.Walk(t + 1)) == PiTarget(LaneIndex(F.Walk(t)))
  {
    var p := F.Walk(t);
    LaneArithmetic(p.0, p.1);
  }

  // The walk of Algorithm 2 visits the lanes in the order in which the code's cycle displaces them.
  lemma {:induction false} WalkIsTheCycle(i: nat)
    requires i < 24
    ensures LaneIndex(F.Walk(i)) == L.Source(i)
  {
    hide L.PI, PiTarget;
    if i > 0 {
      WalkIsTheCycle(i - 1);
      WalkFollowsPi(i - 1);
      PiIsOneCycle(i - 1);
    }
  }

  lemma SourcesAreDistinct(i: nat, k: nat)
    requires i < 24 && k < 24 && L.Source(i) == L.Source(k)
    ensures i == k
  {
    hide L.PI, L.StepOf;
    LastTarget();
    if i > 0 {
      L.StepOfPi(i - 1);
    }
    if k > 0 {
      L.StepOfPi(k - 1);
    }
  }

  lemma LastTarget()
    ensures L.StepOf(1) == 23
  {
  }

  // Algorithm 2 rotates the i-th lane of the walk by the i-th triangular offset, and no other lane.
  lemma {:induction false} RhoBitOnWalk(S: F.State, t: nat, i: nat, z: nat)
    requires i < t <= 24 && z < 64
    ensures var (x, y) := F.Walk(i); F.RhoBit(S, t, x, y, z) == F.A(S, x, y, (z - Offset(i)) % 64)
  {
    hide L.Source;
    if i < t - 1 {
      RhoBitOnWalk(S, t - 1, i, z);
      WalkIsTheCycle(i);
      WalkIsTheCycle(t - 1);
      if F.Walk(i) == F.Walk(t - 1) {
        SourcesAreDistinct(i, t - 1);
      }
    }
  }

  lemma {:induction false} RhoBitAtOrigin(S: F.State, t: nat, z: nat)
    requires t <= 24 && z < 64
    ensures F.RhoBit(S, t, 0, 0, z) == F.A(S, 0, 0, z)
  {
    hide L.Source;
    if t > 0 {
      RhoBitAtOrigin(S, t - 1, z);
      WalkIsTheCycle(t - 1);
    }
  }

  // Section 3.2.3 reads pi from its target: A'[x,y] comes from A[(x + 3y) mod 5, x].
  lemma TargetInverse(sx: nat, sy: nat, x: nat, y: nat)
    requires sx < 5 && sy < 5 && x < 5 && y < 5
    requires 5 * ((2 * sx + 3 * sy) % 5) + sy == 5 * y + x
    ensures sx == (x + 3 * y) % 5 && sy == x
  {
    var m, q := (2 * sx + 3 * sy) / 5, (2 * sx + 3 * sy) % 5;
    assert sy == x && q == y;
    assert x + 3 * y == sx + 5 * (sx + 2 * sy - 3 * m);
  }

  lemma WalkReaches(i: nat, x: nat, y: nat)
    requires i < 24 && x < 5 && y < 5 && L.PI(i) == 5 * y + x
    ensures F.Walk(i) == ((x + 3 * y) % 5, x)
  {
    hide L.PI, L.Source;
    WalkIsTheCycle(i);
    PiIsOneCycle(i);
    var (sx, sy) := F.Walk(i);
    LaneArithmetic(sx, sy);
    TargetInverse(sx, sy, x, y);
  }

  lemma RhoPiLane(s: L.LaneState, i: nat, z: nat)
    requires i < 24 && z < 64
    ensures LaneIndex(F.Walk(i)) < 25
    ensures L.Moved(s, i)[z] == s[LaneIndex(F.Walk(i))][(z - Offset(i)) % 64]
  {
    hide L.Source, L.RHO, Offset;
    WalkIsTheCycle(i);
    RhoIsTriangular(i);
    ModShift(z, Offset(i));
  }

  lemma ModShift(z: int, o: int)
    ensures (z - o) % 64 == (z - o % 64) % 64
  {
  }

  lemma RhoLane(s: L.LaneState, n: nat, i: nat, z: nat)
    requires i < n <= 24 && z < 64
    ensures LaneIndex(F.Walk(i)) < 25
    ensures var (x, y) := F.Walk(i);
            F.RhoBit(Flatten(s), n, x, y, z) == s[LaneIndex(F.Walk(i))][(z - Offset(i)) % 64]
  {
    hide Offset;
    var (x, y) := F.Walk(i);
    RhoBitOnWalk(Flatten(s), n, i, z);
    FlattenA(s, x, y, (z - Offset(i)) % 64);
  }

  lemma RhoPiBitRefines(s: L.LaneState, n: nat, x: nat, y: nat, z: nat)
    requires n == 24 && x < 5 && y < 5 && z < 64
    ensures F.RhoBit(Flatten(s), n, (x + 3 * y) % 5, x, z) == L.RhoPi(s)[5 * y + x][z]
  {
    hide L.StepOf, L.PI, L.Moved, Offset, LaneIndex, F.Walk;
    var j := 5 * y + x;
    if j == 0 {
      RhoBitAtOrigin(Flatten(s), n, z);
      FlattenA(s, 0, 0, z);
    } else {
      var i := L.StepOf(j);
      L.PiOfStep(j);
      RhoPiLane(s, i, z);
      RhoLane(s, n, i, z);
      WalkReaches(i, x, y);
    }
  }

  lemma RhoArray(S: F.State, x: nat, y: nat, z: nat)
    requires x < 5 && y < 5 && z < 64
    ensures F.A(F.Rho(S), x, y, z) == F.RhoBit(S, 24, x, y, z)
  {
    var k := Index(x, y, z);
  }

  lemma PiArray(S: F.State, x: nat, y: nat, z: nat)
    requires x < 5 && y < 5 && z < 64
    ensures F.A(F.Pi(S), x, y, z) == F.A(S, (x + 3 * y) % 5, x, z)
  {
    var k := Index(x, y, z);
  }

  lemma RhoPiRefines(s: L.LaneState)
    ensures Flatten(L.RhoPi(s)) == F.Pi(F.Rho(Flatten(s)))
  {
    var S := Flatten(s);
    forall x: nat, y: nat, z: nat | x < 5 && y < 5 && z < 64
      ensures F.A(Flatten(L.RhoPi(s)), x, y, z) == F.A(F.Pi(F.Rho(S)), x, y, z)
    {
      FlattenA(L.RhoPi(s), x, y, z);
      RhoPiBitRefines(s, 24, x, y, z);
      RhoArray(S, (x + 3 * y) % 5, x, z);
      PiArray(F.Rho(S), x, y, z);
    }
    SameArray(Flatten(L.RhoPi(s)), F.Pi(F.Rho(S)));
  }

  // ---------- iota, rounds and the permutation ----------

  lemma IotaRefines(s: L.LaneState, r: nat)
    requires r < 24
    ensures Flatten(L.Iota(s, r)) == F.Iota(Flatten(s), r)
  {
    forall x: nat, y: nat, z: nat | x < 5 && y < 5 && z < 64
      ensures F.A(Flatten(L.Iota(s, r)), x, y, z) == F.A(F.Iota(Flatten(s), r), x, y, z)
    {
      var k := Index(x, y, z);
      FlattenA(L.Iota(s, r), x, y, z);
      IotaBitRefines(s, r, x, y, z);
    }
    SameArray(Flatten(L.Iota(s, r)), F.Iota(Flatten(s), r));
  }

  lemma IotaBitRefines(s: L.LaneState, r: nat, x: nat, y: nat, z: nat)
    requires r < 24 && x < 5 && y < 5 && z < 64
    ensures L.Iota(s, r)[5 * y + x][z] == F.A(F.Iota(Flatten(s), r), x, y, z)
  {
    hide L.RC, LaneOf, F.RoundConstantBit;
    var k := Index(x, y, z);
    FlattenA(s, x, y, z);
    C.RoundConstantIsFips(r);
    assert C.RoundConstantLane(r)[z] == F.RoundConstantBit(r, z);
  }

  lemma RoundRefines(s: L.LaneState, r: nat)
    requires r < 24
    ensures Flatten(L.Round(s, r)) == F.Rnd(Flatten(s), r)
  {
    hide Flatten, L.Theta, L.RhoPi, L.Chi, L.Iota, F.Theta, F.Rho, F.Pi, F.Chi, F.Iota;
    ThetaRefines(s);
    RhoPiRefines(L.Theta(s));
    ChiRefines(L.RhoPi(L.Theta(s)));
    IotaRefines(L.Chi(L.RhoPi(L.Theta(s))), r);
  }

  lemma {:induction false} RoundsRefine(s: L.LaneState, n: nat)
    requires n <= 24
    ensures Flatten(L.Rounds(s, n)) == F.Rounds(Flatten(s), n)
  {
    hide Flatten, L.Round, F.Rnd;
    if n > 0 {
      RoundsRefine(s, n - 1);
      RoundRefines(L.Rounds(s, n - 1), n - 1);
    }
  }

  // The lane form computes KECCAK-f[1600] of FIPS 202, section 3.4, on every state.
  lemma KeccakFRefines(s: L.LaneState)
    ensures Flatten(L.KeccakF(s)) == F.KeccakF1600(Flatten(s))
  {
    hide Flatten, L.Rounds, F.Rounds;
    RoundsRefine(s, 24);
  }
}
