/** Keccak-f[1600] is a bijection on the 25-lane states: an explicit inverse of
    every step, composed through the 24 rounds.

    Theta is the hard step.  On the five column parities it acts as the linear
    map M = 1 + X + X^-1 Y, where X moves a parity to the next column and Y
    rotates a lane by one bit.  Over bits (1 + a + b)^2 = 1 + a^2 + b^2 when a
    and b commute, so M^(2^k) is again such a sum, and because X^5 = 1 and
    Y^64 = 1 the 192nd power of M is the identity. */
module KeccakInverse {
  import opened Words
  import opened KeccakLanes
  import F = Fips202
  import R = KeccakRefinement

  type Plane = p: seq<Lane> | |p| == 5 witness seq(5, _ => ZERO)

  // ---------- the parity map and its order ----------

  function Sheared(p: Plane, k: nat, x: nat, z: nat): bool
    requires x < 5 && z < 64
  {
    Xor(Xor(p[x][z], p[(x - k) % 5][z]), p[(x + k) % 5][(z - k) % 64])
  }

  // 1 + X^k + X^-k Y^k; Shear(p, 1) is the map M.
  function Shear(p: Plane, k: nat): Plane {
    seq(5, x requires 0 <= x < 5 => seq(64, z requires 0 <= z < 64 => Sheared(p, k, x, z)))
  }

  // M applied n times.
  function Power(p: Plane, n: nat): Plane {
    if n == 0 then p else Shear(Power(p, n - 1), 1)
  }

  lemma Mod5(a: int, q: int)
    ensures (a + 5 * q) % 5 == a % 5
  {
  }

  lemma Mod64(a: int, q: int)
    ensures (a + 64 * q) % 64 == a % 64
  {
  }

  lemma ShearArithmetic(x: int, z: int, k: int)
    ensures ((x - k) % 5 - k) % 5 == (x - 2 * k) % 5 && ((x + k) % 5 + k) % 5 == (x + 2 * k) % 5
    ensures ((x - k) % 5 + k) % 5 == x % 5 && ((x + k) % 5 - k) % 5 == x % 5
    ensures ((z - k) % 64 - k) % 64 == (z - 2 * k) % 64
  {
    var down, up := (x - k) / 5, (x + k) / 5;
    Mod5(x - 2 * k, -down);
    Mod5(x, -down);
    Mod5(x + 2 * k, -up);
    Mod5(x, -up);
    Mod64(z - 2 * k, -((z - k) / 64));
  }

  lemma ShearTwice(p: Plane, k: nat)
    ensures Shear(Shear(p, k), k) == Shear(p, 2 * k)
  {
    forall x: nat, z: nat | x < 5 && z < 64
      ensures Sheared(Shear(p, k), k, x, z) == Sheared(p, 2 * k, x, z)
    {
      ShearArithmetic(x, z, k);
    }
    var s, t := Shear(Shear(p, k), k), Shear(p, 2 * k);
    forall x: nat | x < 5
      ensures s[x] == t[x]
    {
      forall z: nat | z < 64
        ensures s[x][z] == t[x][z]
      {
        assert Sheared(Shear(p, k), k, x, z) == Sheared(p, 2 * k, x, z);
      }
    }
  }

  lemma {:induction false} PowerAdds(p: Plane, m: nat, n: nat)
    ensures Power(Power(p, m), n) == Power(p, m + n)
  {
    if n > 0 {
      PowerAdds(p, m, n - 1);
    }
  }

  // M^(2^j) = 1 + X^(2^j) + X^-(2^j) Y^(2^j).
  lemma {:induction false} PowerOfTwo(p: Plane, j: nat)
    ensures Power(p, Pow2(j)) == Shear(p, Pow2(j))
    decreases j
  {
    if j == 0 {
      assert Power(p, 0) == p;
    } else {
      var k := Pow2(j - 1);
      PowerOfTwo(p, j - 1);
      PowerOfTwo(Power(p, k), j - 1);
      PowerAdds(p, k, k);
      ShearTwice(p, k);
    }
  }

  lemma Shear64(p: Plane, x: nat, z: nat)
    requires x < 5 && z < 64
    ensures Shear(p, 64)[x][z] == Xor(Xor(p[x][z], p[(x + 1) % 5][z]), p[(x + 4) % 5][z])
  {
  }

  lemma Shear128(p: Plane, x: nat, z: nat)
    requires x < 5 && z < 64
    ensures Shear(p, 128)[x][z] == Xor(Xor(p[x][z], p[(x + 2) % 5][z]), p[(x + 3) % 5][z])
  {
  }

  lemma ShearsCancelBit(p: Plane, x: nat, z: nat)
    requires x < 5 && z < 64
    ensures Shear(Shear(p, 128), 64)[x][z] == p[x][z]
  {
    hide Shear;
    var after, before := (x + 1) % 5, (x + 4) % 5;
    assert (after + 2) % 5 == (x + 3) % 5 && (after + 3) % 5 == before;
    assert (before + 2) % 5 == after && (before + 3) % 5 == (x + 2) % 5;
    Shear64(Shear(p, 128), x, z);
    Shear128(p, x, z);
    Shear128(p, after, z);
    Shear128(p, before, z);
  }

  // (1 + X + X^4)(1 + X^2 + X^3) = 1.
  lemma ShearsCancel(p: Plane)
    ensures Shear(Shear(p, 128), 64) == p
  {
    var q, s := Shear(p, 128), Shear(Shear(p, 128), 64);
    forall x: nat, z: nat | x < 5 && z < 64
      ensures s[x][z] == p[x][z]
    {
      ShearsCancelBit(p, x, z);
    }
    assert forall x | 0 <= x < 5 :: s[x] == p[x];
  }

  // M^64 = 1 + X + X^4.
  lemma ParityMap64(p: Plane, x: nat, z: nat)
    requires x < 5 && z < 64
    ensures Power(p, 64)[x][z] == Xor(Xor(p[x][z], p[(x + 1) % 5][z]), p[(x + 4) % 5][z])
  {
    hide Shear, Power;
    assert Pow2(6) == 64;
    PowerOfTwo(p, 6);
    Shear64(p, x, z);
  }

  // M^192 is the identity.
  lemma ParityMapOrder(p: Plane)
    ensures Power(p, 192) == p
  {
    assert Pow2(6) == 64 && Pow2(7) == 128;
    PowerOfTwo(p, 7);
    PowerOfTwo(Power(p, 128), 6);
    PowerAdds(p, 128, 64);
    ShearsCancel(p);
  }

  // ---------- theta ----------

  // The parities that theta adds to the lanes of a state whose column parities are p.
  function Mask(p: Plane, x: nat): Lane
    requires x < 5
  {
    Xor64(p[(x + 4) % 5], Rol64(p[(x + 1) % 5], 1))
  }

  function Parities(s: LaneState): Plane {
    seq(5, x requires 0 <= x < 5 => ColumnParity(s, x))
  }

  function AddMask(s: LaneState, p: Plane): LaneState {
    seq(25, j requires 0 <= j < 25 => Xor64(s[j], Mask(p, j % 5)))
  }

  function AddPlanes(p: Plane, q: Plane): Plane {
    seq(5, x requires 0 <= x < 5 => Xor64(p[x], q[x]))
  }

  function Masks(p: Plane): Plane {
    seq(5, x requires 0 <= x < 5 => Mask(p, x))
  }

  // Recover the old parities with M^191 = M^-1 and remove what they added.
  function ThetaInverse(s: LaneState): LaneState {
    AddMask(s, Power(Parities(s), 191))
  }

  lemma ThetaAddsMask(s: LaneState)
    ensures Theta(s) == AddMask(s, Parities(s))
  {
    assert forall x | 0 <= x < 5 :: ThetaMask(s, x) == Mask(Parities(s), x);
  }

  lemma FiveMasks(a: Lane, b: Lane, c: Lane, d: Lane, e: Lane, m: Lane)
    ensures Xor64(Xor64(Xor64(Xor64(Xor64(a, m), Xor64(b, m)), Xor64(c, m)), Xor64(d, m)), Xor64(e, m)) ==
            Xor64(Xor64(Xor64(Xor64(Xor64(a, b), c), d), e), m)
  {
  }

  lemma AddMaskAt(s: LaneState, p: Plane, j: nat, x: nat)
    requires j < 25 && x == j % 5
    ensures AddMask(s, p)[j] == Xor64(s[j], Mask(p, x))
  {
  }

  // A mask is added five times to each column, so the parity sees it once.
  lemma ParityOfAddMask(s: LaneState, p: Plane, x: nat)
    requires x < 5
    ensures ColumnParity(AddMask(s, p), x) == Xor64(ColumnParity(s, x), Mask(p, x))
  {
    hide Mask, Xor64, AddMask;
    AddMaskAt(s, p, x, x);
    AddMaskAt(s, p, x + 5, x);
    AddMaskAt(s, p, x + 10, x);
    AddMaskAt(s, p, x + 15, x);
    AddMaskAt(s, p, x + 20, x);
    FiveMasks(s[x], s[x + 5], s[x + 10], s[x + 15], s[x + 20], Mask(p, x));
  }

  lemma ParitiesOfAddMask(s: LaneState, p: Plane)
    ensures Parities(AddMask(s, p)) == AddPlanes(Parities(s), Masks(p))
  {
    hide Mask, Xor64, AddMask, ColumnParity;
    forall x: nat | x < 5
      ensures ColumnParity(AddMask(s, p), x) == Xor64(ColumnParity(s, x), Mask(p, x))
    {
      ParityOfAddMask(s, p, x);
    }
  }

  lemma ShearIsAddMasks(p: Plane)
    ensures Shear(p, 1) == AddPlanes(p, Masks(p))
  {
    forall x: nat | x < 5
      ensures Shear(p, 1)[x] == AddPlanes(p, Masks(p))[x]
    {
    }
  }

  lemma AddMaskTwice(s: LaneState, p: Plane)
    ensures AddMask(AddMask(s, p), p) == s
  {
    hide Mask;
    forall j: nat | j < 25
      ensures AddMask(AddMask(s, p), p)[j] == s[j]
    {
      Xor64Twice(s[j], Mask(p, j % 5));
    }
  }

  lemma Xor64Twice(a: Lane, b: Lane)
    ensures Xor64(Xor64(a, b), b) == a
  {
  }

  lemma AddPlanesTwice(p: Plane, q: Plane)
    ensures AddPlanes(AddPlanes(p, q), q) == p
  {
    forall x: nat | x < 5
      ensures AddPlanes(AddPlanes(p, q), q)[x] == p[x]
    {
      Xor64Twice(p[x], q[x]);
    }
  }

  lemma ThetaInverseLeft(s: LaneState)
    ensures ThetaInverse(Theta(s)) == s
  {
    hide AddMask, AddPlanes, Masks, Parities;
    var p := Parities(s);
    ThetaAddsMask(s);
    ParitiesOfAddMask(s, p);
    ShearIsAddMasks(p);
    PowerAdds(p, 1, 191);
    assert Power(p, 1) == Shear(p, 1);
    ParityMapOrder(p);
    AddMaskTwice(s, p);
  }

  lemma ThetaInverseRight(s: LaneState)
    ensures Theta(ThetaInverse(s)) == s
  {
    hide AddMask, AddPlanes, Masks, Parities;
    var p := Parities(s);
    var q := Power(p, 191);
    ParitiesOfAddMask(s, q);
    ShearIsAddMasks(q);
    ParityMapOrder(p);
    AddPlanesTwice(q, Masks(q));
    assert Shear(q, 1) == p;
    ThetaAddsMask(AddMask(s, q));
    AddMaskTwice(s, q);
  }

  // ---------- chi ----------

  function ChiBit(a: bool, b: bool, c: bool): bool {
    Xor(a, !b && c)
  }

  // Chi has order four on every row of five lanes, so its cube undoes it.
  function ChiInverse(s: LaneState): LaneState {
    Chi(Chi(Chi(s)))
  }

  // Lane x of the row that starts at lane r.
  lemma ChiAt(s: LaneState, r: nat, x: nat, z: nat)
    requires r <= 20 && r % 5 == 0 && x < 5 && z < 64
    ensures Chi(s)[r + x][z] == ChiBit(s[r + x][z], s[r + (x + 1) % 5][z], s[r + (x + 2) % 5][z])
  {
    RowArithmetic(r, x);
    assert Chi(s)[r + x] == ChiLane(s, r + x);
  }

  // The row that starts at lane r.
  ghost predicate IsChiRow(s: LaneState, t: LaneState, r: nat, z: nat)
    requires r <= 20 && z < 64
  {
    && t[r][z] == ChiBit(s[r][z], s[r + 1][z], s[r + 2][z])
    && t[r + 1][z] == ChiBit(s[r + 1][z], s[r + 2][z], s[r + 3][z])
    && t[r + 2][z] == ChiBit(s[r + 2][z], s[r + 3][z], s[r + 4][z])
    && t[r + 3][z] == ChiBit(s[r + 3][z], s[r + 4][z], s[r][z])
    && t[r + 4][z] == ChiBit(s[r + 4][z], s[r][z], s[r + 1][z])
  }

  lemma ChiRow(s: LaneState, r: nat, z: nat)
    requires r <= 20 && r % 5 == 0 && z < 64
    ensures IsChiRow(s, Chi(s), r, z)
  {
    hide Chi, ChiBit;
    ChiAt(s, r, 0, z);
    ChiAt(s, r, 1, z);
    ChiAt(s, r, 2, z);
    ChiAt(s, r, 3, z);
    ChiAt(s, r, 4, z);
  }

  lemma FourRows(s: LaneState, t: LaneState, u: LaneState, v: LaneState, w: LaneState, r: nat, z: nat)
    requires r <= 20 && z < 64
    requires IsChiRow(s, t, r, z) && IsChiRow(t, u, r, z) && IsChiRow(u, v, r, z) && IsChiRow(v, w, r, z)
    ensures forall j | r <= j < r + 5 :: w[j][z] == s[j][z]
  {
    forall j | r <= j < r + 5
      ensures w[j][z] == s[j][z]
    {
      assert j == r || j == r + 1 || j == r + 2 || j == r + 3 || j == r + 4;
    }
  }

  lemma ChiOrderFour(s: LaneState)
    ensures Chi(Chi(Chi(Chi(s)))) == s
  {
    hide Chi, IsChiRow;
    var t := Chi(s);
    var u := Chi(t);
    var v := Chi(u);
    var w := Chi(v);
    forall j: nat, z: nat | j < 25 && z < 64
      ensures w[j][z] == s[j][z]
    {
      var r := j - j % 5;
      ChiRow(s, r, z);
      ChiRow(t, r, z);
      ChiRow(u, r, z);
      ChiRow(v, r, z);
      FourRows(s, t, u, v, w, r, z);
    }
    assert forall j | 0 <= j < 25 :: w[j] == s[j];
  }

  // ---------- rho, pi and iota ----------

  function Ror64(a: Lane, o: nat): Lane
    requires 0 < o < 64
  {
    Rol64(a, 64 - o)
  }

  lemma RotateBack(z: int, o: int)
    requires 0 <= z < 64
    ensures ((z - o) % 64 - (64 - o)) % 64 == z
  {
    var q := (z - o) / 64;
    assert (z - o) % 64 - (64 - o) == z + 64 * (-1 - q);
    Mod64(z, -1 - q);
  }

  lemma RorUndoesRol(a: Lane, o: nat)
    requires 0 < o < 64
    ensures Ror64(Rol64(a, o), o) == a && Rol64(Ror64(a, o), o) == a
  {
    hide Rol64;
    forall z | 0 <= z < 64
      ensures Ror64(Rol64(a, o), o)[z] == a[z] && Rol64(Ror64(a, o), o)[z] == a[z]
    {
      RotateBack(z, o);
      RotateBack(z, 64 - o);
    }
  }

  // The step of the cycle that reads lane j: the one after the step that wrote it.
  function ReadStep(j: nat): (i: nat)
    requires 0 < j < 25
    ensures i < 24
  {
    if j == 1 then 0 else (StepOf(j) + 1) % 24
  }

  lemma ReadStepOfSource(i: nat)
    requires i < 24
    ensures ReadStep(Source(i)) == i
  {
    hide PI, StepOf;
    if i > 0 {
      StepOfPi(i - 1);
      LastStep();
    }
  }

  lemma SourceOfReadStep(j: nat)
    requires 0 < j < 25
    ensures Source(ReadStep(j)) == j
  {
    hide PI, StepOf;
    LastStep();
    PiOfStep(j);
  }

  lemma LastStep()
    ensures StepOf(1) == 23 && PI(23) == 1
  {
  }

  // Undo the cycle: lane j came to rest in the lane that the step reading j wrote.
  function RhoPiInverse(s: LaneState): LaneState {
    seq(25, j requires 0 <= j < 25 => if j == 0 then s[0] else Ror64(s[PI(ReadStep(j))], RHO(ReadStep(j))))
  }

  lemma RhoPiInverseLeft(s: LaneState)
    ensures RhoPiInverse(RhoPi(s)) == s
  {
    hide PI, StepOf, RHO, Source, ReadStep, Rol64, Ror64;
    forall j: nat | 0 < j < 25
      ensures RhoPiInverse(RhoPi(s))[j] == s[j]
    {
      var i := ReadStep(j);
      SourceOfReadStep(j);
      StepOfPi(i);
      RorUndoesRol(s[j], RHO(i));
    }
  }

  lemma RhoPiInverseRight(s: LaneState)
    ensures RhoPi(RhoPiInverse(s)) == s
  {
    hide PI, StepOf, RHO, Source, ReadStep, Rol64, Ror64;
    forall j: nat | 0 < j < 25
      ensures RhoPi(RhoPiInverse(s))[j] == s[j]
    {
      var i := StepOf(j);
      PiOfStep(j);
      ReadStepOfSource(i);
      RorUndoesRol(s[j], RHO(i));
    }
  }

  lemma IotaTwice(s: LaneState, r: nat)
    requires r < 24
    ensures Iota(Iota(s, r), r) == s
  {
    hide LaneOf;
    Xor64Twice(s[0], LaneOf(RC(r)));
  }

  // ---------- rounds ----------

  function RoundInverse(s: LaneState, r: nat): LaneState
    requires r < 24
  {
    ThetaInverse(RhoPiInverse(ChiInverse(Iota(s, r))))
  }

  function RoundsInverse(s: LaneState, n: nat): LaneState
    requires n <= 24
    decreases n
  {
    if n == 0 then s else RoundsInverse(RoundInverse(s, n - 1), n - 1)
  }

  function KeccakFInverse(s: LaneState): LaneState {
    RoundsInverse(s, 24)
  }

  lemma RoundBijective(s: LaneState, r: nat)
    requires r < 24
    ensures RoundInverse(Round(s, r), r) == s && Round(RoundInverse(s, r), r) == s
  {
    hide Theta, ThetaInverse, RhoPi, RhoPiInverse, Chi, Iota;
    var t := RhoPi(Theta(s));
    IotaTwice(Chi(t), r);
    ChiOrderFour(t);
    RhoPiInverseLeft(Theta(s));
    ThetaInverseLeft(s);
    var c := Iota(s, r);
    var d := ChiInverse(c);
    ThetaInverseRight(RhoPiInverse(d));
    RhoPiInverseRight(d);
    ChiOrderFour(c);
    IotaTwice(s, r);
  }

  lemma {:induction false} RoundsBijective(s: LaneState, n: nat)
    requires n <= 24
    ensures RoundsInverse(Rounds(s, n), n) == s && Rounds(RoundsInverse(s, n), n) == s
    decreases n
  {
    hide Round, RoundInverse;
    if n > 0 {
      RoundBijective(Rounds(s, n - 1), n - 1);
      RoundsBijective(s, n - 1);
      RoundBijective(s, n - 1);
      RoundsBijective(RoundInverse(s, n - 1), n - 1);
    }
  }

  // Keccak-f[1600] has a two-sided inverse on all 25-lane states.
  lemma KeccakFBijective(s: LaneState)
    ensures KeccakFInverse(KeccakF(s)) == s && KeccakF(KeccakFInverse(s)) == s
  {
    hide Rounds, RoundsInverse;
    RoundsBijective(s, 24);
  }

  // ---------- on bit strings ----------

  function Unflatten(S: F.State): LaneState {
    seq(25, i requires 0 <= i < 25 => S[64 * i..64 * i + 64])
  }

  function KeccakF1600Inverse(S: F.State): F.State {
    R.Flatten(KeccakFInverse(Unflatten(S)))
  }

  lemma FlattenIsBijective(S: F.State, s: LaneState)
    ensures R.Flatten(Unflatten(S)) == S && Unflatten(R.Flatten(s)) == s
  {
    forall i: nat | i < 25
      ensures Unflatten(R.Flatten(s))[i] == s[i]
    {
      forall z: nat | z < 64
        ensures Unflatten(R.Flatten(s))[i][z] == s[i][z]
      {
        assert (64 * i + z) / 64 == i && (64 * i + z) % 64 == z;
      }
    }
  }

  // So KECCAK-f[1600] of FIPS 202 is a permutation of the 1600-bit strings.
  lemma KeccakF1600Bijective(S: F.State)
    ensures KeccakF1600Inverse(F.KeccakF1600(S)) == S && F.KeccakF1600(KeccakF1600Inverse(S)) == S
  {
    hide F.KeccakF1600, KeccakF, KeccakFInverse, R.Flatten, Unflatten;
    var s := Unflatten(S);
    FlattenIsBijective(S, KeccakF(s));
    R.KeccakFRefines(s);
    KeccakFBijective(s);
    R.KeccakFRefines(KeccakFInverse(s));
  }
}
