/** The permutation as keccak_miner.c runs it: 25 lanes updated in place, with a
    scratch row bc of five lanes.  The CUDA device function and the CPU replica
    of it are the same code. */
module KeccakInPlace {
  import opened Words
  import L = KeccakLanes

  ghost predicate HoldsParities(bc: seq<Lane>, s: L.LaneState) {
    |bc| == 5 && forall x: nat | x < 5 :: bc[x] == L.ColumnParity(s, x)
  }

  method Parities(st: array<Lane>, bc: array<Lane>)
    requires st.Length == 25 && bc.Length == 5 && st != bc
    modifies bc
    ensures HoldsParities(bc[..], st[..])
  {
    hide Xor64;
    for i := 0 to 5
      invariant forall x: nat | x < i :: bc[x] == L.ColumnParity(st[..], x)
    {
      bc[i] := Xor64(Xor64(Xor64(Xor64(st[i], st[i + 5]), st[i + 10]), st[i + 15]), st[i + 20]);
    }
  }

  // Column i of theta: the mask goes into each of its five lanes.
  method AddToColumn(st: array<Lane>, i: nat, t: Lane)
    requires st.Length == 25 && i < 5
    modifies st
    ensures forall k | 0 <= k < 25 :: st[k] == if k % 5 == i then Xor64(old(st[k]), t) else old(st[k])
  {
    hide Xor64;
    var j := 0;
    while j < 25
      invariant 0 <= j <= 25 && j % 5 == 0
      invariant forall k | 0 <= k < 25 :: st[k] == if k % 5 == i && k < j then Xor64(old(st[k]), t) else old(st[k])
    {
      st[j + i] := Xor64(st[j + i], t);
      j := j + 5;
    }
  }

  lemma MaskFromParities(bc: seq<Lane>, s: L.LaneState, x: nat)
    requires HoldsParities(bc, s) && x < 5
    ensures Xor64(bc[(x + 4) % 5], Rol64(bc[(x + 1) % 5], 1)) == L.ThetaMask(s, x)
  {
  }

  // Theta is done in the columns below i.
  ghost predicate ThetaBelow(st: seq<Lane>, s: L.LaneState, i: nat) {
    |st| == 25 && forall k | 0 <= k < 25 :: st[k] == if k % 5 < i then Xor64(s[k], L.ThetaMask(s, k % 5)) else s[k]
  }

  method Theta(st: array<Lane>, bc: array<Lane>)
    requires st.Length == 25 && bc.Length == 5 && st != bc
    modifies st, bc
    ensures st[..] == L.Theta(old(st[..]))
  {
    hide Xor64, Rol64, L.ColumnParity, L.ThetaMask;
    ghost var s := st[..];
    Parities(st, bc);
    for i := 0 to 5
      invariant HoldsParities(bc[..], s)
      invariant ThetaBelow(st[..], s, i)
    {
      MaskFromParities(bc[..], s, i);
      var t := Xor64(bc[(i + 4) % 5], Rol64(bc[(i + 1) % 5], 1));
      AddToColumn(st, i, t);
    }
  }

  // Lanes PI(0), ..., PI(i - 1) are final and all others are as they were; t is the lane displaced last.
  ghost predicate CycleBelow(st: seq<Lane>, t: Lane, s: L.LaneState, i: nat) {
    && |st| == 25 && i <= 24
    && st[0] == s[0]
    && (forall j: nat | 0 < j < 25 :: st[j] == if L.StepOf(j) < i then L.Moved(s, L.StepOf(j)) else s[j])
    && (i < 24 ==> t == s[L.Source(i)])
  }

  lemma CycleStep(st: seq<Lane>, t: Lane, s: L.LaneState, i: nat)
    requires CycleBelow(st, t, s, i) && i < 24
    ensures CycleBelow(st[L.PI(i) := Rol64(t, L.RHO(i))], st[L.PI(i)], s, i + 1)
  {
    hide L.PI, L.StepOf, L.RHO, Rol64;
    L.StepOfPi(i);
    forall j: nat | 0 < j < 25 && L.StepOf(j) == i
      ensures j == L.PI(i)
    {
      L.PiOfStep(j);
    }
  }

  method RhoPi(st: array<Lane>, bc: array<Lane>)
    requires st.Length == 25 && bc.Length == 5 && st != bc
    modifies st, bc
    ensures st[..] == L.RhoPi(old(st[..]))
  {
    hide L.PI, L.StepOf, L.RHO, Rol64, L.Moved;
    ghost var s := st[..];
    var t := st[1];
    for i := 0 to 24
      invariant CycleBelow(st[..], t, s, i)
    {
      CycleStep(st[..], t, s, i);
      ghost var after := st[..][L.PI(i) := Rol64(t, L.RHO(i))];
      var j := L.PI(i);
      bc[0] := st[j];
      st[j] := Rol64(t, L.RHO(i));
      t := bc[0];
      assert st[..] == after;
    }
  }

  // Chi is done in the rows before lane j.
  ghost predicate ChiBelow(st: seq<Lane>, s: L.LaneState, j: nat) {
    |st| == 25 && forall k: nat | k < 25 :: st[k] == if k < j then L.ChiLane(s, k) else s[k]
  }

  lemma ChiLaneInRow(s: L.LaneState, row: seq<Lane>, j: nat, i: nat)
    requires j < 25 && j % 5 == 0 && i < 5 && row == s[j..j + 5]
    ensures L.ChiLane(s, j + i) == Xor64(s[j + i], And64(Not64(row[(i + 1) % 5]), row[(i + 2) % 5]))
  {
    hide Xor64, And64, Not64;
    L.RowArithmetic(j, i);
    assert row[(i + 1) % 5] == s[j + (i + 1) % 5] && row[(i + 2) % 5] == s[j + (i + 2) % 5];
  }

  // One row of chi, from its copy in bc.
  method ChiRow(st: array<Lane>, bc: array<Lane>, j: nat)
    requires st.Length == 25 && bc.Length == 5 && st != bc && j < 25 && j % 5 == 0
    requires bc[..] == st[j..j + 5]
    modifies st
    ensures forall k: nat | k < 25 :: st[k] == if j <= k < j + 5 then L.ChiLane(old(st[..]), k) else old(st[k])
  {
    hide Xor64, And64, Not64, L.ChiLane;
    ghost var s, row := st[..], bc[..];
    for i := 0 to 5
      invariant bc[..] == row
      invariant forall k: nat | k < 25 :: st[k] == if j <= k < j + i then L.ChiLane(s, k) else s[k]
    {
      ChiLaneInRow(s, row, j, i);
      st[j + i] := Xor64(st[j + i], And64(Not64(bc[(i + 1) % 5]), bc[(i + 2) % 5]));
    }
  }

  lemma ChiLaneOfRow(st: seq<Lane>, s: L.LaneState, j: nat, k: nat)
    requires ChiBelow(st, s, j) && j % 5 == 0 && j <= k < j + 5 <= 25
    ensures L.ChiLane(st, k) == L.ChiLane(s, k)
  {
    var row := k / 5 * 5;
    assert row == j;
  }

  method Chi(st: array<Lane>, bc: array<Lane>)
    requires st.Length == 25 && bc.Length == 5 && st != bc
    modifies st, bc
    ensures st[..] == L.Chi(old(st[..]))
  {
    hide L.ChiLane;
    ghost var s := st[..];
    var j := 0;
    while j < 25
      invariant 0 <= j <= 25 && j % 5 == 0
      invariant ChiBelow(st[..], s, j)
    {
      ghost var row := st[..];
      for i := 0 to 5
        invariant st[..] == row
        invariant forall k | 0 <= k < i :: bc[k] == st[j + k]
      {
        bc[i] := st[j + i];
      }
      forall k: nat | j <= k < j + 5
        ensures L.ChiLane(row, k) == L.ChiLane(s, k)
      {
        ChiLaneOfRow(row, s, j, k);
      }
      ChiRow(st, bc, j);
      j := j + 5;
    }
  }

  // keccakf: KECCAK-f[1600] in place.
  method KeccakF(st: array<Lane>)
    requires st.Length == 25
    modifies st
    ensures st[..] == L.KeccakF(old(st[..]))
  {
    hide L.Theta, L.RhoPi, L.Chi, LaneOf, L.RC, Xor64;
    ghost var s := st[..];
    var bc := new Lane[5](_ => ZERO);
    for r := 0 to 24
      invariant st[..] == L.Rounds(s, r)
    {
      Theta(st, bc);
      RhoPi(st, bc);
      Chi(st, bc);
      st[0] := Xor64(st[0], LaneOf(L.RC(r)));
    }
  }
}
