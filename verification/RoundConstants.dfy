/** The 24 constants of the C table RC are those that the shift register of
    FIPS 202, section 3.2.5, produces. */
module RoundConstants {
  import opened Words
  import F = Fips202
  import L = KeccakLanes

  function Clock7(R: F.Register): F.Register {
    F.Clock(F.Clock(F.Clock(F.Clock(F.Clock(F.Clock(F.Clock(R)))))))
  }

  // The number whose bits 0, 1, 3, 7, 15, 31 and 63 are given and whose other bits are 0.
  function SparseValue(b0: bool, b1: bool, b3: bool, b7: bool, b15: bool, b31: bool, b63: bool): nat {
    (if b0 then 1 else 0) + (if b1 then 2 else 0) + (if b3 then 8 else 0) + (if b7 then 0x80 else 0) +
    (if b15 then 0x8000 else 0) + (if b31 then 0x80000000 else 0) + (if b63 then 0x8000000000000000 else 0)
  }

  // The seven bits that a register emits over seven steps, at their places in the lane.
  function Emitted(R: F.Register): nat {
    var R1 := F.Clock(R);
    var R2 := F.Clock(R1);
    var R3 := F.Clock(R2);
    var R4 := F.Clock(R3);
    var R5 := F.Clock(R4);
    var R6 := F.Clock(R5);
    SparseValue(R.r0, R1.r0, R2.r0, R3.r0, R4.r0, R5.r0, R6.r0)
  }

  // Register R emits the constant c over seven steps, and is then next.
  ghost predicate Row(R: F.Register, c: nat, next: F.Register) {
    Emitted(R) == c && Clock7(R) == next
  }

  lemma Rows0To2()
    ensures Row(F.Register(true, false, false, false, false, false, false, false), 0x0000000000000001,
                F.Register(false, false, false, false, false, false, false, true))
    ensures Row(F.Register(false, false, false, false, false, false, false, true), 0x0000000000008082,
                F.Register(false, false, false, true, true, false, true, true))
    ensures Row(F.Register(false, false, false, true, true, false, true, true), 0x800000000000808a,
                F.Register(false, true, false, true, true, false, false, false))
  {
  }

  lemma Rows3To5()
    ensures Row(F.Register(false, true, false, true, true, false, false, false), 0x8000000080008000,
                F.Register(true, true, true, true, true, false, true, true))
    ensures Row(F.Register(true, true, true, true, true, false, true, true), 0x000000000000808b,
                F.Register(true, false, false, true, false, false, false, false))
    ensures Row(F.Register(true, false, false, true, false, false, false, false), 0x0000000080000001,
                F.Register(true, false, true, false, true, true, false, false))
  {
  }

  lemma Rows6To8()
    ensures Row(F.Register(true, false, true, false, true, true, false, false), 0x8000000080008081,
                F.Register(true, true, true, true, false, false, true, false))
    ensures Row(F.Register(true, true, true, true, false, false, true, false), 0x8000000000008009,
                F.Register(false, true, false, true, false, false, true, true))
    ensures Row(F.Register(false, true, false, true, false, false, true, true), 0x000000000000008a,
                F.Register(false, false, false, false, true, true, true, false))
  {
  }

  lemma Rows9To11()
    ensures Row(F.Register(false, false, false, false, true, true, true, false), 0x0000000000000088,
                F.Register(true, false, false, false, false, false, true, false))
    ensures Row(F.Register(true, false, false, false, false, false, true, false), 0x0000000080008009,
                F.Register(false, false, true, true, false, true, true, true))
    ensures Row(F.Register(false, false, true, true, false, true, true, true), 0x000000008000000a,
                F.Register(true, false, true, false, true, false, true, true))
  {
  }

  lemma Rows12To14()
    ensures Row(F.Register(true, false, true, false, true, false, true, true), 0x000000008000808b,
                F.Register(true, false, true, true, false, false, true, true))
    ensures Row(F.Register(true, false, true, true, false, false, true, true), 0x800000000000008b,
                F.Register(true, true, false, false, false, true, true, false))
    ensures Row(F.Register(true, true, false, false, false, true, true, false), 0x8000000000008089,
                F.Register(true, true, false, true, false, true, false, true))
  {
  }

  lemma Rows15To17()
    ensures Row(F.Register(true, true, false, true, false, true, false, true), 0x8000000000008003,
                F.Register(false, true, false, true, false, true, false, true))
    ensures Row(F.Register(false, true, false, true, false, true, false, true), 0x8000000000008002,
                F.Register(false, true, false, true, false, true, false, false))
    ensures Row(F.Register(false, true, false, true, false, true, false, false), 0x8000000000000080,
                F.Register(false, true, false, false, true, true, true, true))
  {
  }

  lemma Rows18To20()
    ensures Row(F.Register(false, true, false, false, true, true, true, true), 0x000000000000800a,
                F.Register(false, false, false, true, false, true, true, true))
    ensures Row(F.Register(false, false, false, true, false, true, true, true), 0x800000008000000a,
                F.Register(true, true, true, false, true, true, false, false))
    ensures Row(F.Register(true, true, true, false, true, true, false, false), 0x8000000080008081,
                F.Register(false, true, true, true, true, true, false, false))
  {
  }

  lemma Rows21To23()
    ensures Row(F.Register(false, true, true, true, true, true, false, false), 0x8000000000008080,
                F.Register(true, true, false, true, false, false, false, false))
    ensures Row(F.Register(true, true, false, true, false, false, false, false), 0x0000000080000001,
                F.Register(false, false, true, false, false, false, true, false))
    ensures Row(F.Register(false, false, true, false, false, false, true, false), 0x8000000080008008,
                F.Register(false, true, true, true, false, false, false, true))
  {
  }

  lemma Clocked7(t: nat)
    ensures F.Clocked(t + 7) == Clock7(F.Clocked(t))
  {
    var R := F.Clocked(t);
    assert F.Clocked(t + 1) == F.Clock(R);
    assert F.Clocked(t + 2) == F.Clock(F.Clocked(t + 1));
    assert F.Clocked(t + 3) == F.Clock(F.Clocked(t + 2));
    assert F.Clocked(t + 4) == F.Clock(F.Clocked(t + 3));
    assert F.Clocked(t + 5) == F.Clock(F.Clocked(t + 4));
    assert F.Clocked(t + 6) == F.Clock(F.Clocked(t + 5));
  }

  lemma FirstRegister()
    ensures F.Clocked(0) == F.Register(true, false, false, false, false, false, false, false)
  {
  }

  lemma Chain0To5()
    ensures F.Clocked(42) == F.Register(true, false, true, false, true, true, false, false)
    ensures forall r: nat | 0 <= r < 6 :: Emitted(F.Clocked(7 * r)) == L.RC(r)
  {
    hide Clock7, Emitted, F.Clocked;
    FirstRegister();
    Rows0To2();
    Rows3To5();
    Clocked7(0);
    Clocked7(7);
    Clocked7(14);
    Clocked7(21);
    Clocked7(28);
    Clocked7(35);
  }

  lemma Chain6To11()
    requires F.Clocked(42) == F.Register(true, false, true, false, true, true, false, false)
    ensures F.Clocked(84) == F.Register(true, false, true, false, true, false, true, true)
    ensures forall r: nat | 6 <= r < 12 :: Emitted(F.Clocked(7 * r)) == L.RC(r)
  {
    hide Clock7, Emitted, F.Clocked;
    Rows6To8();
    Rows9To11();
    Clocked7(42);
    Clocked7(49);
    Clocked7(56);
    Clocked7(63);
    Clocked7(70);
    Clocked7(77);
  }

  lemma Chain12To17()
    requires F.Clocked(84) == F.Register(true, false, true, false, true, false, true, true)
    ensures F.Clocked(126) == F.Register(false, true, false, false, true, true, true, true)
    ensures forall r: nat | 12 <= r < 18 :: Emitted(F.Clocked(7 * r)) == L.RC(r)
  {
    hide Clock7, Emitted, F.Clocked;
    Rows12To14();
    Rows15To17();
    Clocked7(84);
    Clocked7(91);
    Clocked7(98);
    Clocked7(105);
    Clocked7(112);
    Clocked7(119);
  }

  lemma Chain18To23()
    requires F.Clocked(126) == F.Register(false, true, false, false, true, true, true, true)
    ensures forall r: nat | 18 <= r < 24 :: Emitted(F.Clocked(7 * r)) == L.RC(r)
  {
    hide Clock7, Emitted, F.Clocked;
    Rows18To20();
    Rows21To23();
    Clocked7(126);
    Clocked7(133);
    Clocked7(140);
    Clocked7(147);
    Clocked7(154);
  }

  lemma TableIsEmitted(r: nat)
    requires r < 24
    ensures Emitted(F.Clocked(7 * r)) == L.RC(r)
  {
    hide Emitted, F.Clocked, L.RC;
    Chain0To5();
    Chain6To11();
    Chain12To17();
    Chain18To23();
  }

  // ---------- the lane of a round constant ----------

  function RoundConstantLane(r: nat): Lane {
    seq(64, z requires 0 <= z < 64 => F.RoundConstantBit(r, z))
  }

  lemma {:induction false} SetBitValue(s: seq<bool>, p: nat, b: bool)
    requires p < |s| && !s[p]
    ensures BitsValue(s[p := b]) == BitsValue(s) + (if b then Pow2(p) else 0)
  {
    var t := s[p := b];
    if p == 0 {
      assert t[1..] == s[1..];
    } else {
      assert t[1..] == s[1..][p - 1 := b];
      SetBitValue(s[1..], p - 1, b);
    }
  }

  lemma {:induction false} ZerosValue(n: nat)
    ensures BitsValue(F.Zeros(n)) == 0
  {
    if n > 0 {
      assert F.Zeros(n)[1..] == F.Zeros(n - 1);
      ZerosValue(n - 1);
    }
  }

  lemma Powers()
    ensures Pow2(0) == 1 && Pow2(1) == 2 && Pow2(3) == 8 && Pow2(7) == 0x80
    ensures Pow2(15) == 0x8000 && Pow2(31) == 0x80000000 && Pow2(63) == 0x8000000000000000
  {
    assert Pow2(15) == 0x8000;
    assert Pow2(23) == 0x800000;
    assert Pow2(31) == 0x80000000;
    assert Pow2(39) == 0x8000000000;
    assert Pow2(47) == 0x800000000000;
    assert Pow2(55) == 0x80000000000000;
  }

  function SparseLane(b0: bool, b1: bool, b3: bool, b7: bool, b15: bool, b31: bool, b63: bool): (t: Lane) {
    F.Zeros(64)[0 := b0][1 := b1][3 := b3][7 := b7][15 := b15][31 := b31][63 := b63]
  }

  lemma SparseLaneValue(b0: bool, b1: bool, b3: bool, b7: bool, b15: bool, b31: bool, b63: bool)
    ensures BitsValue(SparseLane(b0, b1, b3, b7, b15, b31, b63)) == SparseValue(b0, b1, b3, b7, b15, b31, b63)
  {
    hide BitsValue, Pow2;
    Powers();
    ZerosValue(64);
    var s := F.Zeros(64);
    SetBitValue(s, 0, b0);
    s := s[0 := b0];
    SetBitValue(s, 1, b1);
    s := s[1 := b1];
    SetBitValue(s, 3, b3);
    s := s[3 := b3];
    SetBitValue(s, 7, b7);
    s := s[7 := b7];
    SetBitValue(s, 15, b15);
    s := s[15 := b15];
    SetBitValue(s, 31, b31);
    s := s[31 := b31];
    SetBitValue(s, 63, b63);
  }

  lemma RcIsRegister(r: nat, j: nat)
    requires r < 24 && j < 7
    ensures F.rc(j + 7 * r) == F.Clocked(j + 7 * r).r0
  {
  }

  lemma EmittedBits(r: nat)
    requires r < 24
    ensures Emitted(F.Clocked(7 * r)) ==
            SparseValue(F.rc(7 * r), F.rc(1 + 7 * r), F.rc(2 + 7 * r), F.rc(3 + 7 * r),
                        F.rc(4 + 7 * r), F.rc(5 + 7 * r), F.rc(6 + 7 * r))
  {
    hide SparseValue, F.rc, F.Clock;
    RcIsRegister(r, 0);
    RcIsRegister(r, 1);
    RcIsRegister(r, 2);
    RcIsRegister(r, 3);
    RcIsRegister(r, 4);
    RcIsRegister(r, 5);
    RcIsRegister(r, 6);
    var t := 7 * r;
    assert F.Clocked(t + 1) == F.Clock(F.Clocked(t));
    assert F.Clocked(t + 2) == F.Clock(F.Clocked(t + 1));
    assert F.Clocked(t + 3) == F.Clock(F.Clocked(t + 2));
    assert F.Clocked(t + 4) == F.Clock(F.Clocked(t + 3));
    assert F.Clocked(t + 5) == F.Clock(F.Clocked(t + 4));
    assert F.Clocked(t + 6) == F.Clock(F.Clocked(t + 5));
  }

  lemma RoundConstantIsSparse(r: nat)
    requires r < 24
    ensures RoundConstantLane(r) ==
            SparseLane(F.rc(7 * r), F.rc(1 + 7 * r), F.rc(2 + 7 * r), F.rc(3 + 7 * r),
                       F.rc(4 + 7 * r), F.rc(5 + 7 * r), F.rc(6 + 7 * r))
  {
    hide F.rc;
  }

  // FIPS 202 section 3.2.5 gives the table.
  lemma RoundConstantIsFips(r: nat)
    requires r < 24
    ensures LaneOf(L.RC(r)) == RoundConstantLane(r)
  {
    hide SparseValue, SparseLane, Emitted, F.rc, F.Clocked, L.RC, RoundConstantLane;
    RoundConstantIsSparse(r);
    SparseLaneValue(F.rc(7 * r), F.rc(1 + 7 * r), F.rc(2 + 7 * r), F.rc(3 + 7 * r),
                    F.rc(4 + 7 * r), F.rc(5 + 7 * r), F.rc(6 + 7 * r));
    EmittedBits(r);
    TableIsEmitted(r);
    BitsOfValue(RoundConstantLane(r));
  }
}
