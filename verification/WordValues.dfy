/** The numbers that bytes and lanes stand for, and what C's shifts, the lane
    loads and the byte stores of the hash do to them. */
module WordValues {
  import opened Words
  import B = BigEndian
  import F = Fips202
  import S = SingleBlock

  lemma {:induction false} Pow2Adds(a: nat, b: nat)
    ensures Pow2(a + b) == Pow2(a) * Pow2(b)
  {
    if a > 0 {
      Pow2Adds(a - 1, b);
      assert 2 * (Pow2(a - 1) * Pow2(b)) == Pow2(a) * Pow2(b);
    }
  }

  lemma PowersOf256()
    ensures Pow2(8) == 256
  {
  }

  lemma {:induction false} Pow256IsPow2(w: nat)
    ensures B.Pow256(w) == Pow2(8 * w)
  {
    if w > 0 {
      Pow256IsPow2(w - 1);
      Pow2Adds(8, 8 * (w - 1));
      PowersOf256();
    }
  }

  lemma Pow2Of64()
    ensures Pow2(64) == U64_MODULUS
  {
    Pow256IsPow2(8);
    assert B.Pow256(8) == U64_MODULUS;
  }

  // ---------- bytes ----------

  // The bits of a byte are those of its number.
  lemma ByteValue(b: byte)
    ensures BitsValue(ByteBits(b)) == b as nat
  {
    PowersOf256();
    ValueOfBits(b as nat, 8);
  }

  lemma HalfOf(n: nat, p: nat)
    requires p > 0
    ensures n / 2 / p == n / (2 * p)
  {
    var q, r := n / 2 / p, n / 2 % p;
    assert n / 2 == p * q + r;
    assert n == 2 * (p * q + r) + n % 2;
    assert n == (2 * p) * q + (2 * r + n % 2);
    B.QuotientUnique(n, 2 * p, q, 2 * r + n % 2);
  }

  lemma {:induction false} NatBit(n: nat, w: nat, i: nat)
    requires i < w
    ensures NatBits(n, w)[i] <==> n / Pow2(i) % 2 == 1
  {
    if i > 0 {
      NatBit(n / 2, w - 1, i - 1);
      HalfOf(n, Pow2(i - 1));
    }
  }

  // Bit i of a byte is its binary digit of weight 2^i.
  lemma ByteBit(b: byte, i: nat)
    requires i < 8
    ensures ByteBits(b)[i] <==> b as nat / Pow2(i) % 2 == 1
  {
    NatBit(b as nat, 8, i);
  }

  // ---------- lanes ----------

  lemma {:induction false} ValueAppend(a: seq<bool>, b: seq<bool>)
    ensures BitsValue(a + b) == BitsValue(a) + Pow2(|a|) * BitsValue(b)
  {
    if a == [] {
      assert a + b == b;
    } else {
      hide BitsValue, Pow2;
      assert (a + b)[1..] == a[1..] + b;
      FirstBit(a + b);
      FirstBit(a);
      ValueAppend(a[1..], b);
      Doubled(Pow2(|a| - 1), BitsValue(b));
    }
  }

  lemma FirstBit(s: seq<bool>)
    requires s != []
    ensures BitsValue(s) == (if s[0] then 1 else 0) + 2 * BitsValue(s[1..]) && Pow2(|s|) == 2 * Pow2(|s| - 1)
  {
  }

  lemma Doubled(p: nat, v: nat)
    ensures 2 * (p * v) == (2 * p) * v
  {
  }

  lemma {:induction false} FalseValue(n: nat)
    ensures BitsValue(seq(n, _ => false)) == 0
  {
    if n > 0 {
      assert seq(n, _ => false)[1..] == seq(n - 1, _ => false);
      FalseValue(n - 1);
    }
  }

  // Cutting a string of bits divides its number.
  lemma SplitValue(s: seq<bool>, o: nat)
    requires o <= |s|
    ensures BitsValue(s[o..]) == BitsValue(s) / Pow2(o)
    ensures BitsValue(s[..o]) == BitsValue(s) % Pow2(o)
  {
    hide BitsValue, Pow2;
    assert s == s[..o] + s[o..];
    ValueAppend(s[..o], s[o..]);
    BitsValueBound(s[..o]);
    DivMod(BitsValue(s), Pow2(o), BitsValue(s[o..]), BitsValue(s[..o]));
  }

  lemma DivMod(n: nat, d: nat, q: nat, r: nat)
    requires r < d && n == r + d * q
    ensures n / d == q && n % d == r
  {
    B.QuotientUnique(n, d, q, r);
    assert n == d * (n / d) + n % d;
  }

  // A literal fills a lane with its own bits.
  lemma LiteralValue(n: nat)
    requires n < U64_MODULUS
    ensures BitsValue(LaneOf(n)) == n
  {
    Pow2Of64();
    ValueOfBits(n, 64);
  }

  // a >> o divides by 2^o.
  lemma ShrValue(a: Lane, o: nat)
    requires o < 64
    ensures BitsValue(Shr64(a, o)) == BitsValue(a) / Pow2(o)
  {
    var zeros := seq(o, _ => false);
    assert Shr64(a, o) == a[o..] + zeros;
    ValueAppend(a[o..], zeros);
    FalseValue(o);
    SplitValue(a, o);
  }

  // a << o multiplies by 2^o, modulo 2^64.
  lemma ShlValue(a: Lane, o: nat)
    requires o < 64
    ensures BitsValue(Shl64(a, o)) == BitsValue(a) * Pow2(o) % U64_MODULUS
  {
    var zeros := seq(o, _ => false);
    var low := a[..64 - o];
    hide BitsValue, Pow2;
    assert Shl64(a, o) == zeros + low;
    ValueAppend(zeros, low);
    FalseValue(o);
    assert a == low + a[64 - o..];
    ValueAppend(low, a[64 - o..]);
    BitsValueBound(Shl64(a, o));
    Pow2Of64();
    Pow2Adds(64 - o, o);
    ShiftArithmetic(BitsValue(low), BitsValue(a[64 - o..]), Pow2(64 - o), Pow2(o));
  }

  lemma ShiftArithmetic(low: nat, high: nat, p: nat, q: nat)
    requires p * q == U64_MODULUS && q * low < U64_MODULUS
    ensures (low + p * high) * q % U64_MODULUS == q * low
  {
    ProductSwap(low, high, p, q);
    DivMod((low + p * high) * q, U64_MODULUS, high, q * low);
  }

  lemma ProductSwap(low: nat, high: nat, p: nat, q: nat)
    ensures (low + p * high) * q == q * low + (p * q) * high
  {
    assert (p * high) * q == (p * q) * high;
  }

  // ---------- loads and stores ----------

  // The number of a byte string, first byte lowest.
  function LittleEndian(m: seq<byte>): nat {
    if m == [] then 0 else m[0] as nat + 256 * LittleEndian(m[1..])
  }

  lemma {:induction false} StringValue(m: seq<byte>)
    ensures BitsValue(F.BytesToBits(m)) == LittleEndian(m)
  {
    hide ByteBits;
    if m != [] {
      ValueAppend(ByteBits(m[0]), F.BytesToBits(m[1..]));
      ByteValue(m[0]);
      PowersOf256();
      StringValue(m[1..]);
    }
  }

  lemma EightBytes(m: seq<byte>)
    requires |m| == 8
    ensures LittleEndian(m) ==
            m[0] as nat + 0x100 * m[1] as nat + 0x1_0000 * m[2] as nat + 0x100_0000 * m[3] as nat +
            0x1_0000_0000 * m[4] as nat + 0x100_0000_0000 * m[5] as nat + 0x1_0000_0000_0000 * m[6] as nat +
            0x100_0000_0000_0000 * m[7] as nat
  {
    assert m[4..][1..] == m[5..] && m[5..][1..] == m[6..] && m[6..][1..] == m[7..] && m[7..][1..] == [];
    assert m[1..][1..] == m[2..] && m[2..][1..] == m[3..] && m[3..][1..] == m[4..];
    assert LittleEndian(m[7..]) == m[7] as nat;
    assert LittleEndian(m[6..]) == m[6] as nat + 256 * LittleEndian(m[7..]);
    assert LittleEndian(m[5..]) == m[5] as nat + 256 * LittleEndian(m[6..]);
    assert LittleEndian(m[4..]) == m[4] as nat + 256 * LittleEndian(m[5..]);
    assert LittleEndian(m[3..]) == m[3] as nat + 256 * LittleEndian(m[4..]);
    assert LittleEndian(m[2..]) == m[2] as nat + 256 * LittleEndian(m[3..]);
    assert LittleEndian(m[1..]) == m[1] as nat + 256 * LittleEndian(m[2..]);
  }

  lemma LaneIsItsBytes(block: seq<byte>, i: nat)
    requires |block| == 136 && i < 17
    ensures S.LoadLane(block, i) == F.BytesToBits(block[8 * i..8 * i + 8])
  {
    var m := block[8 * i..8 * i + 8];
    forall z: nat | z < 64
      ensures S.LoadLane(block, i)[z] == F.BytesToBits(m)[z]
    {
      hide ByteBits, F.BytesToBits;
      S.BytesToBitsAt(m, z);
      assert m[z / 8] == block[8 * i + z / 8];
    }
  }

  // The number of a loaded lane: its eight bytes, the first one lowest.
  lemma LoadValue(block: seq<byte>, i: nat)
    requires |block| == 136 && i < 17
    ensures BitsValue(S.LoadLane(block, i)) ==
            block[8 * i] as nat + 0x100 * block[8 * i + 1] as nat + 0x1_0000 * block[8 * i + 2] as nat +
            0x100_0000 * block[8 * i + 3] as nat + 0x1_0000_0000 * block[8 * i + 4] as nat +
            0x100_0000_0000 * block[8 * i + 5] as nat + 0x1_0000_0000_0000 * block[8 * i + 6] as nat +
            0x100_0000_0000_0000 * block[8 * i + 7] as nat
  {
    hide S.LoadLane, F.BytesToBits, BitsValue, LittleEndian;
    var m := block[8 * i..8 * i + 8];
    LaneIsItsBytes(block, i);
    StringValue(m);
    EightBytes(m);
  }

  // A stored byte: the lane's number shifted down by k bytes, modulo 256.
  lemma StoreValue(lane: Lane, k: nat)
    requires k < 8
    ensures S.StoreByte(lane, k) as nat == BitsValue(lane) / B.Pow256(k) % 256
  {
    hide BitsValue;
    var t := Shr64(lane, 8 * k);
    ShrValue(lane, 8 * k);
    Pow256IsPow2(k);
    SplitValue(t, 8);
    PowersOf256();
    ByteOfBitsValue(t[..8]);
  }

  lemma ByteOfBitsValue(s: seq<bool>)
    requires |s| == 8
    ensures ByteOfBits(s) as nat == BitsValue(s)
  {
  }
}
