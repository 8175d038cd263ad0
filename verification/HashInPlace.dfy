/** keccak256_single of keccak_miner.c and keccak256_116 of the GPU code: a
    block on the stack, lanes loaded byte by byte, the permutation in place,
    and the digest written to the caller's 32 bytes. */
module HashInPlace {
  import opened Words
  import F = Fips202
  import L = KeccakLanes
  import S = SingleBlock
  import P = KeccakInPlace
  import B = BigEndian
  import V = WordValues

  // (uint64_t)b
  function Widen(b: byte): Lane {
    seq(64, z requires 0 <= z < 64 => z < 8 && ByteBits(b)[z])
  }

  // The lane built from the first b bytes of lane i.
  ghost predicate LaneBelow(lane: Lane, block: seq<byte>, i: nat, b: nat)
    requires |block| == 136 && i < 17
  {
    forall z: nat | z < 64 :: lane[z] == (z < 8 * b && S.LoadLane(block, i)[z])
  }

  lemma OrByte(lane: Lane, block: seq<byte>, i: nat, b: nat)
    requires |block| == 136 && i < 17 && b < 8
    requires LaneBelow(lane, block, i, b)
    ensures LaneBelow(Or64(lane, Shl64(Widen(block[8 * i + b]), 8 * b)), block, i, b + 1)
  {
    hide ByteBits;
    var after := Or64(lane, Shl64(Widen(block[8 * i + b]), 8 * b));
    forall z: nat | z < 64
      ensures after[z] == (z < 8 * (b + 1) && S.LoadLane(block, i)[z])
    {
      if 8 * b <= z < 8 * b + 8 {
        assert z / 8 == b && z % 8 == z - 8 * b;
      }
    }
  }

  // The bytes of lane i, the first one lowest.
  method LoadLane(block: array<byte>, i: nat) returns (lane: Lane)
    requires block.Length == 136 && i < 17
    ensures lane == S.LoadLane(block[..], i)
    ensures BitsValue(lane) ==
            block[8 * i] as nat + 0x100 * block[8 * i + 1] as nat + 0x1_0000 * block[8 * i + 2] as nat +
            0x100_0000 * block[8 * i + 3] as nat + 0x1_0000_0000 * block[8 * i + 4] as nat +
            0x100_0000_0000 * block[8 * i + 5] as nat + 0x1_0000_0000_0000 * block[8 * i + 6] as nat +
            0x100_0000_0000_0000 * block[8 * i + 7] as nat
  {
    hide BitsValue, Widen, Or64, Shl64, S.LoadLane;
    lane := ZERO;
    for b := 0 to 8
      invariant LaneBelow(lane, block[..], i, b)
    {
      OrByte(lane, block[..], i, b);
      lane := Or64(lane, Shl64(Widen(block[i * 8 + b]), 8 * b));
    }
    assert forall z: nat | z < 64 :: lane[z] == S.LoadLane(block[..], i)[z];
    V.LoadValue(block[..], i);
  }

  // The first four lanes, byte by byte, the lowest byte of a lane first.
  method StoreOut(st: array<Lane>, out: array<byte>)
    requires st.Length == 25 && out.Length == 32
    modifies out
    ensures out[..] == S.StoreDigest(st[..])
    ensures forall k: nat | k < 32 :: out[k] as nat == BitsValue(st[k / 8]) / B.Pow256(k % 8) % 256
  {
    hide S.StoreByte, BitsValue, B.Pow256;
    ghost var s := st[..];
    for i := 0 to 4
      invariant st[..] == s
      invariant forall k: nat | k < 8 * i :: out[k] == S.StoreByte(s[k / 8], k % 8)
    {
      for b := 0 to 8
        invariant st[..] == s
        invariant forall k: nat | k < 8 * i + b :: out[k] == S.StoreByte(s[k / 8], k % 8)
      {
        assert (8 * i + b) / 8 == i && (8 * i + b) % 8 == b;
        out[i * 8 + b] := S.StoreByte(st[i], b);
      }
    }
    forall k: nat | k < 32
      ensures S.StoreByte(s[k / 8], k % 8) as nat == BitsValue(s[k / 8]) / B.Pow256(k % 8) % 256
    {
      V.StoreValue(s[k / 8], k % 8);
    }
  }

  // Absorb a padded block into a zero state, permute, and write the digest.
  method HashBlock(block: array<byte>, out: array<byte>)
    requires block.Length == 136 && out.Length == 32 && block != out
    modifies out
    ensures out[..] == S.StoreDigest(L.KeccakF(S.LoadBlock(block[..])))
  {
    hide S.LoadLane, L.KeccakF, S.StoreDigest, BitsValue, Xor64;
    var st := new Lane[25](_ => ZERO);
    for i := 0 to 17
      invariant forall k | 0 <= k < 25 :: st[k] == if k < i then S.LoadLane(block[..], k) else ZERO
    {
      var lane := LoadLane(block, i);
      XorZero(lane);
      st[i] := Xor64(st[i], lane);
    }
    assert st[..] == S.LoadBlock(block[..]);
    P.KeccakF(st);
    StoreOut(st, out);
  }

  lemma XorZero(a: Lane)
    ensures Xor64(ZERO, a) == a
  {
  }

  // Keccak-256 of the first len bytes at msg, for len below the rate.
  method Keccak256Single(msg: array<byte>, len: nat, out: array<byte>)
    requires len <= msg.Length && len < 136 && out.Length == 32
    modifies out
    ensures out[..] == F.Keccak256(old(msg[..len]))
  {
    hide F.Keccak256, S.XorByte, S.LoadBlock, S.StoreDigest, L.KeccakF;
    ghost var m := msg[..len];
    var block := new byte[136](_ => 0);
    for i := 0 to len
      invariant msg[..len] == m
      invariant forall k | 0 <= k < 136 :: block[k] == if k < i then m[k] else 0
    {
      block[i] := msg[i];
    }
    block[len] := S.XorByte(block[len], 0x01);
    block[135] := S.XorByte(block[135], 0x80);
    assert block[..] == S.PadBlock(m);
    S.HashIsKeccak256(m);
    HashBlock(block, out);
    assert block[..] == S.PadBlock(m);
  }

  // keccak256_116: the same with the length fixed, as the device code has it.
  method Keccak256Of116(msg: array<byte>, out: array<byte>)
    requires msg.Length >= 116 && out.Length == 32
    modifies out
    ensures out[..] == F.Keccak256(old(msg[..116]))
  {
    hide F.Keccak256, S.XorByte, S.LoadBlock, S.StoreDigest, L.KeccakF;
    ghost var m := msg[..116];
    var block := new byte[136];
    for i := 0 to 116
      invariant msg[..116] == m
      invariant forall k | 0 <= k < i :: block[k] == m[k]
    {
      block[i] := msg[i];
    }
    for i := 116 to 136
      invariant forall k | 0 <= k < i :: block[k] == if k < 116 then m[k] else 0
    {
      block[i] := 0;
    }
    block[116] := S.XorByte(block[116], 0x01);
    block[135] := S.XorByte(block[135], 0x80);
    assert block[..] == S.PadBlock(m);
    S.HashIsKeccak256(m);
    HashBlock(block, out);
    assert block[..] == S.PadBlock(m);
  }
}
