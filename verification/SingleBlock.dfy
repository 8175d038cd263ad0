/** Keccak-256 of a message that fits one 136-byte block: padding, lane loading
    and squeezing as the C code does them, and the proof that the result is the
    sponge KECCAK[512](M, 256) of FIPS 202 for every message of at most 135 bytes. */
module SingleBlock {
  import opened Words
  import F = Fips202
  import L = KeccakLanes
  import R = KeccakRefinement
  import C = RoundConstants

  function XorByte(a: byte, b: byte): byte {
    ByteOfBits(F.XorBits(ByteBits(a), ByteBits(b)))
  }

  // The message, zeros, and two bytes XORed in: 0x01 after the message and 0x80 at the end.  At length 135 both go into
  // the same byte.
  function PadBlock(msg: seq<byte>): (block: seq<byte>)
    requires |msg| < 136
    ensures |block| == 136
  {
    var b0 := msg + seq(136 - |msg|, _ => 0);
    var b1 := b0[|msg| := XorByte(b0[|msg|], 0x01)];
    b1[135 := XorByte(b1[135], 0x80)]
  }

  // Lane i of a block: its eight bytes, least significant first.
  function LoadLane(block: seq<byte>, i: nat): Lane
    requires |block| == 136 && i < 17
  {
    seq(64, z requires 0 <= z < 64 => ByteBits(block[8 * i + z / 8])[z % 8])
  }

  function LoadBlock(block: seq<byte>): L.LaneState
    requires |block| == 136
  {
    seq(25, i requires 0 <= i < 25 => if i < 17 then LoadLane(block, i) else ZERO)
  }

  // Byte b of a lane, counted from the lowest.
  function StoreByte(lane: Lane, b: nat): byte
    requires b < 8
  {
    ByteOfBits(Shr64(lane, 8 * b)[..8])
  }

  function StoreDigest(s: L.LaneState): (out: seq<byte>)
    ensures |out| == 32
  {
    seq(32, k requires 0 <= k < 32 => StoreByte(s[k / 8], k % 8))
  }

  function Hash(msg: seq<byte>): (out: seq<byte>)
    requires |msg| < 136
    ensures |out| == 32
  {
    StoreDigest(L.KeccakF(LoadBlock(PadBlock(msg))))
  }

  // ---------- bytes and bits ----------

  lemma {:induction false} BytesToBitsAt(m: seq<byte>, k: nat)
    requires k < 8 * |m|
    ensures F.BytesToBits(m)[k] == ByteBits(m[k / 8])[k % 8]
  {
    hide ByteBits;
    if k >= 8 {
      BytesToBitsAt(m[1..], k - 8);
      assert (k - 8) / 8 == k / 8 - 1 && (k - 8) % 8 == k % 8;
    }
  }

  lemma {:induction false} BitsToBytesAt(s: F.Bits, i: nat)
    requires |s| % 8 == 0 && 8 * i < |s|
    ensures 8 * i + 8 <= |s| && F.BitsToBytes(s)[i] == ByteOfBits(s[8 * i..8 * i + 8])
  {
    hide ByteOfBits;
    if i > 0 {
      BitsToBytesAt(s[8..], i - 1);
      assert s[8..][8 * (i - 1)..8 * (i - 1) + 8] == s[8 * i..8 * i + 8];
    }
  }

  lemma XorByteBits(a: byte, b: byte)
    ensures ByteBits(XorByte(a, b)) == F.XorBits(ByteBits(a), ByteBits(b))
  {
    ByteBitsOfByte(F.XorBits(ByteBits(a), ByteBits(b)));
  }

  lemma PaddingBits()
    ensures ByteBits(0) == F.Zeros(8)
    ensures ByteBits(0x01) == F.Zeros(8)[0 := true]
    ensures ByteBits(0x80) == F.Zeros(8)[7 := true]
  {
    hide NatBits, BitsValue;
    C.ZerosValue(8);
    C.Powers();
    C.SetBitValue(F.Zeros(8), 0, true);
    C.SetBitValue(F.Zeros(8), 7, true);
    BitsOfValue(F.Zeros(8));
    BitsOfValue(F.Zeros(8)[0 := true]);
    BitsOfValue(F.Zeros(8)[7 := true]);
  }

  // ---------- padding ----------

  // The bits of the padded block: message, 1, zeros, 1.
  function PaddedBits(msg: seq<byte>): (P: F.Bits)
    requires |msg| < 136
    ensures |P| == 1088
  {
    F.BytesToBits(msg) + [true] + F.Zeros(1086 - 8 * |msg|) + [true]
  }

  lemma PadIsPaddedBits(msg: seq<byte>)
    requires |msg| < 136
    ensures F.BytesToBits(msg) + F.Pad101(1088, 8 * |msg|) == PaddedBits(msg)
  {
    hide F.BytesToBits;
    PadLength(8 * |msg|);
    assert F.Pad101(1088, 8 * |msg|) == [true] + F.Zeros(1086 - 8 * |msg|) + [true];
  }

  lemma PadLength(m: nat)
    requires m <= 1086
    ensures (-(m as int) - 2) % 1088 == 1086 - m
  {
    assert -(m as int) - 2 == 1086 - m + 1088 * -1;
  }

  // Byte i of a padded block, bit by bit.
  lemma PadBlockByte(msg: seq<byte>, i: nat)
    requires |msg| < 136 && i < 136
    ensures i < |msg| ==> PadBlock(msg)[i] == msg[i]
    ensures i >= |msg| ==> ByteBits(PadBlock(msg)[i]) == F.Zeros(8)[0 := i == |msg|][7 := i == 135]
  {
    hide ByteBits, XorByte;
    var zero: byte := 0;
    PaddingBits();
    XorByteBits(zero, 0x01);
    XorByteBits(zero, 0x80);
    XorByteBits(XorByte(zero, 0x01), 0x80);
    assert F.XorBits(F.Zeros(8), F.Zeros(8)[0 := true]) == F.Zeros(8)[0 := true];
    assert F.XorBits(F.Zeros(8), F.Zeros(8)[7 := true]) == F.Zeros(8)[7 := true];
    assert F.XorBits(F.Zeros(8)[0 := true], F.Zeros(8)[7 := true]) == F.Zeros(8)[0 := true][7 := true];
    assert F.Zeros(8)[0 := false] == F.Zeros(8) && F.Zeros(8)[7 := false] == F.Zeros(8);
    assert F.Zeros(8)[0 := true][7 := false] == F.Zeros(8)[0 := true];
  }

  lemma PadBlockBits(msg: seq<byte>)
    requires |msg| < 136
    ensures F.BytesToBits(PadBlock(msg)) == PaddedBits(msg)
  {
    hide PadBlock, PaddedBits, F.BytesToBits;
    var s := F.BytesToBits(PadBlock(msg));
    forall k: nat | k < 1088
      ensures s[k] == PaddedBits(msg)[k]
    {
      PadBlockBit(msg, k);
    }
  }

  lemma PadBlockBit(msg: seq<byte>, k: nat)
    requires |msg| < 136 && k < 1088
    ensures F.BytesToBits(PadBlock(msg))[k] == PaddedBits(msg)[k]
  {
    hide PadBlock, ByteBits, F.BytesToBits;
    BytesToBitsAt(PadBlock(msg), k);
    PadBlockByte(msg, k / 8);
    if k < 8 * |msg| {
      BytesToBitsAt(msg, k);
    } else {
      var i, b := k / 8, k % 8;
      assert F.Zeros(8)[0 := i == |msg|][7 := i == 135][b] == (k == 8 * |msg| || k == 1087);
    }
  }

  // ---------- padding can be undone ----------

  function TrimZeros(b: seq<byte>): (t: seq<byte>)
    ensures t <= b && (t != [] ==> t[|t| - 1] != 0)
  {
    if b == [] || b[|b| - 1] != 0 then b else TrimZeros(b[..|b| - 1])
  }

  // Clear the final bit, drop the zeros, drop the marker byte.
  function Unpad(block: seq<byte>): seq<byte>
    requires |block| == 136
  {
    var t := TrimZeros(block[135 := XorByte(block[135], 0x80)]);
    if t == [] then [] else t[..|t| - 1]
  }

  lemma XorByteTwice(a: byte, b: byte)
    ensures XorByte(XorByte(a, b), b) == a
  {
    hide ByteBits, ByteOfBits;
    XorByteBits(a, b);
    assert F.XorBits(F.XorBits(ByteBits(a), ByteBits(b)), ByteBits(b)) == ByteBits(a);
    ByteOfByteBits(a);
  }

  lemma {:induction false} TrimZerosRun(m: seq<byte>, c: byte, n: nat)
    requires c != 0
    ensures TrimZeros(m + [c] + seq(n, _ => 0)) == m + [c]
  {
    var b := m + [c] + seq(n, _ => 0);
    if n == 0 {
      assert b == m + [c];
    } else {
      assert b[..|b| - 1] == m + [c] + seq(n - 1, _ => 0);
      TrimZerosRun(m, c, n - 1);
    }
  }

  lemma UnpadUndoesPad(msg: seq<byte>)
    requires |msg| < 136
    ensures Unpad(PadBlock(msg)) == msg
  {
    hide XorByte;
    var c := XorByte(0, 0x01);
    XorByteTwice(0, 0x01);
    var b0 := msg + seq(136 - |msg|, _ => 0);
    var b1 := b0[|msg| := c];
    XorByteTwice(b1[135], 0x80);
    assert PadBlock(msg)[135 := XorByte(PadBlock(msg)[135], 0x80)] == b1;
    assert b1 == msg + [c] + seq(135 - |msg|, _ => 0);
    MarkerNonZero();
    TrimZerosRun(msg, c, 135 - |msg|);
  }

  lemma MarkerNonZero()
    ensures XorByte(0, 0x01) != 0
  {
    XorByteBits(0, 0x01);
    PaddingBits();
  }

  // Different messages of at most 135 bytes give different blocks.
  lemma PaddingInjective(m: seq<byte>, n: seq<byte>)
    requires |m| < 136 && |n| < 136 && PadBlock(m) == PadBlock(n)
    ensures m == n
  {
    UnpadUndoesPad(m);
    UnpadUndoesPad(n);
  }

  // ---------- the sponge of one block ----------

  lemma LoadBlockBits(block: seq<byte>)
    requires |block| == 136
    ensures R.Flatten(LoadBlock(block)) == F.BytesToBits(block) + F.Zeros(512)
  {
    forall k: nat | k < 1600
      ensures R.Flatten(LoadBlock(block))[k] == (F.BytesToBits(block) + F.Zeros(512))[k]
    {
      LoadBlockBit(block, k);
    }
  }

  lemma LoadBlockBit(block: seq<byte>, k: nat)
    requires |block| == 136 && k < 1600
    ensures LoadBlock(block)[k / 64][k % 64] == (F.BytesToBits(block) + F.Zeros(512))[k]
  {
    hide ByteBits, F.BytesToBits;
    if k < 1088 {
      BytesToBitsAt(block, k);
      var i, z := k / 64, k % 64;
      assert 8 * i + z / 8 == k / 8 && z % 8 == k % 8;
      assert LoadLane(block, i)[z] == ByteBits(block[8 * i + z / 8])[z % 8];
    }
  }

  lemma StoreDigestBits(s: L.LaneState)
    ensures StoreDigest(s) == F.BitsToBytes(R.Flatten(s)[..256])
  {
    var out := F.BitsToBytes(R.Flatten(s)[..256]);
    forall i: nat | i < 32
      ensures StoreDigest(s)[i] == out[i]
    {
      hide ByteOfBits;
      BitsToBytesAt(R.Flatten(s)[..256], i);
      StoreByteBits(s, i);
    }
  }

  lemma StoreByteBits(s: L.LaneState, i: nat)
    requires i < 32
    ensures Shr64(s[i / 8], 8 * (i % 8))[..8] == R.Flatten(s)[..256][8 * i..8 * i + 8]
  {
    var a, b := Shr64(s[i / 8], 8 * (i % 8))[..8], R.Flatten(s)[..256][8 * i..8 * i + 8];
    forall k: nat | k < 8
      ensures a[k] == b[k]
    {
      var n := 8 * i + k;
      assert n / 64 == i / 8 && n % 64 == 8 * (i % 8) + k;
      assert b[k] == R.Flatten(s)[n] == s[i / 8][8 * (i % 8) + k];
      assert a[k] == Shr64(s[i / 8], 8 * (i % 8))[k];
    }
  }

  lemma AbsorbOne(P: F.Bits)
    requires |P| == 1088
    ensures F.Absorb(F.Zeros(1600), P, 1088) == F.KeccakF1600(P + F.Zeros(512))
  {
    hide F.KeccakF1600;
    assert F.XorBits(F.Zeros(1600), P[..1088] + F.Zeros(512)) == P + F.Zeros(512);
    assert |P[1088..]| == 0;
  }

  lemma SqueezeOne(S: F.State)
    ensures F.Squeeze(S, [], 1088, 256) == S[..256]
  {
    hide F.KeccakF1600;
    assert [] + S[..1088] == S[..1088];
  }

  // The C hash is KECCAK[512](M, 256) for every message shorter than the rate.
  lemma HashIsKeccak256(msg: seq<byte>)
    requires |msg| < 136
    ensures Hash(msg) == F.Keccak256(msg)
  {
    hide F.Absorb, F.Squeeze, F.KeccakF1600, F.BytesToBits, F.BitsToBytes, F.Pad101;
    hide R.Flatten, L.KeccakF, LoadBlock, PadBlock;
    var P := PaddedBits(msg);
    var s := LoadBlock(PadBlock(msg));
    PadIsPaddedBits(msg);
    PadBlockBits(msg);
    LoadBlockBits(PadBlock(msg));
    R.KeccakFRefines(s);
    StoreDigestBits(L.KeccakF(s));
    AbsorbOne(P);
    SqueezeOne(F.KeccakF1600(P + F.Zeros(512)));
  }
}
