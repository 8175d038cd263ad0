/** Difficulty bits: 256 - target.bit_length(), as chain.py and
    gpu_hunter_continuous.py compute them. */
module Difficulty {
  import opened Words
  import opened WorkHash
  import B = BigEndian
  import V = WordValues

  // int.bit_length() of a non-negative number.
  function BitLength(n: nat): nat {
    if n == 0 then 0 else 1 + BitLength(n / 2)
  }

  function TargetBits(target: nat): int {
    256 - BitLength(target)
  }

  lemma {:induction false} BitLengthBounds(n: nat)
    ensures n < Pow2(BitLength(n))
    ensures n > 0 ==> BitLength(n) > 0 && Pow2(BitLength(n) - 1) <= n
  {
    if n > 0 {
      BitLengthBounds(n / 2);
    }
  }

  lemma {:induction false} Pow2Monotone(a: nat, b: nat)
    requires a <= b
    ensures Pow2(a) <= Pow2(b)
  {
    if a < b {
      Pow2Monotone(a, b - 1);
    }
  }

  // Bit length is the only number with these bounds.
  lemma BitLengthUnique(n: nat, k: nat)
    requires n > 0 && k > 0 && Pow2(k - 1) <= n < Pow2(k)
    ensures BitLength(n) == k
  {
    BitLengthBounds(n);
    if BitLength(n) < k {
      Pow2Monotone(BitLength(n), k - 1);
    } else if BitLength(n) > k {
      Pow2Monotone(k, BitLength(n) - 1);
    }
  }

  lemma LimitIsPow2()
    ensures LIMIT == Pow2(256)
  {
    LimitIsPow();
    V.Pow256IsPow2(32);
  }

  // 2^bits * target < 2^256 <= 2^(bits + 1) * target: the chance of a hash is between 2^-(bits + 1) and 2^-bits.
  lemma BitsBracketTarget(target: nat)
    requires 0 < target < LIMIT
    ensures 0 <= TargetBits(target) < 256
    ensures Pow2(TargetBits(target)) * target < LIMIT <= Pow2(TargetBits(target) + 1) * target
  {
    hide BitLength, Pow2;
    LimitIsPow2();
    BitLengthBounds(target);
    var len := BitLength(target);
    LengthAtMost256(target);
    var bits := 256 - len;
    V.Pow2Adds(bits, len);
    V.Pow2Adds(bits + 1, len - 1);
    MultiplyLess(Pow2(bits), target, Pow2(len));
    MultiplyLess(Pow2(bits + 1), Pow2(len - 1) - 1, target);
  }

  lemma LengthAtMost256(target: nat)
    requires target < LIMIT
    ensures BitLength(target) <= 256
  {
    LimitIsPow2();
    BitLengthBounds(target);
    if BitLength(target) > 256 {
      Pow2Monotone(256, BitLength(target) - 1);
    }
  }

  lemma MultiplyLess(p: nat, a: int, b: int)
    requires p > 0 && a < b
    ensures p * a < p * b && p * (a + 1) <= p * b
  {
  }

  // ---------- leading zero bits ----------

  // Bit k of a byte string, most significant bit of the first byte first.
  function DigestBit(d: seq<byte>, k: nat): bool
    requires k < 8 * |d|
  {
    ByteBits(d[k / 8])[7 - k % 8]
  }

  lemma {:induction false} HighBitsZero(n: nat, w: nat, j: nat, i: nat)
    requires n < Pow2(j) && j <= i < w
    ensures !NatBits(n, w)[i]
  {
    if j == 0 {
      ZeroBits(w, i);
    } else {
      HighBitsZero(n / 2, w - 1, j - 1, i - 1);
    }
  }

  lemma {:induction false} ZeroBits(w: nat, i: nat)
    requires i < w
    ensures !NatBits(0, w)[i]
  {
    if i > 0 {
      ZeroBits(w - 1, i - 1);
    }
  }

  lemma FrontBelow(v: nat, front: nat, last: nat, e: nat)
    requires v == 256 * front + last && v < Pow2(e) && e >= 8
    ensures front < Pow2(e - 8)
  {
    V.Pow2Adds(8, e - 8);
    assert Pow2(8) == 256;
  }

  // A number below 2^(8n - k), written as n bytes, starts with k zero bits.
  lemma {:induction false} SmallValueLeadingZeros(d: seq<byte>, k: nat, i: nat)
    requires i < k <= 8 * |d| && B.Value(d) < Pow2(8 * |d| - k)
    ensures !DigestBit(d, i)
    decreases |d|
  {
    hide NatBits, Pow2;
    var n := |d| - 1;
    var front, last, e := d[..n], d[n] as nat, 8 * |d| - k;
    if i < 8 * n {
      var m := if k <= 8 * n then k else 8 * n;
      if e >= 8 {
        FrontBelow(B.Value(d), B.Value(front), last, e);
      } else {
        Pow2Monotone(e, 8);
        FrontBelow(B.Value(d), B.Value(front), last, 8);
      }
      SmallValueLeadingZeros(front, m, i);
      assert DigestBit(front, i) == DigestBit(d, i);
    } else {
      assert last < Pow2(e);
      HighBitsZero(last, 8, e, 7 - i % 8);
    }
  }

  // Any nonce that wins a job of `bits` difficulty bits has that many leading zero bits in its digest.
  lemma WinnerHasLeadingZeros(job: ValidJob, nonce: nat, i: nat)
    requires Wins(job, nonce) && i < TargetBits(job.target)
    ensures i < 256 && !DigestBit(Digest(job, nonce), i)
  {
    hide BitLength, Digest, DigestBit;
    var len := BitLength(job.target);
    LengthAtMost256(job.target);
    BitLengthBounds(job.target);
    SmallValueLeadingZeros(Digest(job, nonce), 256 - len, i);
  }

  lemma {:induction false} LowBitsBound(n: nat, w: nat, j: nat)
    requires n < Pow2(w) && j <= w && forall i | j <= i < w :: !NatBits(n, w)[i]
    ensures n < Pow2(j)
  {
    if w > 0 {
      var s, t := NatBits(n, w), NatBits(n / 2, w - 1);
      assert s[1..] == t;
      var low := if j == 0 then 0 else j - 1;
      forall i: nat | low <= i < w - 1
        ensures !t[i]
      {
        assert !s[i + 1];
      }
      if j == 0 {
        assert !s[0];
      }
      LowBitsBound(n / 2, w - 1, low);
    }
  }

  // Conversely, a byte string that starts with k zero bits is below 2^(8n - k).
  lemma {:induction false} LeadingZerosSmallValue(d: seq<byte>, k: nat)
    requires k <= 8 * |d| && forall i | 0 <= i < k :: !DigestBit(d, i)
    ensures B.Value(d) < Pow2(8 * |d| - k)
    decreases |d|
  {
    hide NatBits, Pow2;
    if d == [] {
      PowOfZero();
    } else {
      var n := |d| - 1;
      var front, last, e := d[..n], d[n] as nat, 8 * |d| - k;
      var m := if k <= 8 * n then k else 8 * n;
      forall i | 0 <= i < m
        ensures !DigestBit(front, i)
      {
        assert DigestBit(front, i) == DigestBit(d, i);
      }
      LeadingZerosSmallValue(front, m);
      if e >= 8 {
        JoinByte(B.Value(front), last, e);
      } else {
        PowOfZero();
        ByteTopZero(d[n], e, d, n, k);
      }
    }
  }

  lemma PowOfZero()
    ensures Pow2(0) == 1 && Pow2(8) == 256
  {
  }

  lemma JoinByte(front: nat, last: nat, e: nat)
    requires e >= 8 && front < Pow2(e - 8) && last < 256
    ensures 256 * front + last < Pow2(e)
  {
    V.Pow2Adds(8, e - 8);
    PowOfZero();
  }

  lemma ByteTopZero(b: byte, e: nat, d: seq<byte>, n: nat, k: nat)
    requires n == |d| - 1 && d[n] == b && e == 8 * |d| - k && e < 8 && k <= 8 * |d|
    requires forall i | 0 <= i < k :: !DigestBit(d, i)
    ensures b as nat < Pow2(e)
  {
    hide NatBits, Pow2;
    PowOfZero();
    var bits := ByteBits(b);
    forall i: nat | e <= i < 8
      ensures !bits[i]
    {
      assert !DigestBit(d, 8 * n + 7 - i);
    }
    LowBitsBound(b as nat, 8, e);
  }

  // One zero bit more than the difficulty is enough to win.
  lemma LeadingZerosWin(job: ValidJob, nonce: nat)
    requires job.target > 0
    requires forall i | 0 <= i <= TargetBits(job.target) :: i < 256 && !DigestBit(Digest(job, nonce), i)
    ensures Wins(job, nonce)
  {
    hide BitLength, Digest, DigestBit;
    var len := BitLength(job.target);
    LengthAtMost256(job.target);
    BitLengthBounds(job.target);
    LeadingZerosSmallValue(Digest(job, nonce), 257 - len);
  }

  lemma ShiftedTarget(p: nat, q: nat, n: nat)
    requires p > 0 && q > 0 && p * q == n
    ensures (n - 1) / p == q - 1
  {
    assert n - 1 == p * (q - 1) + (p - 1);
    B.QuotientUnique(n - 1, p, q - 1, p - 1);
  }

  // The self-test target ((1 << 256) - 1) >> b has exactly b difficulty bits.
  lemma ShiftedTargetBits(b: nat)
    requires b <= 256
    ensures TargetBits((LIMIT - 1) / Pow2(b)) == b
  {
    hide BitLength, Pow2;
    LimitIsPow2();
    V.Pow2Adds(b, 256 - b);
    ShiftedTarget(Pow2(b), Pow2(256 - b), LIMIT);
    AllOnesLength(256 - b);
  }

  lemma AllOnesLength(k: nat)
    ensures BitLength(Pow2(k) - 1) == k
  {
    if k > 0 {
      BitLengthUnique(Pow2(k) - 1, k);
    }
  }
}
