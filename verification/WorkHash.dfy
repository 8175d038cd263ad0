/** The acceptance rule: keccak256(miner || nonce || prevWork || anchorHash) < target.

    The first half is the Python reference (miner.py, verify_local of
    gpu_hunter_continuous.py); the second is the template and nonce splice of the
    C and CUDA programs; the lemmas say that both accept the same nonces. */
module WorkHash {
  import opened Words
  import opened Codecs
  import F = Fips202
  import B = BigEndian

  const LIMIT: nat := 0x1_0000000000000000_0000000000000000_0000000000000000_0000000000000000

  datatype Error = OverflowError | ValueError
  datatype Result<+T> = Ok(value: T) | Raised(error: Error)

  // ---------- the Python reference ----------

  // A number as 32 big-endian bytes; Python raises when it does not fit.
  function ToBytes32(n: int): Result<seq<byte>> {
    if 0 <= n < LIMIT then Ok(B.Bytes(n, 32)) else Raised(OverflowError)
  }

  // work_hash_int: the hash of the packed preimage as an integer.
  function WorkHashInt(miner: seq<byte>, nonce: int, prevWork: int, anchor: seq<byte>): Result<nat> {
    match (ToBytes32(nonce), ToBytes32(prevWork))
    case (Ok(n), Ok(p)) => Ok(B.Value(F.Keccak256(miner + n + p + anchor)))
    case _ => Raised(OverflowError)
  }

  // verify_local: addr is "0x" and hexadecimal digits of either case.
  function VerifyLocal(addr: string, nonce: int, prevWork: int, anchor: seq<byte>, target: int): Result<bool> {
    match FromHex(if |addr| < 2 then [] else addr[2..])
    case None => Raised(ValueError)
    case Some(miner) =>
      match WorkHashInt(miner, nonce, prevWork, anchor)
      case Ok(h) => Ok(h < target)
      case Raised(e) => Raised(e)
  }

  // ---------- a job, and which nonces win it ----------

  datatype Job = Job(miner: seq<byte>, prevWork: nat, anchor: seq<byte>, target: nat) {
    predicate Valid() {
      |miner| == 20 && |anchor| == 32 && prevWork < LIMIT && target < LIMIT
    }
  }

  type ValidJob = j: Job | j.Valid() witness Job(seq(20, _ => 0), 0, seq(32, _ => 0), 0)

  // The 116-byte preimage.
  function Packed(job: Job, nonce: nat): (m: seq<byte>)
    requires job.Valid()
    ensures |m| == 116
  {
    job.miner + B.Bytes(nonce, 32) + B.Bytes(job.prevWork, 32) + job.anchor
  }

  function Digest(job: Job, nonce: nat): (d: seq<byte>)
    requires job.Valid()
    ensures |d| == 32
  {
    F.Keccak256(Packed(job, nonce))
  }

  predicate Wins(job: Job, nonce: nat)
    requires job.Valid()
  {
    B.Value(Digest(job, nonce)) < job.target
  }

  lemma LimitIsPow()
    ensures B.Pow256(32) == LIMIT && B.Pow256(8) == U64_MODULUS
  {
    assert B.Pow256(8) == U64_MODULUS;
    assert B.Pow256(16) == 0x1_0000000000000000_0000000000000000;
    assert B.Pow256(24) == 0x1_0000000000000000_0000000000000000_0000000000000000;
  }

  // Different inputs have different preimages.
  lemma PackedInjective(j: Job, m: nat, k: Job, n: nat)
    requires j.Valid() && k.Valid() && m < LIMIT && n < LIMIT && Packed(j, m) == Packed(k, n)
    ensures j.miner == k.miner && m == n && j.prevWork == k.prevWork && j.anchor == k.anchor
  {
    hide B.Bytes;
    var p, q := Packed(j, m), Packed(k, n);
    assert j.miner == p[..20] == q[..20] == k.miner;
    assert B.Bytes(m, 32) == p[20..52] == q[20..52] == B.Bytes(n, 32);
    assert B.Bytes(j.prevWork, 32) == p[52..84] == q[52..84] == B.Bytes(k.prevWork, 32);
    assert j.anchor == p[84..] == q[84..] == k.anchor;
    LimitIsPow();
    B.BytesInjective(m, n, 32);
    B.BytesInjective(j.prevWork, k.prevWork, 32);
  }

  // The reference accepts exactly the winning nonces.
  lemma VerifyLocalIsWins(addr: string, nonce: nat, job: Job)
    requires job.Valid() && nonce < LIMIT && |addr| == 42 && FromHex(addr[2..]) == Some(job.miner)
    ensures VerifyLocal(addr, nonce, job.prevWork, job.anchor, job.target) == Ok(Wins(job, nonce))
  {
    hide B.Value, F.Keccak256, B.Bytes;
  }

  // ---------- the C and CUDA template ----------

  // miner | 32 zero bytes | prevWork | anchorHash
  function Template(miner: seq<byte>, prev: seq<byte>, anchor: seq<byte>): seq<byte> {
    miner + seq(32, _ => 0) + prev + anchor
  }

  // The nonce goes in from its lowest byte, at position 51, upwards.
  method SpliceNonce(pre: array<byte>, nonce: nat)
    requires pre.Length == 116 && nonce < U64_MODULUS
    modifies pre
    ensures pre[..] == old(pre[..44]) + B.Bytes(nonce, 8) + old(pre[52..])
  {
    hide B.Bytes, B.Pow256;
    for b := 0 to 8
      invariant forall k | 0 <= k < 116 && !(51 - b < k < 52) :: pre[k] == old(pre[k])
      invariant forall k | 51 - b < k < 52 :: pre[k] == B.Bytes(nonce, 8)[k - 44]
    {
      B.BytesAt(nonce, 8, b);
      pre[51 - b] := (nonce / B.Pow256(b) % 256) as byte;
    }
  }

  // A template with a nonce spliced in is the packed preimage of that nonce.
  lemma SplicedIsPacked(job: Job, nonce: nat, pre: seq<byte>)
    requires job.Valid() && nonce < U64_MODULUS && |pre| == 116
    requires pre[..44] == job.miner + seq(24, _ => 0)
    requires pre[44..52] == B.Bytes(nonce, 8)
    requires pre[52..] == B.Bytes(job.prevWork, 32) + job.anchor
    ensures pre == Packed(job, nonce)
  {
    hide B.Bytes;
    LimitIsPow();
    B.LeadingZeros(nonce, 8, 24);
    assert pre == pre[..44] + pre[44..52] + pre[52..];
  }
}
