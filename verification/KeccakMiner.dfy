/** main() of keccak_miner.c: argument parsing, the preimage template, and the
    search of one nonce lane.

    The C loop has no end of its own.  `fuel` is the number of iterations the
    process is given before its parent terminates it; `clock(k)` is whatever the
    monotonic clock shows after k hashes.  Both are arbitrary. */
module KeccakMiner {
  import opened Words
  import opened Codecs
  import opened WorkHash
  import F = Fips202
  import B = BigEndian
  import H = HashInPlace

  const REPORT: nat := 0x40_0000

  datatype Outcome =
    | Usage                // argc < 7, exit 2
    | BadArgument          // a hexadecimal argument does not scan, exit 2
    | Found(nonce: nat)    // "FOUND <nonce>", exit 0
    | NoneFound            // "NONE", exit 1
    | Killed               // terminated from outside

  // The nonce of iteration k: an unsigned 64-bit counter that wraps.
  function NonceAt(start: nat, stride: nat, k: nat): (n: nat)
    ensures n < U64_MODULUS
  {
    (start + k * stride) % U64_MODULUS
  }

  // The time test after k hashes.  The report threshold is never advanced, so from
  // REPORT hashes on (of the wrapping counter) it is made after every hash.
  predicate TimedOut(k: nat, maxSeconds: real, clock: nat -> real) {
    k % U64_MODULUS >= REPORT && maxSeconds > 0.0 && clock(k) > maxSeconds
  }

  // The job that the first four arguments describe.
  function JobOf(args: seq<string>): (r: Option<Job>)
    requires |args| >= 4
    ensures r.Some? ==> r.value.Valid()
  {
    match (HexBytes(args[0], 20), HexBytes(args[1], 32), HexBytes(args[2], 32), HexBytes(args[3], 32))
    case (Some(miner), Some(prev), Some(anchor), Some(target)) =>
      LimitIsPow();
      B.ValueBound(prev);
      B.ValueBound(target);
      Some(Job(miner, B.Value(prev), anchor, B.Value(target)))
    case _ => None
  }

  // The first k nonces of the lane lose, and no time test before the last of them succeeded.
  ghost predicate Searched(job: Job, start: nat, stride: nat, maxSeconds: real, clock: nat -> real, k: nat)
    requires job.Valid()
  {
    && (forall j: nat | j < k :: !Wins(job, NonceAt(start, stride, j)))
    && (forall j: nat | 0 < j < k :: !TimedOut(j, maxSeconds, clock))
  }

  // What a run may report: Found is the first winner of the lane, NoneFound and Killed mean that
  // every nonce tried lost.
  ghost predicate LaneOutcome(job: Job, start: nat, stride: nat, maxSeconds: real, clock: nat -> real, fuel: nat,
                              o: Outcome, k: nat)
    requires job.Valid()
  {
    && Searched(job, start, stride, maxSeconds, clock, k)
    && match o
       case Found(n) =>
         k < fuel && n == NonceAt(start, stride, k) && Wins(job, n) && (k > 0 ==> !TimedOut(k, maxSeconds, clock))
       case NoneFound => 0 < k <= fuel && TimedOut(k, maxSeconds, clock)
       case Killed => k == fuel && (k > 0 ==> !TimedOut(k, maxSeconds, clock))
       case _ => false
  }

  // The clock does not pass the limit at any test up to hash q: after 2^22 hashes and each one more, as long as the
  // counter does not wrap.
  ghost predicate InTime(maxSeconds: real, clock: nat -> real, q: nat) {
    forall j: nat | 0 < j <= q && j % U64_MODULUS >= 0x40_0000 :: maxSeconds <= 0.0 || clock(j) <= maxSeconds
  }

  // The outcome in terms of nonces and clock: every nonce before k lost, and the clock was in time before; FOUND is the
  // k-th nonce, and wins; NONE comes after at least 2^22 hashes, when the clock has passed a positive limit.
  lemma LaneMeans(job: Job, start: nat, stride: nat, maxSeconds: real, clock: nat -> real, fuel: nat,
                  o: Outcome, k: nat)
    requires job.Valid() && LaneOutcome(job, start, stride, maxSeconds, clock, fuel, o, k)
    ensures k <= fuel && forall j: nat | j < k :: !Wins(job, (start + j * stride) % U64_MODULUS)
    ensures k > 0 ==> InTime(maxSeconds, clock, k - 1)
    ensures o.Found? ==>
              && k < fuel && o.nonce == (start + k * stride) % U64_MODULUS && Wins(job, o.nonce)
              && InTime(maxSeconds, clock, k)
    ensures o.NoneFound? ==>
              k >= 0x40_0000 && k % U64_MODULUS >= 0x40_0000 && maxSeconds > 0.0 && clock(k) > maxSeconds
    ensures o.Killed? ==> k == fuel && InTime(maxSeconds, clock, k)
    ensures o.Found? || o.NoneFound? || o.Killed?
  {
    hide Wins, InTime;
    forall j: nat | j < k
      ensures !Wins(job, (start + j * stride) % U64_MODULUS)
    {
      assert !Wins(job, NonceAt(start, stride, j));
    }
    if k > 0 {
      InTimeIs(maxSeconds, clock, k - 1);
    }
    InTimeIs(maxSeconds, clock, k);
    if o.NoneFound? {
      ModuloBelow(k);
    }
  }

  lemma InTimeIs(maxSeconds: real, clock: nat -> real, q: nat)
    ensures InTime(maxSeconds, clock, q) <==> forall j: nat | 0 < j <= q :: !TimedOut(j, maxSeconds, clock)
  {
    if forall j: nat | 0 < j <= q :: !TimedOut(j, maxSeconds, clock) {
      forall j: nat | 0 < j <= q && j % U64_MODULUS >= 0x40_0000
        ensures maxSeconds <= 0.0 || clock(j) <= maxSeconds
      {
        assert !TimedOut(j, maxSeconds, clock);
      }
    }
  }

  lemma InTimeSooner(maxSeconds: real, clock: nat -> real, q: nat, n: nat)
    requires q <= n && InTime(maxSeconds, clock, n)
    ensures InTime(maxSeconds, clock, q)
  {
  }

  lemma ModuloBelow(k: nat)
    ensures k % U64_MODULUS <= k
  {
  }

  // Conversely, a lane without a winner among its first n nonces stops with NONE at the first test that the clock
  // fails.
  lemma LaneStops(job: Job, start: nat, stride: nat, maxSeconds: real, clock: nat -> real, fuel: nat,
                  o: Outcome, k: nat, n: nat)
    requires job.Valid() && LaneOutcome(job, start, stride, maxSeconds, clock, fuel, o, k)
    requires 0 < n <= fuel && n % U64_MODULUS >= 0x40_0000 && maxSeconds > 0.0 && clock(n) > maxSeconds
    requires InTime(maxSeconds, clock, n - 1)
    requires forall j: nat | j < n :: !Wins(job, (start + j * stride) % U64_MODULUS)
    ensures o.NoneFound? && k == n
  {
    hide Wins, InTime;
    InTimeIs(maxSeconds, clock, n - 1);
    forall j: nat | j < n
      ensures !Wins(job, NonceAt(start, stride, j))
    {
      assert NonceAt(start, stride, j) == (start + j * stride) % U64_MODULUS;
    }
    assert TimedOut(n, maxSeconds, clock);
  }

  // A lane that is neither stopped nor timed out reaches its first winner.
  lemma LaneFinds(job: Job, start: nat, stride: nat, maxSeconds: real, clock: nat -> real, fuel: nat,
                  o: Outcome, k: nat, q: nat)
    requires job.Valid() && LaneOutcome(job, start, stride, maxSeconds, clock, fuel, o, k)
    requires q < fuel && Wins(job, NonceAt(start, stride, q)) && InTime(maxSeconds, clock, q)
    ensures o.Found? && k <= q && o.nonce == NonceAt(start, stride, k)
  {
    hide Wins, NonceAt, TimedOut, InTime;
    InTimeIs(maxSeconds, clock, q);
  }

  // The buffers of a running miner: a template for job with some nonce in it, and job's target.
  ghost predicate Holds(job: Job, pre: seq<byte>, target: seq<byte>)
    requires job.Valid()
  {
    && |pre| == 116 && |target| == 32
    && pre[..44] == job.miner + seq(24, _ => 0)
    && pre[52..] == B.Bytes(job.prevWork, 32) + job.anchor
    && B.Value(target) == job.target
  }

  lemma NothingSearched(job: Job, start: nat, stride: nat, maxSeconds: real, clock: nat -> real)
    requires job.Valid()
    ensures Searched(job, start, stride, maxSeconds, clock, 0)
  {
  }

  lemma SearchedOneMore(job: Job, start: nat, stride: nat, maxSeconds: real, clock: nat -> real, k: nat)
    requires job.Valid() && Searched(job, start, stride, maxSeconds, clock, k)
    requires !Wins(job, NonceAt(start, stride, k)) && (k > 0 ==> !TimedOut(k, maxSeconds, clock))
    ensures Searched(job, start, stride, maxSeconds, clock, k + 1)
  {
    hide Wins, NonceAt, TimedOut;
  }

  // One iteration: splice, hash, compare.
  method TryNonce(ghost job: Job, pre: array<byte>, out: array<byte>, target: array<byte>, nonce: nat)
    returns (win: bool)
    requires job.Valid() && nonce < U64_MODULUS && out.Length == 32
    requires pre != out && pre != target && out != target
    requires Holds(job, pre[..], target[..])
    modifies pre, out
    ensures Holds(job, pre[..], target[..])
    ensures pre[..] == Packed(job, nonce)
    ensures out[..] == Digest(job, nonce)
    ensures win == Wins(job, nonce)
  {
    hide B.Bytes, B.Value, F.Keccak256;
    SpliceNonce(pre, nonce);
    SplicedIsPacked(job, nonce, pre[..]);
    assert pre[..116] == pre[..];
    H.Keccak256Single(pre, 116, out);
    win := B.LtBe(out, target);
  }

  method Search(ghost job: Job, pre: array<byte>, target: array<byte>, start: nat, stride: nat,
                maxSeconds: real, clock: nat -> real, fuel: nat)
    returns (o: Outcome, k: nat)
    requires job.Valid() && start < U64_MODULUS && stride < U64_MODULUS && pre != target
    requires Holds(job, pre[..], target[..])
    modifies pre
    ensures LaneOutcome(job, start, stride, maxSeconds, clock, fuel, o, k)
    ensures o.NoneFound? ==> k >= 0x40_0000 && maxSeconds > 0.0 && clock(k) > maxSeconds
  {
    hide Wins, Holds, Packed, Digest, NonceAt, Searched;
    NothingSearched(job, start, stride, maxSeconds, clock);
    var out := new byte[32];
    var nonce, count := start, 0;
    FirstNonce(start, stride);
    k := 0;
    for i := 0 to fuel
      invariant k == i && nonce == NonceAt(start, stride, i) && count == i % U64_MODULUS
      invariant Holds(job, pre[..], target[..])
      invariant Searched(job, start, stride, maxSeconds, clock, i)
      invariant i > 0 ==> !TimedOut(i, maxSeconds, clock)
    {
      var win := TryNonce(job, pre, out, target, nonce);
      if win {
        return Found(nonce), i;
      }
      NextNonce(start, stride, i);
      SearchedOneMore(job, start, stride, maxSeconds, clock, i);
      CountStep(i);
      nonce := (nonce + stride) % U64_MODULUS;
      count := (count + 1) % U64_MODULUS;
      k := i + 1;
      if count >= REPORT && maxSeconds > 0.0 && clock(i + 1) > maxSeconds {
        ModuloBelow(i + 1);
        return NoneFound, i + 1;
      }
    }
    return Killed, fuel;
  }

  lemma CountStep(i: nat)
    ensures (i % U64_MODULUS + 1) % U64_MODULUS == (i + 1) % U64_MODULUS
  {
  }

  lemma FirstNonce(start: nat, stride: nat)
    requires start < U64_MODULUS
    ensures NonceAt(start, stride, 0) == start
  {
  }

  lemma NextNonce(start: nat, stride: nat, k: nat)
    ensures (NonceAt(start, stride, k) + stride) % U64_MODULUS == NonceAt(start, stride, k + 1)
  {
    assert start + (k + 1) * stride == start + k * stride + stride;
  }

  // hex2bin of the four values, and the template.
  method Setup(args: seq<string>) returns (ok: bool, pre: array<byte>, target: array<byte>)
    requires |args| >= 4
    ensures fresh(pre) && fresh(target) && pre != target && pre.Length == 116 && target.Length == 32
    ensures ok == JobOf(args).Some?
    ensures ok ==> Holds(JobOf(args).value, pre[..], target[..])
  {
    hide HexBytes, B.Value, B.Bytes;
    var miner, prev, anchor := new byte[20], new byte[32], new byte[32];
    pre, target := new byte[116], new byte[32];
    ok := Hex2Bin(args[0], miner);
    if !ok { return; }
    ok := Hex2Bin(args[1], prev);
    if !ok { return; }
    ok := Hex2Bin(args[2], anchor);
    if !ok { return; }
    ok := Hex2Bin(args[3], target);
    if !ok { return; }
    pre := BuildTemplate(miner, prev, anchor);
    TemplateHolds(miner[..], prev[..], anchor[..], target[..], pre[..]);
  }

  lemma TemplateHolds(miner: seq<byte>, prev: seq<byte>, anchor: seq<byte>, target: seq<byte>, pre: seq<byte>)
    requires |miner| == 20 && |prev| == 32 && |anchor| == 32 && |target| == 32
    requires pre == Template(miner, prev, anchor)
    ensures var job := Job(miner, B.Value(prev), anchor, B.Value(target)); job.Valid() && Holds(job, pre, target)
  {
    hide B.Value, B.Bytes, Template;
    LimitIsPow();
    B.ValueBound(prev);
    B.ValueBound(target);
    B.BytesOfValue(prev);
    TemplateParts(miner, prev, anchor);
  }

  lemma TemplateParts(miner: seq<byte>, prev: seq<byte>, anchor: seq<byte>)
    requires |miner| == 20 && |prev| == 32 && |anchor| == 32
    ensures var pre := Template(miner, prev, anchor);
            |pre| == 116 && pre[..44] == miner + seq(24, _ => 0) && pre[52..] == prev + anchor
  {
    var zeros: seq<byte> := seq(32, _ => 0);
    assert zeros[..24] == seq(24, _ => 0);
    var pre := Template(miner, prev, anchor);
    assert pre[..44] == miner + zeros[..24];
    assert pre == miner + zeros + (prev + anchor);
  }

  // hex2bin fails on an argument exactly when one of the w places for a first digit has none.
  ghost predicate Readable(hex: string, w: nat) {
    forall i: nat | i < w :: 2 * i < |hex| && HexDigit(hex[2 * i]).Some?
  }

  lemma JobReadable(args: seq<string>)
    requires |args| >= 4
    ensures JobOf(args).Some? <==>
            Readable(args[0], 20) && Readable(args[1], 32) && Readable(args[2], 32) && Readable(args[3], 32)
  {
    hide HexBytes, HexDigit, B.Value;
    HexBytesFail(args[0], 20);
    HexBytesFail(args[1], 32);
    HexBytesFail(args[2], 32);
    HexBytesFail(args[3], 32);
  }

  // args are argv[1..]; the optional seventh is the time limit, 0 when absent.
  method Run(args: seq<string>, atof: string -> real, clock: nat -> real, fuel: nat) returns (o: Outcome, k: nat)
    ensures o == Usage <==> |args| < 6
    ensures o == BadArgument <==>
            && |args| >= 6
            && !(Readable(args[0], 20) && Readable(args[1], 32) && Readable(args[2], 32) && Readable(args[3], 32))
    ensures |args| >= 6 && JobOf(args).Some? ==>
              LaneOutcome(JobOf(args).value, Strtoull(args[4]), Strtoull(args[5]),
                          if |args| > 6 then atof(args[6]) else 0.0, clock, fuel, o, k)
  {
    hide JobOf, Wins, Strtoull, Readable;
    if |args| < 6 {
      return Usage, 0;
    }
    JobReadable(args);
    var ok, pre, target := Setup(args);
    if !ok {
      return BadArgument, 0;
    }
    var start, stride := Strtoull(args[4]), Strtoull(args[5]);
    var limit := if |args| > 6 then atof(args[6]) else 0.0;
    o, k := Search(JobOf(args).value, pre, target, start, stride, limit, clock, fuel);
  }

  // The verdict of the program, run on these arguments, on one nonce.
  method Accepts(args: seq<string>, nonce: nat) returns (verdict: Option<bool>)
    requires |args| >= 4 && nonce < U64_MODULUS
    ensures verdict == if JobOf(args).None? then None else Some(Wins(JobOf(args).value, nonce))
  {
    hide JobOf, Wins;
    var ok, pre, target := Setup(args);
    if !ok {
      return None;
    }
    var out := new byte[32];
    var win := TryNonce(JobOf(args).value, pre, out, target, nonce);
    return Some(win);
  }

  // The four parts of the preimage, with zeros in place of the nonce.
  method BuildTemplate(miner: array<byte>, prev: array<byte>, anchor: array<byte>) returns (pre: array<byte>)
    requires miner.Length == 20 && prev.Length == 32 && anchor.Length == 32
    ensures fresh(pre) && pre.Length == 116
    ensures pre[..] == Template(miner[..], prev[..], anchor[..])
  {
    pre := new byte[116];
    forall i | 0 <= i < 20 {
      pre[i] := miner[i];
    }
    forall i | 20 <= i < 52 {
      pre[i] := 0;
    }
    forall i | 52 <= i < 84 {
      pre[i] := prev[i - 52];
    }
    forall i | 84 <= i < 116 {
      pre[i] := anchor[i - 84];
    }
  }
}
