/** The host side of gpu/keccak_cuda.cu: the test of one nonce on the device,
    and the loop over launches. */
module CudaHost {
  import opened Words
  import opened Codecs
  import opened WorkHash
  import opened CudaKernel
  import opened LaunchCoverage
  import B = BigEndian
  import F = Fips202
  import H = HashInPlace
  import M = KeccakMiner
  import C = CSolver

  // The body of mine_kernel for one nonce: splice, hash, compare; `pre` and `out` are the thread's own arrays and keep
  // what the iteration before left in them.
  method TestNonce(ghost job: ValidJob, pre: array<byte>, out: array<byte>, target: array<byte>, nonce: nat)
    returns (win: bool)
    requires nonce < U64_MODULUS && pre.Length == 116 && out.Length == 32 && target.Length == 32
    requires pre != out && pre != target && out != target
    requires M.Holds(job, pre[..], target[..])
    modifies pre, out
    ensures M.Holds(job, pre[..], target[..])
    ensures pre[..] == Packed(job, nonce) && out[..] == Digest(job, nonce)
    ensures win == Wins(job, nonce)
  {
    hide B.Bytes, B.Value, F.Keccak256;
    SpliceNonce(pre, nonce);
    SplicedIsPacked(job, nonce, pre[..]);
    assert pre[..116] == pre[..];
    H.Keccak256Of116(pre, out);
    win := B.LtBe(out, target);
  }

  // The copy of the template that a thread starts with.
  method CopyTemplate(template: array<byte>) returns (pre: array<byte>)
    requires template.Length == 116
    ensures fresh(pre) && pre.Length == 116 && pre[..] == template[..]
  {
    pre := new byte[116];
    forall i | 0 <= i < 116 {
      pre[i] := template[i];
    }
  }

  // The first k iterations of thread t found the flag clear, and lost.
  ghost predicate ThreadLost(job: ValidJob, g: Grid, t: nat, flag: nat -> bool, k: nat) {
    forall j: nat | j < k :: !flag(j) && !Wins(job, NonceOf(g, t, j))
  }

  // Thread t of one launch as it runs: flag(j) is what it reads before iteration j.  It stops on the flag, at its first
  // winner, or after all its iterations.
  method ThreadLoop(ghost job: ValidJob, template: array<byte>, target: array<byte>, g: Grid, t: nat, flag: nat -> bool)
    returns (won: bool, it: nat, nonce: nat)
    requires template.Length == 116 && target.Length == 32 && template != target
    requires M.Holds(job, template[..], target[..])
    ensures it <= g.iters && nonce == NonceOf(g, t, it) && ThreadLost(job, g, t, flag, it)
    ensures won ==> it < g.iters && !flag(it) && Wins(job, nonce)
    ensures !won ==> it == g.iters || flag(it)
  {
    hide Wins, NonceOf, M.Holds, Packed, Digest;
    var pre := CopyTemplate(template);
    var out := new byte[32];
    nonce := (g.base + t) % U64_MODULUS;
    FirstNonce(g, t);
    it := 0;
    while it < g.iters
      invariant it <= g.iters && nonce == NonceOf(g, t, it) && nonce < U64_MODULUS
      invariant M.Holds(job, pre[..], target[..])
      invariant ThreadLost(job, g, t, flag, it)
    {
      if flag(it) {
        return false, it, nonce;
      }
      var win := TestNonce(job, pre, out, target, nonce);
      if win {
        return true, it, nonce;
      }
      NextNonce(g, t, it);
      nonce := (nonce + g.Stride()) % U64_MODULUS;
      it := it + 1;
    }
    return false, it, nonce;
  }

  lemma FirstNonce(g: Grid, t: nat)
    ensures (g.base + t) % U64_MODULUS == NonceOf(g, t, 0)
  {
  }

  lemma NextNonce(g: Grid, t: nat, j: nat)
    ensures (NonceOf(g, t, j) + g.Stride()) % U64_MODULUS == NonceOf(g, t, j + 1) < U64_MODULUS
  {
    assert (j + 1) * g.Stride() == j * g.Stride() + g.Stride();
    ModAdd(g.base + t + j * g.Stride(), g.Stride());
  }

  datatype Outcome =
    | Found(nonce: nat)   // "FOUND <nonce>", exit 0
    | NoneFound           // "NONE", exit 1
    | CudaError           // exit 3
    | Killed              // still running when the process ends

  // What the environment decides: whether the device accepts the launch configuration (not, say, 2048 threads per
  // block), the interleaving of each launch, which launches cudaDeviceSynchronize reports as failed, and the clock.
  // A rejected launch runs no thread, and the host does not ask for its error.
  datatype Env = Env(accepted: bool, schedule: nat -> seq<Choice>, fails: nat -> bool, clock: nat -> real)

  // The grid of launch l.
  function GridAt(g: Grid, l: nat): Grid {
    g.(base := Cursor(g, l))
  }

  // The device memory after launch l, which found the flag clear.
  function AfterLaunch(g: Grid, job: ValidJob, env: Env, l: nat, garbage: nat): State {
    Run(GridAt(g, l), job, Start(GridAt(g, l), garbage), env.schedule(l))
  }

  ghost predicate TestedIn(g: Grid, l: nat, n: nat) {
    exists j: nat, t: nat :: j < g.iters && t < g.Stride() && n == Tested(g, l, j, t)
  }

  // Every nonce of the first n launches was hashed and lost.
  ghost predicate LaunchesLost(g: Grid, job: ValidJob, n: nat) {
    forall l: nat, j: nat, t: nat | l < n && j < g.iters && t < g.Stride() ::
      !Wins(job, Tested(g, l, j, t))
  }

  lemma LaunchLost(g: Grid, job: ValidJob, n: nat, garbage: nat, env: Env)
    requires LaunchesLost(g, job, n)
    requires Synchronised(AfterLaunch(g, job, env, n, garbage)) && AfterLaunch(g, job, env, n, garbage).flag == 0
    ensures LaunchesLost(g, job, n + 1)
  {
    hide Wins, NonceOf, Run, Start, Distance, Cursor, Synchronised;
    LaunchIsCorrect(GridAt(g, n), job, garbage, env.schedule(n));
    forall l: nat, j: nat, t: nat | l < n + 1 && j < g.iters && t < g.Stride()
      ensures !Wins(job, Tested(g, l, j, t))
    {
      if l == n {
        assert Tested(g, n, j, t) == NonceOf(GridAt(g, n), t, j);
      }
    }
  }

  lemma LaunchFound(g: Grid, job: ValidJob, n: nat, garbage: nat, env: Env) returns (j: nat, t: nat)
    requires Synchronised(AfterLaunch(g, job, env, n, garbage)) && AfterLaunch(g, job, env, n, garbage).flag != 0
    ensures j < g.iters && t < g.Stride()
    ensures AfterLaunch(g, job, env, n, garbage).foundNonce == Tested(g, n, j, t)
    ensures Wins(job, AfterLaunch(g, job, env, n, garbage).foundNonce)
  {
    hide Wins, NonceOf, Run, Start, Distance, Cursor, Synchronised;
    LaunchIsCorrect(GridAt(g, n), job, garbage, env.schedule(n));
    var s := AfterLaunch(g, job, env, n, garbage);
    t := s.owner.value;
    j := s.threads[t].it;
  }

  // The time test after l launches.
  predicate Late(env: Env, maxSeconds: real, l: nat) {
    maxSeconds > 0.0 && env.clock(l) > maxSeconds
  }

  // The first n launches were reported as successful, and no time test before the last of them succeeded.
  ghost predicate Undisturbed(env: Env, maxSeconds: real, n: nat) {
    (forall l: nat | l < n :: !env.fails(l)) && (forall l: nat | 0 < l < n :: !Late(env, maxSeconds, l))
  }

  // What a process may report after `launches` completed launches.  If the device rejects the configuration, nothing is
  // hashed, nothing is found, and NONE says nothing.  The hash total counts whole launches, also rejected ones and the
  // one that was cut short by a find.
  ghost predicate HostOutcome(g: Grid, job: ValidJob, env: Env, maxSeconds: real, fuel: nat,
                              o: Outcome, total: nat, launches: nat) {
    && launches <= fuel && Undisturbed(env, maxSeconds, launches)
    && total == launches * (g.Stride() * g.iters) % U64_MODULUS
    && match o
       case Found(n) =>
         && env.accepted && launches > 0
         && LaunchesLost(g, job, launches - 1) && TestedIn(g, launches - 1, n) && Wins(job, n)
       case NoneFound =>
         && launches > 0 && Late(env, maxSeconds, launches)
         && (env.accepted ==> LaunchesLost(g, job, launches))
       case CudaError =>
         && env.fails(launches) && (launches > 0 ==> !Late(env, maxSeconds, launches))
         && (env.accepted ==> LaunchesLost(g, job, launches))
       case Killed =>
         && (launches == fuel || (env.accepted && !env.fails(launches)))
         && (launches > 0 ==> !Late(env, maxSeconds, launches))
         && (env.accepted ==> LaunchesLost(g, job, launches))
  }

  // The loop over launches.  fuel is the number of launches the process lives for; `launches` counts those that
  // completed.
  method Mine(g: Grid, job: ValidJob, env: Env, maxSeconds: real, garbage: nat, fuel: nat)
    returns (o: Outcome, total: nat, launches: nat)
    requires g.base < U64_MODULUS
    ensures HostOutcome(g, job, env, maxSeconds, fuel, o, total, launches)
    ensures total == launches * (g.Stride() * g.iters) % U64_MODULUS
  {
    hide Wins, Distance, Run, Start, Synchronised, LaunchesLost, Cursor, Tested;
    var cursor := g.base;
    var memory := garbage;
    total := 0;
    launches := 0;
    FirstCursor(g, job);
    for l := 0 to fuel
      invariant launches == l && cursor == Cursor(g, l)
      invariant total == l * (g.Stride() * g.iters) % U64_MODULUS
      invariant env.accepted ==> LaunchesLost(g, job, l)
      invariant Undisturbed(env, maxSeconds, l) && (l > 0 ==> !Late(env, maxSeconds, l))
    {
      if env.fails(l) {
        return CudaError, total, l;
      }
      var flag, found := 0, memory;
      if env.accepted {
        var grid := Grid(cursor, g.blocks, g.threads, g.iters);
        var s := Run(grid, job, Start(grid, memory), env.schedule(l));
        if !Synchronised(s) {
          return Killed, total, l;
        }
        assert s == AfterLaunch(g, job, env, l, memory);
        flag, found := s.flag, s.foundNonce;
      }
      TotalStep(l, g.Stride() * g.iters);
      total := (total + g.Stride() * g.iters) % U64_MODULUS;
      CursorStep(g, l);
      cursor := (cursor + g.Stride() * g.iters) % U64_MODULUS;
      launches := l + 1;
      if flag != 0 {
        var j, t := LaunchFound(g, job, l, memory, env);
        return Found(found), total, l + 1;
      }
      if env.accepted {
        LaunchLost(g, job, l, memory, env);
      }
      memory := found;
      if Late(env, maxSeconds, l + 1) {
        return NoneFound, total, l + 1;
      }
    }
    return Killed, total, fuel;
  }

  // The first n launches were reported as successful, and the clock had not passed the limit after any of them but
  // perhaps the last.
  ghost predicate InTime(env: Env, maxSeconds: real, n: nat) {
    && (forall l: nat | l < n :: !env.fails(l))
    && (forall l: nat | 0 < l < n :: maxSeconds <= 0.0 || env.clock(l) <= maxSeconds)
  }

  // NONE in terms of the clock: it has passed a positive limit, for the first time after a launch.
  lemma NoneMeans(g: Grid, job: ValidJob, env: Env, maxSeconds: real, fuel: nat, total: nat, launches: nat)
    requires HostOutcome(g, job, env, maxSeconds, fuel, NoneFound, total, launches)
    ensures launches > 0 && maxSeconds > 0.0 && env.clock(launches) > maxSeconds && InTime(env, maxSeconds, launches)
  {
    hide Wins, LaunchesLost;
    forall l: nat | 0 < l < launches
      ensures maxSeconds <= 0.0 || env.clock(l) <= maxSeconds
    {
      assert !Late(env, maxSeconds, l);
    }
  }

  // FOUND in terms of nonces: it wins, some thread of the last launch tests it, and no nonce of the range covered by
  // the launches before wins.
  lemma FoundMeans(g: Grid, job: ValidJob, env: Env, maxSeconds: real, fuel: nat, n: nat, total: nat, launches: nat,
                   x: nat)
    returns (j: nat, t: nat)
    requires HostOutcome(g, job, env, maxSeconds, fuel, Found(n), total, launches)
    ensures launches > 0 && env.accepted && Wins(job, n) && j < g.iters && t < g.Stride()
    ensures n == (g.base + Distance(g, launches - 1, j, t)) % U64_MODULUS
    ensures x < (launches - 1) * g.iters * g.Stride() ==> !Wins(job, (g.base + x) % U64_MODULUS)
  {
    hide Wins, Tested, LaunchesLost, Distance, Cursor, NonceOf;
    j, t :| j < g.iters && t < g.Stride() && n == Tested(g, launches - 1, j, t);
    LaunchNonce(g, launches - 1, j, t);
    TestedIs(g, launches - 1, j, t);
    if x < (launches - 1) * g.iters * g.Stride() {
      LostRange(g, job, launches - 1, x);
    }
  }

  lemma TestedIs(g: Grid, l: nat, j: nat, t: nat)
    ensures Tested(g, l, j, t) == NonceOf(g.(base := Cursor(g, l)), t, j)
  {
  }

  // Conversely, a process whose first n launches hold no winner, and whose clock passes the limit after the n-th, says
  // NONE then; it can only fail to come that far when a launch never ends.
  lemma HostStops(g: Grid, job: ValidJob, env: Env, maxSeconds: real, fuel: nat, n: nat,
                  o: Outcome, total: nat, launches: nat)
    requires HostOutcome(g, job, env, maxSeconds, fuel, o, total, launches)
    requires 0 < n <= fuel && InTime(env, maxSeconds, n) && maxSeconds > 0.0 && env.clock(n) > maxSeconds
    requires LaunchesLost(g, job, n)
    ensures (o.NoneFound? && launches == n) || (o.Killed? && launches < n && env.accepted)
  {
    hide Wins, Tested;
    assert Late(env, maxSeconds, n);
  }

  lemma FirstCursor(g: Grid, job: ValidJob)
    requires g.base < U64_MODULUS
    ensures Cursor(g, 0) == g.base && LaunchesLost(g, job, 0)
  {
  }

  lemma TotalStep(l: nat, size: nat)
    ensures (l * size % U64_MODULUS + size) % U64_MODULUS == (l + 1) * size % U64_MODULUS
  {
    ModAdd(l * size, size);
    assert (l + 1) * size == l * size + size;
  }

  // An optional argument, read as a decimal number.
  function Setting(args: seq<string>, k: nat, default: nat): nat {
    if k < |args| then Strtoull(args[k]) else default
  }

  // args are argv[1..]: the base nonce in the fifth, and after the time limit the grid sizes, the last of them cast to
  // 32 bits.
  function GridOf(args: seq<string>): Grid
    requires |args| >= 6
  {
    Grid(Strtoull(args[4]), Setting(args, 6, 4096), Setting(args, 7, 256), Setting(args, 8, 4096) % 0x1_0000_0000)
  }

  // Without the optional arguments a launch is 4096 blocks of 256 threads with 4096 nonces each, 2^32 in all.
  lemma DefaultGrid(args: seq<string>)
    requires |args| == 6
    ensures GridOf(args) == Grid(Strtoull(args[4]), 4096, 256, 4096) && Size(GridOf(args)) == 0x1_0000_0000
  {
    hide Strtoull;
  }

  // With them, the iterations are cut to 32 bits.
  lemma GivenGrid(args: seq<string>)
    requires |args| > 8
    ensures GridOf(args).base == Strtoull(args[4])
    ensures GridOf(args).blocks == Strtoull(args[6]) && GridOf(args).threads == Strtoull(args[7])
    ensures GridOf(args).iters < 0x1_0000_0000 && (Strtoull(args[8]) - GridOf(args).iters) % 0x1_0000_0000 == 0
  {
    hide Strtoull;
  }

  // The sixth argument is the time limit, read by atof.
  method RunProgram(args: seq<string>, atof: string -> real, env: Env, garbage: nat, fuel: nat)
    returns (o: Option<Outcome>, total: nat, launches: nat)
    ensures o.None? <==> |args| < 6 || M.JobOf(args).None?
    ensures o.Some? ==>
              HostOutcome(GridOf(args), M.JobOf(args).value, env, atof(args[5]), fuel, o.value, total, launches)
  {
    hide Wins, HostOutcome, M.JobOf;
    if |args| < 6 {
      return None, 0, 0;
    }
    var parsed := M.JobOf(args);
    if parsed.None? {
      return None, 0, 0;
    }
    var outcome: Outcome;
    outcome, total, launches := Mine(GridOf(args), parsed.value, env, atof(args[5]), garbage, fuel);
    o := Some(outcome);
  }

  // After n launches without a find, no nonce of [base, base + n * blocks * threads * iters) wins.
  lemma LostRange(g: Grid, job: ValidJob, n: nat, x: nat)
    requires LaunchesLost(g, job, n) && x < n * g.iters * g.Stride()
    ensures !Wins(job, (g.base + x) % U64_MODULUS)
  {
    hide Wins, Distance;
    var l, j, t := LaunchesCover(g, n, x);
    LaunchNonce(g, l, j, t);
    assert !Wins(job, Tested(g, l, j, t));
  }

  // A nonce that the GPU program prints passes verify_local.
  lemma FoundIsAccepted(addr: string, g: Grid, job: ValidJob, env: Env, maxSeconds: real, fuel: nat,
                        n: nat, total: nat, launches: nat)
    requires C.Describes(addr, job)
    requires HostOutcome(g, job, env, maxSeconds, fuel, Found(n), total, launches)
    ensures ReadFound(FoundLine(n)) == Some(n)
    ensures VerifyLocal(addr, n, job.prevWork, job.anchor, job.target) == Ok(true)
  {
    hide Wins, VerifyLocal, ReadFound, FoundLine, Distance;
    FoundLineRoundTrip(n);
    VerifyLocalIsWins(addr, n, job);
  }

  // On a device that rejects the configuration the program says NONE at the first time test that succeeds, whatever the
  // job is: also when the first nonce wins, and nothing of the range was hashed.
  lemma RejectedSaysNone(g: Grid, job: ValidJob, env: Env, maxSeconds: real, fuel: nat, n: nat,
                         o: Outcome, total: nat, launches: nat)
    requires HostOutcome(g, job, env, maxSeconds, fuel, o, total, launches)
    requires !env.accepted && 0 < n <= fuel
    requires InTime(env, maxSeconds, n) && maxSeconds > 0.0 && env.clock(n) > maxSeconds
    ensures o.NoneFound? && launches == n
    ensures g.base < U64_MODULUS && Size(g) > 0 && Wins(job, g.base) ==> !LaunchesLost(g, job, launches)
  {
    hide Wins, LaunchesLost;
    assert Late(env, maxSeconds, n);
    NotLost(g, job, launches);
    if g.base < U64_MODULUS && Size(g) > 0 {
      FirstTested(g);
      assert Tested(g, 0, 0, 0) == g.base;
    }
  }

  lemma NotLost(g: Grid, job: ValidJob, n: nat)
    ensures n > 0 && g.iters > 0 && g.Stride() > 0 && Wins(job, Tested(g, 0, 0, 0)) ==> !LaunchesLost(g, job, n)
  {
    hide Wins, Tested;
  }

  lemma FirstTested(g: Grid)
    requires g.base < U64_MODULUS && Size(g) > 0
    ensures g.iters > 0 && g.Stride() > 0 && Tested(g, 0, 0, 0) == g.base
  {
    assert 0 * g.Stride() == 0 && 0 * (g.Stride() * g.iters) == 0;
  }

  // ---------- run_slice of gpu_hunter_continuous.py ----------

  function SliceArgs(addr: string, job: Job, base: nat, seconds: nat, blocks: nat, threads: nat, iters: nat)
    : (args: seq<string>)
    requires |addr| >= 2
    ensures |args| == 9
  {
    C.JobArgs(addr, job) + [Dec(base), Dec(seconds), Dec(blocks), Dec(threads), Dec(iters)]
  }

  // The program reads back the job and the grid that the driver wrote.
  lemma SliceArgsParse(addr: string, job: Job, base: nat, seconds: nat, blocks: nat, threads: nat, iters: nat)
    requires C.Describes(addr, job)
    requires base < U64_MODULUS && blocks < 0x8000_0000 && threads < 0x8000_0000 && iters < 0x1_0000_0000
    ensures M.JobOf(SliceArgs(addr, job, base, seconds, blocks, threads, iters)) == Some(job)
    ensures GridOf(SliceArgs(addr, job, base, seconds, blocks, threads, iters)) == Grid(base, blocks, threads, iters)
  {
    hide M.JobOf, C.JobArgs, Strtoull, Dec;
    C.JobArgsParse(addr, job, [Dec(base), Dec(seconds), Dec(blocks), Dec(threads), Dec(iters)]);
    StrtoullOfDec(base);
    StrtoullOfDec(blocks);
    StrtoullOfDec(threads);
    StrtoullOfDec(iters);
  }

  // End to end: the GPU program, started on the driver's text arguments, accepts a nonce exactly when verify_local does
  // on the driver's own values.
  method EndToEnd(addr: string, job: Job, base: nat, seconds: nat, blocks: nat, threads: nat, iters: nat, nonce: nat)
    returns (win: bool)
    requires C.Describes(addr, job) && nonce < U64_MODULUS
    ensures VerifyLocal(addr, nonce, job.prevWork, job.anchor, job.target) == Ok(win)
  {
    hide VerifyLocal, Wins, M.JobOf, M.Holds, C.JobArgs, Dec, Packed, Digest;
    var rest := [Dec(base), Dec(seconds), Dec(blocks), Dec(threads), Dec(iters)];
    C.JobArgsParse(addr, job, rest);
    VerifyLocalIsWins(addr, nonce, job);
    var ok, template, target := M.Setup(SliceArgs(addr, job, base, seconds, blocks, threads, iters));
    var pre := CopyTemplate(template);
    var out := new byte[32];
    win := TestNonce(job, pre, out, target, nonce);
  }

  // Start the program on the text arguments, read its answer line back.  A nonce that comes out passes verify_local on
  // the driver's own values; the base may be any number (it saturates in the program).
  method RunSlice(addr: string, job: Job, base: nat, seconds: nat, blocks: nat, threads: nat, iters: nat,
                  atof: string -> real, env: Env, garbage: nat, fuel: nat)
    returns (nonce: Option<nat>, o: Outcome, total: nat, launches: nat)
    requires C.Describes(addr, job)
    ensures HostOutcome(GridOf(SliceArgs(addr, job, base, seconds, blocks, threads, iters)), job, env,
                        atof(Dec(seconds)), fuel, o, total, launches)
    ensures nonce == if o.Found? then Some(o.nonce) else None
    ensures nonce.Some? ==> VerifyLocal(addr, nonce.value, job.prevWork, job.anchor, job.target) == Ok(true)
  {
    hide HostOutcome, M.JobOf, C.JobArgs, Dec, GridOf, VerifyLocal, ReadFound, FoundLine, Wins;
    var rest := [Dec(base), Dec(seconds), Dec(blocks), Dec(threads), Dec(iters)];
    var args := C.JobArgs(addr, job) + rest;
    C.JobArgsParse(addr, job, rest);
    var answer;
    answer, total, launches := RunProgram(args, atof, env, garbage, fuel);
    o := answer.value;
    nonce := None;
    if o.Found? {
      nonce := ReadFound(FoundLine(o.nonce));
      FoundIsAccepted(addr, GridOf(args), job, env, atof(args[5]), fuel, o.nonce, total, launches);
    }
  }
}
