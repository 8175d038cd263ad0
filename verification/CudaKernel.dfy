/** mine_kernel of gpu/keccak_cuda.cu as a step system: any number of threads,
    one shared flag, atomicCAS, and a separate write of the winning nonce.

    A run is a schedule: at each step one thread moves.  A read of the flag may
    be stale, that is, return 0 although the flag is already set.  Everything is
    proved for every grid, iteration count and schedule. */
module CudaKernel {
  import opened Words
  import opened Codecs
  import opened WorkHash

  // One launch: blocks * threads threads, each testing iters nonces from base on.
  datatype Grid = Grid(base: nat, blocks: nat, threads: nat, iters: nat) {
    function Stride(): nat {
      blocks * threads
    }
  }

  datatype Pc = AtLoop | Hashing | Swapping | Writing | Returned

  // it and nonce are the thread's local variables.
  datatype Thread = Thread(pc: Pc, it: nat, nonce: nat)

  // owner is the thread whose atomicCAS succeeded; writes counts the stores to found_nonce.
  datatype State = State(flag: nat, foundNonce: nat, threads: seq<Thread>, owner: Option<nat>, writes: nat)

  datatype Choice = Choice(thread: nat, stale: bool)

  // The j-th nonce of thread t, in unsigned 64-bit arithmetic.
  function NonceOf(g: Grid, t: nat, j: nat): nat {
    (g.base + t + j * g.Stride()) % U64_MODULUS
  }

  // The launch with the flag clear; found_nonce holds whatever was in the device memory.
  function Start(g: Grid, garbage: nat): State {
    State(0, garbage, seq(g.Stride(), t requires 0 <= t < g.Stride() => Thread(AtLoop, 0, NonceOf(g, t, 0))), None, 0)
  }

  function Step(g: Grid, job: ValidJob, s: State, c: Choice): State {
    if c.thread >= |s.threads| then s
    else
      var th := s.threads[c.thread];
      match th.pc
      case AtLoop =>
        var read := if c.stale then 0 else s.flag;
        Move(s, c.thread, th.(pc := if th.it >= g.iters || read != 0 then Returned else Hashing))
      case Hashing =>
        if Wins(job, th.nonce) then Move(s, c.thread, th.(pc := Swapping))
        else Move(s, c.thread, Thread(AtLoop, th.it + 1, (th.nonce + g.Stride()) % U64_MODULUS))
      case Swapping =>
        if s.flag == 0 then Move(s, c.thread, th.(pc := Writing)).(flag := 1, owner := Some(c.thread))
        else Move(s, c.thread, th.(pc := Returned))
      case Writing =>
        Move(s, c.thread, th.(pc := Returned)).(foundNonce := th.nonce, writes := s.writes + 1)
      case Returned => s
  }

  function Move(s: State, t: nat, th: Thread): State
    requires t < |s.threads|
  {
    s.(threads := s.threads[t := th])
  }

  function Run(g: Grid, job: ValidJob, s: State, schedule: seq<Choice>): State {
    if schedule == [] then s
    else Step(g, job, Run(g, job, s, schedule[..|schedule| - 1]), schedule[|schedule| - 1])
  }

  // cudaDeviceSynchronize returns: every thread has returned.
  predicate Synchronised(s: State) {
    forall t | 0 <= t < |s.threads| :: s.threads[t].pc.Returned?
  }

  // ---------- the invariant ----------

  // Thread t on its own: its nonce is where it should be and everything before it lost.
  ghost predicate ThreadInv(g: Grid, job: ValidJob, t: nat, th: Thread) {
    && th.it <= g.iters
    && th.nonce == NonceOf(g, t, th.it)
    && (forall j: nat | j < th.it :: !Wins(job, NonceOf(g, t, j)))
    && (th.pc.Hashing? ==> th.it < g.iters)
    && (th.pc.Swapping? || th.pc.Writing? ==> th.it < g.iters && Wins(job, th.nonce))
  }

  // The flag and found_nonce: between the swap and the write the flag is set and the nonce is not there yet.
  ghost predicate SharedInv(g: Grid, job: ValidJob, s: State) {
    match s.owner
    case None =>
      && s.flag == 0 && s.writes == 0
      && (forall t | 0 <= t < |s.threads| :: !s.threads[t].pc.Writing?)
      && (forall t | 0 <= t < |s.threads| && s.threads[t].pc.Returned? :: s.threads[t].it == g.iters)
    case Some(o) =>
      && s.flag == 1 && o < |s.threads|
      && s.threads[o].it < g.iters && Wins(job, s.threads[o].nonce)
      && (s.threads[o].pc.Writing? || s.threads[o].pc.Returned?)
      && (s.threads[o].pc.Writing? ==> s.writes == 0)
      && (s.threads[o].pc.Returned? ==> s.writes == 1 && s.foundNonce == s.threads[o].nonce)
      && (forall t | 0 <= t < |s.threads| && s.threads[t].pc.Writing? :: t == o)
  }

  ghost predicate Inv(g: Grid, job: ValidJob, s: State) {
    && |s.threads| == g.Stride()
    && (forall t: nat | t < |s.threads| :: ThreadInv(g, job, t, s.threads[t]))
    && SharedInv(g, job, s)
  }

  lemma InvStart(g: Grid, job: ValidJob, garbage: nat)
    ensures Inv(g, job, Start(g, garbage))
  {
    hide Wins;
  }

  lemma NonceStep(g: Grid, t: nat, j: nat)
    ensures (NonceOf(g, t, j) + g.Stride()) % U64_MODULUS == NonceOf(g, t, j + 1)
  {
    assert g.base + t + (j + 1) * g.Stride() == g.base + t + j * g.Stride() + g.Stride();
  }

  lemma ThreadInvStep(g: Grid, job: ValidJob, s: State, c: Choice)
    requires Inv(g, job, s) && c.thread < |s.threads|
    ensures ThreadInv(g, job, c.thread, Step(g, job, s, c).threads[c.thread])
  {
    hide Wins, NonceOf, SharedInv;
    NonceStep(g, c.thread, s.threads[c.thread].it);
  }

  lemma SharedInvStep(g: Grid, job: ValidJob, s: State, c: Choice)
    requires Inv(g, job, s)
    ensures SharedInv(g, job, Step(g, job, s, c))
  {
    hide Wins, NonceOf;
    if c.thread < |s.threads| {
      assert ThreadInv(g, job, c.thread, s.threads[c.thread]);
    }
  }

  lemma InvStep(g: Grid, job: ValidJob, s: State, c: Choice)
    requires Inv(g, job, s)
    ensures Inv(g, job, Step(g, job, s, c))
  {
    hide Wins, NonceOf, SharedInv, ThreadInv;
    if c.thread < |s.threads| {
      ThreadInvStep(g, job, s, c);
    }
    SharedInvStep(g, job, s, c);
  }

  lemma {:induction false} InvRun(g: Grid, job: ValidJob, s: State, schedule: seq<Choice>)
    requires Inv(g, job, s)
    ensures Inv(g, job, Run(g, job, s, schedule))
  {
    hide Inv, Step;
    if schedule != [] {
      InvRun(g, job, s, schedule[..|schedule| - 1]);
      InvStep(g, job, Run(g, job, s, schedule[..|schedule| - 1]), schedule[|schedule| - 1]);
    }
  }

  // ---------- what a launch guarantees ----------

  // Once every thread has returned: a set flag comes with a winning nonce of this launch, stored exactly once, by the
  // thread that won the swap; a clear flag means that every nonce of the launch was hashed and lost.
  lemma LaunchIsCorrect(g: Grid, job: ValidJob, garbage: nat, schedule: seq<Choice>)
    ensures var s := Run(g, job, Start(g, garbage), schedule);
            Synchronised(s) ==>
              && (s.flag == 0 || s.flag == 1)
              && (s.flag == 1 ==>
                    && s.owner.Some? && s.owner.value < |s.threads| == g.Stride() && s.writes == 1
                    && s.threads[s.owner.value].it < g.iters
                    && s.foundNonce == NonceOf(g, s.owner.value, s.threads[s.owner.value].it)
                    && Wins(job, s.foundNonce))
              && (s.flag == 0 ==>
                    && s.writes == 0
                    && forall t: nat, j: nat | t < g.Stride() && j < g.iters :: !Wins(job, NonceOf(g, t, j)))
  {
    hide Wins, NonceOf, Run, Start;
    InvStart(g, job, garbage);
    InvRun(g, job, Start(g, garbage), schedule);
    var s := Run(g, job, Start(g, garbage), schedule);
    if Synchronised(s) && s.flag == 0 {
      forall t: nat, j: nat | t < g.Stride() && j < g.iters
        ensures !Wins(job, NonceOf(g, t, j))
      {
        assert ThreadInv(g, job, t, s.threads[t]);
        assert s.threads[t].pc.Returned?;
      }
    }
  }

  // ---------- every launch ends ----------

  // An upper bound on the steps a thread still has to take.
  function Rank(g: Grid, th: Thread): nat {
    var left := if th.it < g.iters then g.iters - th.it else 0;
    match th.pc
    case AtLoop => 2 * left + 2
    case Hashing => 2 * left + 1
    case Swapping => 2
    case Writing => 1
    case Returned => 0
  }

  function Work(g: Grid, threads: seq<Thread>): nat {
    if threads == [] then 0 else Rank(g, threads[0]) + Work(g, threads[1..])
  }

  lemma {:induction false} WorkMove(g: Grid, threads: seq<Thread>, t: nat, th: Thread)
    requires t < |threads|
    ensures Work(g, threads[t := th]) == Work(g, threads) - Rank(g, threads[t]) + Rank(g, th)
  {
    hide Rank;
    if t > 0 {
      assert threads[t := th][1..] == threads[1..][t - 1 := th];
      WorkMove(g, threads[1..], t - 1, th);
    } else {
      assert threads[t := th][1..] == threads[1..];
    }
  }

  ghost predicate Live(s: State, c: Choice) {
    c.thread < |s.threads| && !s.threads[c.thread].pc.Returned?
  }

  // Every step of the schedule moves a thread that has not returned.
  ghost predicate Effective(g: Grid, job: ValidJob, s: State, schedule: seq<Choice>) {
    forall k: nat | k < |schedule| :: Live(Run(g, job, s, schedule[..k]), schedule[k])
  }

  lemma StepWorks(g: Grid, job: ValidJob, s: State, c: Choice)
    requires Inv(g, job, s) && Live(s, c)
    ensures Work(g, Step(g, job, s, c).threads) < Work(g, s.threads)
  {
    hide Wins, NonceOf, SharedInv;
    assert ThreadInv(g, job, c.thread, s.threads[c.thread]);
    WorkMove(g, s.threads, c.thread, Step(g, job, s, c).threads[c.thread]);
  }

  // No schedule keeps the kernel busy for longer than its work; when no thread can move, all have returned.
  lemma {:induction false} LaunchEnds(g: Grid, job: ValidJob, s: State, schedule: seq<Choice>)
    requires Inv(g, job, s) && Effective(g, job, s, schedule)
    ensures |schedule| + Work(g, Run(g, job, s, schedule).threads) <= Work(g, s.threads)
    ensures Synchronised(Run(g, job, s, schedule)) ||
            exists c :: Live(Run(g, job, s, schedule), c)
  {
    hide Wins, Work, Step, Inv;
    if schedule != [] {
      var n := |schedule| - 1;
      var front := schedule[..n];
      assert forall k: nat | k < n :: front[..k] == schedule[..k];
      LaunchEnds(g, job, s, front);
      InvRun(g, job, s, front);
      assert Live(Run(g, job, s, schedule[..n]), schedule[n]);
      StepWorks(g, job, Run(g, job, s, front), schedule[n]);
    }
    SynchronisedOrLive(Run(g, job, s, schedule));
  }

  lemma SynchronisedOrLive(s: State)
    ensures Synchronised(s) || exists c :: Live(s, c)
  {
    if !Synchronised(s) {
      var t :| 0 <= t < |s.threads| && !s.threads[t].pc.Returned?;
      assert Live(s, Choice(t, false));
    }
  }

  // ---------- a set flag stops the threads ----------

  ghost predicate NeverStale(schedule: seq<Choice>) {
    forall k: nat | k < |schedule| :: !schedule[k].stale
  }

  // The iterations a thread has begun to hash.
  function Begun(th: Thread): nat {
    th.it + (if th.pc.Hashing? then 1 else 0)
  }

  // Steps that a thread still takes when it sees the flag.
  function Rest(th: Thread): nat {
    match th.pc
    case AtLoop => 1
    case Hashing => 2
    case Swapping => 1
    case Writing => 1
    case Returned => 0
  }

  function Rests(threads: seq<Thread>): nat {
    if threads == [] then 0 else Rest(threads[0]) + Rests(threads[1..])
  }

  lemma {:induction false} RestsMove(threads: seq<Thread>, t: nat, th: Thread)
    requires t < |threads|
    ensures Rests(threads[t := th]) == Rests(threads) - Rest(threads[t]) + Rest(th)
  {
    hide Rest;
    if t > 0 {
      assert threads[t := th][1..] == threads[1..][t - 1 := th];
      RestsMove(threads[1..], t - 1, th);
    } else {
      assert threads[t := th][1..] == threads[1..];
    }
  }

  lemma {:induction false} RestsBound(threads: seq<Thread>)
    ensures Rests(threads) <= 2 * |threads|
  {
    if threads != [] {
      RestsBound(threads[1..]);
    }
  }

  lemma FreshStep(g: Grid, job: ValidJob, s: State, c: Choice)
    requires s.flag != 0 && !c.stale
    ensures var s' := Step(g, job, s, c);
            && s'.flag != 0 && |s'.threads| == |s.threads|
            && (forall t: nat | t < |s.threads| :: Begun(s'.threads[t]) <= Begun(s.threads[t]))
            && Rests(s'.threads) <= Rests(s.threads)
            && (Live(s, c) ==> Rests(s'.threads) < Rests(s.threads))
  {
    hide Wins, Rests;
    if Live(s, c) {
      RestsMove(s.threads, c.thread, Step(g, job, s, c).threads[c.thread]);
    }
  }

  // Once the flag is set and every read of it sees that, no thread begins another iteration, and all of them together
  // take at most two more steps each.
  lemma {:induction false} StopsPromptly(g: Grid, job: ValidJob, s: State, schedule: seq<Choice>)
    requires s.flag != 0 && NeverStale(schedule)
    ensures var s' := Run(g, job, s, schedule);
            && s'.flag != 0 && |s'.threads| == |s.threads|
            && (forall t: nat | t < |s.threads| :: s'.threads[t].it <= Begun(s'.threads[t]) <= Begun(s.threads[t]))
            && Rests(s'.threads) <= 2 * |s.threads|
            && (Effective(g, job, s, schedule) ==> |schedule| + Rests(s'.threads) <= Rests(s.threads))
  {
    hide Step, Rests, Live;
    RestsBound(s.threads);
    if schedule != [] {
      var n := |schedule| - 1;
      var front := schedule[..n];
      StopsPromptly(g, job, s, front);
      FreshStep(g, job, Run(g, job, s, front), schedule[n]);
      RestsBound(Run(g, job, s, schedule).threads);
      if Effective(g, job, s, schedule) {
        assert forall k: nat | k < n :: front[..k] == schedule[..k];
        assert Live(Run(g, job, s, schedule[..n]), schedule[n]);
      }
    }
  }
}
