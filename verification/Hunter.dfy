/** hunter.py and mint.py: when a transaction is broadcast, and what a run
    reports, against a chain whose values may change between any two reads.

    A run is described by its log of chain interactions.  `env(i)` is the chain's
    answer to the i-th interaction: a number, or None when the call raises. */
module Hunter {
  import opened Words
  import opened Codecs
  import opened WorkHash
  import C = CSolver
  import D = Difficulty

  type Env = nat -> Option<nat>

  datatype Query =
    | CurrentAnchor | PrevWork | TargetFor | MintPrice | CurrentBurst | TotalMinted | CurrentEpoch | BlockNumber
    | Balance | GasPrice | TxCount | ChainId | Owned

  datatype Event =
    | Read(query: Query, reply: Option<nat>)
    // eth_call and estimate_gas of mine(nonce, anchor) with the given value; no gas when either fails
    | Simulated(nonce: nat, anchor: nat, value: nat, estimate: Option<nat>)
    | Broadcast(nonce: nat, anchor: nat, value: nat, gas: nat, gasPrice: nat, accepted: bool)
    | Receipt(status: Option<nat>)

  type Log = seq<Event>

  function Ask(env: Env, log: Log, q: Query): Log {
    log + [Read(q, env(|log|))]
  }

  // ---------- mint.py ----------

  datatype Sim = Sim(price: nat, gas: Option<nat>)

  // build_and_check: None when reading the price raises; no gas means will_succeed is False.
  function BuildAndCheck(env: Env, log: Log, nonce: nat, anchor: nat): (Log, Option<Sim>) {
    var l := Ask(env, log, MintPrice);
    match env(|log|)
    case None => (l, None)
    case Some(price) =>
      var gas := env(|l|);
      (l + [Simulated(nonce, anchor, price, gas)], Some(Sim(price, gas)))
  }

  // A quarter on top, rounded down.
  function GasLimit(gas: nat): nat {
    gas * 5 / 4
  }

  // A fifth on top, rounded down.
  function Raise(fee: nat): nat {
    fee * 6 / 5
  }

  // The margins: 1.25 times the estimate, and 1.2 times the fee, in whole numbers from below.
  lemma Margins(gas: nat, fee: nat)
    ensures 4 * GasLimit(gas) <= 5 * gas < 4 * (GasLimit(gas) + 1)
    ensures 5 * Raise(fee) <= 6 * fee < 5 * (Raise(fee) + 1)
  {
  }

  // send: reads the fee, the account nonce and the chain id, broadcasts, and waits for the receipt.
  function Send(env: Env, log: Log, nonce: nat, anchor: nat, price: nat, gas: nat): (Log, Option<nat>) {
    var l1 := Ask(env, log, GasPrice);
    if env(|log|).None? then (l1, None)
    else
      var l2 := Ask(env, l1, TxCount);
      if env(|l1|).None? then (l2, None)
      else
        var l3 := Ask(env, l2, ChainId);
        if env(|l2|).None? then (l3, None)
        else
          var l4 := l3 + [Broadcast(nonce, anchor, price, GasLimit(gas), Raise(env(|log|).value), env(|l3|).Some?)];
          if env(|l3|).None? then (l4, None)
          else (l4 + [Receipt(env(|l4|))], env(|l4|))
  }

  // ---------- hunter.py: try_send ----------

  datatype Attempt = Threw | Refused | Succeeded

  // The grace loop: at most `tries` more balance reads, each followed by a prevWork read unless the balance covers
  // `need`.  The result is the last balance.
  function Grace(env: Env, log: Log, need: nat, bal: nat, tries: nat): (Log, Option<nat>)
    decreases tries
  {
    if tries == 0 then (log, Some(bal))
    else
      var l1 := Ask(env, log, Balance);
      match env(|log|)
      case None => (l1, None)
      case Some(b) =>
        if b >= need then (l1, Some(b))
        else
          var l2 := Ask(env, l1, PrevWork);
          if env(|l1|).None? then (l2, None) else Grace(env, l2, need, b, tries - 1)
  }

  // What the grace loop, entered with an uncovered balance, appends to a: balance and prevWork reads in turn, at most
  // `tries` of each.  Only the last may raise, and only the last balance may cover the need.
  ghost predicate GraceEvents(env: Env, a: Log, b: Log, need: nat, tries: nat, last: Option<nat>) {
    var n := |a|;
    && a <= b && |b| <= n + 2 * tries
    && (forall m | n <= m < |b| :: b[m] == Read(if (m - n) % 2 == 0 then Balance else PrevWork, env(m)))
    && (forall m: nat | n <= m < |b| - 1 :: env(m).Some? && ((m - n) % 2 == 0 ==> env(m).value < need))
    && match last
       case None => |b| > n && env(|b| - 1).None?
       case Some(bal) =>
         if bal >= need then (|b| - n) % 2 == 1 && env(|b| - 1) == Some(bal)
         else |b| == n + 2 * tries && (tries > 0 ==> env(|b| - 1).Some? && env(|b| - 2) == Some(bal))
  }

  lemma {:induction false} GraceShape(env: Env, log: Log, need: nat, bal: nat, tries: nat)
    requires bal < need
    ensures var (l, last) := Grace(env, log, need, bal, tries); GraceEvents(env, log, l, need, tries, last)
    decreases tries
  {
    hide GraceEvents;
    var n := |log|;
    var l1 := Ask(env, log, Balance);
    var l2 := Ask(env, l1, PrevWork);
    if tries == 0 {
      GraceStarts(env, log, need, bal);
    } else if env(n).None? || env(n).value >= need {
      GraceEnds(env, log, need, tries);
    } else if env(n + 1).None? {
      GraceDies(env, log, need, tries);
    } else {
      GraceShape(env, l2, need, env(n).value, tries - 1);
      var (l, last) := Grace(env, l2, need, env(n).value, tries - 1);
      GraceExtends(env, log, l, need, tries - 1, env(n).value, last);
    }
  }

  lemma GraceStarts(env: Env, log: Log, need: nat, bal: nat)
    requires bal < need
    ensures GraceEvents(env, log, log, need, 0, Some(bal))
  {
  }

  lemma GraceEnds(env: Env, log: Log, need: nat, tries: nat)
    requires tries > 0 && (env(|log|).Some? ==> env(|log|).value >= need)
    ensures GraceEvents(env, log, Ask(env, log, Balance), need, tries, env(|log|))
  {
  }

  lemma GraceDies(env: Env, log: Log, need: nat, tries: nat)
    requires tries > 0 && env(|log|).Some? && env(|log|).value < need && env(|log| + 1).None?
    ensures GraceEvents(env, log, Ask(env, Ask(env, log, Balance), PrevWork), need, tries, None)
  {
  }

  // One more pass in front.
  lemma GraceExtends(env: Env, log: Log, l: Log, need: nat, tries: nat, bal: nat, last: Option<nat>)
    requires env(|log|) == Some(bal) && bal < need && env(|log| + 1).Some?
    requires var l2 := Ask(env, Ask(env, log, Balance), PrevWork);
             GraceEvents(env, l2, l, need, tries, last) && (tries == 0 ==> last == Some(bal))
    ensures GraceEvents(env, log, l, need, tries + 1, last)
  {
    var n := |log|;
    var l2 := Ask(env, Ask(env, log, Balance), PrevWork);
    assert l2[n] == Read(Balance, env(n)) && l2[n + 1] == Read(PrevWork, env(n + 1)) && |l2| == n + 2;
    forall m | n <= m < |l|
      ensures l[m] == Read(if (m - n) % 2 == 0 then Balance else PrevWork, env(m))
    {
      if m >= n + 2 {
        TwoLess(m - n);
      }
    }
    forall m: nat | n <= m < |l| - 1
      ensures env(m).Some? && ((m - n) % 2 == 0 ==> env(m).value < need)
    {
      if m >= n + 2 {
        TwoLess(m - n);
      }
    }
    TwoLess(|l| - n);
  }

  lemma TwoLess(k: int)
    ensures k % 2 == (k - 2) % 2
  {
  }

  // The grace loop as it runs.
  method GraceLoop(env: Env, log0: Log, need: nat, bal0: nat) returns (log: Log, last: Option<nat>)
    requires bal0 < need
    ensures (log, last) == Grace(env, log0, need, bal0, 40)
    ensures GraceEvents(env, log0, log, need, 40, last)
  {
    hide GraceEvents;
    GraceShape(env, log0, need, bal0, 40);
    log := log0;
    var bal := bal0;
    for i := 0 to 40
      invariant Grace(env, log0, need, bal0, 40) == Grace(env, log, need, bal, 40 - i)
    {
      var reply := env(|log|);
      log := Ask(env, log, Balance);
      match reply
      case None =>
        return log, None;
      case Some(b) =>
        bal := b;
        if bal >= need {
          return log, Some(bal);
        }
        reply := env(|log|);
        log := Ask(env, log, PrevWork);
        if reply.None? {
          return log, None;
        }
    }
    return log, Some(bal);
  }

  // From the balance check to a covered balance; None when a read raises.
  function Fund(env: Env, log: Log, price: nat, gas: nat): (Log, Option<bool>) {
    var l1 := Ask(env, log, Balance);
    match env(|log|)
    case None => (l1, None)
    case Some(bal) =>
      var l2 := Ask(env, l1, GasPrice);
      match env(|l1|)
      case None => (l2, None)
      case Some(fee) =>
        var need := price + GasLimit(gas) * Raise(fee);
        if bal >= need then (l2, Some(true))
        else
          var (l3, last) := Grace(env, l2, need, bal, 40);
          (l3, if last.None? then None else Some(last.value >= need))
  }

  // The final simulation, the send, and the check of ownership after a status-1 receipt.
  function FinalSend(env: Env, log: Log, nonce: nat, anchor: nat): (Log, Attempt) {
    var (l1, sim) := BuildAndCheck(env, log, nonce, anchor);
    if sim.None? then (l1, Threw)
    else if sim.value.gas.None? then (l1, Refused)
    else
      var (l2, status) := Send(env, l1, nonce, anchor, sim.value.price, sim.value.gas.value);
      match status
      case None => (l2, Threw)
      case Some(code) =>
        if code != 1 then (l2, Refused)
        else (Ask(env, l2, Owned), if env(|l2|).None? then Threw else Succeeded)
  }

  function TrySend(env: Env, log: Log, nonce: nat, anchor: nat, send: bool): (Log, Attempt) {
    var (l1, sim) := BuildAndCheck(env, log, nonce, anchor);
    if sim.None? then (l1, Threw)
    else if sim.value.gas.None? then (l1, Refused)
    else if !send then (l1, Succeeded)
    else
      var (l2, funded) := Fund(env, l1, sim.value.price, sim.value.gas.value);
      match funded
      case None => (l2, Threw)
      case Some(false) => (l2, Refused)
      case Some(true) => FinalSend(env, l2, nonce, anchor)
  }

  // ---------- hunter.py: hunt_once and main ----------

  // What csolver.solve is given of a snapshot; the anchor block stands for the anchor hash read with it.
  datatype Snap = Snap(anchor: nat, prevWork: nat, target: nat)

  // What csolver.solve does when called after so many interactions.
  datatype Search = Fails | NoNonce | Nonce(n: nat)

  type Solver = (nat, Snap) -> Search

  datatype Args = Args(send: bool, maxBits: int)

  datatype Round = Errored | Wait | Retry | Done

  // The reads of chain.snapshot, in order.
  function SnapshotQueries(): (queries: seq<Query>)
    ensures |queries| == 8 && Owned !in queries
  {
    [CurrentAnchor, PrevWork, TargetFor, MintPrice, CurrentBurst, TotalMinted, CurrentEpoch, BlockNumber]
  }

  // Reads one after the other; stops at the first that raises.
  function Snapshot(env: Env, log: Log, queries: seq<Query>): (r: (Log, bool))
    ensures r.1 <==> forall i: nat | |log| <= i < |log| + |queries| :: env(i).Some?
    decreases |queries|
  {
    if queries == [] then (log, true)
    else if env(|log|).None? then (Ask(env, log, queries[0]), false)
    else Snapshot(env, Ask(env, log, queries[0]), queries[1..])
  }

  function HuntOnce(env: Env, solver: Solver, log: Log, args: Args): (Log, Round) {
    var n := |log|;
    var (l1, complete) := Snapshot(env, log, SnapshotQueries());
    if !complete then (l1, Errored)
    else
      var snap := Snap(env(n).value, env(n + 1).value, env(n + 2).value);
      if D.TargetBits(snap.target) > args.maxBits then (l1, Wait)
      else
        match solver(|l1|, snap)
        case Fails => (l1, Errored)
        case NoNonce => (l1, Retry)
        case Nonce(nonce) =>
          var (l2, attempt) := TrySend(env, l1, nonce, snap.anchor, args.send);
          (l2, if attempt.Threw? then Errored else if attempt.Succeeded? && args.send then Done else Retry)
  }

  // The first `rounds` passes of main's loop, or fewer if one of them is done.
  function Hunt(env: Env, solver: Solver, args: Args, rounds: nat): (Log, bool) {
    if rounds == 0 then ([], false)
    else
      var (log, done) := Hunt(env, solver, args, rounds - 1);
      if done then (log, true)
      else
        var (l, round) := HuntOnce(env, solver, log, args);
        (l, round.Done?)
  }

  // ---------- what a passed balance check leaves in the log ----------

  // An attempt starts at position a: the price, a successful simulation with it, a balance and a fee.
  ghost predicate Begun(log: Log, a: nat) {
    && a + 4 <= |log|
    && log[a + 1].Simulated? && log[a + 1].estimate.Some? && log[a] == Read(MintPrice, Some(log[a + 1].value))
    && log[a + 2].Read? && log[a + 2].query.Balance? && log[a + 2].reply.Some?
    && log[a + 3].Read? && log[a + 3].query.GasPrice? && log[a + 3].reply.Some?
  }

  // The cost estimated there.
  ghost function Need(log: Log, a: nat): nat
    requires Begun(log, a)
  {
    log[a + 1].value + GasLimit(log[a + 1].estimate.value) * Raise(log[a + 3].reply.value)
  }

  // From `from` on the grace loop ran, up to position n, where a balance covered the need: none, or an odd number of
  // reads, balance and prevWork in turn, with no covering balance before the last.
  ghost predicate Waited(log: Log, from: nat, n: nat, need: nat) {
    && from <= n <= |log| && n - from <= 79 && (n == from || (n - from) % 2 == 1)
    && (forall m | from <= m < n ::
          && log[m].Read? && log[m].reply.Some?
          && log[m].query == (if (m - from) % 2 == 0 then Balance else PrevWork))
    && (forall m | from <= m < n - 1 && (m - from) % 2 == 0 :: log[m].reply.value < need)
  }

  // The balance that passed the check: the first one, or the last one of the grace loop.
  function CoverAt(a: nat, n: nat): nat
    requires n >= a + 4
  {
    if n == a + 4 then a + 2 else n - 1
  }

  // The attempt that started at a has passed its balance check when the log has length n, and has done nothing else.
  ghost predicate Passed(log: Log, a: nat, n: nat) {
    && Begun(log, a) && a + 4 <= n
    && Waited(log, a + 4, n, Need(log, a))
    && (n > a + 4 ==> log[a + 2].reply.value < Need(log, a))
    && log[CoverAt(a, n)].reply.value >= Need(log, a)
  }

  // The eight reads before position a are a snapshot within the difficulty limit, on which csolver found the nonce.
  ghost predicate Mined(args: Args, solver: Solver, log: Log, a: nat, nonce: nat, anchor: nat) {
    && 8 <= a <= |log|
    && log[a - 8] == Read(CurrentAnchor, Some(anchor))
    && log[a - 7].Read? && log[a - 7].query.PrevWork? && log[a - 7].reply.Some?
    && log[a - 6].Read? && log[a - 6].query.TargetFor? && log[a - 6].reply.Some?
    && log[a - 5].Read? && log[a - 5].query.MintPrice? && log[a - 5].reply.Some?
    && log[a - 4].Read? && log[a - 4].query.CurrentBurst? && log[a - 4].reply.Some?
    && log[a - 3].Read? && log[a - 3].query.TotalMinted? && log[a - 3].reply.Some?
    && log[a - 2].Read? && log[a - 2].query.CurrentEpoch? && log[a - 2].reply.Some?
    && log[a - 1].Read? && log[a - 1].query.BlockNumber? && log[a - 1].reply.Some?
    && D.TargetBits(log[a - 6].reply.value) <= args.maxBits
    && solver(a, Snap(anchor, log[a - 7].reply.value, log[a - 6].reply.value)) == Nonce(nonce)
  }

  // An attempt that started at a and passed its balance check at n.
  ghost predicate Attempted(args: Args, solver: Solver, log: Log, a: nat, n: nat, nonce: nat, anchor: nat) {
    && args.send && Mined(args, solver, log, a, nonce, anchor)
    && Passed(log, a, n) && log[a + 1].nonce == nonce && log[a + 1].anchor == anchor
  }

  // Right before a broadcast at k the price was read, the nonce and anchor were simulated successfully with that price,
  // and the fee was read; the transaction pays that price, and takes its gas limit and gas price from those answers.
  ghost predicate Rechecked(log: Log, k: nat)
    requires k < |log| && log[k].Broadcast?
  {
    && k >= 5
    && log[k - 5] == Read(MintPrice, Some(log[k].value))
    && log[k - 4].Simulated? && log[k - 4].estimate.Some?
    && log[k - 4].nonce == log[k].nonce && log[k - 4].anchor == log[k].anchor && log[k - 4].value == log[k].value
    && log[k - 3].Read? && log[k - 3].query.GasPrice? && log[k - 3].reply.Some?
    && log[k].gas == GasLimit(log[k - 4].estimate.value)
    && log[k].gasPrice == Raise(log[k - 3].reply.value)
  }

  // The broadcast at k ends the attempt that started at a, right after its balance check and the recheck.
  ghost predicate Ends(args: Args, solver: Solver, log: Log, a: nat, k: nat) {
    && 5 <= k < |log| && log[k].Broadcast?
    && Attempted(args, solver, log, a, k - 5, log[k].nonce, log[k].anchor)
  }

  // A broadcast at k ends an attempt: its last balance check passed immediately before the final recheck.
  ghost predicate Backed(args: Args, solver: Solver, log: Log, k: nat)
    requires k < |log| && log[k].Broadcast?
  {
    Rechecked(log, k) && exists a: nat :: Ends(args, solver, log, a, k)
  }

  ghost predicate Disciplined(args: Args, solver: Solver, log: Log) {
    forall k: nat | k < |log| && log[k].Broadcast? :: Backed(args, solver, log, k)
  }

  // Every status-1 receipt is followed at once by the ownership read, which raised unless the run completed with it;
  // and ownership is read only there.
  ghost predicate Settled(env: Env, log: Log, done: bool) {
    && (done ==> |log| >= 2 && log[|log| - 2] == Receipt(Some(1)))
    && (forall k: nat | k < |log| && log[k] == Receipt(Some(1)) ::
          && k + 1 < |log| && log[k + 1] == Read(Owned, env(k + 1))
          && (env(k + 1).Some? <==> done && k + 2 == |log|))
    && (forall k: nat | k < |log| && log[k].Read? && log[k].query.Owned? ::
          k > 0 && log[k - 1] == Receipt(Some(1)))
  }

  // ---------- quiet pieces of the log ----------

  // b continues a with events that are neither broadcasts nor receipts nor ownership reads.
  ghost predicate Quiet(a: Log, b: Log) {
    && a <= b
    && (forall k | |a| <= k < |b| :: !b[k].Broadcast? && !b[k].Receipt? && !(b[k].Read? && b[k].query.Owned?))
  }

  lemma QuietTrans(a: Log, b: Log, c: Log)
    requires Quiet(a, b) && Quiet(b, c)
    ensures Quiet(a, c)
  {
  }

  lemma PassedPrefix(a: Log, b: Log, start: nat, n: nat)
    requires a <= b && n <= |a| && Passed(a, start, n)
    ensures Passed(b, start, n)
  {
    hide GasLimit, Raise;
    assert Need(b, start) == Need(a, start);
  }

  lemma AttemptedPrefix(args: Args, solver: Solver, a: Log, b: Log, start: nat, n: nat, nonce: nat, anchor: nat)
    requires a <= b && n <= |a| && Attempted(args, solver, a, start, n, nonce, anchor)
    ensures Attempted(args, solver, b, start, n, nonce, anchor)
  {
    hide Passed, D.TargetBits;
    PassedPrefix(a, b, start, n);
    PassedBounds(a, start, n);
  }

  lemma PassedBounds(log: Log, a: nat, n: nat)
    requires Passed(log, a, n)
    ensures a + 4 <= n <= |log|
  {
    hide GasLimit, Raise;
  }

  lemma BackedPrefix(args: Args, solver: Solver, a: Log, b: Log, k: nat)
    requires a <= b && k < |a| && a[k].Broadcast? && Backed(args, solver, a, k)
    ensures Backed(args, solver, b, k)
  {
    hide Attempted, GasLimit, Raise;
    var start: nat :| Ends(args, solver, a, start, k);
    AttemptedPrefix(args, solver, a, b, start, k - 5, a[k].nonce, a[k].anchor);
    assert Ends(args, solver, b, start, k);
  }

  lemma QuietDisciplined(args: Args, solver: Solver, a: Log, b: Log)
    requires Quiet(a, b) && Disciplined(args, solver, a)
    ensures Disciplined(args, solver, b)
  {
    hide Backed;
    forall k: nat | k < |b| && b[k].Broadcast?
      ensures Backed(args, solver, b, k)
    {
      BackedPrefix(args, solver, a, b, k);
    }
  }

  lemma QuietSettled(env: Env, a: Log, b: Log)
    requires Quiet(a, b) && Settled(env, a, false)
    ensures Settled(env, b, false)
  {
  }

  lemma {:induction false} SnapshotShape(env: Env, log: Log, queries: seq<Query>)
    requires Owned !in queries
    ensures var (l, complete) := Snapshot(env, log, queries);
            && Quiet(log, l)
            && (complete ==> |l| == |log| + |queries|
                             && forall i | 0 <= i < |queries| :: l[|log| + i] == Read(queries[i], env(|log| + i)))
    decreases |queries|
  {
    if queries != [] && env(|log|).Some? {
      var l1 := Ask(env, log, queries[0]);
      SnapshotShape(env, l1, queries[1..]);
      var (l, complete) := Snapshot(env, l1, queries[1..]);
      if complete {
        forall i | 0 <= i < |queries|
          ensures l[|log| + i] == Read(queries[i], env(|log| + i))
        {
          if i > 0 {
            assert l[|l1| + (i - 1)] == Read(queries[1..][i - 1], env(|l1| + (i - 1)));
          }
        }
      }
    }
  }

  // ---------- the pieces of try_send ----------

  lemma BuildShape(env: Env, log: Log, nonce: nat, anchor: nat)
    ensures var n, (l, sim) := |log|, BuildAndCheck(env, log, nonce, anchor);
            && Quiet(log, l) && (sim.None? <==> env(n).None?)
            && (sim.None? ==> l == log + [Read(MintPrice, None)])
            && (sim.Some? ==>
                  && sim.value == Sim(env(n).value, env(n + 1))
                  && l == log + [Read(MintPrice, env(n)), Simulated(nonce, anchor, env(n).value, env(n + 1))])
  {
    assert |Ask(env, log, MintPrice)| == |log| + 1;
  }

  // The balance check of an attempt whose simulation ends the log.
  lemma FundShape(env: Env, log: Log, price: nat, gas: nat)
    requires |log| >= 2 && log[|log| - 2] == Read(MintPrice, Some(price))
    requires log[|log| - 1].Simulated? && log[|log| - 1].value == price && log[|log| - 1].estimate == Some(gas)
    ensures var (l, funded) := Fund(env, log, price, gas);
            Quiet(log, l) && (funded == Some(true) ==> Passed(l, |log| - 2, |l|))
  {
    hide Grace, GasLimit, Raise, Quiet, Passed, GraceEvents, Begun;
    var n := |log|;
    var l1 := Ask(env, log, Balance);
    var l2 := Ask(env, l1, GasPrice);
    assert Quiet(log, l1) && Quiet(log, l2) && |l1| == n + 1 by {
      TwoReads(env, log);
    }
    if env(n).Some? && env(n + 1).Some? {
      FundBegun(env, log, price, gas);
      var need := price + GasLimit(gas) * Raise(env(n + 1).value);
      if env(n).value < need {
        GraceShape(env, l2, need, env(n).value, 40);
        var (l3, last) := Grace(env, l2, need, env(n).value, 40);
        GraceQuiet(env, l2, l3, need, last);
        QuietTrans(log, l2, l3);
        if last.Some? && last.value >= need {
          GraceWaited(env, l2, l3, need, last.value);
          GracePassed(l2, l3, n - 2, need);
        }
      }
    }
  }

  lemma TwoReads(env: Env, log: Log)
    ensures |Ask(env, log, Balance)| == |log| + 1
    ensures Quiet(log, Ask(env, log, Balance)) && Quiet(log, Ask(env, Ask(env, log, Balance), GasPrice))
  {
  }

  // The first balance and the fee; the attempt has passed already if that balance covers the cost.
  lemma FundBegun(env: Env, log: Log, price: nat, gas: nat)
    requires |log| >= 2 && log[|log| - 2] == Read(MintPrice, Some(price))
    requires log[|log| - 1].Simulated? && log[|log| - 1].value == price && log[|log| - 1].estimate == Some(gas)
    requires env(|log|).Some? && env(|log| + 1).Some?
    ensures var l, a := Ask(env, Ask(env, log, Balance), GasPrice), |log| - 2;
            && |l| == a + 4 && Begun(l, a) && l[a + 2].reply == env(|log|)
            && Need(l, a) == price + GasLimit(gas) * Raise(env(|log| + 1).value)
            && (env(|log|).value >= Need(l, a) ==> Passed(l, a, |l|))
  {
    hide GasLimit, Raise;
    var l, a := Ask(env, Ask(env, log, Balance), GasPrice), |log| - 2;
    assert l[a] == log[a] && l[a + 1] == log[a + 1];
    assert l[a + 2] == Read(Balance, env(|log|)) && l[a + 3] == Read(GasPrice, env(|log| + 1));
  }

  lemma GraceQuiet(env: Env, a: Log, b: Log, need: nat, last: Option<nat>)
    requires GraceEvents(env, a, b, need, 40, last)
    ensures Quiet(a, b)
  {
  }

  lemma GraceWaited(env: Env, a: Log, b: Log, need: nat, bal: nat)
    requires GraceEvents(env, a, b, need, 40, Some(bal)) && bal >= need
    ensures Waited(b, |a|, |b|, need) && |b| > |a| && b[|b| - 1].reply.value >= need
  {
  }

  lemma GracePassed(a: Log, b: Log, start: nat, need: nat)
    requires a <= b && |a| == start + 4 && Begun(a, start) && Need(a, start) == need
    requires a[start + 2].reply.value < need
    requires Waited(b, |a|, |b|, need) && |b| > |a| && b[|b| - 1].reply.value >= need
    ensures Passed(b, start, |b|)
  {
    hide GasLimit, Raise, Waited;
    assert Begun(b, start) && Need(b, start) == need;
  }

  // How many interactions the final simulation, the send and the ownership check make.
  function FinalLength(env: Env, n: nat): nat {
    if env(n).None? then 1
    else if env(n + 1).None? then 2
    else if env(n + 2).None? then 3
    else if env(n + 3).None? then 4
    else if env(n + 4).None? then 5
    else if env(n + 5).None? then 6
    else if env(n + 6) != Some(1) then 7
    else 8
  }

  // Those interactions, appended to a.
  ghost predicate FinalEvents(env: Env, a: Log, b: Log, nonce: nat, anchor: nat) {
    var n := |a|;
    && a <= b && |b| == n + FinalLength(env, n)
    && b[n] == Read(MintPrice, env(n))
    && (|b| > n + 1 ==> b[n + 1] == Simulated(nonce, anchor, env(n).value, env(n + 1)))
    && (|b| > n + 2 ==> b[n + 2] == Read(GasPrice, env(n + 2)))
    && (|b| > n + 3 ==> b[n + 3] == Read(TxCount, env(n + 3)))
    && (|b| > n + 4 ==> b[n + 4] == Read(ChainId, env(n + 4)))
    && (|b| > n + 5 ==> b[n + 5] == Broadcast(nonce, anchor, env(n).value, GasLimit(env(n + 1).value),
                                              Raise(env(n + 2).value), env(n + 5).Some?))
    && (|b| > n + 6 ==> b[n + 6] == Receipt(env(n + 6)))
    && (|b| > n + 7 ==> b[n + 7] == Read(Owned, env(n + 7)))
  }

  lemma SendShape(env: Env, log: Log, nonce: nat, anchor: nat, price: nat, gas: nat)
    ensures var n, (l, status) := |log|, Send(env, log, nonce, anchor, price, gas);
            && log <= l && n < |l| <= n + 5 && l[n] == Read(GasPrice, env(n))
            && (|l| > n + 1 <==> env(n).Some?)
            && (|l| > n + 2 <==> env(n).Some? && env(n + 1).Some?)
            && (|l| > n + 3 <==> env(n).Some? && env(n + 1).Some? && env(n + 2).Some?)
            && (|l| > n + 4 <==> env(n).Some? && env(n + 1).Some? && env(n + 2).Some? && env(n + 3).Some?)
            && (|l| > n + 1 ==> l[n + 1] == Read(TxCount, env(n + 1)))
            && (|l| > n + 2 ==> l[n + 2] == Read(ChainId, env(n + 2)))
            && (|l| > n + 3 ==>
                  l[n + 3] == Broadcast(nonce, anchor, price, GasLimit(gas), Raise(env(n).value), env(n + 3).Some?))
            && (|l| > n + 4 ==> l[n + 4] == Receipt(env(n + 4)))
            && status == (if |l| > n + 4 then env(n + 4) else None)
  {
    hide GasLimit, Raise;
    var l1 := Ask(env, log, GasPrice);
    var l2 := Ask(env, l1, TxCount);
    var l3 := Ask(env, l2, ChainId);
    assert |l1| == |log| + 1 && |l2| == |log| + 2 && |l3| == |log| + 3;
  }

  lemma FinalShape(env: Env, log: Log, nonce: nat, anchor: nat)
    ensures var n, (l, attempt) := |log|, FinalSend(env, log, nonce, anchor);
            && FinalEvents(env, log, l, nonce, anchor)
            && (attempt.Succeeded? <==> |l| == n + 8 && env(n + 7).Some?)
            && (|l| == n + 8 && env(n + 7).None? ==> attempt.Threw?)
  {
    hide Send, BuildAndCheck, Quiet, GasLimit, Raise;
    BuildShape(env, log, nonce, anchor);
    var (l1, sim) := BuildAndCheck(env, log, nonce, anchor);
    if sim.Some? && sim.value.gas.Some? {
      SendShape(env, l1, nonce, anchor, sim.value.price, sim.value.gas.value);
    }
  }

  // try_send: a quiet part, which reaches the final simulation only with --send and a passed balance check; then the
  // final interactions.
  lemma TrySendShape(env: Env, log: Log, nonce: nat, anchor: nat, send: bool) returns (mid: Log, reached: bool)
    ensures var (l, attempt) := TrySend(env, log, nonce, anchor, send);
            && Quiet(log, mid)
            && (reached ==> && send && Passed(mid, |log|, |mid|)
                            && mid[|log| + 1].nonce == nonce && mid[|log| + 1].anchor == anchor
                            && (l, attempt) == FinalSend(env, mid, nonce, anchor))
            && (!reached ==> l == mid && !(attempt.Succeeded? && send))
  {
    hide FinalSend, Fund, Passed, GasLimit, Raise;
    var (l1, sim) := BuildAndCheck(env, log, nonce, anchor);
    BuildShape(env, log, nonce, anchor);
    mid, reached := l1, false;
    if sim.Some? && sim.value.gas.Some? && send {
      FundShape(env, l1, sim.value.price, sim.value.gas.value);
      var (l2, funded) := Fund(env, l1, sim.value.price, sim.value.gas.value);
      QuietTrans(log, l1, l2);
      mid, reached := l2, funded == Some(true);
    }
  }

  // hunt_once, likewise.
  lemma HuntOnceShape(env: Env, solver: Solver, log: Log, args: Args)
    returns (mid: Log, reached: bool, a: nat, nonce: nat, anchor: nat)
    ensures var (l, round) := HuntOnce(env, solver, log, args);
            && Quiet(log, mid)
            && (reached ==> && Attempted(args, solver, mid, a, |mid|, nonce, anchor)
                            && var (l', attempt) := FinalSend(env, mid, nonce, anchor);
                               l == l' && (round.Done? <==> attempt.Succeeded?))
            && (!reached ==> l == mid && !round.Done?)
  {
    hide FinalSend, TrySend, Snapshot, Passed, Mined, D.TargetBits;
    var n := |log|;
    var (l1, complete) := Snapshot(env, log, SnapshotQueries());
    SnapshotShape(env, log, SnapshotQueries());
    mid, reached, a, nonce, anchor := l1, false, |l1|, 0, 0;
    if complete {
      var snap := Snap(env(n).value, env(n + 1).value, env(n + 2).value);
      if D.TargetBits(snap.target) <= args.maxBits && solver(|l1|, snap).Nonce? {
        nonce, anchor := solver(|l1|, snap).n, snap.anchor;
        mid, reached := TrySendShape(env, l1, nonce, anchor, args.send);
        QuietTrans(log, l1, mid);
        SnapshotMines(env, args, solver, log, l1, mid, nonce);
      }
    }
  }

  lemma SnapshotMines(env: Env, args: Args, solver: Solver, log: Log, l1: Log, mid: Log, nonce: nat)
    requires |l1| == |log| + 8 && l1 <= mid && forall i: nat | |log| <= i < |log| + 8 :: env(i).Some?
    requires forall i | 0 <= i < 8 :: l1[|log| + i] == Read(SnapshotQueries()[i], env(|log| + i))
    requires var snap := Snap(env(|log|).value, env(|log| + 1).value, env(|log| + 2).value);
             D.TargetBits(snap.target) <= args.maxBits && solver(|l1|, snap) == Nonce(nonce)
    ensures Mined(args, solver, mid, |l1|, nonce, env(|log|).value)
  {
    hide D.TargetBits;
    SnapshotStays(env, log, l1, mid);
  }

  lemma SnapshotStays(env: Env, log: Log, l1: Log, mid: Log)
    requires |l1| == |log| + 8 && l1 <= mid
    requires forall i | 0 <= i < 8 :: l1[|log| + i] == Read(SnapshotQueries()[i], env(|log| + i))
    ensures mid[|l1| - 8] == Read(CurrentAnchor, env(|log|))
    ensures mid[|l1| - 7] == Read(PrevWork, env(|log| + 1))
    ensures mid[|l1| - 6] == Read(TargetFor, env(|log| + 2))
    ensures mid[|l1| - 5] == Read(MintPrice, env(|log| + 3)) && mid[|l1| - 4] == Read(CurrentBurst, env(|log| + 4))
    ensures mid[|l1| - 3] == Read(TotalMinted, env(|log| + 5)) && mid[|l1| - 2] == Read(CurrentEpoch, env(|log| + 6))
    ensures mid[|l1| - 1] == Read(BlockNumber, env(|log| + 7))
  {
    var queries := SnapshotQueries();
    assert l1[|log| + 0] == Read(queries[0], env(|log| + 0));
    assert l1[|log| + 1] == Read(queries[1], env(|log| + 1));
    assert l1[|log| + 2] == Read(queries[2], env(|log| + 2));
    assert l1[|log| + 3] == Read(queries[3], env(|log| + 3));
    assert l1[|log| + 4] == Read(queries[4], env(|log| + 4));
    assert l1[|log| + 5] == Read(queries[5], env(|log| + 5));
    assert l1[|log| + 6] == Read(queries[6], env(|log| + 6));
    assert l1[|log| + 7] == Read(queries[7], env(|log| + 7));
  }

  // ---------- the final interactions keep the discipline ----------

  lemma FinalDisciplined(env: Env, args: Args, solver: Solver, a: nat, log: Log, l: Log, nonce: nat, anchor: nat)
    requires FinalEvents(env, log, l, nonce, anchor) && Attempted(args, solver, log, a, |log|, nonce, anchor)
    requires Disciplined(args, solver, log)
    ensures Disciplined(args, solver, l)
  {
    hide Backed, Attempted;
    forall k: nat | k < |l| && l[k].Broadcast?
      ensures Backed(args, solver, l, k)
    {
      if k < |log| {
        BackedPrefix(args, solver, log, l, k);
      } else {
        assert k == |log| + 5;
        FinalBacked(env, args, solver, a, log, l, nonce, anchor);
      }
    }
  }

  lemma FinalBacked(env: Env, args: Args, solver: Solver, a: nat, log: Log, l: Log, nonce: nat, anchor: nat)
    requires FinalEvents(env, log, l, nonce, anchor) && Attempted(args, solver, log, a, |log|, nonce, anchor)
    requires |l| > |log| + 5
    ensures Backed(args, solver, l, |log| + 5)
  {
    hide Attempted, GasLimit, Raise;
    AttemptedPrefix(args, solver, log, l, a, |log|, nonce, anchor);
    assert Rechecked(l, |log| + 5) && Ends(args, solver, l, a, |log| + 5);
  }

  lemma FinalSettled(env: Env, log: Log, l: Log, nonce: nat, anchor: nat)
    requires FinalEvents(env, log, l, nonce, anchor) && Settled(env, log, false)
    ensures Settled(env, l, |l| == |log| + 8 && env(|log| + 7).Some?)
  {
    hide FinalEvents;
    FinalTail(env, log, l, nonce, anchor);
    forall k: nat | k < |l| && l[k] == Receipt(Some(1))
      ensures k + 1 < |l| && l[k + 1] == Read(Owned, env(k + 1))
      ensures env(k + 1).Some? <==> |l| == |log| + 8 && env(|log| + 7).Some? && k + 2 == |l|
    {
      if k < |log| {
        assert log[k] == l[k] && log[k + 1] == l[k + 1];
      }
    }
    forall k: nat | k < |l| && l[k].Read? && l[k].query.Owned?
      ensures k > 0 && l[k - 1] == Receipt(Some(1))
    {
      if k < |log| {
        assert log[k] == l[k] && log[k - 1] == l[k - 1];
      }
    }
  }

  // Where the final interactions have receipts and ownership reads.
  lemma FinalTail(env: Env, log: Log, l: Log, nonce: nat, anchor: nat)
    requires FinalEvents(env, log, l, nonce, anchor)
    ensures log <= l && |log| < |l| <= |log| + 8
    ensures forall k | |log| <= k < |l| && k < |log| + 6 :: !l[k].Receipt? && !(l[k].Read? && l[k].query.Owned?)
    ensures |l| > |log| + 6 ==> l[|log| + 6] == Receipt(env(|log| + 6))
    ensures |l| > |log| + 7 <==> |l| > |log| + 6 && env(|log| + 6) == Some(1)
    ensures |l| > |log| + 7 ==> l[|log| + 7] == Read(Owned, env(|log| + 7))
  {
    hide GasLimit, Raise;
  }

  lemma HuntOnceKeeps(env: Env, solver: Solver, log: Log, args: Args)
    requires Disciplined(args, solver, log) && Settled(env, log, false)
    ensures var (l, round) := HuntOnce(env, solver, log, args);
            Disciplined(args, solver, l) && Settled(env, l, round.Done?)
  {
    hide HuntOnce, FinalSend, FinalEvents, Disciplined, Settled, Attempted, Quiet;
    var mid, reached, a, nonce, anchor := HuntOnceShape(env, solver, log, args);
    QuietDisciplined(args, solver, log, mid);
    QuietSettled(env, log, mid);
    if reached {
      var l := FinalSend(env, mid, nonce, anchor).0;
      FinalShape(env, mid, nonce, anchor);
      FinalDisciplined(env, args, solver, a, mid, l, nonce, anchor);
      FinalSettled(env, mid, l, nonce, anchor);
    }
  }

  // ---------- whole runs ----------

  lemma Nothing(env: Env, args: Args, solver: Solver)
    ensures Disciplined(args, solver, []) && Settled(env, [], false)
  {
  }

  // Every broadcast of a run ends an attempt on a nonce that csolver found for the snapshot right before it: simulated
  // successfully, covered by the last balance read, and simulated again at once with the price it pays.  And every
  // status-1 receipt is settled.
  lemma {:induction false} RunIsDisciplined(env: Env, solver: Solver, args: Args, rounds: nat)
    ensures var (log, done) := Hunt(env, solver, args, rounds);
            Disciplined(args, solver, log) && Settled(env, log, done)
  {
    hide HuntOnce, Disciplined, Settled;
    Nothing(env, args, solver);
    if rounds > 0 {
      RunIsDisciplined(env, solver, args, rounds - 1);
      if !Hunt(env, solver, args, rounds - 1).1 {
        HuntOnceKeeps(env, solver, Hunt(env, solver, args, rounds - 1).0, args);
      }
    }
  }

  ghost predicate NothingSent(log: Log) {
    forall k | 0 <= k < |log| :: !log[k].Broadcast? && !log[k].Receipt?
  }

  // A dry run broadcasts nothing and never reports completion.
  lemma {:induction false} DryRunNeverSends(env: Env, solver: Solver, args: Args, rounds: nat)
    requires !args.send
    ensures var (log, done) := Hunt(env, solver, args, rounds); !done && NothingSent(log)
  {
    hide HuntOnce, FinalSend;
    if rounds > 0 {
      DryRunNeverSends(env, solver, args, rounds - 1);
      var mid, reached, a, nonce, anchor := HuntOnceShape(env, solver, Hunt(env, solver, args, rounds - 1).0, args);
    }
  }

  // main's loop as it runs; an exception is caught and the loop goes on.
  method RunHunter(env: Env, solver: Solver, args: Args, rounds: nat) returns (log: Log, done: bool, passes: nat)
    ensures passes <= rounds && (log, done) == Hunt(env, solver, args, passes) == Hunt(env, solver, args, rounds)
    ensures !done ==> passes == rounds
    ensures done ==> passes > 0 && !Hunt(env, solver, args, passes - 1).1
    ensures Disciplined(args, solver, log) && Settled(env, log, done)
    ensures !args.send ==> !done && NothingSent(log)
  {
    hide HuntOnce, Disciplined, Settled;
    log, done := [], false;
    passes := 0;
    while passes < rounds && !done
      invariant passes <= rounds
      invariant (log, done) == Hunt(env, solver, args, passes)
      invariant done ==> passes > 0 && !Hunt(env, solver, args, passes - 1).1
    {
      var (l, round) := HuntOnce(env, solver, log, args);
      log, done := l, round.Done?;
      passes := passes + 1;
    }
    if done {
      DoneStays(env, solver, args, passes, rounds);
    }
    RunIsDisciplined(env, solver, args, rounds);
    if !args.send {
      DryRunNeverSends(env, solver, args, rounds);
    }
  }

  lemma {:induction false} DoneStays(env: Env, solver: Solver, args: Args, k: nat, rounds: nat)
    requires k <= rounds && Hunt(env, solver, args, k).1
    ensures Hunt(env, solver, args, rounds) == Hunt(env, solver, args, k)
  {
    hide HuntOnce;
    if k < rounds {
      DoneStays(env, solver, args, k, rounds - 1);
    }
  }

  // ---------- broadcasts win ----------

  // An honest solver: a nonce it returns wins the job of the snapshot it was given.  The anchor hash was read
  // with the anchor block, eight interactions before.
  ghost predicate Honest(solver: Solver, miner: seq<byte>, anchorHash: nat -> seq<byte>) {
    forall i: nat, snap: Snap | solver(i, snap).Nonce? ::
      && i >= 8
      && var job := Job(miner, snap.prevWork, anchorHash(i - 8), snap.target);
         job.Valid() && Wins(job, solver(i, snap).n)
  }

  // Every answer of the solver is what some call of csolver.solve on that snapshot returned.
  ghost predicate AnswersOfCsolver(solver: Solver, addr: string, miner: seq<byte>, anchorHash: nat -> seq<byte>) {
    forall i: nat, snap: Snap | solver(i, snap).Nonce? ::
      && i >= 8
      && var job := Job(miner, snap.prevWork, anchorHash(i - 8), snap.target);
         job.Valid() && Returned(addr, job, solver(i, snap).n)
  }

  // Some genuine run of a call for the job returned the nonce.
  ghost predicate Returned(addr: string, job: ValidJob, n: nat) {
    C.Describes(addr, job) &&
    exists c: C.Call, events: seq<C.Event> ::
      c.addr == addr && c.job == job && C.Genuine(c, events) && C.Supervise(c, events).returned == Some(Some(n))
  }

  // csolver keeps its word.
  lemma CsolverIsHonest(solver: Solver, addr: string, miner: seq<byte>, anchorHash: nat -> seq<byte>)
    requires AnswersOfCsolver(solver, addr, miner, anchorHash)
    ensures Honest(solver, miner, anchorHash)
  {
    hide Wins, Returned;
    forall i: nat, snap: Snap | solver(i, snap).Nonce?
      ensures i >= 8
      ensures var job := Job(miner, snap.prevWork, anchorHash(i - 8), snap.target);
              job.Valid() && Wins(job, solver(i, snap).n)
    {
      ReturnedWins(addr, Job(miner, snap.prevWork, anchorHash(i - 8), snap.target), solver(i, snap).n);
    }
  }

  lemma ReturnedWins(addr: string, job: ValidJob, n: nat)
    requires Returned(addr, job, n)
    ensures Wins(job, n)
  {
    hide Wins, VerifyLocal, C.Genuine, C.Supervise;
    var c: C.Call, events: seq<C.Event> :|
      c.addr == addr && c.job == job && C.Genuine(c, events) && C.Supervise(c, events).returned == Some(Some(n));
    C.ReturnedIsAccepted(c, events);
    AcceptedFits(addr, n, job);
    VerifyLocalIsWins(addr, n, job);
  }

  lemma AcceptedFits(addr: string, n: nat, job: Job)
    requires VerifyLocal(addr, n, job.prevWork, job.anchor, job.target) == Ok(true)
    ensures n < LIMIT
  {
  }

  // With such a solver, every broadcast nonce wins the job read in the snapshot of its own round.
  lemma BroadcastWins(env: Env, solver: Solver, args: Args, rounds: nat, k: nat,
                      miner: seq<byte>, anchorHash: nat -> seq<byte>)
    returns (a: nat)
    requires Honest(solver, miner, anchorHash)
    requires k < |Hunt(env, solver, args, rounds).0| && Hunt(env, solver, args, rounds).0[k].Broadcast?
    ensures 8 <= a && a + 9 <= k <= a + 88
    ensures var log := Hunt(env, solver, args, rounds).0;
            && log[a - 8] == Read(CurrentAnchor, Some(log[k].anchor))
            && log[a - 7].Read? && log[a - 7].query.PrevWork? && log[a - 7].reply.Some?
            && log[a - 6].Read? && log[a - 6].query.TargetFor? && log[a - 6].reply.Some?
            && var job := Job(miner, log[a - 7].reply.value, anchorHash(a - 8), log[a - 6].reply.value);
               job.Valid() && Wins(job, log[k].nonce)
  {
    hide Hunt, Wins, GasLimit, Raise, D.TargetBits, Settled;
    RunIsDisciplined(env, solver, args, rounds);
    var log := Hunt(env, solver, args, rounds).0;
    assert Backed(args, solver, log, k);
    a :| Ends(args, solver, log, a, k);
    assert solver(a, Snap(log[k].anchor, log[a - 7].reply.value, log[a - 6].reply.value)) == Nonce(log[k].nonce);
  }

  // ---------- status-1 receipts ----------

  // After a status-1 receipt the loop goes on if and only if the ownership read that follows raises.
  lemma GoesOnIfRaised(env: Env, solver: Solver, args: Args, rounds: nat, k: nat)
    requires k < |Hunt(env, solver, args, rounds).0|
    requires Hunt(env, solver, args, rounds).0[k] == Receipt(Some(1))
    ensures var (log, done) := Hunt(env, solver, args, rounds);
            && k + 1 < |log| && log[k + 1] == Read(Owned, env(k + 1))
            && (env(k + 1).None? <==> !(done && |log| == k + 2))
  {
    hide Hunt, Disciplined;
    RunIsDisciplined(env, solver, args, rounds);
  }

  // So a run sees two status-1 receipts only if the ownership read after the first raised, and at most one if no
  // such read raises.
  lemma AtMostOneSuccess(env: Env, solver: Solver, args: Args, rounds: nat)
    ensures var (log, done) := Hunt(env, solver, args, rounds);
            && (done ==> exists k: nat :: k < |log| && log[k] == Receipt(Some(1)))
            && (forall i: nat, j: nat | i < j < |log| && log[i] == log[j] == Receipt(Some(1)) :: env(i + 1).None?)
            && ((forall k: nat | k < |log| && log[k] == Receipt(Some(1)) :: env(k + 1).Some?) ==> Successes(log) <= 1)
  {
    hide Hunt, Disciplined;
    RunIsDisciplined(env, solver, args, rounds);
    var (log, done) := Hunt(env, solver, args, rounds);
    if forall k: nat | k < |log| && log[k] == Receipt(Some(1)) :: env(k + 1).Some? {
      AtMostOne(log);
    }
  }

  // Status-1 receipts seen, and ownership reads that raised.
  function Successes(log: Log): nat {
    if log == [] then 0 else Successes(log[..|log| - 1]) + (if log[|log| - 1] == Receipt(Some(1)) then 1 else 0)
  }

  function LostSuccesses(log: Log): nat {
    if log == [] then 0 else LostSuccesses(log[..|log| - 1]) + (if log[|log| - 1] == Read(Owned, None) then 1 else 0)
  }

  lemma {:induction false} AtMostOne(log: Log)
    requires forall i: nat, j: nat | i < j < |log| && log[i] == log[j] == Receipt(Some(1)) :: false
    ensures Successes(log) <= 1
    ensures (forall i: nat | i < |log| :: log[i] != Receipt(Some(1))) ==> Successes(log) == 0
  {
    if log != [] {
      AtMostOne(log[..|log| - 1]);
    }
  }

  // The receipt equation of a run: its status-1 receipts are its completion, if it completed, and those whose
  // ownership read raised.
  lemma ReceiptsBalance(env: Env, solver: Solver, args: Args, rounds: nat)
    ensures var (log, done) := Hunt(env, solver, args, rounds);
            Successes(log) == LostSuccesses(log) + (if done then 1 else 0)
  {
    hide Hunt, Disciplined;
    RunIsDisciplined(env, solver, args, rounds);
    var (log, done) := Hunt(env, solver, args, rounds);
    CountUpTo(env, log, done, |log|);
    assert log[..|log|] == log;
  }

  // Up to n the difference is 1 while a receipt waits for its ownership read, or after the completing one.
  lemma {:induction false} CountUpTo(env: Env, log: Log, done: bool, n: nat)
    requires Settled(env, log, done) && n <= |log|
    ensures Successes(log[..n]) - LostSuccesses(log[..n]) ==
            if (n > 0 && log[n - 1] == Receipt(Some(1))) || (done && n == |log|) then 1 else 0
  {
    if n > 0 {
      CountUpTo(env, log, done, n - 1);
      assert log[..n][..n - 1] == log[..n - 1];
    }
  }

  // ---------- straight attempts ----------

  ghost predicate Answered(env: Env, from: nat, n: nat) {
    forall i: nat | from <= i < from + n :: env(i).Some?
  }

  // The cost estimated by an attempt that starts at n.
  function FirstCost(env: Env, n: nat): nat
    requires env(n).Some? && env(n + 1).Some? && env(n + 3).Some?
  {
    env(n).value + GasLimit(env(n + 1).value) * Raise(env(n + 3).value)
  }

  // An attempt whose reads are all answered, with a covering balance, broadcasts; with a status-1 receipt it ends with
  // the ownership read.
  lemma StraightAttempt(env: Env, log: Log, nonce: nat, anchor: nat)
    requires Answered(env, |log|, 9) && env(|log| + 2).value >= FirstCost(env, |log|)
    ensures var n, (l, attempt) := |log|, TrySend(env, log, nonce, anchor, true);
            && log <= l && |l| > n + 9
            && l[n + 2] == Read(Balance, env(n + 2))
            && l[n + 9] == Broadcast(nonce, anchor, env(n + 4).value, GasLimit(env(n + 5).value),
                                     Raise(env(n + 6).value), env(n + 9).Some?)
            && (env(n + 9).Some? && env(n + 10) == Some(1) ==>
                  && |l| == n + 12 && l[n + 10] == Receipt(Some(1))
                  && attempt == if env(n + 11).None? then Threw else Succeeded)
  {
    hide FinalSend, Grace, GasLimit, Raise, BuildAndCheck, Quiet;
    var n := |log|;
    BuildShape(env, log, nonce, anchor);
    var l1 := BuildAndCheck(env, log, nonce, anchor).0;
    var l2 := Ask(env, Ask(env, l1, Balance), GasPrice);
    assert |Ask(env, l1, Balance)| == n + 3 && |l2| == n + 4;
    assert Fund(env, l1, env(n).value, env(n + 1).value) == (l2, Some(true));
    FinalShape(env, l2, nonce, anchor);
    assert env(n + 4).Some? && env(n + 5).Some? && env(n + 6).Some? && env(n + 7).Some? && env(n + 8).Some?;
  }

  // The m-th more balance read of the grace loop covers the need, and no earlier one does.
  ghost predicate Arrives(env: Env, from: nat, need: nat, m: nat) {
    && Answered(env, from, 2 * m + 1)
    && (forall j: nat | j < m :: env(from + 2 * j).value < need)
    && env(from + 2 * m).value >= need
  }

  lemma {:induction false} GraceArrives(env: Env, log: Log, need: nat, bal: nat, tries: nat, m: nat)
    requires m < tries && Arrives(env, |log|, need, m)
    ensures var (l, last) := Grace(env, log, need, bal, tries); |l| == |log| + 2 * m + 1 && last == env(|log| + 2 * m)
    decreases tries
  {
    var n := |log|;
    var l1 := Ask(env, log, Balance);
    var l2 := Ask(env, l1, PrevWork);
    assert |l1| == n + 1 && |l2| == n + 2;
    assert env(n + 2 * 0).Some?;
    if m > 0 {
      assert env(n + 2 * 0).value < need;
      assert env(n + 1).Some?;
      ArrivesLater(env, n, need, m);
      GraceArrives(env, l2, need, env(n).value, tries - 1, m - 1);
    }
  }

  lemma ArrivesLater(env: Env, from: nat, need: nat, m: nat)
    requires m > 0 && Arrives(env, from, need, m)
    ensures Arrives(env, from + 2, need, m - 1)
  {
    forall j: nat | j < m - 1
      ensures env(from + 2 + 2 * j).value < need
    {
      assert env(from + 2 * (j + 1)).value < need;
    }
    assert from + 2 + 2 * (m - 1) == from + 2 * m;
  }

  // An attempt whose first balance does not cover the cost, and whose m-th more balance read does, goes on to the final
  // simulation and broadcasts; with a status-1 receipt it ends with the ownership read.
  lemma GraceAttempt(env: Env, log: Log, nonce: nat, anchor: nat, m: nat)
    requires m < 40 && Answered(env, |log|, 2 * m + 10)
    requires env(|log| + 2).value < FirstCost(env, |log|) && Arrives(env, |log| + 4, FirstCost(env, |log|), m)
    ensures var n, k := |log|, |log| + 2 * m + 10;
            var (l, attempt) := TrySend(env, log, nonce, anchor, true);
            && log <= l && |l| > k
            && l[k] == Broadcast(nonce, anchor, env(k - 5).value, GasLimit(env(k - 4).value),
                                 Raise(env(k - 3).value), env(k).Some?)
            && (env(k).Some? && env(k + 1) == Some(1) ==>
                  && |l| == k + 3 && l[k + 1] == Receipt(Some(1))
                  && attempt == if env(k + 2).None? then Threw else Succeeded)
  {
    hide FinalSend, Grace, GraceEvents, GasLimit, Raise, BuildAndCheck, Quiet, Arrives;
    var n := |log|;
    var need := FirstCost(env, n);
    BuildShape(env, log, nonce, anchor);
    var l1 := BuildAndCheck(env, log, nonce, anchor).0;
    var l2 := Ask(env, Ask(env, l1, Balance), GasPrice);
    assert |Ask(env, l1, Balance)| == n + 3 && |l2| == n + 4;
    GraceArrives(env, l2, need, env(n + 2).value, 40, m);
    ArrivesEnough(env, n + 4, need, m);
    var l3 := Grace(env, l2, need, env(n + 2).value, 40).0;
    assert Fund(env, l1, env(n).value, env(n + 1).value) == (l3, Some(true));
    GraceShape(env, l2, need, env(n + 2).value, 40);
    GracePrefix(env, l2, l3, need, env(n + 4 + 2 * m));
    FinalAnswered(env, l3, nonce, anchor);
  }

  lemma GracePrefix(env: Env, a: Log, b: Log, need: nat, last: Option<nat>)
    requires GraceEvents(env, a, b, need, 40, last)
    ensures a <= b
  {
  }

  // With the five reads answered, the final part broadcasts.
  lemma FinalAnswered(env: Env, log: Log, nonce: nat, anchor: nat)
    requires Answered(env, |log|, 5)
    ensures var k, (l, attempt) := |log| + 5, FinalSend(env, log, nonce, anchor);
            && log <= l && |l| > k
            && l[k] == Broadcast(nonce, anchor, env(k - 5).value, GasLimit(env(k - 4).value),
                                 Raise(env(k - 3).value), env(k).Some?)
            && (env(k).Some? && env(k + 1) == Some(1) ==>
                  && |l| == k + 3 && l[k + 1] == Receipt(Some(1))
                  && attempt == if env(k + 2).None? then Threw else Succeeded)
  {
    hide FinalSend, GasLimit, Raise;
    FinalShape(env, log, nonce, anchor);
    var n := |log|;
    assert env(n).Some? && env(n + 1).Some? && env(n + 2).Some? && env(n + 3).Some? && env(n + 4).Some?;
  }

  lemma ArrivesEnough(env: Env, from: nat, need: nat, m: nat)
    requires Arrives(env, from, need, m)
    ensures env(from + 2 * m).Some? && env(from + 2 * m).value >= need
  {
  }

  // Where try_send ends early: at a price that cannot be read, at a simulation that fails, and in a dry run.
  lemma TrySendStops(env: Env, log: Log, nonce: nat, anchor: nat, send: bool)
    ensures var n, (l, attempt) := |log|, TrySend(env, log, nonce, anchor, send);
            && (env(n).None? ==> l == log + [Read(MintPrice, None)] && attempt.Threw?)
            && (env(n).Some? && env(n + 1).None? ==>
                  && l == log + [Read(MintPrice, env(n)), Simulated(nonce, anchor, env(n).value, None)]
                  && attempt.Refused?)
            && (env(n).Some? && env(n + 1).Some? && !send ==>
                  && l == log + [Read(MintPrice, env(n)), Simulated(nonce, anchor, env(n).value, env(n + 1))]
                  && attempt.Succeeded?)
  {
    hide FinalSend, Fund, Quiet;
    BuildShape(env, log, nonce, anchor);
  }

  // When a round tries to send: the snapshot is complete and within the difficulty limit, and csolver finds a nonce for
  // it.  It waits exactly when the difficulty is above the limit, and is done exactly when an attempt in send mode
  // succeeds.
  lemma HuntOnceTries(env: Env, solver: Solver, log: Log, args: Args)
    ensures var n, (l, round) := |log|, HuntOnce(env, solver, log, args);
            && (!Answered(env, n, 8) ==> round.Errored? && |l| <= n + 8)
            && (Answered(env, n, 8) ==>
                  var snap := Snap(env(n).value, env(n + 1).value, env(n + 2).value);
                  && (round.Wait? <==> D.TargetBits(snap.target) > args.maxBits)
                  && (D.TargetBits(snap.target) <= args.maxBits && solver(n + 8, snap).Nonce? ==>
                        exists l1: Log :: log <= l1 && |l1| == n + 8 &&
                          var (l2, attempt) := TrySend(env, l1, solver(n + 8, snap).n, snap.anchor, args.send);
                          && l == l2
                          && (round.Done? <==> attempt.Succeeded? && args.send)
                          && (round.Errored? <==> attempt.Threw?))
                  && (D.TargetBits(snap.target) > args.maxBits || !solver(n + 8, snap).Nonce? ==>
                        |l| == n + 8 && !round.Done?)
                  && (D.TargetBits(snap.target) <= args.maxBits && !solver(n + 8, snap).Nonce? ==>
                        round == if solver(n + 8, snap).Fails? then Errored else Retry))
  {
    hide TrySend, Snapshot, D.TargetBits, Quiet, SnapshotQueries;
    var n := |log|;
    var (l1, complete) := Snapshot(env, log, SnapshotQueries());
    SnapshotShape(env, log, SnapshotQueries());
    SnapshotLength(env, log, SnapshotQueries());
    QuietPrefix(log, l1);
    assert complete <==> Answered(env, n, 8);
  }

  lemma QuietPrefix(a: Log, b: Log)
    requires Quiet(a, b)
    ensures a <= b
  {
  }

  lemma {:induction false} SnapshotLength(env: Env, log: Log, queries: seq<Query>)
    ensures |Snapshot(env, log, queries).0| <= |log| + |queries|
    decreases |queries|
  {
    if queries != [] && env(|log|).Some? {
      SnapshotLength(env, Ask(env, log, queries[0]), queries[1..]);
    }
  }

  // ---------- two status-1 receipts in one run ----------

  // A solver that is called after interactions 8 and 28, and finds one nonce for each of two jobs.
  function Finds(job: ValidJob, nonce: nat, job': ValidJob, nonce': nat): Solver {
    (i: nat, snap: Snap) =>
      if i == 8 && snap.prevWork == job.prevWork && snap.target == job.target then Nonce(nonce)
      else if i == 28 && snap.prevWork == job'.prevWork && snap.target == job'.target then Nonce(nonce')
      else NoNonce
  }

  // The anchor hashes read at interactions 0 and 20.
  function Anchors(job: ValidJob, job': ValidJob): nat -> seq<byte> {
    (i: nat) => if i < 20 then job.anchor else job'.anchor
  }

  // Two rounds of twenty interactions: the prevWork and target of one job and then of the other, a balance of 2, and 1
  // everywhere else; the ownership read of the first round raises.
  function TwoMints(job: ValidJob, job': ValidJob): Env {
    (i: nat) =>
      if i == 1 then Some(job.prevWork)
      else if i == 2 then Some(job.target)
      else if i == 21 then Some(job'.prevWork)
      else if i == 22 then Some(job'.target)
      else if i == 10 || i == 30 then Some(2)
      else if i == 19 then None
      else Some(1)
  }

  lemma FindsIsHonest(job: ValidJob, nonce: nat, job': ValidJob, nonce': nat)
    requires Wins(job, nonce) && Wins(job', nonce') && job.miner == job'.miner
    ensures Honest(Finds(job, nonce, job', nonce'), job.miner, Anchors(job, job'))
  {
    hide Wins;
    var solver := Finds(job, nonce, job', nonce');
    forall i: nat, snap: Snap | solver(i, snap).Nonce?
      ensures i >= 8
      ensures var j := Job(job.miner, snap.prevWork, Anchors(job, job')(i - 8), snap.target);
              j.Valid() && Wins(j, solver(i, snap).n)
    {
      var j := Job(job.miner, snap.prevWork, Anchors(job, job')(i - 8), snap.target);
      if i == 8 {
        assert j == job;
      } else {
        assert j == job';
      }
    }
  }

  // One round from interaction n on.
  lemma QuickRound(job: ValidJob, nonce: nat, args: Args, env: Env, solver: Solver, log: Log)
    requires args.send && D.TargetBits(job.target) <= args.maxBits
    requires solver(|log| + 8, Snap(1, job.prevWork, job.target)) == Nonce(nonce)
    requires env(|log| + 1) == Some(job.prevWork) && env(|log| + 2) == Some(job.target) && env(|log| + 10) == Some(2)
    requires forall i: nat | |log| <= i < |log| + 19 && i !in {|log| + 1, |log| + 2, |log| + 10} :: env(i) == Some(1)
    ensures var n, (l, round) := |log|, HuntOnce(env, solver, log, args);
            && log <= l && |l| == n + 20 && l[n + 18] == Receipt(Some(1))
            && round == if env(n + 19).None? then Errored else Done
  {
    hide Snapshot, TrySend, D.TargetBits;
    var n := |log|;
    SnapshotShape(env, log, SnapshotQueries());
    var l1 := Snapshot(env, log, SnapshotQueries()).0;
    assert Answered(env, n, 19);
    assert FirstCost(env, n + 8) == 2;
    StraightAttempt(env, l1, nonce, 1);
  }

  // "At most one mint per run" fails: for any two jobs of a miner within the difficulty limit, with a nonce that wins
  // each, an ownership read that raises after a status-1 receipt sends the loop round again, and it mints again.
  lemma TwoSuccesses(job: ValidJob, nonce: nat, job': ValidJob, nonce': nat, args: Args)
    requires Wins(job, nonce) && Wins(job', nonce') && job.miner == job'.miner && args.send
    requires D.TargetBits(job.target) <= args.maxBits && D.TargetBits(job'.target) <= args.maxBits
    ensures Honest(Finds(job, nonce, job', nonce'), job.miner, Anchors(job, job'))
    ensures var (log, done) := Hunt(TwoMints(job, job'), Finds(job, nonce, job', nonce'), args, 2);
            done && |log| == 40 && log[18] == log[38] == Receipt(Some(1))
  {
    hide HuntOnce, Wins, D.TargetBits, Honest;
    FindsIsHonest(job, nonce, job', nonce');
    var env, solver := TwoMints(job, job'), Finds(job, nonce, job', nonce');
    QuickRound(job, nonce, args, env, solver, []);
    var l := HuntOnce(env, solver, [], args).0;
    QuickRound(job', nonce', args, env, solver, l);
    assert Hunt(env, solver, args, 0) == ([], false);
    assert Hunt(env, solver, args, 1) == (l, false);
  }

  // ---------- what the balance check covers ----------

  // The chain with another balance at one interaction.
  function WithBalance(env: Env, at: nat, balance: nat): Env {
    i => if i == at then Some(balance) else env(i)
  }

  // Value and fee of a transaction.
  ghost function Cost(e: Event): nat
    requires e.Broadcast?
  {
    e.value + e.gas * e.gasPrice
  }

  // The transaction at position k costs at most the balance.
  ghost predicate Affords(balance: nat, log: Log, k: nat) {
    k < |log| && log[k].Broadcast? && balance >= Cost(log[k])
  }

  // The log with another balance at one position.
  function Rebalanced(log: Log, at: nat, balance: nat): Log
    requires at < |log|
  {
    log[at := Read(Balance, Some(balance))]
  }

  lemma {:induction false} GraceRebalanced(env: Env, log: Log, need: nat, bal: nat, tries: nat, at: nat, b: nat)
    requires bal < need <= b
    requires var (l, last) := Grace(env, log, need, bal, tries); last.Some? && last.value >= need && at == |l| - 1
    ensures var l := Grace(env, log, need, bal, tries).0;
            && |log| <= at < |l|
            && Grace(WithBalance(env, at, b), log, need, bal, tries) == (Rebalanced(l, at, b), Some(b))
    decreases tries
  {
    hide GraceEvents;
    var env' := WithBalance(env, at, b);
    var l1 := Ask(env, log, Balance);
    var l2 := Ask(env, l1, PrevWork);
    assert |l1| == |log| + 1 && |l2| == |log| + 2;
    if env(|log|).value >= need {
      assert Ask(env', log, Balance) == Rebalanced(l1, at, b);
    } else {
      GraceRebalanced(env, l2, need, env(|log|).value, tries - 1, at, b);
      assert Ask(env', Ask(env', log, Balance), PrevWork) == l2;
    }
  }

  // The balance check passes with any other covering balance, and nothing else changes in the log.
  lemma FundRebalanced(env: Env, log: Log, price: nat, gas: nat, at: nat, b: nat)
    requires Fund(env, log, price, gas).1 == Some(true) && env(|log| + 1).Some?
    requires var l := Fund(env, log, price, gas).0; at == if |l| == |log| + 2 then |log| else |l| - 1
    requires b >= price + GasLimit(gas) * Raise(env(|log| + 1).value)
    ensures var l := Fund(env, log, price, gas).0;
            && |log| <= at < |l| && at != |log| + 1
            && Fund(WithBalance(env, at, b), log, price, gas) == (Rebalanced(l, at, b), Some(true))
  {
    hide Grace, GasLimit, Raise;
    var env' := WithBalance(env, at, b);
    var l1 := Ask(env, log, Balance);
    var l2 := Ask(env, l1, GasPrice);
    assert |l1| == |log| + 1 && |l2| == |log| + 2;
    var need := price + GasLimit(gas) * Raise(env(|log| + 1).value);
    if env(|log|).value >= need {
      assert Ask(env', Ask(env', log, Balance), GasPrice) == Rebalanced(l2, at, b);
    } else {
      GraceShape(env, l2, need, env(|log|).value, 40);
      GraceRebalanced(env, l2, need, env(|log|).value, 40, |Grace(env, l2, need, env(|log|).value, 40).0| - 1, b);
      assert Ask(env', Ask(env', log, Balance), GasPrice) == l2;
    }
  }

  // The final interactions do not depend on what was read before them.
  lemma FinalRebalanced(env: Env, env': Env, a: Log, a': Log, nonce: nat, anchor: nat)
    requires |a| == |a'| && forall i: nat | i >= |a| :: env'(i) == env(i)
    ensures var l, l' := FinalSend(env, a, nonce, anchor).0, FinalSend(env', a', nonce, anchor).0;
            |l'| == |l| && forall k | |a| <= k < |l| :: l'[k] == l[k]
  {
    hide FinalSend, GasLimit, Raise;
    FinalShape(env, a, nonce, anchor);
    FinalShape(env', a', nonce, anchor);
    var l, l' := FinalSend(env, a, nonce, anchor).0, FinalSend(env', a', nonce, anchor).0;
    forall k | |a| <= k < |l|
      ensures l'[k] == l[k]
    {
      assert k == |a| || k == |a| + 1 || k == |a| + 2 || k == |a| + 3 || k == |a| + 4 || k == |a| + 5 ||
             k == |a| + 6 || k == |a| + 7;
    }
  }

  // An attempt that broadcasts at k passed its balance check at k - 5.
  lemma BroadcastsAfterCheck(env: Env, log: Log, nonce: nat, anchor: nat, k: nat)
    requires var l := TrySend(env, log, nonce, anchor, true).0; |log| <= k < |l| && l[k].Broadcast?
    ensures var n := |log|;
            var l := TrySend(env, log, nonce, anchor, true).0;
            var l1, sim := BuildAndCheck(env, log, nonce, anchor).0, BuildAndCheck(env, log, nonce, anchor).1;
            && sim.Some? && sim.value.gas.Some? && |l1| == n + 2
            && env(n).Some? && sim.value == Sim(env(n).value, env(n + 1)) && env(n + 3).Some?
            && var (l2, funded) := Fund(env, l1, sim.value.price, sim.value.gas.value);
               && funded == Some(true) && k == |l2| + 5 && l == FinalSend(env, l2, nonce, anchor).0
               && Begun(l, n) && k >= n + 9
               && Need(l, n) == sim.value.price + GasLimit(sim.value.gas.value) * Raise(env(n + 3).value)
  {
    hide FinalSend, Fund, GasLimit, Raise, Waited;
    var n := |log|;
    BuildShape(env, log, nonce, anchor);
    var (l1, sim) := BuildAndCheck(env, log, nonce, anchor);
    if sim.Some? && sim.value.gas.Some? {
      var price, gas := sim.value.price, sim.value.gas.value;
      FundShape(env, l1, price, gas);
      FundReads(env, l1, price, gas);
      var l2 := Fund(env, l1, price, gas).0;
      FinalShape(env, l2, nonce, anchor);
    }
  }

  lemma FundReads(env: Env, log: Log, price: nat, gas: nat)
    requires Fund(env, log, price, gas).1.Some?
    ensures var l := Fund(env, log, price, gas).0;
            |l| >= |log| + 2 && l[|log| + 1] == Read(GasPrice, env(|log| + 1)) && env(|log| + 1).Some?
  {
    hide Grace, GasLimit, Raise;
    var l2 := Ask(env, Ask(env, log, Balance), GasPrice);
    assert |l2| == |log| + 2 && l2[|log| + 1] == Read(GasPrice, env(|log| + 1));
    var need := price + GasLimit(gas) * Raise(env(|log| + 1).value);
    if env(|log|).value < need {
      GraceShape(env, l2, need, env(|log|).value, 40);
    }
  }

  // The balance b, read where the check of the attempt passed, covers the transaction that the attempt then broadcasts.
  ghost predicate Covers(env: Env, log: Log, nonce: nat, anchor: nat, k: nat, b: nat)
    requires k >= |log| + 9
  {
    Affords(b, TrySend(WithBalance(env, CoverAt(|log|, k - 5), b), log, nonce, anchor, true).0, k)
  }

  // With another covering balance the attempt broadcasts the same transaction.
  lemma SameBroadcast(env: Env, log: Log, nonce: nat, anchor: nat, k: nat, b: nat)
    requires var l := TrySend(env, log, nonce, anchor, true).0;
             |log| <= k < |l| && l[k].Broadcast? && k >= |log| + 9 && Begun(l, |log|) && b >= Need(l, |log|)
    ensures var l := TrySend(env, log, nonce, anchor, true).0;
            var l' := TrySend(WithBalance(env, CoverAt(|log|, k - 5), b), log, nonce, anchor, true).0;
            k < |l'| && l'[k] == l[k]
  {
    hide FinalSend, Fund, GasLimit, Raise, Quiet;
    BroadcastsAfterCheck(env, log, nonce, anchor, k);
    var at := CoverAt(|log|, k - 5);
    var env' := WithBalance(env, at, b);
    BuildShape(env, log, nonce, anchor);
    var (l1, sim) := BuildAndCheck(env, log, nonce, anchor);
    FundRebalanced(env, l1, sim.value.price, sim.value.gas.value, at, b);
    BuildShape(env', log, nonce, anchor);
    assert BuildAndCheck(env', log, nonce, anchor) == (l1, sim);
    var l2 := Fund(env, l1, sim.value.price, sim.value.gas.value).0;
    FinalRebalanced(env, env', l2, Rebalanced(l2, at, b), nonce, anchor);
  }

  // The check is made with the first simulation's price, gas and fee; the transaction uses those of the second.  For
  // every attempt that broadcasts, with or without the grace loop: every balance that passes the check covers the
  // transaction if and only if it costs no more than the estimate of the check.
  lemma CheckCoversExactlyIf(env: Env, log: Log, nonce: nat, anchor: nat, k: nat)
    requires var l := TrySend(env, log, nonce, anchor, true).0; |log| <= k < |l| && l[k].Broadcast?
    ensures var n, l := |log|, TrySend(env, log, nonce, anchor, true).0;
            && Begun(l, n) && k >= n + 9
            && ((forall b: nat | b >= Need(l, n) :: Covers(env, log, nonce, anchor, k, b)) <==>
                Cost(l[k]) <= Need(l, n))
  {
    hide TrySend, Begun, Need, BuildAndCheck, Fund, FinalSend, Cost;
    BroadcastsAfterCheck(env, log, nonce, anchor, k);
    var n, l := |log|, TrySend(env, log, nonce, anchor, true).0;
    forall b: nat | b >= Need(l, n)
      ensures Covers(env, log, nonce, anchor, k, b) <==> b >= Cost(l[k])
    {
      SameBroadcast(env, log, nonce, anchor, k, b);
    }
    if Cost(l[k]) > Need(l, n) {
      assert !Covers(env, log, nonce, anchor, k, Need(l, n));
    }
  }

  // Whole runs, with or without the grace loop: the balance that passed the check of the attempt covers the transaction
  // broadcast at its end if the transaction costs no more than that attempt's estimate ...
  lemma FundedIfNoDearer(args: Args, solver: Solver, log: Log, a: nat, k: nat)
    requires Ends(args, solver, log, a, k) && Rechecked(log, k)
    requires Cost(log[k]) <= Need(log, a)
    ensures Affords(log[CoverAt(a, k - 5)].reply.value, log, k)
  {
    hide Mined, GasLimit, Raise;
  }

  // ... in particular if neither price nor gas nor fee rose in between.
  lemma FundedIfNothingRose(args: Args, solver: Solver, log: Log, a: nat, k: nat)
    requires Ends(args, solver, log, a, k) && Rechecked(log, k)
    requires log[k].value <= log[a + 1].value
    requires log[k - 4].estimate.value <= log[a + 1].estimate.value
    requires log[k - 3].reply.value <= log[a + 3].reply.value
    ensures Affords(log[CoverAt(a, k - 5)].reply.value, log, k)
  {
    hide Mined, Waited;
    ProductMonotone(log[k].gas, GasLimit(log[a + 1].estimate.value), log[k].gasPrice, Raise(log[a + 3].reply.value));
    FundedIfNoDearer(args, solver, log, a, k);
  }

  lemma ProductMonotone(a: nat, b: nat, c: nat, d: nat)
    requires a <= b && c <= d
    ensures a * c <= b * d
  {
    assert a * c <= b * c by {
      assert (b - a) * c >= 0;
    }
    assert b * (d - c) >= 0;
  }

  // A chain on which it does not: every answer is 0 except the second price, 9.
  function PriceRises(i: nat): Option<nat> {
    Some(if i == 4 then 9 else 0)
  }

  lemma BroadcastBeyondBalance(nonce: nat)
    ensures var log := TrySend(PriceRises, [], nonce, 0, true).0;
            |log| > 9 && log[2] == Read(Balance, Some(0)) && log[9] == Broadcast(nonce, 0, 9, 0, 0, true)
  {
    hide TrySend;
    StraightAttempt(PriceRises, [], nonce, 0);
  }
}
