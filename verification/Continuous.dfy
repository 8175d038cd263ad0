/** gpu_hunter_continuous.py: the mining loop against the freshest chain state,
    and what every broadcast of it has been checked for.

    As in Hunter, a run is a log of interactions and `env` is the environment's
    answer to each of them. */
module Continuous {
  import opened Words
  import opened Codecs
  import opened WorkHash
  import D = Difficulty
  import K = CudaKernel
  import G = LaunchCoverage

  // fresh_state; its "bits" are TargetBits(target).
  datatype Snapshot = Snapshot(anchorBlock: nat, anchor: seq<byte>, prevWork: nat, target: nat)

  datatype Query = PrevWork | MintPrice | Balance | GasPrice | TxCount | ChainId | Owned

  datatype Event =
    | Fresh(state: Option<Snapshot>)
    // run_slice on a snapshot from a base nonce: the nonce it read back, if any, or None when it raises
    | Sliced(on: Snapshot, base: nat, answer: Option<Option<nat>>)
    | Read(query: Query, reply: Option<nat>)
    | Simulated(nonce: nat, anchorBlock: nat, value: nat, estimate: Option<nat>)
    | Broadcast(nonce: nat, anchorBlock: nat, value: nat, gas: nat, gasPrice: nat)
    | Receipt(status: Option<nat>)

  type Log = seq<Event>

  // number: replies to reads, simulations, broadcasts and receipts; None raises (for a simulation: fails).
  // renewed: replies to fresh_state.  slice: what run_slice does; None raises.
  // refresh: whether the snapshot is due for renewal at the start of that pass.
  datatype Env = Env(number: nat -> Option<nat>, renewed: nat -> Option<Snapshot>,
                     slice: nat -> Option<Option<nat>>, refresh: nat -> bool)

  datatype Args = Args(addr: string, send: bool, maxBits: int, gasMult: real, step: nat)

  function Ask(env: Env, log: Log, q: Query): Log {
    log + [Read(q, env.number(|log|))]
  }

  // Three tenths on top, rounded down.
  function GasLimit(gas: nat): nat {
    gas * 13 / 10
  }

  // The fee times the multiplier, rounded down; a negative product would be rejected by the node.
  function Bid(fee: nat, gasMult: real): nat {
    var product := fee as real * gasMult;
    if product < 0.0 then 0 else product.Floor
  }

  datatype Verdict = Threw | Refused | Accepted

  // The part of submit after the local check, in send mode.
  function SendChecked(env: Env, args: Args, log: Log, nonce: nat, anchorBlock: nat): (Log, Verdict) {
    var l1 := Ask(env, log, MintPrice);
    match env.number(|log|)
    case None => (l1, Threw)
    case Some(price) =>
      var estimate := env.number(|l1|);
      var l2 := l1 + [Simulated(nonce, anchorBlock, price, estimate)];
      match estimate
      case None => (l2, Refused)
      case Some(gas) =>
        var l3 := Ask(env, l2, Balance);
        if env.number(|l2|).None? then (l3, Threw)
        else
          var l4 := Ask(env, l3, GasPrice);
          if env.number(|l3|).None? then (l4, Threw)
          else
            var bal, gp := env.number(|l2|).value, Bid(env.number(|l3|).value, args.gasMult);
            if bal < price + GasLimit(gas) * gp then (l4, Refused)
            else Transmit(env, l4, nonce, anchorBlock, price, GasLimit(gas), gp)
  }

  // build_transaction, send_raw_transaction, wait_for_transaction_receipt, balanceOf.
  function Transmit(env: Env, log: Log, nonce: nat, anchorBlock: nat, price: nat, gas: nat, gp: nat): (Log, Verdict) {
    var l1 := Ask(env, log, TxCount);
    if env.number(|log|).None? then (l1, Threw)
    else
      var l2 := Ask(env, l1, ChainId);
      if env.number(|l1|).None? then (l2, Threw)
      else
        var l3 := l2 + [Broadcast(nonce, anchorBlock, price, gas, gp)];
        if env.number(|l2|).None? then (l3, Threw)
        else
          var l4 := l3 + [Receipt(env.number(|l3|))];
          match env.number(|l3|)
          case None => (l4, Threw)
          case Some(code) =>
            if code != 1 then (l4, Refused)
            else (Ask(env, l4, Owned), if env.number(|l4|).None? then Threw else Accepted)
  }

  // submit, as main calls it: prev_work is always given.
  function Submit(env: Env, args: Args, log: Log, nonce: nat, st: Snapshot): (Log, Verdict) {
    match VerifyLocal(args.addr, nonce, st.prevWork, st.anchor, st.target)
    case Raised(_) => (log, Threw)
    case Ok(false) => (log, Refused)
    case Ok(true) =>
      if !args.send then (Ask(env, log, MintPrice), if env.number(|log|).None? then Threw else Accepted)
      else SendChecked(env, args, log, nonce, st.anchorBlock)
  }

  // The variables of main's loop.
  datatype Loop = Loop(log: Log, st: Snapshot, base: nat, pass: nat, complete: bool)

  // fresh_state in the loop: the old snapshot stays when it raises.
  function Renew(env: Env, s: Loop): Loop {
    var reply := env.renewed(|s.log|);
    s.(log := s.log + [Fresh(reply)], st := if reply.Some? then reply.value else s.st)
  }

  // The start of a pass: the snapshot is renewed if that is due.
  function Begin(env: Env, s: Loop): Loop {
    var s1 := s.(pass := s.pass + 1);
    if env.refresh(s.pass) then Renew(env, s1) else s1
  }

  // One pass of the try block; an exception ends the pass and is caught.
  function Pass(env: Env, args: Args, s: Loop): Loop {
    var s1 := Begin(env, s);
    if env.refresh(s.pass) && env.renewed(|s.log|).None? then s1
    else if D.TargetBits(s1.st.target) > args.maxBits then s1
    else Mine(env, args, s1.(base := s1.base + args.step))
  }

  // Slice, stale check, submit, renew.
  function Mine(env: Env, args: Args, s: Loop): Loop {
    var answer := env.slice(|s.log|);
    var s1 := s.(log := s.log + [Sliced(s.st, s.base, answer)]);
    if answer.None? || answer.value.None? then s1
    else
      var s2 := s1.(log := Ask(env, s1.log, PrevWork));
      var now := env.number(|s1.log|);
      if now.None? then s2
      else if now.value != s.st.prevWork then Renew(env, s2)
      else
        var (l, verdict) := Submit(env, args, s2.log, answer.value.value, s.st);
        var s3 := s2.(log := l);
        if verdict.Threw? then s3
        else if verdict.Accepted? && args.send then s3.(complete := true)
        else Renew(env, s3)
  }

  // The first n passes, or fewer if the mission completes.
  function Passes(env: Env, args: Args, s: Loop, n: nat): Loop {
    if n == 0 then s
    else
      var before := Passes(env, args, s, n - 1);
      if before.complete then before else Pass(env, args, before)
  }

  // ---------- what every broadcast has been checked for ----------

  // The eight interactions before a broadcast: the slice that found the nonce on some snapshot, prevWork re-read equal
  // to that snapshot's, the price, a successful simulation with it, a balance and a fee, and the two reads of
  // build_transaction.  The nonce passed the local check on that snapshot, and the balance covers the transaction.
  ghost predicate Checked(args: Args, log: Log, k: nat)
    requires k < |log| && log[k].Broadcast?
  {
    && k >= 8
    && log[k - 8].Sliced? && log[k - 8].answer == Some(Some(log[k].nonce))
    && var st := log[k - 8].on;
    && log[k].anchorBlock == st.anchorBlock
    && VerifyLocal(args.addr, log[k].nonce, st.prevWork, st.anchor, st.target) == Ok(true)
    && log[k - 7] == Read(PrevWork, Some(st.prevWork))
    && log[k - 6] == Read(MintPrice, Some(log[k].value))
    && log[k - 5].Simulated? && log[k - 5].estimate.Some?
    && log[k - 5] == Simulated(log[k].nonce, log[k].anchorBlock, log[k].value, log[k - 5].estimate)
    && log[k].gas == GasLimit(log[k - 5].estimate.value)
    && log[k - 4].Read? && log[k - 4].query.Balance? && log[k - 4].reply.Some?
    && log[k - 4].reply.value >= log[k].value + log[k].gas * log[k].gasPrice
    && log[k - 3].Read? && log[k - 3].query.GasPrice? && log[k - 3].reply.Some?
    && log[k].gasPrice == Bid(log[k - 3].reply.value, args.gasMult)
    && args.send
  }

  ghost predicate AllChecked(args: Args, log: Log) {
    forall k: nat | k < |log| && log[k].Broadcast? :: Checked(args, log, k)
  }

  lemma CheckedPrefix(args: Args, a: Log, b: Log, k: nat)
    requires a <= b && k < |a| && a[k].Broadcast?
    ensures Checked(args, b, k) == Checked(args, a, k)
  {
    hide VerifyLocal;
  }

  lemma Append(args: Args, log: Log, e: Event)
    requires AllChecked(args, log) && (e.Broadcast? ==> Checked(args, log + [e], |log|))
    ensures AllChecked(args, log + [e])
  {
    hide Checked;
    forall k: nat | k < |log| + 1 && (log + [e])[k].Broadcast?
      ensures Checked(args, log + [e], k)
    {
      if k < |log| {
        CheckedPrefix(args, log, log + [e], k);
      }
    }
  }

  // Where Transmit is called: the last six interactions, the local check, and the covered cost.
  ghost predicate Ready(args: Args, log: Log, nonce: nat, st: Snapshot, price: nat, gas: nat, gp: nat) {
    var n := |log|;
    && n >= 6 && args.send
    && log[n - 6].Sliced? && log[n - 6].on == st && log[n - 6].answer == Some(Some(nonce))
    && VerifyLocal(args.addr, nonce, st.prevWork, st.anchor, st.target) == Ok(true)
    && log[n - 5] == Read(PrevWork, Some(st.prevWork))
    && log[n - 4] == Read(MintPrice, Some(price))
    && log[n - 3].Simulated? && log[n - 3].estimate.Some?
    && log[n - 3] == Simulated(nonce, st.anchorBlock, price, log[n - 3].estimate)
    && gas == GasLimit(log[n - 3].estimate.value)
    && log[n - 2].Read? && log[n - 2].query.Balance? && log[n - 2].reply.Some?
    && log[n - 2].reply.value >= price + gas * gp
    && log[n - 1].Read? && log[n - 1].query.GasPrice? && log[n - 1].reply.Some?
    && gp == Bid(log[n - 1].reply.value, args.gasMult)
  }

  lemma TransmitChecked(env: Env, args: Args, log: Log, nonce: nat, st: Snapshot, price: nat, gas: nat, gp: nat)
    requires AllChecked(args, log) && Ready(args, log, nonce, st, price, gas, gp)
    ensures AllChecked(args, Transmit(env, log, nonce, st.anchorBlock, price, gas, gp).0)
  {
    hide AllChecked, VerifyLocal;
    var l1 := Ask(env, log, TxCount);
    Append(args, log, Read(TxCount, env.number(|log|)));
    if env.number(|log|).Some? {
      Append(args, l1, Read(ChainId, env.number(|l1|)));
      var l2 := Ask(env, l1, ChainId);
      if env.number(|l1|).Some? {
        var e := Broadcast(nonce, st.anchorBlock, price, gas, gp);
        Append(args, l2, e);
        var l3 := l2 + [e];
        var l4 := l3 + [Receipt(env.number(|l3|))];
        Append(args, l3, Receipt(env.number(|l3|)));
        Append(args, l4, Read(Owned, env.number(|l4|)));
      }
    }
  }

  // Where submit is called in main.
  ghost predicate Current(log: Log, nonce: nat, st: Snapshot) {
    var n := |log|;
    n >= 2 && log[n - 2].Sliced? && log[n - 2].on == st && log[n - 2].answer == Some(Some(nonce)) &&
    log[n - 1] == Read(PrevWork, Some(st.prevWork))
  }

  lemma SendChecksAll(env: Env, args: Args, log: Log, nonce: nat, st: Snapshot)
    requires AllChecked(args, log) && Current(log, nonce, st) && args.send
    requires VerifyLocal(args.addr, nonce, st.prevWork, st.anchor, st.target) == Ok(true)
    ensures AllChecked(args, SendChecked(env, args, log, nonce, st.anchorBlock).0)
  {
    hide AllChecked, VerifyLocal, Transmit, Bid;
    var l1 := Ask(env, log, MintPrice);
    Append(args, log, Read(MintPrice, env.number(|log|)));
    if env.number(|log|).Some? {
      var price, estimate := env.number(|log|).value, env.number(|l1|);
      var l2 := l1 + [Simulated(nonce, st.anchorBlock, price, estimate)];
      Append(args, l1, Simulated(nonce, st.anchorBlock, price, estimate));
      Append(args, l2, Read(Balance, env.number(|l2|)));
      var l3 := Ask(env, l2, Balance);
      Append(args, l3, Read(GasPrice, env.number(|l3|)));
      var l4 := Ask(env, l3, GasPrice);
      if estimate.Some? && env.number(|l2|).Some? && env.number(|l3|).Some? {
        var gp := Bid(env.number(|l3|).value, args.gasMult);
        if env.number(|l2|).value >= price + GasLimit(estimate.value) * gp {
          TransmitChecked(env, args, l4, nonce, st, price, GasLimit(estimate.value), gp);
        }
      }
    }
  }

  lemma MineChecked(env: Env, args: Args, s: Loop)
    requires AllChecked(args, s.log)
    ensures AllChecked(args, Mine(env, args, s).log)
  {
    hide AllChecked, VerifyLocal, SendChecked;
    var answer := env.slice(|s.log|);
    var e := Sliced(s.st, s.base, answer);
    var l1 := s.log + [e];
    Append(args, s.log, e);
    if answer.Some? && answer.value.Some? {
      var l2 := Ask(env, l1, PrevWork);
      Append(args, l1, Read(PrevWork, env.number(|l1|)));
      Append(args, l2, Fresh(env.renewed(|l2|)));
      if env.number(|l1|) == Some(s.st.prevWork) {
        var nonce := answer.value.value;
        var l3 := Submit(env, args, l2, nonce, s.st).0;
        Append(args, l2, Read(MintPrice, env.number(|l2|)));
        if args.send && VerifyLocal(args.addr, nonce, s.st.prevWork, s.st.anchor, s.st.target) == Ok(true) {
          SendChecksAll(env, args, l2, nonce, s.st);
        }
        Append(args, l3, Fresh(env.renewed(|l3|)));
      }
    }
  }

  // Whole runs: every broadcast passed the local check on the snapshot it was mined on, that snapshot's prevWork
  // was re-read equal after the search, and the balance read covers value + gas * gasPrice of the very
  // transaction sent.  Without --send there is no broadcast.
  lemma {:induction false} EveryBroadcastChecked(env: Env, args: Args, start: Loop, n: nat)
    requires start.log == [] && !start.complete
    ensures AllChecked(args, Passes(env, args, start, n).log)
  {
    hide AllChecked, Mine;
    if n == 0 {
      NothingBroadcast(args);
    } else {
      EveryBroadcastChecked(env, args, start, n - 1);
      var s := Passes(env, args, start, n - 1);
      Append(args, s.log, Fresh(env.renewed(|s.log|)));
      var s1 := Begin(env, s);
      MineChecked(env, args, s1.(base := s1.base + args.step));
    }
  }

  lemma NothingBroadcast(args: Args)
    ensures AllChecked(args, [])
  {
  }

  // ---------- mining on the freshest state ----------

  // The last snapshot that fresh_state returned, or the given one.
  function Latest(log: Log, st: Snapshot): Snapshot {
    if log == [] then st
    else
      var e := log[|log| - 1];
      if e.Fresh? && e.state.Some? then e.state.value else Latest(log[..|log| - 1], st)
  }

  // Every slice ran on the latest snapshot read before it.
  ghost predicate MinedOnLatest(log: Log, st: Snapshot) {
    forall k: nat | k < |log| && log[k].Sliced? :: log[k].on == Latest(log[..k], st)
  }

  // The loop variable st is the latest snapshot.
  ghost predicate UpToDate(s: Loop, st: Snapshot) {
    MinedOnLatest(s.log, st) && s.st == Latest(s.log, st)
  }

  // b continues a with events that are neither slices nor renewals.
  ghost predicate Neutral(a: Log, b: Log) {
    a <= b && forall k | |a| <= k < |b| :: !b[k].Sliced? && !b[k].Fresh?
  }

  lemma {:induction false} NeutralKeeps(a: Log, b: Log, st: Snapshot)
    requires Neutral(a, b) && MinedOnLatest(a, st)
    ensures MinedOnLatest(b, st) && Latest(b, st) == Latest(a, st)
    decreases |b|
  {
    if a != b {
      var c := b[..|b| - 1];
      assert Neutral(a, c);
      NeutralKeeps(a, c, st);
      forall k: nat | k < |b| && b[k].Sliced?
        ensures b[k].on == Latest(b[..k], st)
      {
        assert c[k].Sliced? && b[..k] == c[..k];
      }
    }
  }

  lemma AppendMined(log: Log, e: Event, st: Snapshot)
    requires MinedOnLatest(log, st) && (e.Sliced? ==> e.on == Latest(log, st))
    ensures MinedOnLatest(log + [e], st)
    ensures Latest(log + [e], st) == if e.Fresh? && e.state.Some? then e.state.value else Latest(log, st)
  {
    var l := log + [e];
    assert l[..|log|] == log;
    forall k: nat | k < |l| && l[k].Sliced?
      ensures l[k].on == Latest(l[..k], st)
    {
      if k < |log| {
        assert l[..k] == log[..k];
      }
    }
  }

  lemma RenewKeeps(env: Env, s: Loop, st: Snapshot)
    requires UpToDate(s, st)
    ensures UpToDate(Renew(env, s), st)
  {
    AppendMined(s.log, Fresh(env.renewed(|s.log|)), st);
  }

  lemma SubmitNeutral(env: Env, args: Args, log: Log, nonce: nat, st: Snapshot)
    ensures Neutral(log, Submit(env, args, log, nonce, st).0)
  {
    hide VerifyLocal, Bid;
  }

  lemma MineKeeps(env: Env, args: Args, s: Loop, st: Snapshot)
    requires UpToDate(s, st)
    ensures UpToDate(Mine(env, args, s), st)
  {
    hide Submit, MinedOnLatest, Latest, Renew;
    var answer := env.slice(|s.log|);
    AppendMined(s.log, Sliced(s.st, s.base, answer), st);
    var l1 := s.log + [Sliced(s.st, s.base, answer)];
    if answer.Some? && answer.value.Some? {
      AppendMined(l1, Read(PrevWork, env.number(|l1|)), st);
      var s2 := s.(log := Ask(env, l1, PrevWork));
      RenewKeeps(env, s2, st);
      SubmitNeutral(env, args, s2.log, answer.value.value, s.st);
      var l := Submit(env, args, s2.log, answer.value.value, s.st).0;
      NeutralKeeps(s2.log, l, st);
      RenewKeeps(env, s2.(log := l), st);
    }
  }

  // Whole runs: no slice is ever mined on anything but the latest snapshot read.
  lemma {:induction false} AlwaysUpToDate(env: Env, args: Args, start: Loop, n: nat)
    requires start.log == []
    ensures UpToDate(Passes(env, args, start, n), start.st)
  {
    hide Mine, Renew, D.TargetBits;
    if n > 0 {
      AlwaysUpToDate(env, args, start, n - 1);
      var s := Passes(env, args, start, n - 1);
      RenewKeeps(env, s.(pass := s.pass + 1), start.st);
      var s1 := Begin(env, s);
      MineKeeps(env, args, s1.(base := s1.base + args.step), start.st);
    }
  }

  // ---------- completion ----------

  ghost predicate EndsMinted(log: Log) {
    |log| >= 2 && log[|log| - 2] == Receipt(Some(1)) && log[|log| - 1].Read? && log[|log| - 1].query.Owned?
  }

  lemma AcceptedIsMinted(env: Env, args: Args, log: Log, nonce: nat, st: Snapshot)
    requires args.send && Submit(env, args, log, nonce, st).1.Accepted?
    ensures EndsMinted(Submit(env, args, log, nonce, st).0)
  {
    hide VerifyLocal, Bid;
  }

  // The loop reports completion only in --send mode and right after a status-1 receipt.
  lemma {:induction false} CompleteMeansMinted(env: Env, args: Args, start: Loop, n: nat)
    requires !start.complete
    ensures Passes(env, args, start, n).complete ==> args.send && EndsMinted(Passes(env, args, start, n).log)
  {
    hide Pass, EndsMinted;
    if n > 0 {
      CompleteMeansMinted(env, args, start, n - 1);
      var s := Passes(env, args, start, n - 1);
      if !s.complete && Pass(env, args, s).complete {
        PassCompletes(env, args, s);
      }
    }
  }

  lemma PassCompletes(env: Env, args: Args, s: Loop)
    requires !s.complete && Pass(env, args, s).complete
    ensures args.send && EndsMinted(Pass(env, args, s).log)
  {
    hide Submit, EndsMinted, D.TargetBits, Mine;
    var s1 := Begin(env, s);
    MineCompletes(env, args, s1.(base := s1.base + args.step));
  }

  lemma MineCompletes(env: Env, args: Args, s: Loop)
    requires !s.complete && Mine(env, args, s).complete
    ensures args.send && EndsMinted(Mine(env, args, s).log)
  {
    hide Submit, EndsMinted;
    var found := env.slice(|s.log|).value;
    var l1 := s.log + [Sliced(s.st, s.base, Some(found))];
    AcceptedIsMinted(env, args, Ask(env, l1, PrevWork), found.value, s.st);
  }

  // ---------- status-1 receipts ----------

  // Every status-1 receipt is followed at once by the ownership read, which raised unless the mission completed with
  // it; and ownership is read only there.
  ghost predicate Settled(env: Env, log: Log, complete: bool) {
    && (complete ==> |log| >= 2 && log[|log| - 2] == Receipt(Some(1)))
    && (forall k: nat | k < |log| && log[k] == Receipt(Some(1)) ::
          && k + 1 < |log| && log[k + 1] == Read(Owned, env.number(k + 1))
          && (env.number(k + 1).Some? <==> complete && k + 2 == |log|))
    && (forall k: nat | k < |log| && log[k].Read? && log[k].query.Owned? ::
          k > 0 && log[k - 1] == Receipt(Some(1)))
  }

  // b continues a with events that are neither receipts nor ownership reads.
  ghost predicate Quiet(a: Log, b: Log) {
    a <= b && forall k | |a| <= k < |b| :: !b[k].Receipt? && !(b[k].Read? && b[k].query.Owned?)
  }

  lemma QuietSettled(env: Env, a: Log, b: Log)
    requires Quiet(a, b) && Settled(env, a, false)
    ensures Settled(env, b, false)
  {
  }

  lemma ReceiptSettled(env: Env, log: Log, status: Option<nat>)
    requires Settled(env, log, false) && status != Some(1)
    ensures Settled(env, log + [Receipt(status)], false)
  {
    var l := log + [Receipt(status)];
    forall k: nat | k < |log|
      ensures l[k] == log[k]
    {
    }
  }

  // A status-1 receipt and the ownership read.
  lemma SuccessSettled(env: Env, log: Log)
    requires Settled(env, log, false)
    ensures Settled(env, Ask(env, log + [Receipt(Some(1))], Owned), env.number(|log| + 1).Some?)
  {
    var n := |log|;
    var l := Ask(env, log + [Receipt(Some(1))], Owned);
    assert |l| == n + 2 && l[n] == Receipt(Some(1)) && l[n + 1] == Read(Owned, env.number(n + 1));
    forall k: nat | k < n
      ensures l[k] == log[k]
    {
    }
  }

  lemma TransmitSettled(env: Env, log: Log, nonce: nat, anchorBlock: nat, price: nat, gas: nat, gp: nat)
    requires Settled(env, log, false)
    ensures var (l, verdict) := Transmit(env, log, nonce, anchorBlock, price, gas, gp);
            Settled(env, l, verdict.Accepted?)
  {
    hide Settled;
    var l1 := Ask(env, log, TxCount);
    var l2 := Ask(env, l1, ChainId);
    var l3 := l2 + [Broadcast(nonce, anchorBlock, price, gas, gp)];
    QuietSettled(env, log, l1);
    QuietSettled(env, log, l2);
    QuietSettled(env, log, l3);
    if env.number(|l3|) == Some(1) {
      SuccessSettled(env, l3);
    } else {
      ReceiptSettled(env, l3, env.number(|l3|));
    }
  }

  lemma SubmitSettled(env: Env, args: Args, log: Log, nonce: nat, st: Snapshot)
    requires Settled(env, log, false)
    ensures var (l, verdict) := Submit(env, args, log, nonce, st);
            Settled(env, l, args.send && verdict.Accepted?)
  {
    hide Settled, VerifyLocal, Transmit, Bid, GasLimit;
    var l1 := Ask(env, log, MintPrice);
    QuietSettled(env, log, l1);
    if args.send && env.number(|log|).Some? {
      var price, estimate := env.number(|log|).value, env.number(|l1|);
      var l2 := l1 + [Simulated(nonce, st.anchorBlock, price, estimate)];
      var l3 := Ask(env, l2, Balance);
      var l4 := Ask(env, l3, GasPrice);
      QuietSettled(env, log, l2);
      QuietSettled(env, log, l3);
      QuietSettled(env, log, l4);
      if estimate.Some? && env.number(|l3|).Some? {
        var gp := Bid(env.number(|l3|).value, args.gasMult);
        TransmitSettled(env, l4, nonce, st.anchorBlock, price, GasLimit(estimate.value), gp);
      }
    }
  }

  lemma MineSettled(env: Env, args: Args, s: Loop)
    requires Settled(env, s.log, false) && !s.complete
    ensures Settled(env, Mine(env, args, s).log, Mine(env, args, s).complete)
  {
    hide Settled, Submit;
    var answer := env.slice(|s.log|);
    var l1 := s.log + [Sliced(s.st, s.base, answer)];
    QuietSettled(env, s.log, l1);
    if answer.Some? && answer.value.Some? {
      var l2 := Ask(env, l1, PrevWork);
      QuietSettled(env, s.log, l2);
      QuietSettled(env, s.log, l2 + [Fresh(env.renewed(|l2|))]);
      SubmitSettled(env, args, l2, answer.value.value, s.st);
      var (l, verdict) := Submit(env, args, l2, answer.value.value, s.st);
      if !(args.send && verdict.Accepted?) {
        QuietSettled(env, l, l + [Fresh(env.renewed(|l|))]);
      }
    }
  }

  // Whole runs: every status-1 receipt is settled.
  lemma {:induction false} RunIsSettled(env: Env, args: Args, start: Loop, n: nat)
    requires start.log == [] && !start.complete
    ensures Settled(env, Passes(env, args, start, n).log, Passes(env, args, start, n).complete)
  {
    hide Mine, D.TargetBits;
    if n > 0 {
      RunIsSettled(env, args, start, n - 1);
      var s := Passes(env, args, start, n - 1);
      if !s.complete {
        hide Settled;
        QuietSettled(env, s.log, s.log + [Fresh(env.renewed(|s.log|))]);
        var s1 := Begin(env, s);
        MineSettled(env, args, s1.(base := s1.base + args.step));
      }
    }
  }

  // After a status-1 receipt the loop goes on if and only if the ownership read that follows raises; so of two such
  // receipts the first was followed by a read that raised.
  lemma GoesOnIfRaised(env: Env, args: Args, start: Loop, n: nat, k: nat)
    requires start.log == [] && !start.complete
    requires k < |Passes(env, args, start, n).log| && Passes(env, args, start, n).log[k] == Receipt(Some(1))
    ensures var s := Passes(env, args, start, n);
            && k + 1 < |s.log| && s.log[k + 1] == Read(Owned, env.number(k + 1))
            && (env.number(k + 1).None? <==> !(s.complete && |s.log| == k + 2))
            && ((exists j: nat :: k < j < |s.log| && s.log[j] == Receipt(Some(1))) ==> env.number(k + 1).None?)
  {
    hide Passes;
    RunIsSettled(env, args, start, n);
  }

  // ---------- two status-1 receipts in one run ----------

  // Two slices, on two snapshots, find the two nonces; prevWork stays as in the snapshot; every answer is 1, except a
  // balance that covers the cost; the ownership read after the first receipt raises, and the snapshot is renewed then.
  function Numbers(balance: nat, prevWork: nat, prevWork': nat, i: nat): Option<nat> {
    if i == 1 then Some(prevWork)
    else if i == 13 then Some(prevWork')
    else if i == 4 || i == 16 then Some(balance)
    else if i == 10 then None
    else Some(1)
  }

  function TwoMints(gasMult: real, st: Snapshot, nonce: nat, st': Snapshot, nonce': nat): Env {
    Env((i: nat) => Numbers(1 + Bid(1, gasMult), st.prevWork, st'.prevWork, i),
        (i: nat) => Some(st'),
        (i: nat) => Some(Some(if i < 11 then nonce else nonce')),
        (i: nat) => i == 1)
  }

  // One pass from a log of length n on that is not due for renewal, up to the ownership read.
  lemma QuickPass(env: Env, args: Args, s: Loop, nonce: nat)
    requires args.send && !s.complete && D.TargetBits(s.st.target) <= args.maxBits
    requires VerifyLocal(args.addr, nonce, s.st.prevWork, s.st.anchor, s.st.target) == Ok(true)
    requires env.slice(|s.log|) == Some(Some(nonce)) && env.number(|s.log| + 1) == Some(s.st.prevWork)
    requires env.number(|s.log| + 4) == Some(1 + Bid(1, args.gasMult))
    requires forall i: nat | |s.log| + 2 <= i < |s.log| + 10 && i != |s.log| + 4 :: env.number(i) == Some(1)
    ensures var n, s' := |s.log|, Mine(env, args, s);
            && |s'.log| == n + 11 && s.log <= s'.log && s'.log[n + 9] == Receipt(Some(1))
            && s' == s.(log := s'.log, complete := env.number(n + 10).Some?)
  {
    hide VerifyLocal, D.TargetBits, SendChecked, Bid;
    var n := |s.log|;
    var l2 := Ask(env, s.log + [Sliced(s.st, s.base, Some(Some(nonce)))], PrevWork);
    assert |l2| == n + 2;
    QuickSend(env, args, l2, nonce, s.st.anchorBlock);
  }

  lemma QuickSend(env: Env, args: Args, log: Log, nonce: nat, anchorBlock: nat)
    requires env.number(|log| + 2) == Some(1 + Bid(1, args.gasMult))
    requires forall i: nat | |log| <= i < |log| + 8 && i != |log| + 2 :: env.number(i) == Some(1)
    ensures var n, (l, verdict) := |log|, SendChecked(env, args, log, nonce, anchorBlock);
            && |l| == n + 9 && log <= l && l[n + 7] == Receipt(Some(1))
            && verdict == if env.number(n + 8).Some? then Accepted else Threw
  {
    hide Transmit, Bid;
    var n := |log|;
    var l1 := Ask(env, log, MintPrice);
    var l2 := l1 + [Simulated(nonce, anchorBlock, 1, Some(1))];
    var l3 := Ask(env, l2, Balance);
    var l4 := Ask(env, l3, GasPrice);
    assert |l1| == n + 1 && |l2| == n + 2 && |l3| == n + 3 && |l4| == n + 4;
    var gp := Bid(1, args.gasMult);
    assert GasLimit(1) == 1 && 1 + 1 * gp == 1 + gp;
    QuickTransmit(env, l4, nonce, anchorBlock, gp);
    assert SendChecked(env, args, log, nonce, anchorBlock) == Transmit(env, l4, nonce, anchorBlock, 1, 1, gp);
  }

  lemma QuickTransmit(env: Env, log: Log, nonce: nat, anchorBlock: nat, gp: nat)
    requires env.number(|log|).Some? && env.number(|log| + 1).Some? && env.number(|log| + 2).Some?
    requires env.number(|log| + 3) == Some(1)
    ensures var n, (l, verdict) := |log|, Transmit(env, log, nonce, anchorBlock, 1, 1, gp);
            && |l| == n + 5 && log <= l && l[n + 3] == Receipt(Some(1))
            && verdict == if env.number(n + 4).Some? then Accepted else Threw
  {
    var l1 := Ask(env, log, TxCount);
    var l2 := Ask(env, l1, ChainId);
    var l3 := l2 + [Broadcast(nonce, anchorBlock, 1, 1, gp)];
    assert |l1| == |log| + 1 && |l2| == |log| + 2 && |l3| == |log| + 3;
  }

  lemma FirstMint(args: Args, s: Loop, nonce: nat, st': Snapshot, nonce': nat)
    requires args.send && s.log == [] && s.pass == 0 && !s.complete && D.TargetBits(s.st.target) <= args.maxBits
    requires VerifyLocal(args.addr, nonce, s.st.prevWork, s.st.anchor, s.st.target) == Ok(true)
    ensures var s' := Pass(TwoMints(args.gasMult, s.st, nonce, st', nonce'), args, s);
            !s'.complete && s'.pass == 1 && |s'.log| == 11 && s'.log[9] == Receipt(Some(1))
  {
    hide VerifyLocal, D.TargetBits, Mine, Bid;
    var env := TwoMints(args.gasMult, s.st, nonce, st', nonce');
    var s1 := Begin(env, s);
    assert s1.log == [] && s1.st == s.st;
    QuickPass(env, args, s1.(base := s1.base + args.step), nonce);
  }

  lemma SecondMint(args: Args, st: Snapshot, nonce: nat, s: Loop, st': Snapshot, nonce': nat)
    requires args.send && |s.log| == 11 && s.pass == 1 && !s.complete && D.TargetBits(st'.target) <= args.maxBits
    requires VerifyLocal(args.addr, nonce', st'.prevWork, st'.anchor, st'.target) == Ok(true)
    ensures var s' := Pass(TwoMints(args.gasMult, st, nonce, st', nonce'), args, s);
            s'.complete && |s'.log| == 23 && s.log <= s'.log && s'.log[21] == Receipt(Some(1))
  {
    hide VerifyLocal, D.TargetBits, Mine, Bid;
    var env := TwoMints(args.gasMult, st, nonce, st', nonce');
    var s1 := Begin(env, s);
    assert |s1.log| == 12 && s1.st == st';
    QuickPass(env, args, s1.(base := s1.base + args.step), nonce');
  }

  // The loop may mint twice: for any two snapshots within the difficulty limit and any two nonces that pass
  // verify_local on them, a run with two status-1 receipts.
  lemma TwoSuccesses(args: Args, start: Loop, nonce: nat, st': Snapshot, nonce': nat)
    requires args.send && start.log == [] && start.pass == 0 && !start.complete
    requires D.TargetBits(start.st.target) <= args.maxBits && D.TargetBits(st'.target) <= args.maxBits
    requires VerifyLocal(args.addr, nonce, start.st.prevWork, start.st.anchor, start.st.target) == Ok(true)
    requires VerifyLocal(args.addr, nonce', st'.prevWork, st'.anchor, st'.target) == Ok(true)
    ensures var s := Passes(TwoMints(args.gasMult, start.st, nonce, st', nonce'), args, start, 2);
            s.complete && |s.log| == 23 && s.log[9] == s.log[21] == Receipt(Some(1))
  {
    hide VerifyLocal, D.TargetBits, Pass, TwoMints;
    var env := TwoMints(args.gasMult, start.st, nonce, st', nonce');
    FirstMint(args, start, nonce, st', nonce');
    var s1 := Pass(env, args, start);
    SecondMint(args, start.st, nonce, s1, st', nonce');
    assert Passes(env, args, start, 1) == s1;
  }

  // ---------- what comes after what ----------

  // The next interaction: a new pass, a renewal of the snapshot within the pass, one of the steps of a submission, or
  // none because the mission is complete.
  datatype Next =
    | NewPass
    | Renewal
    | Reading(query: Query)
    | Simulation(nonce: nat, anchorBlock: nat, value: nat)
    | Transaction(nonce: nat, anchorBlock: nat, value: nat, gas: nat, gasPrice: nat)
    | Confirmation
    | Nothing

  // The slice `back` interactions ago, which found a nonce.
  ghost predicate FoundAgo(log: Log, back: nat) {
    0 < back <= |log| && log[|log| - back].Sliced? &&
    log[|log| - back].answer.Some? && log[|log| - back].answer.value.Some?
  }

  // What the last interactions call for.
  ghost function After(env: Env, args: Args, log: Log): Next {
    if log == [] then NewPass
    else
      var n := |log|;
      match log[n - 1]
      case Fresh(_) => NewPass
      case Sliced(_, _, answer) => if answer.Some? && answer.value.Some? then Reading(PrevWork) else NewPass
      case Read(query, reply) =>
        if reply.None? then NewPass
        else
          (match query
           case PrevWork => AfterPrevWork(args, log)
           case MintPrice =>
             if !args.send then Renewal
             else if FoundAgo(log, 3)
             then Simulation(log[n - 3].answer.value.value, log[n - 3].on.anchorBlock, reply.value) else Nothing
           case Balance => Reading(GasPrice)
           case GasPrice => AfterGasPrice(args, log)
           case TxCount => Reading(ChainId)
           case ChainId => AfterChainId(args, log)
           case Owned => Nothing)
      case Simulated(_, _, _, estimate) => if estimate.None? then Renewal else Reading(Balance)
      case Broadcast(_, _, _, _, _) => if env.number(n - 1).None? then NewPass else Confirmation
      case Receipt(status) =>
        if status.None? then NewPass else if status == Some(1) then Reading(Owned) else Renewal
  }

  // The stale check, and then the local check.
  ghost function AfterPrevWork(args: Args, log: Log): Next
    requires log != [] && log[|log| - 1].Read? && log[|log| - 1].reply.Some?
  {
    if !FoundAgo(log, 2) then Nothing
    else
      var st, nonce := log[|log| - 2].on, log[|log| - 2].answer.value.value;
      if log[|log| - 1].reply.value != st.prevWork then Renewal
      else
        match VerifyLocal(args.addr, nonce, st.prevWork, st.anchor, st.target)
        case Raised(_) => NewPass
        case Ok(valid) => if valid then Reading(MintPrice) else Renewal
  }

  // The balance check: value, gas limit and bid against the balance read.
  ghost function AfterGasPrice(args: Args, log: Log): Next
    requires log != [] && log[|log| - 1].Read? && log[|log| - 1].reply.Some?
  {
    var n := |log|;
    if n < 3 || !log[n - 3].Simulated? || log[n - 3].estimate.None? || !log[n - 2].Read? || log[n - 2].reply.None?
    then Nothing
    else
      var cost := log[n - 3].value + GasLimit(log[n - 3].estimate.value) * Bid(log[n - 1].reply.value, args.gasMult);
      if log[n - 2].reply.value < cost then Renewal else Reading(TxCount)
  }

  ghost function AfterChainId(args: Args, log: Log): Next {
    var n := |log|;
    if n < 5 || !log[n - 5].Simulated? || log[n - 5].estimate.None? || !log[n - 3].Read? || log[n - 3].reply.None?
    then Nothing
    else
      Transaction(log[n - 5].nonce, log[n - 5].anchorBlock, log[n - 5].value,
                  GasLimit(log[n - 5].estimate.value), Bid(log[n - 3].reply.value, args.gasMult))
  }

  // Slices in the log, those that raised included.
  function Slices(log: Log): nat {
    if log == [] then 0 else Slices(log[..|log| - 1]) + (if log[|log| - 1].Sliced? then 1 else 0)
  }

  // e is the interaction that the log calls for, with the environment's answer.  A new pass starts with a renewal or
  // with a slice: on the latest snapshot, within the difficulty limit, one step further than the slice before.
  ghost predicate Matches(env: Env, args: Args, start: Loop, log: Log, e: Event) {
    var n := |log|;
    match After(env, args, log)
    case NewPass =>
      || e == Fresh(env.renewed(n))
      || (var st := Latest(log, start.st);
          && e == Sliced(st, start.base + args.step * (Slices(log) + 1), env.slice(n))
          && D.TargetBits(st.target) <= args.maxBits)
    case Renewal => e == Fresh(env.renewed(n))
    case Reading(query) => e == Read(query, env.number(n))
    case Simulation(nonce, anchorBlock, value) => e == Simulated(nonce, anchorBlock, value, env.number(n))
    case Transaction(nonce, anchorBlock, value, gas, gasPrice) =>
      e == Broadcast(nonce, anchorBlock, value, gas, gasPrice)
    case Confirmation => e == Receipt(env.number(n))
    case Nothing => false
  }

  ghost predicate Lawful(env: Env, args: Args, start: Loop, log: Log) {
    forall k: nat | k < |log| :: Matches(env, args, start, log[..k], log[k])
  }

  lemma LawfulAppend(env: Env, args: Args, start: Loop, log: Log, e: Event)
    requires Lawful(env, args, start, log) && Matches(env, args, start, log, e)
    ensures Lawful(env, args, start, log + [e])
  {
    hide Matches;
    var l := log + [e];
    forall k: nat | k < |l|
      ensures Matches(env, args, start, l[..k], l[k])
    {
      if k < |log| {
        assert l[..k] == log[..k];
      } else {
        assert l[..k] == log;
      }
    }
  }

  // The log after a pass: it calls for a new pass, or for nothing more once the mission is complete.
  ghost predicate Orderly(env: Env, args: Args, start: Loop, log: Log, complete: bool) {
    Lawful(env, args, start, log) && After(env, args, log) == if complete then Nothing else NewPass
  }

  // A renewal within a pass, or at its start.
  lemma RenewalOrderly(env: Env, args: Args, start: Loop, log: Log)
    requires Lawful(env, args, start, log)
    requires After(env, args, log) == Renewal || After(env, args, log) == NewPass
    ensures Orderly(env, args, start, log + [Fresh(env.renewed(|log|))], false)
  {
    hide Lawful;
    LawfulAppend(env, args, start, log, Fresh(env.renewed(|log|)));
  }

  // What a submission leaves behind: complete, or calling for a renewal, or interrupted by an exception.
  ghost predicate Submitted(env: Env, args: Args, start: Loop, log: Log, verdict: Verdict) {
    && Lawful(env, args, start, log)
    && After(env, args, log) ==
       if verdict.Threw? then NewPass else if verdict.Accepted? && args.send then Nothing else Renewal
  }

  lemma ReadLawful(env: Env, args: Args, start: Loop, log: Log, q: Query)
    requires Lawful(env, args, start, log) && After(env, args, log) == Reading(q)
    ensures Lawful(env, args, start, Ask(env, log, q))
  {
    hide Lawful, After;
    LawfulAppend(env, args, start, log, Read(q, env.number(|log|)));
  }

  lemma ReceiptOrderly(env: Env, args: Args, start: Loop, log: Log)
    requires Lawful(env, args, start, log) && After(env, args, log) == Confirmation && args.send
    ensures var l := log + [Receipt(env.number(|log|))];
            && (env.number(|log|) != Some(1) ==>
                  Submitted(env, args, start, l, if env.number(|log|).None? then Threw else Refused))
            && (env.number(|log|) == Some(1) ==>
                  Submitted(env, args, start, Ask(env, l, Owned),
                            if env.number(|log| + 1).None? then Threw else Accepted))
  {
    hide Lawful;
    var e := Receipt(env.number(|log|));
    LawfulAppend(env, args, start, log, e);
    if env.number(|log|) == Some(1) {
      ReadLawful(env, args, start, log + [e], Owned);
    }
  }

  // Where Transmit is called: the simulation, the balance and the fee are the last three interactions.
  ghost predicate Priced(args: Args, log: Log, nonce: nat, anchorBlock: nat, price: nat, gas: nat, gp: nat) {
    var n := |log|;
    && n >= 3
    && log[n - 3].Simulated? && log[n - 3].estimate.Some?
    && log[n - 3] == Simulated(nonce, anchorBlock, price, log[n - 3].estimate)
    && gas == GasLimit(log[n - 3].estimate.value)
    && log[n - 1].Read? && log[n - 1].reply.Some? && gp == Bid(log[n - 1].reply.value, args.gasMult)
  }

  lemma TransmitOrderly(env: Env, args: Args, start: Loop, log: Log,
                        nonce: nat, anchorBlock: nat, price: nat, gas: nat, gp: nat)
    requires Lawful(env, args, start, log) && After(env, args, log) == Reading(TxCount) && args.send
    requires Priced(args, log, nonce, anchorBlock, price, gas, gp)
    ensures var (l, verdict) := Transmit(env, log, nonce, anchorBlock, price, gas, gp);
            Submitted(env, args, start, l, verdict)
  {
    hide Lawful, Submitted, Bid, GasLimit;
    var l1 := Ask(env, log, TxCount);
    ReadLawful(env, args, start, log, TxCount);
    if env.number(|log|).None? {
      SubmissionThrew(env, args, start, l1);
    } else {
      var l2 := Ask(env, l1, ChainId);
      ReadLawful(env, args, start, l1, ChainId);
      if env.number(|l1|).None? {
        SubmissionThrew(env, args, start, l2);
      } else {
        var e := Broadcast(nonce, anchorBlock, price, gas, gp);
        var l3 := l2 + [e];
        assert After(env, args, l2) == Transaction(nonce, anchorBlock, price, gas, gp);
        LawfulAppend(env, args, start, l2, e);
        if env.number(|l2|).None? {
          SubmissionThrew(env, args, start, l3);
        } else {
          ReceiptOrderly(env, args, start, l3);
        }
      }
    }
  }

  lemma SubmissionThrew(env: Env, args: Args, start: Loop, log: Log)
    requires Lawful(env, args, start, log) && After(env, args, log) == NewPass
    ensures Submitted(env, args, start, log, Threw)
  {
  }

  lemma SubmissionRefused(env: Env, args: Args, start: Loop, log: Log)
    requires Lawful(env, args, start, log) && After(env, args, log) == Renewal
    ensures Submitted(env, args, start, log, Refused)
  {
  }

  lemma SendOrderly(env: Env, args: Args, start: Loop, log: Log, nonce: nat, st: Snapshot)
    requires Lawful(env, args, start, log) && Current(log, nonce, st) && args.send
    requires After(env, args, log) == Reading(MintPrice)
    ensures var (l, verdict) := SendChecked(env, args, log, nonce, st.anchorBlock);
            Submitted(env, args, start, l, verdict)
  {
    hide Lawful, Submitted, Bid, GasLimit, VerifyLocal, Transmit;
    var l1 := Ask(env, log, MintPrice);
    ReadLawful(env, args, start, log, MintPrice);
    if env.number(|log|).None? {
      SubmissionThrew(env, args, start, l1);
    } else {
      var price, estimate := env.number(|log|).value, env.number(|l1|);
      var e := Simulated(nonce, st.anchorBlock, price, estimate);
      var l2 := l1 + [e];
      assert l1[|l1| - 3] == log[|log| - 2];
      LawfulAppend(env, args, start, l1, e);
      if estimate.None? {
        SubmissionRefused(env, args, start, l2);
      } else {
        BalanceOrderly(env, args, start, l2);
      }
    }
  }

  // The balance check and what follows it.
  lemma BalanceOrderly(env: Env, args: Args, start: Loop, log: Log)
    requires Lawful(env, args, start, log) && args.send
    requires log != [] && log[|log| - 1].Simulated? && log[|log| - 1].estimate.Some?
    ensures var e := log[|log| - 1];
            var l3 := Ask(env, log, Balance);
            var l4 := Ask(env, l3, GasPrice);
            && (env.number(|log|).None? ==> Submitted(env, args, start, l3, Threw))
            && (env.number(|log|).Some? && env.number(|l3|).None? ==> Submitted(env, args, start, l4, Threw))
            && (env.number(|log|).Some? && env.number(|l3|).Some? ==>
                  var gas, gp := GasLimit(e.estimate.value), Bid(env.number(|l3|).value, args.gasMult);
                  if env.number(|log|).value < e.value + gas * gp then Submitted(env, args, start, l4, Refused)
                  else
                    var (l, verdict) := Transmit(env, l4, e.nonce, e.anchorBlock, e.value, gas, gp);
                    Submitted(env, args, start, l, verdict))
  {
    hide Lawful, Submitted, Bid, GasLimit, Transmit;
    var e := log[|log| - 1];
    var l3 := Ask(env, log, Balance);
    var l4 := Ask(env, l3, GasPrice);
    ReadLawful(env, args, start, log, Balance);
    if env.number(|log|).None? {
      SubmissionThrew(env, args, start, l3);
    } else {
      ReadLawful(env, args, start, l3, GasPrice);
      if env.number(|l3|).None? {
        SubmissionThrew(env, args, start, l4);
      } else {
        assert l4[|l4| - 3] == e && l4[|l4| - 2] == Read(Balance, env.number(|log|));
        var gas, gp := GasLimit(e.estimate.value), Bid(env.number(|l3|).value, args.gasMult);
        if env.number(|log|).value < e.value + gas * gp {
          SubmissionRefused(env, args, start, l4);
        } else {
          TransmitOrderly(env, args, start, l4, e.nonce, e.anchorBlock, e.value, gas, gp);
        }
      }
    }
  }

  lemma SubmitOrderly(env: Env, args: Args, start: Loop, log: Log, nonce: nat, st: Snapshot)
    requires Lawful(env, args, start, log) && Current(log, nonce, st)
    ensures var (l, verdict) := Submit(env, args, log, nonce, st); Submitted(env, args, start, l, verdict)
  {
    hide Lawful, SendChecked, VerifyLocal;
    if VerifyLocal(args.addr, nonce, st.prevWork, st.anchor, st.target) == Ok(true) {
      assert After(env, args, log) == Reading(MintPrice);
      if args.send {
        SendOrderly(env, args, start, log, nonce, st);
      } else {
        ReadLawful(env, args, start, log, MintPrice);
      }
    }
  }

  lemma SlicesAppend(log: Log, e: Event)
    ensures Slices(log + [e]) == Slices(log) + (if e.Sliced? then 1 else 0)
  {
    assert (log + [e])[..|log|] == log;
  }

  lemma {:induction false} SlicesStay(a: Log, b: Log)
    requires Neutral(a, b)
    ensures Slices(b) == Slices(a)
    decreases |b|
  {
    if a != b {
      SlicesStay(a, b[..|b| - 1]);
    }
  }

  // The loop's variables agree with its log.
  ghost predicate InStep(args: Args, start: Loop, s: Loop) {
    s.st == Latest(s.log, start.st) && s.base == start.base + args.step * Slices(s.log)
  }

  lemma RenewInStep(env: Env, args: Args, start: Loop, s: Loop)
    requires InStep(args, start, s)
    ensures InStep(args, start, Renew(env, s))
  {
    hide Latest, Slices, MinedOnLatest;
    SlicesAppend(s.log, Fresh(env.renewed(|s.log|)));
    LatestAppend(s.log, Fresh(env.renewed(|s.log|)), start.st);
  }

  lemma LatestAppend(log: Log, e: Event, st: Snapshot)
    ensures Latest(log + [e], st) == if e.Fresh? && e.state.Some? then e.state.value else Latest(log, st)
  {
    assert (log + [e])[..|log|] == log;
  }

  lemma {:induction false} LatestStays(a: Log, b: Log, st: Snapshot)
    requires Neutral(a, b)
    ensures Latest(b, st) == Latest(a, st)
    decreases |b|
  {
    if a != b {
      LatestStays(a, b[..|b| - 1], st);
    }
  }

  lemma NextStep(step: nat, k: nat)
    ensures step * k + step == step * (k + 1)
  {
  }

  lemma MineOrderly(env: Env, args: Args, start: Loop, s: Loop)
    requires Orderly(env, args, start, s.log, false) && InStep(args, start, s) && !s.complete
    requires D.TargetBits(s.st.target) <= args.maxBits
    ensures var s' := Mine(env, args, s.(base := s.base + args.step));
            && Orderly(env, args, start, s'.log, s'.complete)
            && (s'.complete || InStep(args, start, s'))
  {
    hide Lawful, Submit, VerifyLocal, D.TargetBits, Latest, Slices, Matches;
    var base := s.base + args.step;
    var answer := env.slice(|s.log|);
    var e := Sliced(s.st, base, answer);
    var l1 := s.log + [e];
    NextStep(args.step, Slices(s.log));
    SliceMatches(env, args, start, s.log, e);
    LawfulAppend(env, args, start, s.log, e);
    SlicesAppend(s.log, e);
    LatestAppend(s.log, e, start.st);
    if answer.Some? && answer.value.Some? {
      var l2 := Ask(env, l1, PrevWork);
      var s2 := s.(log := l2, base := base);
      ReadLawful(env, args, start, l1, PrevWork);
      SlicesAppend(l1, Read(PrevWork, env.number(|l1|)));
      LatestAppend(l1, Read(PrevWork, env.number(|l1|)), start.st);
      if env.number(|l1|).Some? {
        AfterSlice(env, args, start, s2, l1, answer.value.value);
      }
    }
  }

  lemma SliceMatches(env: Env, args: Args, start: Loop, log: Log, e: Event)
    requires After(env, args, log) == NewPass
    requires e == Sliced(Latest(log, start.st), start.base + args.step * (Slices(log) + 1), env.slice(|log|))
    requires D.TargetBits(e.on.target) <= args.maxBits
    ensures Matches(env, args, start, log, e)
  {
    hide After, Latest, Slices, D.TargetBits;
  }

  // From the stale check on.
  lemma AfterSlice(env: Env, args: Args, start: Loop, s: Loop, l1: Log, nonce: nat)
    requires Lawful(env, args, start, s.log) && InStep(args, start, s) && !s.complete
    requires l1 != [] && l1[|l1| - 1].Sliced? && l1[|l1| - 1].on == s.st && l1[|l1| - 1].answer == Some(Some(nonce))
    requires s.log == Ask(env, l1, PrevWork) && env.number(|l1|).Some?
    ensures env.number(|l1|).value != s.st.prevWork ==>
              Orderly(env, args, start, Renew(env, s).log, false) && InStep(args, start, Renew(env, s))
    ensures env.number(|l1|).value == s.st.prevWork ==>
              var (l, verdict) := Submit(env, args, s.log, nonce, s.st);
              var s3 := s.(log := l);
              if verdict.Threw? then Orderly(env, args, start, l, false) && InStep(args, start, s3)
              else if verdict.Accepted? && args.send then Orderly(env, args, start, l, true)
              else Orderly(env, args, start, Renew(env, s3).log, false) && InStep(args, start, Renew(env, s3))
  {
    hide Lawful, Submit, VerifyLocal, Latest, Slices;
    assert s.log[|s.log| - 2] == l1[|l1| - 1] && s.log[|s.log| - 1] == Read(PrevWork, env.number(|l1|));
    if env.number(|l1|).value != s.st.prevWork {
      RenewalOrderly(env, args, start, s.log);
      RenewInStep(env, args, start, s);
    } else {
      SubmitOrderly(env, args, start, s.log, nonce, s.st);
      SubmitNeutral(env, args, s.log, nonce, s.st);
      var (l, verdict) := Submit(env, args, s.log, nonce, s.st);
      SlicesStay(s.log, l);
      LatestStays(s.log, l, start.st);
      if !verdict.Threw? && !(verdict.Accepted? && args.send) {
        RenewalOrderly(env, args, start, l);
        RenewInStep(env, args, start, s.(log := l));
      }
    }
  }

  // Whole runs, event by event: each interaction is the one that those before it call for, with the environment's
  // answer; a pass never stops half way, and the run ends only when nothing more is called for.  In particular the i-th
  // slice has base start.base + i * step, whatever the slices before it returned or raised.
  lemma {:induction false} RunIsOrderly(env: Env, args: Args, start: Loop, n: nat)
    requires start.log == [] && !start.complete
    ensures var s := Passes(env, args, start, n);
            && Orderly(env, args, start, s.log, s.complete)
            && (s.complete || InStep(args, start, s))
  {
    hide Orderly, InStep, Mine, D.TargetBits;
    if n == 0 {
      StartOrderly(env, args, start);
    } else {
      RunIsOrderly(env, args, start, n - 1);
      var s := Passes(env, args, start, n - 1);
      if !s.complete {
        PassOrderly(env, args, start, s);
      }
    }
  }

  lemma StartOrderly(env: Env, args: Args, start: Loop)
    requires start.log == [] && !start.complete
    ensures Orderly(env, args, start, start.log, false) && InStep(args, start, start)
  {
    assert args.step * 0 == 0;
  }

  lemma PassOrderly(env: Env, args: Args, start: Loop, s: Loop)
    requires Orderly(env, args, start, s.log, false) && InStep(args, start, s) && !s.complete
    ensures var s' := Pass(env, args, s);
            && Orderly(env, args, start, s'.log, s'.complete)
            && (s'.complete || InStep(args, start, s'))
  {
    hide Lawful, Mine, D.TargetBits, Latest, Slices, After;
    var s0 := s.(pass := s.pass + 1);
    RenewalOrderly(env, args, start, s.log);
    RenewInStep(env, args, start, s0);
    var s1 := Begin(env, s);
    if D.TargetBits(s1.st.target) <= args.maxBits {
      MineOrderly(env, args, start, s1);
    }
  }

  // How a pass starts: with a renewal exactly when that is due; and then, unless the renewal raised, with a slice
  // exactly when the difficulty is within the limit.
  lemma PassStarts(env: Env, args: Args, s: Loop)
    ensures var n, due, s' := |s.log|, env.refresh(s.pass), Pass(env, args, s);
            && s.log <= s'.log && s'.pass == s.pass + 1
            && (due <==> |s'.log| > n && s'.log[n] == Fresh(env.renewed(n)))
            && (due && env.renewed(n).None? ==> |s'.log| == n + 1)
            && (!(due && env.renewed(n).None?) ==>
                  var k := if due then n + 1 else n;
                  var st := if due then env.renewed(n).value else s.st;
                  if D.TargetBits(st.target) > args.maxBits then |s'.log| == k
                  else |s'.log| > k && s'.log[k] == Sliced(st, s.base + args.step, env.slice(k)))
  {
    hide Submit, D.TargetBits;
    var s1 := Begin(env, s);
    MineStarts(env, args, s1.(base := s1.base + args.step));
  }

  lemma MineStarts(env: Env, args: Args, s: Loop)
    ensures var s' := Mine(env, args, s);
            && |s'.log| > |s.log| && s.log <= s'.log && s'.pass == s.pass
            && s'.log[|s.log|] == Sliced(s.st, s.base, env.slice(|s.log|))
  {
    hide Submit;
    var l1 := s.log + [Sliced(s.st, s.base, env.slice(|s.log|))];
    var l2 := Ask(env, l1, PrevWork);
    if env.slice(|s.log|).Some? && env.slice(|s.log|).value.Some? {
      SubmitNeutral(env, args, l2, env.slice(|s.log|).value.value, s.st);
    }
  }

  // The base of a slice is as many steps beyond the start as there were slices, it included.
  lemma SliceBase(env: Env, args: Args, start: Loop, n: nat, k: nat)
    requires start.log == [] && !start.complete
    requires k < |Passes(env, args, start, n).log| && Passes(env, args, start, n).log[k].Sliced?
    ensures var log := Passes(env, args, start, n).log;
            log[k].base == start.base + args.step * (Slices(log[..k]) + 1)
  {
    hide Passes, Matches, InStep, After;
    RunIsOrderly(env, args, start, n);
    var log := Passes(env, args, start, n).log;
    assert Matches(env, args, start, log[..k], log[k]);
    MatchingSlice(env, args, start, log[..k], log[k]);
  }

  lemma MatchingSlice(env: Env, args: Args, start: Loop, log: Log, e: Event)
    requires Matches(env, args, start, log, e) && e.Sliced?
    ensures e.base == start.base + args.step * (Slices(log) + 1) && e.on == Latest(log, start.st)
  {
    hide After, Latest, Slices, D.TargetBits;
  }

  // Two slices of a run, d slices apart, on a grid whose launch is one step: if the first runs m launches and the
  // second `next`, they test no common nonce exactly when m is 0, or at most d without going round the 64-bit counter.
  lemma SlicesApart(env: Env, args: Args, start: Loop, n: nat, i: nat, j: nat, g: K.Grid, m: nat, d: nat, next: nat)
    requires start.log == [] && !start.complete
    requires i < j < |Passes(env, args, start, n).log|
    requires Passes(env, args, start, n).log[i].Sliced? && Passes(env, args, start, n).log[j].Sliced?
    requires Slices(Passes(env, args, start, n).log[..j]) == Slices(Passes(env, args, start, n).log[..i]) + d && d > 0
    requires g.base == Passes(env, args, start, n).log[i].base && G.Size(g) == args.step > 0 && next > 0
    requires Passes(env, args, start, n).log[j].base < U64_MODULUS
    ensures var h := g.(base := Passes(env, args, start, n).log[j].base);
            (forall v: nat | G.Tests(g, m, v) :: !G.Tests(h, next, v)) <==>
            m == 0 || (m <= d && (next + d) * args.step <= U64_MODULUS)
  {
    hide Passes, Slices, G.Tests, G.Size;
    SliceBase(env, args, start, n, i);
    SliceBase(env, args, start, n, j);
    var a := Slices(Passes(env, args, start, n).log[..i]);
    StepsApart(args.step, a, d);
    assert G.Later(g, d) == g.(base := Passes(env, args, start, n).log[j].base);
    G.SlicesDisjoint(g, m, d, next);
  }

  lemma StepsApart(step: nat, a: nat, d: nat)
    ensures step * (a + d + 1) == step * (a + 1) + d * step
  {
  }

  // The bid: the product of fee and multiplier, rounded down; and 1.3 times the estimate, rounded down.
  lemma Margins(gas: nat, fee: nat, gasMult: real)
    ensures 10 * GasLimit(gas) <= 13 * gas < 10 * (GasLimit(gas) + 1)
    ensures gasMult >= 0.0 ==> Bid(fee, gasMult) as real <= fee as real * gasMult < (Bid(fee, gasMult) + 1) as real
  {
    if gasMult >= 0.0 {
      assert fee as real * gasMult >= 0.0;
    }
  }

  // ---------- the loop as it runs ----------

  lemma {:induction false} CompleteStays(env: Env, args: Args, start: Loop, k: nat, n: nat)
    requires k <= n && Passes(env, args, start, k).complete
    ensures Passes(env, args, start, n) == Passes(env, args, start, k)
  {
    hide Pass;
    if k < n {
      CompleteStays(env, args, start, k, n - 1);
    }
  }

  // main's loop: st, base and the log are updated pass by pass, until the mission completes or the process ends.
  method RunContinuous(env: Env, args: Args, start: Loop, limit: nat) returns (s: Loop, passes: nat)
    requires start.log == [] && !start.complete
    ensures passes <= limit && (!s.complete ==> passes == limit)
    ensures s == Passes(env, args, start, passes) == Passes(env, args, start, limit)
    ensures s.complete ==> passes > 0 && !Passes(env, args, start, passes - 1).complete
    ensures AllChecked(args, s.log)
    ensures UpToDate(s, start.st)
    ensures s.complete ==> args.send && EndsMinted(s.log)
    ensures Settled(env, s.log, s.complete)
    ensures Orderly(env, args, start, s.log, s.complete)
  {
    hide Orderly, InStep, Settled, Pass, AllChecked, UpToDate, EndsMinted;
    s, passes := start, 0;
    while passes < limit && !s.complete
      invariant passes <= limit
      invariant s == Passes(env, args, start, passes)
      invariant s.complete ==> passes > 0 && !Passes(env, args, start, passes - 1).complete
    {
      s := Pass(env, args, s);
      passes := passes + 1;
    }
    if s.complete {
      CompleteStays(env, args, start, passes, limit);
    }
    EveryBroadcastChecked(env, args, start, passes);
    AlwaysUpToDate(env, args, start, passes);
    CompleteMeansMinted(env, args, start, passes);
    RunIsSettled(env, args, start, passes);
    RunIsOrderly(env, args, start, passes);
  }
}
