/** The two loops of solver_mp.py as they run: one worker between the readings
    of the shared flag and the clock, and the parent between messages.  The
    step system of SolverMp interleaves these. */
module SolverMpLoops {
  import opened Codecs
  import opened Lanes
  import opened WorkHash
  import opened SolverMp

  // The check before batch b: flag(b) and clock(b) are what the worker reads there.
  predicate Stops(c: Search, flag: nat -> bool, clock: nat -> real, b: nat) {
    flag(b) || (c.deadline != 0.0 && clock(b) > c.deadline)
  }

  // _worker, without interrupts, for at most `fuel` batches (the parent may terminate it).  A "done" message comes from
  // a check that stops it and reports whole batches only; a "found" message carries the first winner of the lane.
  method WorkerLoop(c: Search, job: ValidJob, i: nat, flag: nat -> bool, clock: nat -> real, fuel: nat)
    returns (m: Option<Message>, batch: nat)
    ensures forall b: nat | b < batch :: !Stops(c, flag, clock, b)
    ensures m.None? ==> batch == fuel && LaneLost(c, job, i, fuel * CHECK)
    ensures m.Some? && m.value.nonce.None? ==>
              && batch < fuel && Stops(c, flag, clock, batch)
              && m.value.done == batch * CHECK && LaneLost(c, job, i, m.value.done)
    ensures m.Some? && m.value.nonce.Some? ==>
              && batch < fuel && !Stops(c, flag, clock, batch)
              && batch * CHECK < m.value.done <= (batch + 1) * CHECK
              && LaneLost(c, job, i, m.value.done - 1)
              && m.value.nonce.value == LaneNonce(c.start, c.workers, i, m.value.done - 1)
              && Wins(job, m.value.nonce.value)
  {
    hide Wins, LaneNonce;
    var nonce, done := c.start + i, 0;
    FirstNonce(c, i);
    batch := 0;
    for b := 0 to fuel
      invariant batch == b && done == b * CHECK
      invariant nonce == LaneNonce(c.start, c.workers, i, done) && LaneLost(c, job, i, done)
      invariant forall b': nat | b' < b :: !Stops(c, flag, clock, b')
    {
      if Stops(c, flag, clock, b) {
        return Some(Message(done, None)), b;
      }
      for n := 0 to CHECK
        invariant done == b * CHECK + n
        invariant nonce == LaneNonce(c.start, c.workers, i, done) && LaneLost(c, job, i, done)
      {
        if Wins(job, nonce) {
          return Some(Message(done + 1, Some(nonce))), b;
        }
        NextNonce(c.start, c.workers, i, done);
        nonce := nonce + c.workers;
        done := done + 1;
      }
      batch := b + 1;
    }
    return None, fuel;
  }

  lemma FirstNonce(c: Search, i: nat)
    ensures c.start + i == LaneNonce(c.start, c.workers, i, 0)
  {
  }

  // The parent's loop.  `inbox` is what the queue yields, in order; the parent blocks for ever when it is used up.
  method ParentLoop(workers: nat, inbox: seq<Message>) returns (result: Option<nat>, total: nat, taken: nat)
    ensures taken == if |inbox| < workers then |inbox| else workers
    ensures total == MessageTotals(inbox[..taken]).done
    ensures result == LastNonce(inbox[..taken])
    ensures result.None? <==> MessageTotals(inbox[..taken]).finds == 0
  {
    hide MessageTotals;
    result, total, taken := None, 0, 0;
    NoMessages();
    assert inbox[..0] == [];
    var remaining := workers;
    while remaining > 0 && taken < |inbox|
      invariant taken <= |inbox| && remaining == workers - taken
      invariant total == MessageTotals(inbox[..taken]).done
      invariant result == LastNonce(inbox[..taken])
      invariant result.None? <==> MessageTotals(inbox[..taken]).finds == 0
    {
      var m := inbox[taken];
      assert inbox[..taken + 1] == inbox[..taken] + [m];
      MessagesAppend(inbox[..taken], m);
      CountIsLength(inbox[..taken]);
      total := total + m.done;
      remaining := remaining - 1;
      if m.nonce.Some? {
        result := m.nonce;
      }
      taken := taken + 1;
    }
  }

  lemma NoMessages()
    ensures MessageTotals([]) == Totals(0, 0, 0)
  {
  }
}
