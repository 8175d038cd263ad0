/** csolver.py: one C process per core, each on its own nonce lane.  The job goes
    over as text, the answer comes back as text. */
module CSolver {
  import opened Words
  import opened Codecs
  import opened Lanes
  import opened WorkHash
  import B = BigEndian
  import M = KeccakMiner

  // addr is "0x" and 40 hexadecimal digits; bytes.fromhex(addr[2:]) are the miner bytes of job.
  ghost predicate Describes(addr: string, job: Job) {
    job.Valid() && |addr| == 42 && FromHex(addr[2..]) == Some(job.miner)
  }

  // The first four arguments, which csolver.py and gpu_hunter_continuous.py write in the same way.
  function JobArgs(addr: string, job: Job): (args: seq<string>)
    requires |addr| >= 2
    ensures |args| == 4
  {
    [Lower(addr[2..]), PaddedHex(job.prevWork, 64), Hex(job.anchor), PaddedHex(job.target, 64)]
  }

  // The argument list of lane i (without the time limit).
  function LaneArgs(addr: string, job: Job, base: nat, ncores: nat, i: nat): (args: seq<string>)
    requires |addr| >= 2
    ensures |args| == 6
  {
    JobArgs(addr, job) + [Dec(base + i), Dec(ncores)]
  }

  // The child reads back the job that the parent described, whatever arguments follow.
  lemma JobArgsParse(addr: string, job: Job, rest: seq<string>)
    requires Describes(addr, job)
    ensures M.JobOf(JobArgs(addr, job) + rest) == Some(job)
  {
    hide HexBytes, Hex, PaddedHex, B.Value, B.Bytes, FromHex, Dec;
    LimitIsPow();
    HexBytesOfLower(addr[2..]);
    HexBytesOfPadded(job.prevWork, 32);
    HexBytesOfHex(job.anchor);
    HexBytesOfPadded(job.target, 32);
    B.ValueOfBytes(job.prevWork, 32);
    B.ValueOfBytes(job.target, 32);
  }

  // End to end: the C program, started with the parent's text arguments, accepts a nonce exactly when the Python
  // reference, given the parent's own values, does.
  method EndToEnd(addr: string, job: Job, base: nat, ncores: nat, i: nat, nonce: nat) returns (win: bool)
    requires Describes(addr, job) && nonce < U64_MODULUS
    ensures VerifyLocal(addr, nonce, job.prevWork, job.anchor, job.target) == Ok(win)
  {
    hide VerifyLocal, Wins, M.JobOf, JobArgs, Dec;
    JobArgsParse(addr, job, [Dec(base + i), Dec(ncores)]);
    VerifyLocalIsWins(addr, nonce, job);
    var verdict := M.Accepts(LaneArgs(addr, job, base, ncores, i), nonce);
    win := verdict.value;
  }

  // ---------- lanes ----------

  // Without 64-bit wrap the C counter follows the lane.
  lemma CounterFollowsLane(base: nat, ncores: nat, i: nat, k: nat)
    requires LaneNonce(base, ncores, i, k) < U64_MODULUS && ncores < U64_MODULUS
    ensures base + i < U64_MODULUS
    ensures M.NonceAt(Strtoull(Dec(base + i)), Strtoull(Dec(ncores)), k) == LaneNonce(base, ncores, i, k)
  {
    hide Strtoull, Dec;
    assert k * ncores >= 0;
    StrtoullOfDec(base + i);
    StrtoullOfDec(ncores);
  }

  // The outcome of lane i, run on its arguments.
  ghost predicate LaneRun(addr: string, job: Job, base: nat, ncores: nat, i: nat,
                          maxSeconds: real, clock: nat -> real, fuel: nat, o: M.Outcome, k: nat)
    requires Describes(addr, job)
  {
    var args := LaneArgs(addr, job, base, ncores, i);
    M.LaneOutcome(job, Strtoull(args[4]), Strtoull(args[5]), maxSeconds, clock, fuel, o, k)
  }

  // Whatever nonce a child prints, the reference accepts after the parent has read it.
  lemma FoundIsAccepted(addr: string, job: Job, base: nat, ncores: nat, i: nat,
                        maxSeconds: real, clock: nat -> real, fuel: nat, n: nat, k: nat)
    requires Describes(addr, job)
    requires LaneRun(addr, job, base, ncores, i, maxSeconds, clock, fuel, M.Found(n), k)
    ensures ReadFound(FoundLine(n)) == Some(n)
    ensures VerifyLocal(addr, n, job.prevWork, job.anchor, job.target) == Ok(true)
  {
    hide VerifyLocal, Wins, ReadFound, FoundLine, Strtoull;
    FoundLineRoundTrip(n);
    VerifyLocalIsWins(addr, n, job);
  }

  // The lane of a winner reports that winner, or an earlier one, unless the lane is stopped before.
  lemma LaneReports(addr: string, job: Job, base: nat, ncores: nat, i: nat, q: nat,
                    maxSeconds: real, clock: nat -> real, fuel: nat, o: M.Outcome, k: nat)
    requires Describes(addr, job) && 0 < ncores < U64_MODULUS
    requires LaneNonce(base, ncores, i, q) < U64_MODULUS && Wins(job, LaneNonce(base, ncores, i, q))
    requires LaneRun(addr, job, base, ncores, i, maxSeconds, clock, fuel, o, k)
    requires q < fuel && M.InTime(maxSeconds, clock, q)
    ensures o.Found? && k <= q && o.nonce == LaneNonce(base, ncores, i, k)
  {
    hide Wins, Strtoull, M.LaneOutcome, Dec, LaneNonce, M.NonceAt;
    CounterFollowsLane(base, ncores, i, q);
    M.LaneFinds(job, Strtoull(Dec(base + i)), Strtoull(Dec(ncores)), maxSeconds, clock, fuel, o, k, q);
    LaneBelow(base, ncores, i, k, q);
    CounterFollowsLane(base, ncores, i, k);
  }

  // A winner in [base, base + ncores * rounds) is reported within that many iterations of its lane.
  lemma WinnerIsReported(addr: string, job: Job, base: nat, ncores: nat, rounds: nat, w: nat,
                         maxSeconds: real, clock: nat -> real, fuel: nat, o: M.Outcome, k: nat)
    requires Describes(addr, job) && 0 < ncores < U64_MODULUS
    requires base <= w < base + ncores * rounds <= U64_MODULUS && Wins(job, w)
    requires LaneRun(addr, job, base, ncores, (w - base) % ncores, maxSeconds, clock, fuel, o, k)
    requires fuel >= rounds && M.InTime(maxSeconds, clock, rounds)
    ensures o.Found? && k < rounds && o.nonce <= w
    ensures o.nonce == LaneNonce(base, ncores, (w - base) % ncores, k)
  {
    hide Wins, LaneRun, Describes, LaneNonce, M.InTime;
    var q := PlaceOf(base, ncores, rounds, w);
    var i := (w - base) % ncores;
    M.InTimeSooner(maxSeconds, clock, q, rounds);
    LaneReports(addr, job, base, ncores, i, q, maxSeconds, clock, fuel, o, k);
    LaneBelow(base, ncores, i, k, q);
  }

  lemma PlaceOf(base: nat, ncores: nat, rounds: nat, w: nat) returns (q: nat)
    requires ncores > 0 && base <= w < base + ncores * rounds
    ensures q < rounds && LaneNonce(base, ncores, (w - base) % ncores, q) == w
  {
    q := (w - base) / ncores;
    LanesPartition(base, ncores, w);
    QuotientBelow(w - base, ncores, rounds);
  }

  lemma QuotientBelow(d: nat, m: nat, rounds: nat)
    requires m > 0 && d < m * rounds
    ensures d / m < rounds
  {
    assert d == m * (d / m) + d % m;
    B.ProductBound(m, d / m - rounds);
  }

  // ---------- the supervising parent ----------

  // The arguments of one call of solve that matter to the supervisor: time_limit (0.0 when there is none), and whether
  // there is a stop event.
  datatype Call = Call(addr: string, job: ValidJob, base: nat, ncores: nat, timeLimit: real, stoppable: bool)

  datatype Event =
    | Ends(lane: nat, outcome: M.Outcome)   // a search ends; its line, if any, is in the pipe
    | Exits(lane: nat)                      // the process is gone: poll() is not None
    | Reads(lane: nat)                      // the reader thread of the lane gets its line
    | Stops                                 // the stop event is set
    | TimesOut                              // time_limit seconds have passed
    | Leaves                                // the supervising loop breaks
    | Returns                               // solve returns found_nonce

  datatype Parent = Parent(ended: map<nat, M.Outcome>, exited: set<nat>, seen: Option<nat>,
                           stopped: bool, late: bool, left: bool, returned: Option<Option<nat>>)

  const BEGIN := Parent(map[], {}, None, false, false, false, None)

  ghost predicate AllExited(c: Call, p: Parent) {
    forall i: nat | i < c.ncores :: i in p.exited
  }

  // The loop breaks on a nonce seen, on the stop event, on the time limit, or when every process is gone.
  ghost predicate MayLeave(c: Call, p: Parent) {
    p.seen.Some? || (c.stoppable && p.stopped) || (c.timeLimit != 0.0 && p.late) || AllExited(c, p)
  }

  // An event that is not possible in p changes nothing.
  ghost function Step(c: Call, p: Parent, e: Event): Parent {
    if p.returned.Some? then p
    else
      match e
      case Ends(i, o) => if i in p.ended then p else p.(ended := p.ended[i := o])
      case Exits(i) => if i in p.ended then p.(exited := p.exited + {i}) else p
      case Reads(i) =>
        if i in p.ended && p.ended[i].Found? then p.(seen := ReadFound(FoundLine(p.ended[i].nonce))) else p
      case Stops => p.(stopped := true)
      case TimesOut => p.(late := true)
      case Leaves => if MayLeave(c, p) then p.(left := true) else p
      case Returns => if p.left then p.(returned := Some(p.seen)) else p
  }

  ghost function Supervise(c: Call, events: seq<Event>): Parent {
    if events == [] then BEGIN else Step(c, Supervise(c, events[..|events| - 1]), events[|events| - 1])
  }

  // Every outcome in the run is one of that lane's search, which has the time limit of the call.
  ghost predicate Genuine(c: Call, events: seq<Event>)
    requires Describes(c.addr, c.job)
  {
    forall e | e in events && e.Ends? :: GenuineOutcome(c, e.lane, e.outcome)
  }

  ghost predicate GenuineOutcome(c: Call, i: nat, o: M.Outcome)
    requires Describes(c.addr, c.job)
  {
    && i < c.ncores
    && exists clock: nat -> real, fuel: nat, k: nat ::
         LaneRun(c.addr, c.job, c.base, c.ncores, i, c.timeLimit, clock, fuel, o, k)
  }

  ghost predicate ParentInv(c: Call, p: Parent)
    requires Describes(c.addr, c.job)
  {
    && (forall i | i in p.ended :: GenuineOutcome(c, i, p.ended[i]))
    && (forall i | i in p.exited :: i in p.ended)
    && (p.seen.Some? ==> exists i :: i in p.ended && p.ended[i] == M.Found(p.seen.value))
    && (p.left ==> MayLeave(c, p))
    && (p.returned.Some? ==> p.left && p.returned.value == p.seen)
  }

  lemma StepInv(c: Call, p: Parent, e: Event)
    requires Describes(c.addr, c.job) && ParentInv(c, p)
    requires e.Ends? ==> GenuineOutcome(c, e.lane, e.outcome)
    ensures ParentInv(c, Step(c, p, e))
  {
    hide Describes, LaneRun, GenuineOutcome, ReadFound, FoundLine;
    var q := Step(c, p, e);
    if e.Reads? && q != p {
      FoundLineRoundTrip(p.ended[e.lane].nonce);
      assert q.ended[e.lane] == M.Found(q.seen.value);
    } else if q.seen.Some? {
      var i :| i in p.ended && p.ended[i] == M.Found(p.seen.value);
      assert q.ended[i] == M.Found(q.seen.value);
    }
  }

  lemma {:induction false} SuperviseInv(c: Call, events: seq<Event>)
    requires Describes(c.addr, c.job) && Genuine(c, events)
    ensures ParentInv(c, Supervise(c, events))
  {
    hide Describes, GenuineOutcome, Step, MayLeave;
    if events != [] {
      SuperviseInv(c, events[..|events| - 1]);
      StepInv(c, Supervise(c, events[..|events| - 1]), events[|events| - 1]);
    }
  }

  // A nonce that solve returns was printed by a child and passes verify_local.
  lemma ReturnedIsAccepted(c: Call, events: seq<Event>)
    requires Describes(c.addr, c.job) && Genuine(c, events)
    requires Supervise(c, events).returned.Some? && Supervise(c, events).returned.value.Some?
    ensures var n := Supervise(c, events).returned.value.value;
            VerifyLocal(c.addr, n, c.job.prevWork, c.job.anchor, c.job.target) == Ok(true)
  {
    hide Describes, LaneRun, VerifyLocal, Supervise, MayLeave;
    SuperviseInv(c, events);
    var p := Supervise(c, events);
    var n := p.returned.value.value;
    var i :| i in p.ended && p.ended[i] == M.Found(n);
    assert GenuineOutcome(c, i, M.Found(n));
    var clock: nat -> real, fuel: nat, k: nat :|
      LaneRun(c.addr, c.job, c.base, c.ncores, i, c.timeLimit, clock, fuel, M.Found(n), k);
    FoundIsAccepted(c.addr, c.job, c.base, c.ncores, i, c.timeLimit, clock, fuel, n, k);
  }

  // ---------- when a printed nonce is lost ----------

  // Event k is a reader getting a FOUND line.
  ghost predicate ReadsFound(c: Call, events: seq<Event>, k: nat)
    requires k < |events|
  {
    var p := Supervise(c, events[..k]);
    p.returned.None? && events[k].Reads? && events[k].lane in p.ended && p.ended[events[k].lane].Found?
  }

  lemma {:induction false} SeenIfRead(c: Call, events: seq<Event>)
    ensures Supervise(c, events).seen.Some? <==> exists k: nat :: k < |events| && ReadsFound(c, events, k)
  {
    hide ReadFound, FoundLine, MayLeave;
    if events != [] {
      var n := |events| - 1;
      var before := events[..n];
      SeenIfRead(c, before);
      forall k: nat | k < n
        ensures ReadsFound(c, events, k) == ReadsFound(c, before, k)
      {
        assert events[..k] == before[..k];
      }
      if ReadsFound(c, events, n) {
        FoundLineRoundTrip(Supervise(c, before).ended[events[n].lane].nonce);
      }
      assert Supervise(c, events).seen.Some? <==> Supervise(c, before).seen.Some? || ReadsFound(c, events, n);
    }
  }

  // The nonce of the last FOUND line read is the one seen.
  lemma {:induction false} SeenIsLastRead(c: Call, events: seq<Event>, k: nat)
    requires Supervise(c, events).returned.None? && k < |events| && ReadsFound(c, events, k)
    requires forall j: nat | k < j < |events| :: !ReadsFound(c, events, j)
    ensures Supervise(c, events).seen == Some(Supervise(c, events[..k]).ended[events[k].lane].nonce)
  {
    hide ReadFound, FoundLine, MayLeave;
    var n := |events| - 1;
    var before := events[..n];
    if k < n {
      forall j: nat | j < n
        ensures ReadsFound(c, events, j) == ReadsFound(c, before, j)
      {
        assert events[..j] == before[..j];
      }
      assert before[..k] == events[..k];
      SeenIsLastRead(c, before, k);
      assert !ReadsFound(c, events, n);
    } else {
      FoundLineRoundTrip(Supervise(c, before).ended[events[n].lane].nonce);
    }
  }

  // ---------- when solve returns ----------

  // The search of lane i has ended in the events, and then its process is gone.
  ghost predicate EndsIn(events: seq<Event>, i: nat) {
    exists j: nat :: j < |events| && events[j].Ends? && events[j].lane == i
  }

  ghost predicate GoneIn(events: seq<Event>, i: nat) {
    exists k: nat :: k < |events| && events[k] == Exits(i) && EndsIn(events[..k], i)
  }

  // What lets the loop break: a FOUND line read, the stop event, the time limit, or every process gone.
  ghost predicate CanLeave(c: Call, events: seq<Event>) {
    || (exists k: nat :: k < |events| && ReadsFound(c, events, k))
    || (c.stoppable && Stops in events)
    || (c.timeLimit != 0.0 && TimesOut in events)
    || (forall i: nat | i < c.ncores :: GoneIn(events, i))
  }

  lemma EndsInStep(events: seq<Event>, e: Event, i: nat)
    ensures EndsIn(events + [e], i) <==> EndsIn(events, i) || (e.Ends? && e.lane == i)
  {
    var l := events + [e];
    if EndsIn(events, i) {
      var j: nat :| j < |events| && events[j].Ends? && events[j].lane == i;
      assert l[j] == events[j];
    }
    if e.Ends? && e.lane == i {
      assert l[|events|] == e;
    }
  }

  lemma GoneInStep(events: seq<Event>, e: Event, i: nat)
    ensures GoneIn(events + [e], i) <==> GoneIn(events, i) || (e == Exits(i) && EndsIn(events, i))
  {
    hide EndsIn;
    var l := events + [e];
    if GoneIn(events, i) {
      var k: nat :| k < |events| && events[k] == Exits(i) && EndsIn(events[..k], i);
      assert l[k] == events[k] && l[..k] == events[..k];
    }
    if e == Exits(i) && EndsIn(events, i) {
      assert l[|events|] == e && l[..|events|] == events;
    }
    if GoneIn(l, i) {
      var k: nat :| k < |l| && l[k] == Exits(i) && EndsIn(l[..k], i);
      if k < |events| {
        assert l[..k] == events[..k];
      } else {
        assert l[..k] == events;
      }
    }
  }

  lemma StepState(c: Call, p: Parent, e: Event)
    requires Step(c, p, e).returned.None?
    ensures p.returned.None?
    ensures var q := Step(c, p, e);
            && (q.stopped <==> p.stopped || e == Stops)
            && (q.late <==> p.late || e == TimesOut)
            && forall i: nat :: (i in q.ended <==> i in p.ended || (e.Ends? && e.lane == i)) &&
                                (i in q.exited <==> i in p.exited || (e == Exits(i) && i in p.ended))
  {
    hide ReadFound, FoundLine, MayLeave;
  }

  lemma InLast(events: seq<Event>, x: Event)
    requires events != []
    ensures x in events <==> x in events[..|events| - 1] || x == events[|events| - 1]
  {
    assert events == events[..|events| - 1] + [events[|events| - 1]];
  }

  // The parent's variables, read off the events.
  lemma {:induction false} FlagsOfEvents(c: Call, events: seq<Event>)
    requires Supervise(c, events).returned.None?
    ensures Supervise(c, events).stopped <==> Stops in events
    ensures Supervise(c, events).late <==> TimesOut in events
  {
    hide Step;
    if events != [] {
      var n := |events| - 1;
      StepState(c, Supervise(c, events[..n]), events[n]);
      FlagsOfEvents(c, events[..n]);
      InLast(events, Stops);
      InLast(events, TimesOut);
    }
  }

  lemma {:induction false} LaneOfEvents(c: Call, events: seq<Event>, i: nat)
    requires Supervise(c, events).returned.None?
    ensures i in Supervise(c, events).ended <==> EndsIn(events, i)
    ensures i in Supervise(c, events).exited <==> GoneIn(events, i)
  {
    hide Step, EndsIn, GoneIn;
    if events == [] {
      NothingIn();
    } else {
      var n := |events| - 1;
      assert events == events[..n] + [events[n]];
      StepState(c, Supervise(c, events[..n]), events[n]);
      LaneOfEvents(c, events[..n], i);
      EndsInStep(events[..n], events[n], i);
      GoneInStep(events[..n], events[n], i);
    }
  }

  lemma NothingIn()
    ensures forall i: nat :: !EndsIn([], i) && !GoneIn([], i)
  {
  }

  lemma MayLeaveMeans(c: Call, events: seq<Event>)
    requires Supervise(c, events).returned.None?
    ensures MayLeave(c, Supervise(c, events)) <==> CanLeave(c, events)
  {
    hide ReadsFound, EndsIn, GoneIn, Supervise;
    FlagsOfEvents(c, events);
    forall i: nat
      ensures i in Supervise(c, events).exited <==> GoneIn(events, i)
    {
      LaneOfEvents(c, events, i);
    }
    SeenIfRead(c, events);
  }

  lemma MayLeaveStays(c: Call, p: Parent, e: Event)
    requires MayLeave(c, p)
    ensures MayLeave(c, Step(c, p, e))
  {
    hide ReadFound, FoundLine;
    if e.Reads? && e.lane in p.ended && p.ended[e.lane].Found? {
      FoundLineRoundTrip(p.ended[e.lane].nonce);
    }
  }

  lemma {:induction false} LeftMayLeave(c: Call, events: seq<Event>)
    ensures Supervise(c, events).left ==> MayLeave(c, Supervise(c, events))
  {
    hide MayLeave, ReadFound, FoundLine;
    if events != [] {
      var before := events[..|events| - 1];
      LeftMayLeave(c, before);
      if Supervise(c, before).left {
        MayLeaveStays(c, Supervise(c, before), events[|events| - 1]);
      }
      if Supervise(c, before).returned.None? && events[|events| - 1].Leaves? && MayLeave(c, Supervise(c, before)) {
        MayLeaveStays(c, Supervise(c, before), Leaves);
      }
    }
  }

  // solve, asked to break and return after these events, does so if and only if a FOUND line was read, the stop event
  // came, the time limit passed, or every process is gone.
  lemma ReturnsExactlyIf(c: Call, events: seq<Event>)
    requires Supervise(c, events).returned.None?
    ensures Supervise(c, events + [Leaves, Returns]).returned ==
            if CanLeave(c, events) then Some(Supervise(c, events).seen) else None
  {
    hide CanLeave, MayLeave;
    MayLeaveMeans(c, events);
    LeftMayLeave(c, events);
    var l := events + [Leaves, Returns];
    assert l[..|events| + 1] == events + [Leaves] && l[..|events| + 1][..|events|] == events;
    assert Supervise(c, events + [Leaves]) == Step(c, Supervise(c, events), Leaves);
  }

  // A FOUND line that was read is delivered: the call can return at once, with the nonce of the last such line.
  lemma Delivers(c: Call, events: seq<Event>, k: nat)
    requires Supervise(c, events).returned.None? && k < |events| && ReadsFound(c, events, k)
    requires forall j: nat | k < j < |events| :: !ReadsFound(c, events, j)
    ensures Supervise(c, events + [Leaves, Returns]).returned ==
            Some(Some(Supervise(c, events[..k]).ended[events[k].lane].nonce))
  {
    hide Supervise, ReadsFound;
    ReturnsExactlyIf(c, events);
    SeenIsLastRead(c, events, k);
  }

  // A call that has left its loop and now returns: the answer is None if and only if no reader has got a FOUND line,
  // and the loop was left on the stop event, on the time limit, or because every process is gone.
  lemma LostIfUnread(c: Call, events: seq<Event>)
    requires Describes(c.addr, c.job) && Genuine(c, events)
    requires Supervise(c, events).left && Supervise(c, events).returned.None?
    ensures var p := Supervise(c, events);
            Supervise(c, events + [Returns]).returned == Some(None) <==>
            && ((c.stoppable && p.stopped) || (c.timeLimit != 0.0 && p.late) || AllExited(c, p))
            && forall k: nat | k < |events| :: !ReadsFound(c, events, k)
  {
    hide Describes, Genuine, ReadsFound, AllExited;
    SuperviseInv(c, events);
    SeenIfRead(c, events);
    assert (events + [Returns])[..|events|] == events;
  }

  // A process that is gone has printed a nonce, has passed its time limit, or was terminated from outside.  If solve
  // returned None and neither the stop event nor a time limit came, that holds of every lane.
  lemma AllPrintedOrKilled(c: Call, events: seq<Event>, i: nat)
    requires Describes(c.addr, c.job) && Genuine(c, events)
    ensures var p := Supervise(c, events);
            && (i in p.exited ==>
                  && i in p.ended
                  && (p.ended[i].Found? || p.ended[i].Killed? || (p.ended[i].NoneFound? && c.timeLimit > 0.0)))
            && (!(c.stoppable && p.stopped) && !(c.timeLimit != 0.0 && p.late) && p.returned == Some(None) ==>
                  i >= c.ncores || i in p.exited)
  {
    hide Describes, Genuine, Supervise, Wins, Strtoull, LaneArgs;
    SuperviseInv(c, events);
    var p := Supervise(c, events);
    if i in p.exited {
      assert GenuineOutcome(c, i, p.ended[i]);
    }
  }

  // The readers are not joined.  Whatever the time limit and the stop event: a single lane starting at a winner prints
  // it and exits, the parent finds all processes gone, and returns before the reader thread runs.
  lemma PrintedButNotReturned(addr: string, job: ValidJob, n: nat, timeLimit: real, stoppable: bool)
    requires Describes(addr, job) && n < U64_MODULUS && Wins(job, n)
    ensures var c := Call(addr, job, n, 1, timeLimit, stoppable);
            var events := [Ends(0, M.Found(n)), Exits(0), Leaves, Returns];
            Genuine(c, events) && Supervise(c, events).returned == Some(None)
  {
    hide Describes, Wins, Strtoull, LaneArgs, Dec, GenuineOutcome;
    var c := Call(addr, job, n, 1, timeLimit, stoppable);
    var events := [Ends(0, M.Found(n)), Exits(0), Leaves, Returns];
    OneLaneFinds(c, n);
    assert events[..3][..2] == events[..2] && events[..2][..1] == events[..1] && events[..1][..0] == [];
    assert Supervise(c, events[..1]) == BEGIN.(ended := map[0 := M.Found(n)]);
    assert Supervise(c, events[..2]) == BEGIN.(ended := map[0 := M.Found(n)], exited := {0});
    assert Supervise(c, events[..3]).left;
  }

  lemma OneLaneFinds(c: Call, n: nat)
    requires Describes(c.addr, c.job) && n < U64_MODULUS && Wins(c.job, n)
    requires c.base == n && c.ncores == 1
    ensures GenuineOutcome(c, 0, M.Found(n))
  {
    hide Describes, Wins, Strtoull, Dec;
    StrtoullOfDec(n);
    assert LaneRun(c.addr, c.job, n, 1, 0, c.timeLimit, _ => 0.0, 1, M.Found(n), 0);
  }
}
