/** solver_mp.py as a step system: worker processes on disjoint lanes, a shared
    found flag, a queue, and a parent that counts messages.

    A run is a schedule of choices: a worker moves (and, at its batch check,
    reads some clock value), a worker is interrupted, or the parent takes some
    message from the queue.  The fields hashes, posts, reported, finds,
    sinceFlag, flagged, late and cut of a worker only record what happened: late
    is the clock reading at which it found its deadline passed, cut the place
    at which it was interrupted. */
module SolverMp {
  import opened Codecs
  import opened Lanes
  import opened WorkHash

  const CHECK: nat := 8192

  // deadline is 0.0 when there is no time limit.
  datatype Search = Search(workers: nat, start: nat, deadline: real)

  datatype Pc =
    | AtCheck               // at the check of the flag and the deadline
    | InBatch(left: nat)    // between two hashes of a batch, left of them to go
    | Hashed(left: nat)     // a digest is computed, and neither announced nor counted
    | Advanced(left: nat)   // the digest lost, the nonce has moved on, the count has not
    | Flagged               // the digest won and the flag is set, the message not yet put
    | Returning             // the message is put, still inside the try block
    | Exited

  datatype Worker = Worker(pc: Pc, nonce: nat, done: nat,
                           hashes: nat, posts: nat, reported: nat, finds: nat, sinceFlag: nat,
                           flagged: bool, late: Option<real>, cut: Option<Pc>)

  datatype Message = Message(done: nat, nonce: Option<nat>)

  datatype State = State(found: bool, queue: seq<Message>, workers: seq<Worker>,
                         remaining: int, total: nat, result: Option<nat>, received: seq<Message>)

  datatype Choice =
    | Work(worker: nat, now: real)
    | Interrupt(worker: nat)
    | Take(index: nat)

  function Fresh(c: Search, i: nat): Worker {
    Worker(AtCheck, LaneNonce(c.start, c.workers, i, 0), 0, 0, 0, 0, 0, 0, false, None, None)
  }

  function Start(c: Search): State {
    State(false, [], seq(c.workers, i requires 0 <= i < c.workers => Fresh(c, i)), c.workers, 0, None, [])
  }

  // Put a message and go to the given place.
  function Put(s: State, i: nat, w: Worker, m: Message): State
    requires i < |s.workers|
  {
    var finds := w.finds + (if m.nonce.Some? then 1 else 0);
    var w' := w.(posts := w.posts + 1, reported := w.reported + m.done, finds := finds);
    s.(queue := s.queue + [m], workers := s.workers[i := w'])
  }

  function WorkStep(c: Search, job: ValidJob, s: State, i: nat, now: real): (s': State)
    requires i < |s.workers|
    ensures |s'.workers| == |s.workers|
  {
    var w := s.workers[i];
    match w.pc
    case AtCheck =>
      var late := c.deadline != 0.0 && now > c.deadline;
      if s.found || late then
        Put(s, i, w.(pc := Returning, late := if late then Some(now) else None), Message(w.done, None))
      else s.(workers := s.workers[i := w.(pc := InBatch(CHECK))])
    case InBatch(left) =>
      if left == 0 then s.(workers := s.workers[i := w.(pc := AtCheck)])
      else
        var since := w.sinceFlag + (if s.found then 1 else 0);
        s.(workers := s.workers[i := w.(pc := Hashed(left - 1), hashes := w.hashes + 1, sinceFlag := since)])
    case Hashed(left) =>
      if Wins(job, w.nonce) then
        s.(found := true, workers := s.workers[i := w.(pc := Flagged, flagged := true)])
      else s.(workers := s.workers[i := w.(pc := Advanced(left), nonce := w.nonce + c.workers)])
    case Advanced(left) => s.(workers := s.workers[i := w.(pc := InBatch(left), done := w.done + 1)])
    case Flagged => Put(s, i, w.(pc := Returning), Message(w.done + 1, Some(w.nonce)))
    case Returning => s.(workers := s.workers[i := w.(pc := Exited)])
    case Exited => s
  }

  // KeyboardInterrupt or SystemExit anywhere in the try block: the handler puts a "done" message with the count so far.
  function InterruptStep(s: State, i: nat): State
    requires i < |s.workers|
  {
    var w := s.workers[i];
    if w.pc.Exited? then s else Put(s, i, w.(pc := Exited, cut := Some(w.pc)), Message(w.done, None))
  }

  // One pass of the parent's loop: any queued message may come next.
  function TakeStep(s: State, index: nat): State {
    if s.remaining <= 0 || index >= |s.queue| then s
    else
      var m := s.queue[index];
      s.(queue := s.queue[..index] + s.queue[index + 1..], received := s.received + [m],
         total := s.total + m.done, remaining := s.remaining - 1,
         result := if m.nonce.Some? then m.nonce else s.result,
         found := s.found || m.nonce.Some?)
  }

  function Step(c: Search, job: ValidJob, s: State, x: Choice): State {
    match x
    case Work(i, now) => if i < |s.workers| then WorkStep(c, job, s, i, now) else s
    case Interrupt(i) => if i < |s.workers| then InterruptStep(s, i) else s
    case Take(k) => TakeStep(s, k)
  }

  function Run(c: Search, job: ValidJob, schedule: seq<Choice>): State {
    if schedule == [] then Start(c)
    else Step(c, job, Run(c, job, schedule[..|schedule| - 1]), schedule[|schedule| - 1])
  }

  // ---------- what one worker keeps ----------

  // Where the worker is in its loop, or was when it was interrupted.
  function Spot(w: Worker): Pc {
    if w.cut.Some? then w.cut.value else w.pc
  }

  // The last digest is not in done: its fate is open, or the step that counts it has not been made, or it won.
  predicate Uncounted(w: Worker) {
    Spot(w).Hashed? || Spot(w).Advanced? || w.flagged
  }

  ghost predicate LaneLost(c: Search, job: ValidJob, i: nat, k: nat) {
    forall j: nat | j < k :: !Wins(job, LaneNonce(c.start, c.workers, i, j))
  }

  ghost predicate WorkerInv(c: Search, job: ValidJob, found: bool, i: nat, w: Worker) {
    && LaneLost(c, job, i, w.done)
    && Searching(c, job, found, i, w)
    && WholeBatches(w)
    && w.hashes == w.done + (if Uncounted(w) then 1 else 0)
    && (w.late.Some? ==> c.deadline != 0.0 && w.late.value > c.deadline)
    && (!found ==> w.sinceFlag == 0) && w.sinceFlag <= CHECK
    && Accounted(w, found)
  }

  // The nonce and the flag, by the place in the loop.
  ghost predicate Searching(c: Search, job: ValidJob, found: bool, i: nat, w: Worker) {
    && w.nonce == LaneNonce(c.start, c.workers, i, w.done + (if Spot(w).Advanced? then 1 else 0))
    && (Spot(w).Advanced? ==> !Wins(job, LaneNonce(c.start, c.workers, i, w.done)))
    && (w.flagged ==> found && Wins(job, w.nonce))
    && (Spot(w).Flagged? ==> w.flagged)
    && (w.flagged ==> Spot(w).Flagged? || Spot(w).Returning? || Spot(w).Exited?)
    && (Spot(w).InBatch? || Spot(w).Hashed? || Spot(w).Advanced? ==> w.sinceFlag + Spot(w).left <= CHECK)
  }

  // Between two checks there are 8192 hashes.
  ghost predicate WholeBatches(w: Worker) {
    match Spot(w)
    case AtCheck => w.done % 8192 == 0
    case InBatch(left) => (w.done + left) % 8192 == 0
    case Hashed(left) => (w.done + 1 + left) % 8192 == 0
    case Advanced(left) => (w.done + 1 + left) % 8192 == 0
    case Flagged => true
    case Returning => w.flagged || w.done % 8192 == 0
    case Exited => w.flagged || w.done % 8192 == 0
  }

  // The messages put so far.
  ghost predicate Accounted(w: Worker, found: bool) {
    if w.cut.Some? then
      && w.pc.Exited? && !w.cut.value.Exited?
      && if w.cut.value.Returning? then w.posts == 2 && w.finds == (if w.flagged then 1 else 0)
         else w.posts == 1 && w.reported == w.done && w.finds == 0
    else if w.pc.Returning? || w.pc.Exited? then
      && w.posts == 1 && w.reported == w.hashes && w.finds == (if w.flagged then 1 else 0)
      && (w.flagged || w.late.Some? || found)
    else w.posts == 0 && w.reported == 0 && w.finds == 0
  }

  // ---------- sums over messages and workers ----------

  datatype Totals = Totals(count: int, done: int, finds: int)

  function Plus(a: Totals, b: Totals): Totals {
    Totals(a.count + b.count, a.done + b.done, a.finds + b.finds)
  }

  function OfMessage(m: Message): Totals {
    Totals(1, m.done, if m.nonce.Some? then 1 else 0)
  }

  function OfWorker(w: Worker): Totals {
    Totals(w.posts, w.reported, w.finds)
  }

  function MessageTotals(ms: seq<Message>): Totals {
    if ms == [] then Totals(0, 0, 0) else Plus(OfMessage(ms[0]), MessageTotals(ms[1..]))
  }

  // The last nonce among the messages.
  function LastNonce(ms: seq<Message>): Option<nat> {
    if ms == [] then None
    else if ms[|ms| - 1].nonce.Some? then ms[|ms| - 1].nonce
    else LastNonce(ms[..|ms| - 1])
  }

  lemma {:induction false} LastNonceMeans(ms: seq<Message>)
    ensures LastNonce(ms).None? <==> forall k: nat | k < |ms| :: ms[k].nonce.None?
    ensures LastNonce(ms).Some? ==>
              exists k: nat :: k < |ms| && ms[k].nonce == LastNonce(ms) &&
                forall j: nat | k < j < |ms| :: ms[j].nonce.None?
  {
    if ms != [] {
      var n := |ms| - 1;
      if ms[n].nonce.None? {
        LastNonceMeans(ms[..n]);
        if LastNonce(ms[..n]).Some? {
          var k: nat :| k < n && ms[..n][k].nonce == LastNonce(ms) &&
                        forall j: nat | k < j < n :: ms[..n][j].nonce.None?;
          assert ms[k].nonce == LastNonce(ms);
        }
      }
    }
  }

  lemma LastNonceAppend(ms: seq<Message>, m: Message)
    ensures LastNonce(ms + [m]) == if m.nonce.Some? then m.nonce else LastNonce(ms)
  {
    assert (ms + [m])[..|ms|] == ms;
  }

  function WorkerTotals(ws: seq<Worker>): Totals {
    if ws == [] then Totals(0, 0, 0) else Plus(OfWorker(ws[0]), WorkerTotals(ws[1..]))
  }

  lemma {:induction false} MessagesAppend(ms: seq<Message>, m: Message)
    ensures MessageTotals(ms + [m]) == Plus(MessageTotals(ms), OfMessage(m))
  {
    if ms == [] {
      assert ms + [m] == [m];
    } else {
      assert (ms + [m])[1..] == ms[1..] + [m];
      MessagesAppend(ms[1..], m);
    }
  }

  lemma {:induction false} MessagesRemove(ms: seq<Message>, k: nat)
    requires k < |ms|
    ensures Plus(MessageTotals(ms[..k] + ms[k + 1..]), OfMessage(ms[k])) == MessageTotals(ms)
  {
    if k == 0 {
      assert ms[..0] + ms[1..] == ms[1..];
    } else {
      assert (ms[..k] + ms[k + 1..])[1..] == ms[1..][..k - 1] + ms[1..][k..];
      MessagesRemove(ms[1..], k - 1);
    }
  }

  lemma {:induction false} WorkersUpdate(ws: seq<Worker>, i: nat, w: Worker)
    requires i < |ws|
    ensures Plus(WorkerTotals(ws[i := w]), OfWorker(ws[i])) == Plus(WorkerTotals(ws), OfWorker(w))
  {
    if i == 0 {
      assert ws[0 := w][1..] == ws[1..];
    } else {
      assert ws[i := w][1..] == ws[1..][i - 1 := w];
      WorkersUpdate(ws[1..], i - 1, w);
    }
  }

  lemma {:induction false} FreshTotals(ws: seq<Worker>)
    requires forall w | w in ws :: w.posts == 0 && w.reported == 0 && w.finds == 0
    ensures WorkerTotals(ws) == Totals(0, 0, 0)
  {
    if ws != [] {
      assert ws[0] in ws;
      FreshTotals(ws[1..]);
    }
  }

  lemma {:induction false} CountIsLength(ms: seq<Message>)
    ensures MessageTotals(ms).count == |ms| && MessageTotals(ms).finds >= 0 && MessageTotals(ms).done >= 0
  {
    if ms != [] {
      CountIsLength(ms[1..]);
    }
  }

  // ---------- what a run keeps ----------

  // The worker has put a message with nonce n, the one it won with.
  ghost predicate Sent(w: Worker, n: nat) {
    w.flagged && w.finds == 1 && w.nonce == n
  }

  ghost predicate FromWorker(ws: seq<Worker>, n: nat) {
    exists i: nat :: i < |ws| && Sent(ws[i], n)
  }

  ghost predicate Carries(ms: seq<Message>, n: nat) {
    exists k: nat :: k < |ms| && ms[k].nonce == Some(n)
  }

  ghost predicate WorkersInv(c: Search, job: ValidJob, s: State) {
    && |s.workers| == c.workers
    && (forall i: nat | i < |s.workers| :: WorkerInv(c, job, s.found, i, s.workers[i]))
    && (s.found ==> exists i: nat :: i < |s.workers| && s.workers[i].flagged)
  }

  // Every nonce in the queue, and the result, was sent by a worker; what a worker sent is in the queue or received.
  ghost predicate MessagesInv(s: State) {
    && (forall m | m in s.queue :: m.nonce.Some? ==> FromWorker(s.workers, m.nonce.value))
    && (s.result.Some? ==> FromWorker(s.workers, s.result.value))
    && (s.result.None? <==> MessageTotals(s.received).finds == 0)
    && s.result == LastNonce(s.received)
    && (forall i: nat | i < |s.workers| && s.workers[i].finds == 1 ::
          Carries(s.queue, s.workers[i].nonce) || Carries(s.received, s.workers[i].nonce))
  }

  ghost predicate CountsInv(c: Search, s: State) {
    && Plus(MessageTotals(s.received), MessageTotals(s.queue)) == WorkerTotals(s.workers)
    && s.total == MessageTotals(s.received).done
    && s.remaining == c.workers - |s.received| && s.remaining >= 0
  }

  ghost predicate Inv(c: Search, job: ValidJob, s: State) {
    WorkersInv(c, job, s) && MessagesInv(s) && CountsInv(c, s)
  }

  lemma InvStart(c: Search, job: ValidJob)
    ensures Inv(c, job, Start(c))
  {
    hide Wins, WorkerInv;
    var s := Start(c);
    forall i: nat | i < |s.workers|
      ensures WorkerInv(c, job, s.found, i, s.workers[i])
    {
      FreshInv(c, job, i);
    }
    FreshTotals(s.workers);
  }

  lemma FreshInv(c: Search, job: ValidJob, i: nat)
    ensures WorkerInv(c, job, false, i, Fresh(c, i))
  {
    hide Wins, LaneNonce;
  }

  // WorkerInv of any other worker does not mind the flag being set.
  lemma FlagRises(c: Search, job: ValidJob, i: nat, w: Worker)
    requires WorkerInv(c, job, false, i, w)
    ensures WorkerInv(c, job, true, i, w)
  {
    hide Wins, LaneNonce;
  }

  lemma WorkWorkerInv(c: Search, job: ValidJob, s: State, i: nat, now: real)
    requires i < |s.workers| && WorkerInv(c, job, s.found, i, s.workers[i])
    ensures var s' := WorkStep(c, job, s, i, now); WorkerInv(c, job, s'.found, i, s'.workers[i])
  {
    hide Wins, LaneNonce, WholeBatches;
    NextNonce(c.start, c.workers, i, s.workers[i].done);
    WorkBatches(c, job, s, i, now);
  }

  lemma WorkBatches(c: Search, job: ValidJob, s: State, i: nat, now: real)
    requires i < |s.workers| && WorkerInv(c, job, s.found, i, s.workers[i])
    ensures WholeBatches(WorkStep(c, job, s, i, now).workers[i])
  {
    hide Wins, LaneNonce, LaneLost;
  }

  lemma WorkersInvWork(c: Search, job: ValidJob, s: State, i: nat, now: real)
    requires Inv(c, job, s) && i < |s.workers|
    ensures WorkersInv(c, job, WorkStep(c, job, s, i, now))
  {
    hide Wins, LaneNonce, WorkerInv, MessagesInv, CountsInv;
    var s' := WorkStep(c, job, s, i, now);
    WorkWorkerInv(c, job, s, i, now);
    forall j: nat | j < |s.workers| && j != i
      ensures WorkerInv(c, job, s'.found, j, s'.workers[j])
    {
      if s'.found && !s.found {
        FlagRises(c, job, j, s.workers[j]);
      }
    }
    if s'.found {
      WinnerStays(c, job, s, i, now);
    }
  }

  lemma WinnerStays(c: Search, job: ValidJob, s: State, i: nat, now: real)
    requires Inv(c, job, s) && i < |s.workers| && WorkStep(c, job, s, i, now).found
    ensures exists j: nat :: j < |s.workers| && WorkStep(c, job, s, i, now).workers[j].flagged
  {
    hide Wins, LaneNonce, MessagesInv, CountsInv;
    var s' := WorkStep(c, job, s, i, now);
    if s.found {
      var j: nat :| j < |s.workers| && s.workers[j].flagged;
      assert s'.workers[j].flagged;
    } else {
      assert WorkerInv(c, job, s.found, i, s.workers[i]);
      assert s'.workers[i].flagged;
    }
  }

  lemma InterruptWorkerInv(c: Search, job: ValidJob, s: State, i: nat)
    requires i < |s.workers| && WorkerInv(c, job, s.found, i, s.workers[i])
    ensures var s' := InterruptStep(s, i); WorkerInv(c, job, s'.found, i, s'.workers[i])
  {
    hide Wins, LaneNonce;
  }

  lemma WorkersInvInterrupt(c: Search, job: ValidJob, s: State, i: nat)
    requires Inv(c, job, s) && i < |s.workers|
    ensures WorkersInv(c, job, InterruptStep(s, i))
  {
    hide Wins, LaneNonce, WorkerInv, MessagesInv, CountsInv;
    var s' := InterruptStep(s, i);
    InterruptWorkerInv(c, job, s, i);
    if s.found {
      var j: nat :| j < |s.workers| && s.workers[j].flagged;
      assert s'.workers[j].flagged;
    }
  }

  // Putting a message keeps the sums in step.
  lemma PutCounts(c: Search, s: State, i: nat, w: Worker, m: Message)
    requires CountsInv(c, s) && i < |s.workers|
    requires OfWorker(w) == OfWorker(s.workers[i])
    ensures CountsInv(c, Put(s, i, w, m))
  {
    MessagesAppend(s.queue, m);
    WorkersUpdate(s.workers, i, Put(s, i, w, m).workers[i]);
  }

  lemma SilentCounts(c: Search, s: State, i: nat, w: Worker)
    requires CountsInv(c, s) && i < |s.workers|
    requires OfWorker(w) == OfWorker(s.workers[i])
    ensures CountsInv(c, s.(workers := s.workers[i := w]))
  {
    WorkersUpdate(s.workers, i, w);
  }

  lemma WorkCounts(c: Search, job: ValidJob, s: State, i: nat, now: real)
    requires CountsInv(c, s) && i < |s.workers|
    ensures CountsInv(c, WorkStep(c, job, s, i, now))
  {
    hide Wins, LaneNonce, CountsInv;
    var w := s.workers[i];
    match w.pc
    case AtCheck =>
      var late := c.deadline != 0.0 && now > c.deadline;
      PutCounts(c, s, i, w.(pc := Returning, late := if late then Some(now) else None), Message(w.done, None));
      SilentCounts(c, s, i, w.(pc := InBatch(CHECK)));
    case Flagged =>
      PutCounts(c, s, i, w.(pc := Returning), Message(w.done + 1, Some(w.nonce)));
    case Exited =>
    case _ =>
      var w' := WorkStep(c, job, s, i, now).workers[i];
      SilentCounts(c, s, i, w');
      FoundCounts(c, s.(workers := s.workers[i := w']));
  }

  lemma FoundCounts(c: Search, s: State)
    requires CountsInv(c, s)
    ensures CountsInv(c, s.(found := true))
  {
  }

  lemma InterruptCounts(c: Search, s: State, i: nat)
    requires CountsInv(c, s) && i < |s.workers|
    ensures CountsInv(c, InterruptStep(s, i))
  {
    hide CountsInv;
    var w := s.workers[i];
    PutCounts(c, s, i, w.(pc := Exited, cut := Some(w.pc)), Message(w.done, None));
  }

  lemma TakeCounts(c: Search, s: State, k: nat)
    requires CountsInv(c, s)
    ensures CountsInv(c, TakeStep(s, k))
  {
    hide MessageTotals, WorkerTotals;
    if s.remaining > 0 && k < |s.queue| {
      MessagesRemove(s.queue, k);
      MessagesAppend(s.received, s.queue[k]);
    }
  }

  // A worker moves, and perhaps puts a message: whatever it had sent it still has, and it sends only with a message.
  lemma MessagesMove(s: State, s': State, i: nat, put: Option<Message>)
    requires MessagesInv(s) && i < |s.workers| && |s'.workers| == |s.workers|
    requires s' == s.(found := s'.found, workers := s.workers[i := s'.workers[i]],
                      queue := s.queue + (if put.Some? then [put.value] else []))
    requires s.workers[i].finds == 1 ==> Sent(s'.workers[i], s.workers[i].nonce)
    requires put.Some? && put.value.nonce.Some? ==> Sent(s'.workers[i], put.value.nonce.value)
    requires s'.workers[i].finds == 1 ==>
               s.workers[i].finds == 1 || (put.Some? && put.value.nonce == Some(s'.workers[i].nonce))
    ensures MessagesInv(s')
  {
    hide MessageTotals;
    forall n: nat | FromWorker(s.workers, n)
      ensures FromWorker(s'.workers, n)
    {
      var j: nat :| j < |s.workers| && Sent(s.workers[j], n);
      assert Sent(s'.workers[j], n);
    }
    forall n: nat | Carries(s.queue, n)
      ensures Carries(s'.queue, n)
    {
      var k: nat :| k < |s.queue| && s.queue[k].nonce == Some(n);
      assert s'.queue[k].nonce == Some(n);
    }
    if put.Some? {
      assert s'.queue[|s.queue|] == put.value;
    }
  }

  lemma WorkMessages(c: Search, job: ValidJob, s: State, i: nat, now: real)
    requires Inv(c, job, s) && i < |s.workers|
    ensures MessagesInv(WorkStep(c, job, s, i, now))
  {
    hide Wins, LaneNonce, MessagesInv;
    assert WorkerInv(c, job, s.found, i, s.workers[i]);
    var s' := WorkStep(c, job, s, i, now);
    var put := if |s'.queue| > |s.queue| then Some(s'.queue[|s.queue|]) else None;
    MessagesMove(s, s', i, put);
  }

  lemma InterruptMessages(c: Search, job: ValidJob, s: State, i: nat)
    requires Inv(c, job, s) && i < |s.workers|
    ensures MessagesInv(InterruptStep(s, i))
  {
    hide Wins, LaneNonce, MessagesInv;
    assert WorkerInv(c, job, s.found, i, s.workers[i]);
    var s' := InterruptStep(s, i);
    MessagesMove(s, s', i, if s.workers[i].pc.Exited? then None else Some(Message(s.workers[i].done, None)));
  }

  lemma TakeMessages(c: Search, job: ValidJob, s: State, k: nat)
    requires Inv(c, job, s)
    ensures MessagesInv(TakeStep(s, k))
  {
    hide Wins, MessageTotals, FromWorker, LastNonce;
    if s.remaining > 0 && k < |s.queue| {
      MessagesAppend(s.received, s.queue[k]);
      LastNonceAppend(s.received, s.queue[k]);
      CountIsLength(s.received);
      var s' := TakeStep(s, k);
      forall n: nat | Carries(s.queue, n) || Carries(s.received, n)
        ensures Carries(s'.queue, n) || Carries(s'.received, n)
      {
        TakeCarries(s.queue, s.received, k, n);
      }
    }
  }

  lemma TakeCarries(queue: seq<Message>, received: seq<Message>, k: nat, n: nat)
    requires k < |queue| && (Carries(queue, n) || Carries(received, n))
    ensures Carries(queue[..k] + queue[k + 1..], n) || Carries(received + [queue[k]], n)
  {
    var left, got := queue[..k] + queue[k + 1..], received + [queue[k]];
    if Carries(received, n) {
      var j: nat :| j < |received| && received[j].nonce == Some(n);
      assert got[j].nonce == Some(n);
    } else {
      var j: nat :| j < |queue| && queue[j].nonce == Some(n);
      if j < k {
        assert left[j].nonce == Some(n);
      } else if j > k {
        assert left[j - 1].nonce == Some(n);
      } else {
        assert got[|received|].nonce == Some(n);
      }
    }
  }

  lemma TakeWorkers(c: Search, job: ValidJob, s: State, k: nat)
    requires Inv(c, job, s)
    ensures WorkersInv(c, job, TakeStep(s, k))
  {
    hide Wins, LaneNonce, MessageTotals;
    if s.remaining > 0 && k < |s.queue| && s.queue[k].nonce.Some? {
      assert s.queue[k] in s.queue;
      var i: nat :| i < |s.workers| && Sent(s.workers[i], s.queue[k].nonce.value);
      assert WorkerInv(c, job, s.found, i, s.workers[i]);
    }
    assert TakeStep(s, k).found == s.found;
  }

  lemma InvStep(c: Search, job: ValidJob, s: State, x: Choice)
    requires Inv(c, job, s)
    ensures Inv(c, job, Step(c, job, s, x))
  {
    hide Wins, WorkersInv, MessagesInv, CountsInv, WorkStep, TakeStep;
    match x
    case Work(i, now) =>
      if i < |s.workers| {
        WorkersInvWork(c, job, s, i, now);
        WorkMessages(c, job, s, i, now);
        WorkCounts(c, job, s, i, now);
      }
    case Interrupt(i) =>
      if i < |s.workers| {
        WorkersInvInterrupt(c, job, s, i);
        InterruptMessages(c, job, s, i);
        InterruptCounts(c, s, i);
      }
    case Take(k) =>
      TakeWorkers(c, job, s, k);
      TakeMessages(c, job, s, k);
      TakeCounts(c, s, k);
  }

  lemma {:induction false} InvRun(c: Search, job: ValidJob, schedule: seq<Choice>)
    ensures Inv(c, job, Run(c, job, schedule))
  {
    hide Inv, Step, Start;
    if schedule == [] {
      InvStart(c, job);
    } else {
      InvRun(c, job, schedule[..|schedule| - 1]);
      InvStep(c, job, Run(c, job, schedule[..|schedule| - 1]), schedule[|schedule| - 1]);
    }
  }

  // ---------- what a run guarantees ----------

  // Digests computed by all workers, winning ones included.
  function Hashes(ws: seq<Worker>): nat {
    if ws == [] then 0 else ws[0].hashes + Hashes(ws[1..])
  }

  // The parent has left its loop.
  predicate Finished(s: State) {
    s.remaining == 0
  }

  // Interrupted between its message and its return: the handler puts a second message.
  predicate Doubled(w: Worker) {
    w.cut.Some? && w.cut.value.Returning?
  }

  // Interrupted between a digest and its count, between setting the flag and its message, or between its message and
  // its return.
  predicate Spoiled(w: Worker) {
    w.cut.Some? && (w.cut.value.Hashed? || w.cut.value.Advanced? || w.cut.value.Flagged? || w.cut.value.Returning?)
  }

  ghost predicate NoneDoubled(s: State) {
    forall i: nat | i < |s.workers| :: !Doubled(s.workers[i])
  }

  ghost predicate NoneSpoiled(s: State) {
    forall i: nat | i < |s.workers| :: !Spoiled(s.workers[i])
  }

  ghost predicate EachPostedOnce(ws: seq<Worker>) {
    forall i: nat | i < |ws| :: ws[i].posts == 1
  }

  lemma {:induction false} PostsTotal(ws: seq<Worker>)
    requires forall i: nat | i < |ws| :: ws[i].posts <= 1
    ensures WorkerTotals(ws).count <= |ws|
    ensures WorkerTotals(ws).count == |ws| ==> EachPostedOnce(ws)
  {
    if ws != [] {
      PostsTotal(ws[1..]);
    }
  }

  lemma {:induction false} HashesTotal(ws: seq<Worker>)
    requires forall i: nat | i < |ws| :: ws[i].reported <= ws[i].hashes
    ensures WorkerTotals(ws).done <= Hashes(ws)
    ensures WorkerTotals(ws).done == Hashes(ws) <==> forall i: nat | i < |ws| :: ws[i].reported == ws[i].hashes
  {
    if ws != [] {
      HashesTotal(ws[1..]);
      forall i: nat | 0 < i < |ws|
        ensures ws[i] == ws[1..][i - 1]
      {
      }
    }
  }

  lemma {:induction false} FindsTotal(ws: seq<Worker>)
    ensures WorkerTotals(ws).finds >= 0
    ensures WorkerTotals(ws).finds == 0 <==> forall i: nat | i < |ws| :: ws[i].finds == 0
  {
    if ws != [] {
      FindsTotal(ws[1..]);
      forall i: nat | 0 < i < |ws|
        ensures ws[i] == ws[1..][i - 1]
      {
      }
    }
  }

  // What WorkerInv says about the sums.
  lemma WorkerCounts(c: Search, job: ValidJob, found: bool, i: nat, w: Worker)
    requires WorkerInv(c, job, found, i, w)
    ensures !Doubled(w) ==> w.posts <= 1
    ensures w.posts == 1 ==> w.reported <= w.hashes && (w.reported == w.hashes <==> !Spoiled(w))
  {
    hide Wins, LaneNonce;
  }

  // If no worker was interrupted between its message and its return, the parent leaves its loop with exactly one
  // message from every worker.
  lemma OneMessageEach(c: Search, job: ValidJob, schedule: seq<Choice>)
    requires Finished(Run(c, job, schedule)) && NoneDoubled(Run(c, job, schedule))
    ensures var s := Run(c, job, schedule); EachPostedOnce(s.workers) && s.queue == [] && |s.received| == c.workers
  {
    hide WorkerInv, Run, Doubled;
    InvRun(c, job, schedule);
    var s := Run(c, job, schedule);
    CountIsLength(s.received);
    CountIsLength(s.queue);
    forall i: nat | i < |s.workers|
      ensures s.workers[i].posts <= 1
    {
      WorkerCounts(c, job, s.found, i, s.workers[i]);
    }
    PostsTotal(s.workers);
  }

  // When the parent leaves its loop, it has one message from every worker, nothing is left in the queue, and the
  // returned total is the number of digests computed by all workers -- if and only if no worker was interrupted
  // between a digest and its count, between setting the flag and its message, or between its message and its return.
  lemma FinishedIsExact(c: Search, job: ValidJob, schedule: seq<Choice>)
    requires Finished(Run(c, job, schedule))
    ensures var s := Run(c, job, schedule);
            NoneSpoiled(s) <==> EachPostedOnce(s.workers) && s.queue == [] && s.total == Hashes(s.workers)
  {
    hide WorkerInv, Run, Spoiled;
    InvRun(c, job, schedule);
    var s := Run(c, job, schedule);
    if NoneSpoiled(s) {
      SpoiledIfDoubled(s);
      OneMessageEach(c, job, schedule);
    }
    if EachPostedOnce(s.workers) && s.queue == [] {
      forall i: nat | i < |s.workers|
        ensures s.workers[i].reported <= s.workers[i].hashes
        ensures s.workers[i].reported == s.workers[i].hashes <==> !Spoiled(s.workers[i])
      {
        WorkerCounts(c, job, s.found, i, s.workers[i]);
      }
      HashesTotal(s.workers);
    }
  }

  lemma SpoiledIfDoubled(s: State)
    requires NoneSpoiled(s)
    ensures NoneDoubled(s)
  {
    forall i: nat | i < |s.workers|
      ensures !Doubled(s.workers[i])
    {
      assert !Spoiled(s.workers[i]);
    }
  }

  // The parent's variables are what its loop makes of the messages received, in the order received.
  lemma ParentKeeps(c: Search, job: ValidJob, schedule: seq<Choice>)
    ensures var s := Run(c, job, schedule);
            && s.remaining == c.workers - |s.received| >= 0
            && s.total == MessageTotals(s.received).done
            && s.result == LastNonce(s.received)
  {
    hide Wins, Run, WorkersInv;
    InvRun(c, job, schedule);
  }

  // A worker that was not interrupted and did not win reports whole batches of 8192 hashes.
  lemma ReportsWholeBatches(c: Search, job: ValidJob, schedule: seq<Choice>, i: nat)
    requires i < |Run(c, job, schedule).workers|
    ensures var w := Run(c, job, schedule).workers[i];
            w.posts == 1 && w.cut.None? && !w.flagged ==> w.reported == w.done && w.reported % 8192 == 0
  {
    hide Wins, LaneNonce, Run;
    InvRun(c, job, schedule);
    var s := Run(c, job, schedule);
    assert WorkerInv(c, job, s.found, i, s.workers[i]);
  }

  // A returned nonce is the winning one of a worker that has put it, and the nonce which that worker's lane reaches
  // after the hashes it counted, whatever was interrupted.
  lemma ResultWins(c: Search, job: ValidJob, schedule: seq<Choice>)
    ensures var s := Run(c, job, schedule);
            s.result.Some? ==>
              exists i: nat :: i < |s.workers| && Sent(s.workers[i], s.result.value) && i < c.workers &&
                s.result.value == LaneNonce(c.start, c.workers, i, s.workers[i].done) && Wins(job, s.result.value)
  {
    hide Wins, LaneNonce, Run;
    InvRun(c, job, schedule);
    var s := Run(c, job, schedule);
    if s.result.Some? {
      var i: nat :| i < |s.workers| && Sent(s.workers[i], s.result.value);
      assert WorkerInv(c, job, s.found, i, s.workers[i]);
    }
  }

  // The flag is set if and only if some worker set it, and that worker's nonce wins.  The worker has put its nonce in
  // a message, or is about to, if and only if it was not interrupted right after setting the flag; the message is in
  // the queue or received.
  lemma FlagMeansWinner(c: Search, job: ValidJob, schedule: seq<Choice>)
    ensures var s := Run(c, job, schedule);
            && (s.found <==> exists i: nat :: i < |s.workers| && s.workers[i].flagged)
            && (forall i: nat | i < |s.workers| && s.workers[i].flagged ::
                  var w := s.workers[i];
                  && Wins(job, w.nonce)
                  && (w.pc.Flagged? || w.finds == 1 <==> w.cut != Some(Flagged)))
            && (forall i: nat | i < |s.workers| && s.workers[i].finds == 1 ::
                  && s.workers[i].flagged
                  && (Carries(s.queue, s.workers[i].nonce) || Carries(s.received, s.workers[i].nonce)))
  {
    hide Wins, LaneNonce, Run;
    InvRun(c, job, schedule);
    var s := Run(c, job, schedule);
    forall i: nat | i < |s.workers|
      ensures s.workers[i].finds == 1 ==> s.workers[i].flagged
      ensures s.workers[i].flagged ==> s.found && Wins(job, s.workers[i].nonce)
      ensures s.workers[i].flagged ==>
                (s.workers[i].pc.Flagged? || s.workers[i].finds == 1 <==> s.workers[i].cut != Some(Flagged))
    {
      assert WorkerInv(c, job, s.found, i, s.workers[i]);
    }
  }

  // Once the flag is set, no worker computes more than 8192 further digests.
  lemma StopsPromptly(c: Search, job: ValidJob, schedule: seq<Choice>, i: nat)
    requires i < c.workers
    ensures |Run(c, job, schedule).workers| == c.workers
    ensures Run(c, job, schedule).workers[i].sinceFlag <= CHECK
  {
    hide Wins, LaneNonce, Run;
    InvRun(c, job, schedule);
    var s := Run(c, job, schedule);
    assert WorkerInv(c, job, s.found, i, s.workers[i]);
  }

  // Every digest computed so far lost.
  ghost predicate AllLost(c: Search, job: ValidJob, s: State) {
    forall i: nat | i < |s.workers| :: LaneLost(c, job, i, s.workers[i].hashes)
  }

  // Interrupted between a winning digest and its message.
  predicate WinCut(job: ValidJob, w: Worker) {
    w.cut.Some? && ((w.cut.value.Hashed? && Wins(job, w.nonce)) || w.cut.value.Flagged?)
  }

  ghost predicate NoWinCut(job: ValidJob, s: State) {
    forall i: nat | i < |s.workers| :: !WinCut(job, s.workers[i])
  }

  // A worker that has put one message: it computed no winning digest if and only if it put no nonce and no win of it
  // was cut off.
  lemma WorkerLost(c: Search, job: ValidJob, found: bool, i: nat, w: Worker)
    requires WorkerInv(c, job, found, i, w) && w.posts == 1
    ensures LaneLost(c, job, i, w.hashes) <==> w.finds == 0 && !WinCut(job, w)
    ensures w.cut.Some? || w.late.Some? || found
  {
    hide Wins, LaneNonce;
    if w.hashes > w.done {
      assert w.flagged || Spot(w).Hashed? ==> w.nonce == LaneNonce(c.start, c.workers, i, w.done);
    }
  }

  // If no worker was interrupted between its message and its return, every digest computed by a finished search lost
  // if and only if the result is None and no worker was interrupted between a winning digest and its message.
  lemma NoneMeansLost(c: Search, job: ValidJob, schedule: seq<Choice>)
    requires Finished(Run(c, job, schedule)) && NoneDoubled(Run(c, job, schedule))
    ensures var s := Run(c, job, schedule); AllLost(c, job, s) <==> s.result.None? && NoWinCut(job, s)
  {
    hide Wins, WorkerInv, Run, LaneLost, WinCut, FromWorker, Carries;
    InvRun(c, job, schedule);
    OneMessageEach(c, job, schedule);
    var s := Run(c, job, schedule);
    FindsTotal(s.workers);
    forall i: nat | i < |s.workers|
      ensures LaneLost(c, job, i, s.workers[i].hashes) <==> s.workers[i].finds == 0 && !WinCut(job, s.workers[i])
    {
      WorkerLost(c, job, s.found, i, s.workers[i]);
    }
    assert s.result.None? <==> forall i: nat | i < |s.workers| :: s.workers[i].finds == 0;
  }

  // Then, too, every worker saw the deadline pass or was interrupted.
  lemma NoneMeansStopped(c: Search, job: ValidJob, schedule: seq<Choice>, i: nat)
    requires Finished(Run(c, job, schedule)) && NoneDoubled(Run(c, job, schedule))
    requires Run(c, job, schedule).result.None? && NoWinCut(job, Run(c, job, schedule)) && i < c.workers
    ensures |Run(c, job, schedule).workers| == c.workers
    ensures var w := Run(c, job, schedule).workers[i];
            w.cut.Some? || (w.late.Some? && c.deadline != 0.0 && w.late.value > c.deadline)
  {
    hide Wins, LaneNonce, Run;
    InvRun(c, job, schedule);
    NoneMeansLost(c, job, schedule);
    OneMessageEach(c, job, schedule);
    FlagMeansWinner(c, job, schedule);
    var s := Run(c, job, schedule);
    forall j: nat | j < |s.workers|
      ensures !s.workers[j].flagged
    {
      assert WorkerInv(c, job, s.found, j, s.workers[j]) && LaneLost(c, job, j, s.workers[j].hashes);
      assert !WinCut(job, s.workers[j]);
    }
    assert WorkerInv(c, job, s.found, i, s.workers[i]);
  }

  // With no time limit and no interrupt, a search by at least one worker returns only with a winner.
  lemma NeverGivesUp(c: Search, job: ValidJob, schedule: seq<Choice>)
    requires Finished(Run(c, job, schedule)) && c.workers > 0 && c.deadline == 0.0
    requires forall i: nat | i < |Run(c, job, schedule).workers| :: Run(c, job, schedule).workers[i].cut.None?
    ensures Run(c, job, schedule).result.Some?
  {
    hide Run;
    if Run(c, job, schedule).result.None? {
      NoneMeansStopped(c, job, schedule, 0);
    }
  }

  // ---------- every search ends once the flag is set ----------

  lemma {:induction false} AllPosted(ws: seq<Worker>)
    requires forall i: nat | i < |ws| :: ws[i].posts >= 1
    ensures WorkerTotals(ws).count >= |ws|
  {
    if ws != [] {
      AllPosted(ws[1..]);
    }
  }

  // The parent never blocks for ever: as long as it waits, a message is in the queue or some worker is still running.
  lemma NeverStuck(c: Search, job: ValidJob, schedule: seq<Choice>)
    ensures var s := Run(c, job, schedule);
            Finished(s) || s.queue != [] || exists i: nat :: i < |s.workers| && !s.workers[i].pc.Exited?
  {
    hide Run;
    InvRun(c, job, schedule);
    InvNeverStuck(c, job, Run(c, job, schedule));
  }

  lemma InvNeverStuck(c: Search, job: ValidJob, s: State)
    requires Inv(c, job, s)
    ensures Finished(s) || s.queue != [] || exists i: nat :: i < |s.workers| && !s.workers[i].pc.Exited?
  {
    hide Wins, LaneNonce;
    if s.queue == [] && forall i: nat | i < |s.workers| :: s.workers[i].pc.Exited? {
      forall i: nat | i < |s.workers|
        ensures s.workers[i].posts >= 1
      {
        assert WorkerInv(c, job, s.found, i, s.workers[i]);
      }
      AllPosted(s.workers);
      CountIsLength(s.received);
    }
  }

  // An upper bound on the steps a worker still takes when the flag is set.
  function Rank(w: Worker): nat {
    match w.pc
    case AtCheck => 2
    case InBatch(left) => 3 * left + 3
    case Hashed(left) => 3 * left + 5
    case Advanced(left) => 3 * left + 4
    case Flagged => 2
    case Returning => 1
    case Exited => 0
  }

  function Ranks(ws: seq<Worker>): nat {
    if ws == [] then 0 else Rank(ws[0]) + Ranks(ws[1..])
  }

  lemma {:induction false} RanksMove(ws: seq<Worker>, i: nat, w: Worker)
    requires i < |ws|
    ensures Ranks(ws[i := w]) == Ranks(ws) - Rank(ws[i]) + Rank(w)
  {
    hide Rank;
    if i > 0 {
      assert ws[i := w][1..] == ws[1..][i - 1 := w];
      RanksMove(ws[1..], i - 1, w);
    } else {
      assert ws[i := w][1..] == ws[1..];
    }
  }

  // Steps left for the workers and the parent.
  function Left(s: State): int {
    Ranks(s.workers) + s.remaining
  }

  // The choice moves something: a worker that has not exited, or a waiting parent with that message in the queue.
  predicate Live(s: State, x: Choice) {
    match x
    case Work(i, _) => i < |s.workers| && !s.workers[i].pc.Exited?
    case Interrupt(i) => i < |s.workers| && !s.workers[i].pc.Exited?
    case Take(k) => s.remaining > 0 && k < |s.queue|
  }

  // Every check from here on stops its worker: the flag is set, or all clocks are past the deadline.
  ghost predicate Stopping(c: Search, s: State, schedule: seq<Choice>) {
    || s.found
    || (c.deadline != 0.0 && forall k: nat | k < |schedule| && schedule[k].Work? :: schedule[k].now > c.deadline)
  }

  lemma LiveWorks(c: Search, job: ValidJob, s: State, x: Choice)
    requires Live(s, x) && Stopping(c, s, [x])
    ensures s.found ==> Step(c, job, s, x).found
    ensures Left(Step(c, job, s, x)) < Left(s)
  {
    hide Wins, Ranks, WorkStep, InterruptStep;
    assert x == [x][0];
    match x
    case Work(i, now) => WorkRank(c, job, s, i, now);
    case Interrupt(i) => InterruptRank(s, i);
    case Take(k) =>
  }

  lemma WorkRank(c: Search, job: ValidJob, s: State, i: nat, now: real)
    requires i < |s.workers| && !s.workers[i].pc.Exited?
    requires s.found || (c.deadline != 0.0 && now > c.deadline)
    ensures var s' := WorkStep(c, job, s, i, now);
            (s.found ==> s'.found) && s'.remaining == s.remaining && Ranks(s'.workers) < Ranks(s.workers)
  {
    hide Wins, Ranks;
    var s' := WorkStep(c, job, s, i, now);
    assert s'.workers == s.workers[i := s'.workers[i]];
    RanksMove(s.workers, i, s'.workers[i]);
  }

  lemma InterruptRank(s: State, i: nat)
    requires i < |s.workers| && !s.workers[i].pc.Exited?
    ensures var s' := InterruptStep(s, i);
            s'.found == s.found && s'.remaining == s.remaining && Ranks(s'.workers) < Ranks(s.workers)
  {
    hide Ranks;
    var s' := InterruptStep(s, i);
    assert s'.workers == s.workers[i := s'.workers[i]];
    RanksMove(s.workers, i, s'.workers[i]);
  }

  // The run goes on from s.
  function RunFrom(c: Search, job: ValidJob, s: State, schedule: seq<Choice>): State {
    if schedule == [] then s
    else Step(c, job, RunFrom(c, job, s, schedule[..|schedule| - 1]), schedule[|schedule| - 1])
  }

  ghost predicate Effective(c: Search, job: ValidJob, s: State, schedule: seq<Choice>) {
    forall k: nat | k < |schedule| :: Live(RunFrom(c, job, s, schedule[..k]), schedule[k])
  }

  // Nothing can move any more: the parent has left its loop and every worker has exited.
  ghost predicate AtRest(s: State) {
    Finished(s) && forall i: nat | i < |s.workers| :: s.workers[i].pc.Exited?
  }

  lemma {:induction false} EndsIfStopping(c: Search, job: ValidJob, s: State, schedule: seq<Choice>)
    requires Inv(c, job, s) && Stopping(c, s, schedule) && Effective(c, job, s, schedule)
    ensures var s' := RunFrom(c, job, s, schedule);
            && Inv(c, job, s') && (s.found ==> s'.found) && |schedule| + Left(s') <= Left(s)
            && (AtRest(s') || exists x :: Live(s', x))
  {
    hide Inv, Step, Left, Live, AtRest;
    if schedule != [] {
      var n := |schedule| - 1;
      var front := schedule[..n];
      assert forall k: nat | k < n :: front[..k] == schedule[..k];
      EndsIfStopping(c, job, s, front);
      assert Live(RunFrom(c, job, s, schedule[..n]), schedule[n]);
      InvStep(c, job, RunFrom(c, job, s, front), schedule[n]);
      LiveWorks(c, job, RunFrom(c, job, s, front), schedule[n]);
    }
    FinishedOrLive(c, job, RunFrom(c, job, s, schedule));
  }

  // Once the flag is set, no schedule keeps the pool busy for longer than the steps left, and it stops only when the
  // parent has left its loop and every worker has exited.
  lemma EndsAfterFlag(c: Search, job: ValidJob, s: State, schedule: seq<Choice>)
    requires Inv(c, job, s) && s.found && Effective(c, job, s, schedule)
    ensures var s' := RunFrom(c, job, s, schedule);
            && Inv(c, job, s') && s'.found && |schedule| + Left(s') <= Left(s)
            && ((Finished(s') && forall i: nat | i < |s'.workers| :: s'.workers[i].pc.Exited?) ||
                exists x :: Live(s', x))
  {
    hide Inv, Left, Live, Effective;
    EndsIfStopping(c, job, s, schedule);
  }

  // The same once the deadline has passed on every clock.
  lemma EndsAfterDeadline(c: Search, job: ValidJob, s: State, schedule: seq<Choice>)
    requires Inv(c, job, s) && Effective(c, job, s, schedule) && c.deadline != 0.0
    requires forall k: nat | k < |schedule| && schedule[k].Work? :: schedule[k].now > c.deadline
    ensures var s' := RunFrom(c, job, s, schedule);
            && Inv(c, job, s') && |schedule| + Left(s') <= Left(s)
            && ((Finished(s') && forall i: nat | i < |s'.workers| :: s'.workers[i].pc.Exited?) ||
                exists x :: Live(s', x))
  {
    hide Inv, Left, Live, Effective;
    EndsIfStopping(c, job, s, schedule);
  }

  // A worker at its check puts its count and stops, whatever that is, if the flag is set or the clock is past the
  // deadline; otherwise it starts a batch of 8192 hashes.
  lemma CheckStops(c: Search, job: ValidJob, s: State, i: nat, now: real)
    requires i < |s.workers| && s.workers[i].pc.AtCheck?
    ensures var w, s' := s.workers[i], WorkStep(c, job, s, i, now);
            && |s'.workers| == |s.workers| && s'.found == s.found
            && if s.found || (c.deadline != 0.0 && now > c.deadline)
               then s'.queue == s.queue + [Message(w.done, None)] && s'.workers[i].pc.Returning?
               else s'.queue == s.queue && s'.workers[i] == w.(pc := InBatch(8192))
  {
  }

  // From any state with the flag set, no worker computes more than 8192 further digests, however the run goes on.
  lemma FewHashesAfterFlag(c: Search, job: ValidJob, s: State, schedule: seq<Choice>, i: nat)
    requires Inv(c, job, s) && s.found && i < |s.workers|
    ensures |RunFrom(c, job, s, schedule).workers| == |s.workers|
    ensures RunFrom(c, job, s, schedule).workers[i].hashes <= s.workers[i].hashes + 8192
  {
    hide Wins, LaneNonce, RunFrom, MessagesInv, CountsInv;
    SinceFlag(c, job, s, schedule, i);
    var s' := RunFrom(c, job, s, schedule);
    assert WorkerInv(c, job, s'.found, i, s'.workers[i]);
  }

  lemma {:induction false} SinceFlag(c: Search, job: ValidJob, s: State, schedule: seq<Choice>, i: nat)
    requires Inv(c, job, s) && s.found && i < |s.workers|
    ensures var s' := RunFrom(c, job, s, schedule);
            && Inv(c, job, s') && s'.found && |s'.workers| == |s.workers|
            && s'.workers[i].hashes - s'.workers[i].sinceFlag == s.workers[i].hashes - s.workers[i].sinceFlag
  {
    hide Inv, Step;
    if schedule != [] {
      var n := |schedule| - 1;
      SinceFlag(c, job, s, schedule[..n], i);
      InvStep(c, job, RunFrom(c, job, s, schedule[..n]), schedule[n]);
      StepSinceFlag(c, job, RunFrom(c, job, s, schedule[..n]), schedule[n], i);
    }
  }

  lemma StepSinceFlag(c: Search, job: ValidJob, s: State, x: Choice, i: nat)
    requires s.found && i < |s.workers|
    ensures var s' := Step(c, job, s, x);
            && s'.found && |s'.workers| == |s.workers|
            && s'.workers[i].hashes - s'.workers[i].sinceFlag == s.workers[i].hashes - s.workers[i].sinceFlag
  {
    hide Wins;
  }

  // ---------- a worker left alone finds its winner ----------

  // Worker i takes n steps while the clock shows `now` and nothing else moves.
  function Solo(c: Search, job: ValidJob, s: State, i: nat, now: real, n: nat): (s': State)
    requires i < |s.workers|
    ensures |s'.workers| == |s.workers|
  {
    if n == 0 then s else WorkStep(c, job, Solo(c, job, s, i, now, n - 1), i, now)
  }

  // In a batch after k hashes that lost, with at least one to go; the rest is as in s.
  ghost predicate After(c: Search, s: State, i: nat, k: nat, s': State)
    requires i < |s.workers|
  {
    && s' == s.(workers := s'.workers) && |s'.workers| == |s.workers|
    && var w := s'.workers[i];
    && w.pc.InBatch? && w.pc.left > 0 && w.done == k && w.posts == 0 && w.finds == 0
    && w.nonce == LaneNonce(c.start, c.workers, i, k)
  }

  lemma {:induction false} SoloHashes(c: Search, job: ValidJob, s: State, i: nat, now: real, k: nat) returns (n: nat)
    requires i < |s.workers| && s.workers[i] == Fresh(c, i) && !s.found
    requires c.deadline == 0.0 || now <= c.deadline
    requires LaneLost(c, job, i, k)
    ensures After(c, s, i, k, Solo(c, job, s, i, now, n))
  {
    hide Wins, LaneNonce, WorkStep;
    if k == 0 {
      n := 1;
      assert Solo(c, job, s, i, now, 0) == s;
      CheckPasses(c, job, s, i, now);
    } else {
      var m := SoloHashes(c, job, s, i, now, k - 1);
      n := m + 3;
      var t := Solo(c, job, s, i, now, m);
      SoloThree(c, job, s, i, now, m);
      OneHash(c, job, t, i, now, k - 1);
      if Solo(c, job, s, i, now, n).workers[i].pc.left == 0 {
        SoloTwo(c, job, s, i, now, n);
        NextBatch(c, job, Solo(c, job, s, i, now, n), i, now);
        n := n + 2;
      }
    }
  }

  lemma CheckPasses(c: Search, job: ValidJob, s: State, i: nat, now: real)
    requires i < |s.workers| && s.workers[i].pc.AtCheck? && !s.found && (c.deadline == 0.0 || now <= c.deadline)
    ensures WorkStep(c, job, s, i, now) == s.(workers := s.workers[i := s.workers[i].(pc := InBatch(8192))])
  {
  }

  lemma SoloTwo(c: Search, job: ValidJob, s: State, i: nat, now: real, m: nat)
    requires i < |s.workers|
    ensures Solo(c, job, s, i, now, m + 2) ==
            WorkStep(c, job, WorkStep(c, job, Solo(c, job, s, i, now, m), i, now), i, now)
  {
    hide WorkStep;
    assert Solo(c, job, s, i, now, m + 1) == WorkStep(c, job, Solo(c, job, s, i, now, m), i, now);
  }

  lemma SoloThree(c: Search, job: ValidJob, s: State, i: nat, now: real, m: nat)
    requires i < |s.workers|
    ensures Solo(c, job, s, i, now, m + 3) ==
            WorkStep(c, job, WorkStep(c, job, WorkStep(c, job, Solo(c, job, s, i, now, m), i, now), i, now), i, now)
  {
    hide WorkStep;
    SoloTwo(c, job, s, i, now, m);
    assert Solo(c, job, s, i, now, m + 3) == WorkStep(c, job, Solo(c, job, s, i, now, m + 2), i, now);
  }

  // Three steps hash a losing nonce: digest, next nonce, count.
  lemma OneHash(c: Search, job: ValidJob, t: State, i: nat, now: real, k: nat)
    requires i < |t.workers| && t.workers[i].pc.InBatch? && t.workers[i].pc.left > 0 && t.workers[i].done == k
    requires t.workers[i].nonce == LaneNonce(c.start, c.workers, i, k)
    requires !Wins(job, LaneNonce(c.start, c.workers, i, k))
    ensures var t' := WorkStep(c, job, WorkStep(c, job, WorkStep(c, job, t, i, now), i, now), i, now);
            && t' == t.(workers := t'.workers) && |t'.workers| == |t.workers|
            && t'.workers[i].pc == InBatch(t.workers[i].pc.left - 1) && t'.workers[i].done == k + 1
            && t'.workers[i].nonce == LaneNonce(c.start, c.workers, i, k + 1)
            && t'.workers[i].posts == t.workers[i].posts && t'.workers[i].finds == t.workers[i].finds
  {
    hide Wins, LaneNonce;
    NextNonce(c.start, c.workers, i, k);
    var t1 := WorkStep(c, job, t, i, now);
    assert t1.workers[i].pc == Hashed(t.workers[i].pc.left - 1) && t1.workers[i].nonce == t.workers[i].nonce;
    var t2 := WorkStep(c, job, t1, i, now);
    assert t2.workers[i].pc == Advanced(t.workers[i].pc.left - 1);
  }

  lemma NextBatch(c: Search, job: ValidJob, t: State, i: nat, now: real)
    requires i < |t.workers| && t.workers[i].pc == InBatch(0) && !t.found
    requires c.deadline == 0.0 || now <= c.deadline
    ensures var t' := WorkStep(c, job, WorkStep(c, job, t, i, now), i, now);
            t' == t.(workers := t'.workers) && |t'.workers| == |t.workers| &&
            t'.workers[i] == t.workers[i].(pc := InBatch(8192))
  {
    var t1 := WorkStep(c, job, t, i, now);
    assert t1.workers[i] == t.workers[i].(pc := AtCheck);
  }

  // A worker that runs alone, in time, with the flag clear, sets the flag and puts the first winner of its lane, with
  // the number of hashes up to it.
  lemma SoloFinds(c: Search, job: ValidJob, s: State, i: nat, now: real, k: nat) returns (n: nat)
    requires i < |s.workers| && s.workers[i] == Fresh(c, i) && !s.found
    requires c.deadline == 0.0 || now <= c.deadline
    requires LaneLost(c, job, i, k) && Wins(job, LaneNonce(c.start, c.workers, i, k))
    ensures var s' := Solo(c, job, s, i, now, n);
            && s'.found
            && s'.queue == s.queue + [Message(k + 1, Some(LaneNonce(c.start, c.workers, i, k)))]
  {
    hide Wins, LaneNonce, WorkStep;
    var m := SoloHashes(c, job, s, i, now, k);
    SoloThree(c, job, s, i, now, m);
    n := m + 3;
    WinningHash(c, job, Solo(c, job, s, i, now, m), i, now, k);
  }

  // Three steps announce a winning nonce: digest, flag, message.
  lemma WinningHash(c: Search, job: ValidJob, t: State, i: nat, now: real, k: nat)
    requires i < |t.workers| && t.workers[i].pc.InBatch? && t.workers[i].pc.left > 0 && t.workers[i].done == k
    requires t.workers[i].nonce == LaneNonce(c.start, c.workers, i, k)
    requires Wins(job, LaneNonce(c.start, c.workers, i, k))
    ensures var t' := WorkStep(c, job, WorkStep(c, job, WorkStep(c, job, t, i, now), i, now), i, now);
            t'.found && t'.queue == t.queue + [Message(k + 1, Some(LaneNonce(c.start, c.workers, i, k)))]
  {
    hide Wins, LaneNonce;
    var t1 := WorkStep(c, job, t, i, now);
    assert t1.workers[i].pc.Hashed? && t1.workers[i].nonce == t.workers[i].nonce;
    var t2 := WorkStep(c, job, t1, i, now);
    assert t2.workers[i].pc.Flagged? && t2.found && t2.workers[i].done == k;
  }

  lemma FinishedOrLive(c: Search, job: ValidJob, s: State)
    requires Inv(c, job, s)
    ensures AtRest(s) || exists x :: Live(s, x)
  {
    hide WorkersInv, MessagesInv;
    if i: nat :| i < |s.workers| && !s.workers[i].pc.Exited? {
      assert Live(s, Work(i, 0.0));
    } else if !Finished(s) {
      InvNeverStuck(c, job, s);
      assert Live(s, Take(0));
    }
  }

  // The steps left when the flag is set: at most 3 * 8192 + 5 for each worker, and one message each for the parent.
  lemma LeftBound(c: Search, job: ValidJob, s: State)
    requires Inv(c, job, s)
    ensures Left(s) <= c.workers * (3 * CHECK + 6)
  {
    hide Wins, LaneNonce;
    forall i: nat | i < |s.workers|
      ensures Rank(s.workers[i]) <= 3 * CHECK + 5
    {
      assert WorkerInv(c, job, s.found, i, s.workers[i]);
    }
    RanksBound(s.workers);
  }

  lemma {:induction false} RanksBound(ws: seq<Worker>)
    requires forall i: nat | i < |ws| :: Rank(ws[i]) <= 3 * CHECK + 5
    ensures Ranks(ws) <= |ws| * (3 * CHECK + 5)
  {
    hide Rank;
    if ws != [] {
      RanksBound(ws[1..]);
    }
  }

  // ---------- what interrupts break ----------

  lemma RunPrefix(c: Search, job: ValidJob, x: seq<Choice>, k: nat)
    requires k < |x|
    ensures Run(c, job, x[..k + 1]) == Step(c, job, Run(c, job, x[..k]), x[k])
  {
    hide Step, Start;
    assert x[..k + 1][..k] == x[..k];
  }

  // One worker, interrupted between its first digest and the count: the total misses that digest, won or lost.
  lemma UncountedDigest(job: ValidJob)
    ensures var s := Run(Search(1, 0, 0.0), job, [Work(0, 0.0), Work(0, 0.0), Interrupt(0), Take(0)]);
            Finished(s) && EachPostedOnce(s.workers) && s.total == 0 && Hashes(s.workers) == 1
  {
    hide Wins;
    var c := Search(1, 0, 0.0);
    var x := [Work(0, 0.0), Work(0, 0.0), Interrupt(0), Take(0)];
    RunPrefix(c, job, x, 0);
    RunPrefix(c, job, x, 1);
    RunPrefix(c, job, x, 2);
    RunPrefix(c, job, x, 3);
    assert x[..0] == [] && x[..4] == x;
    var w := Run(c, job, x[..2]).workers[0];
    assert w.pc == Hashed(CHECK - 1) && w.hashes == 1;
    assert Run(c, job, x[..3]).queue == [Message(0, None)];
    assert Run(c, job, x).workers[1..] == [];
  }

  // One worker, interrupted right after it set the flag for a winning nonce: the search returns None.
  lemma NoneAfterWin(job: ValidJob)
    requires Wins(job, 0)
    ensures var s := Run(Search(1, 0, 0.0), job,
                         [Work(0, 0.0), Work(0, 0.0), Work(0, 0.0), Interrupt(0), Take(0)]);
            Finished(s) && s.found && s.result.None? && |s.workers| == 1 && s.workers[0].finds == 0
  {
    hide Wins;
    var c := Search(1, 0, 0.0);
    var x := [Work(0, 0.0), Work(0, 0.0), Work(0, 0.0), Interrupt(0), Take(0)];
    RunPrefix(c, job, x, 0);
    RunPrefix(c, job, x, 1);
    RunPrefix(c, job, x, 2);
    RunPrefix(c, job, x, 3);
    RunPrefix(c, job, x, 4);
    assert x[..0] == [] && x[..5] == x;
    assert Run(c, job, x[..2]).workers[0].pc == Hashed(CHECK - 1);
    assert Run(c, job, x[..3]).workers[0].pc == Flagged;
    assert Run(c, job, x[..4]).queue == [Message(0, None)];
  }

  lemma FlagInThree(job: ValidJob, x: seq<Choice>)
    requires Wins(job, 1) && |x| >= 3 && forall k | 0 <= k < 3 :: x[k] == Work(1, 0.0)
    ensures var c, s := Search(2, 0, 0.0), Run(Search(2, 0, 0.0), job, x[..3]);
            && |s.workers| == 2 && s.workers[0] == Fresh(c, 0) && s.workers[1].pc.Flagged? && s.workers[1].nonce == 1
            && s.found && s.queue == [] && s.remaining == 2 && s.result.None?
  {
    hide Wins;
    var c := Search(2, 0, 0.0);
    RunPrefix(c, job, x, 0);
    RunPrefix(c, job, x, 1);
    RunPrefix(c, job, x, 2);
    assert x[..0] == [];
    assert Run(c, job, x[..1]).workers[1].pc == InBatch(CHECK);
    assert Run(c, job, x[..2]).workers[1].pc == Hashed(CHECK - 1);
  }

  // Two workers; the second wins and sets the flag, the first sees it, puts its message and is interrupted before it
  // returns: the parent leaves its loop with two messages from the first worker and None, and the second worker's
  // nonce is never read.
  lemma DoubledMessageHidesWin(job: ValidJob)
    requires Wins(job, 1)
    ensures var s := Run(Search(2, 0, 0.0), job,
                         [Work(1, 0.0), Work(1, 0.0), Work(1, 0.0), Work(0, 0.0), Interrupt(0), Take(0), Take(0)]);
            && Finished(s) && s.result.None? && |s.workers| == 2
            && s.workers[0].posts == 2 && s.workers[1].pc.Flagged? && s.workers[1].nonce == 1
  {
    hide Wins, Step, Start, Run;
    var c := Search(2, 0, 0.0);
    var x := [Work(1, 0.0), Work(1, 0.0), Work(1, 0.0), Work(0, 0.0), Interrupt(0), Take(0), Take(0)];
    FlagInThree(job, x);
    TwoMessages(c, job, Run(c, job, x[..3]), 0.0);
    RunPrefix(c, job, x, 3);
    RunPrefix(c, job, x, 4);
    RunPrefix(c, job, x, 5);
    RunPrefix(c, job, x, 6);
    assert x[..7] == x;
  }

  // Two workers, the first past its deadline and interrupted after its message: the parent leaves its loop with two
  // messages from the first worker and none from the second.
  lemma InterruptedReturnBreaksCount(job: ValidJob)
    ensures var c := Search(2, 0, 1.0);
            var s := Run(c, job, [Work(0, 2.0), Interrupt(0), Take(0), Take(0)]);
            Finished(s) && |s.workers| == 2 && s.workers[0].posts == 2 && s.workers[1] == Fresh(c, 1)
  {
    hide Wins, Step;
    var c := Search(2, 0, 1.0);
    var x := [Work(0, 2.0), Interrupt(0), Take(0), Take(0)];
    TwoMessages(c, job, Start(c), 2.0);
    RunPrefix(c, job, x, 0);
    RunPrefix(c, job, x, 1);
    RunPrefix(c, job, x, 2);
    RunPrefix(c, job, x, 3);
    assert x[..0] == [] && x[..4] == x;
  }

  lemma TwoMessages(c: Search, job: ValidJob, s: State, now: real)
    requires |s.workers| == 2 && s.workers[0] == Fresh(c, 0)
    requires s.found || (c.deadline != 0.0 && now > c.deadline)
    requires s.queue == [] && s.remaining == 2 && s.result.None?
    ensures var s' := Step(c, job, Step(c, job, Step(c, job, Step(c, job, s, Work(0, now)), Interrupt(0)), Take(0)),
                           Take(0));
            && Finished(s') && s'.result.None? && |s'.workers| == 2
            && s'.workers[0].posts == 2 && s'.workers[1] == s.workers[1]
  {
    hide Wins;
    var s1 := Step(c, job, s, Work(0, now));
    var s2 := Step(c, job, s1, Interrupt(0));
    assert s2.queue == [Message(0, None), Message(0, None)];
  }
}
