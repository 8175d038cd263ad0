/** solve_range of miner.py: a bounded search that an outside flag may stop. */
module SolveRange {
  import opened Words
  import opened Codecs
  import opened WorkHash
  import M = KeccakMiner

  // The arguments of one call; `stop`, when given, is what reading stop_flag.value before hash k returns.
  datatype Call = Call(miner: seq<byte>, prevWork: int, anchor: seq<byte>, target: int,
                       start: int, count: int, stop: Option<nat -> bool>)

  datatype Answer = Answer(nonce: Option<nat>, done: nat)

  predicate Stopped(c: Call, k: nat) {
    c.stop.Some? && (c.stop.value)(k)
  }

  predicate Hit(c: Call, n: int) {
    var h := WorkHashInt(c.miner, n, c.prevWork, c.anchor);
    h.Ok? && h.value < c.target
  }

  // Nonce number j was hashed and lost, after the flag was read clear.
  predicate Lost(c: Call, j: nat) {
    !Stopped(c, j) && 0 <= c.start + j < LIMIT && !Hit(c, c.start + j)
  }

  // The first k nonces were hashed and lost, and the flag was clear before each.
  ghost predicate Tried(c: Call, k: nat) {
    forall j: nat | j < k :: Lost(c, j)
  }

  lemma HashRaises(miner: seq<byte>, nonce: int, prevWork: int, anchor: seq<byte>)
    ensures WorkHashInt(miner, nonce, prevWork, anchor).Ok? <==> 0 <= nonce < LIMIT && 0 <= prevWork < LIMIT
  {
  }

  // What Solve may return, as one relation.
  ghost predicate Returned(c: Call, a: Answer) {
    match a.nonce
    case Some(n) =>
      && 0 < a.done <= c.count && n == c.start + a.done - 1
      && Tried(c, a.done - 1) && !Stopped(c, a.done - 1) && Hit(c, n)
    case None =>
      && Tried(c, a.done)
      && (a.done == (if c.count > 0 then c.count else 0) || (a.done < c.count && Stopped(c, a.done)))
  }

  // nonce.to_bytes and prev_work.to_bytes raise OverflowError outside [0, 2^256).
  method Solve(c: Call) returns (r: Result<Answer>)
    ensures r.Ok? ==> Returned(c, r.value)
    ensures r.Ok? && c.stop.Some? ==> forall j: nat | j < r.value.done :: !(c.stop.value)(j)
    ensures r.Ok? && r.value.nonce.None? && r.value.done < c.count ==> c.stop.Some? && (c.stop.value)(r.value.done)
    ensures !(0 <= c.prevWork < LIMIT) ==> r.Raised?
    ensures r.Raised? ==>
              || !(0 <= c.prevWork < LIMIT)
              || exists k: nat :: k < c.count && Tried(c, k) && !Stopped(c, k) && !(0 <= c.start + k < LIMIT)
  {
    hide WorkHashInt;
    if !(0 <= c.prevWork < LIMIT) {
      return Raised(OverflowError);
    }
    var done := 0;
    var nonce := c.start;
    var end := c.start + c.count;
    while nonce < end
      invariant nonce == c.start + done
      invariant done <= (if c.count > 0 then c.count else 0)
      invariant Tried(c, done)
      invariant c.stop.Some? ==> forall j: nat | j < done :: !(c.stop.value)(j)
    {
      if Stopped(c, done) {
        return Ok(Answer(None, done));
      }
      var h := WorkHashInt(c.miner, nonce, c.prevWork, c.anchor);
      HashRaises(c.miner, nonce, c.prevWork, c.anchor);
      if h.Raised? {
        assert done < c.count && Tried(c, done) && !Stopped(c, done) && !(0 <= c.start + done < LIMIT);
        return Raised(OverflowError);
      }
      if h.value < c.target {
        return Ok(Answer(Some(nonce), done + 1));
      }
      assert Lost(c, done);
      nonce := nonce + 1;
      done := done + 1;
    }
    return Ok(Answer(None, done));
  }

  // A returned nonce is the least winner of the range.
  lemma LeastWinner(c: Call, a: Answer, m: int)
    requires Returned(c, a) && a.nonce.Some? && c.start <= m < a.nonce.value
    ensures !Hit(c, m)
  {
    hide Hit;
    assert Lost(c, m - c.start);
  }

  // With stride 1 and no flag, the C lane over the same range reports the same nonce, or loses with it.
  lemma AgreesWithLane(c: Call, a: Answer, job: Job, clock: nat -> real, o: M.Outcome, k: nat)
    requires Returned(c, a) && c.stop.None?
    requires job.Valid() && c == Call(job.miner, job.prevWork, job.anchor, job.target, c.start, c.count, c.stop)
    requires 0 <= c.start && 0 <= c.count && c.start + c.count <= U64_MODULUS
    requires M.LaneOutcome(job, c.start, 1, 0.0, clock, c.count, o, k)
    ensures a.nonce.Some? ==> o == M.Found(a.nonce.value) && k == a.done - 1
    ensures a.nonce.None? ==> o == M.Killed && k == c.count
  {
    hide Hit, Wins;
    forall j: nat | j < c.count
      ensures M.NonceAt(c.start, 1, j) == c.start + j && Hit(c, c.start + j) == Wins(job, M.NonceAt(c.start, 1, j))
    {
      HitIsWins(c, job, c.start + j);
    }
    if a.nonce.Some? {
      M.LaneFinds(job, c.start, 1, 0.0, clock, c.count, o, k, a.done - 1);
    }
    var lost := k < a.done && Lost(c, k);
  }

  lemma HitIsWins(c: Call, job: Job, n: nat)
    requires job.Valid() && n < LIMIT
    requires c.miner == job.miner && c.prevWork == job.prevWork && c.anchor == job.anchor && c.target == job.target
    ensures Hit(c, n) == Wins(job, n)
  {
  }
}
