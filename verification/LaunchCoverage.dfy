/** Which nonces the launches of one gpu/keccak_cuda.cu process test: a nonce
    corresponds to a number in mixed radix whose digits are launch, iteration,
    block and thread. */
module LaunchCoverage {
  import opened Words
  import opened CudaKernel
  import B = BigEndian

  // blockIdx.x * blockDim.x + threadIdx.x
  function Tid(g: Grid, block: nat, thread: nat): nat {
    block * g.threads + thread
  }

  // How far from the first base iteration j of thread t of launch l is.
  function Distance(g: Grid, l: nat, j: nat, t: nat): nat {
    (l * g.iters + j) * g.Stride() + t
  }

  lemma SplitDigit(d: nat, m: nat, k: nat)
    requires d < k * m
    ensures m > 0 && d / m < k && d == d / m * m + d % m
  {
    assert m != 0;
    assert d == m * (d / m) + d % m;
    B.ProductBound(m, d / m - k);
  }

  lemma DigitsUnique(m: nat, a: nat, b: nat, c: nat, d: nat)
    requires b < m && d < m && a * m + b == c * m + d
    ensures a == c && b == d
  {
    var n := a * m + b;
    assert n == m * a + b && n == m * c + d;
    B.QuotientUnique(n, m, a, b);
    B.QuotientUnique(n, m, c, d);
  }

  lemma JoinDigit(a: nat, b: nat, m: nat, k: nat)
    requires a < k && b < m
    ensures a * m + b < k * m
  {
    B.ProductBound(m, a + 1 - k);
    assert (k - 1 - a) * m >= 0;
  }

  // Every thread number below the stride belongs to one thread of one block, and only to it.
  lemma TidCovers(g: Grid, tid: nat) returns (block: nat, thread: nat)
    requires tid < g.Stride()
    ensures block < g.blocks && thread < g.threads && Tid(g, block, thread) == tid
  {
    SplitDigit(tid, g.threads, g.blocks);
    block, thread := tid / g.threads, tid % g.threads;
  }

  lemma TidUnique(g: Grid, block: nat, thread: nat, block': nat, thread': nat)
    requires thread < g.threads && thread' < g.threads && Tid(g, block, thread) == Tid(g, block', thread')
    ensures block == block' && thread == thread'
  {
    DigitsUnique(g.threads, block, thread, block', thread');
  }

  // Neighbouring threads have neighbouring numbers, block after block.
  lemma TidNeighbours(g: Grid, block: nat, thread: nat)
    requires thread < g.threads
    ensures Tid(g, 0, 0) == 0
    ensures thread + 1 < g.threads ==> Tid(g, block, thread + 1) == Tid(g, block, thread) + 1
    ensures thread + 1 == g.threads ==> Tid(g, block + 1, 0) == Tid(g, block, thread) + 1
  {
    assert (block + 1) * g.threads == block * g.threads + g.threads;
  }

  // n launches reach every distance below n * blocks * threads * iters ...
  lemma LaunchesCover(g: Grid, n: nat, x: nat) returns (l: nat, j: nat, t: nat)
    requires x < n * g.iters * g.Stride()
    ensures l < n && j < g.iters && t < g.Stride() && Distance(g, l, j, t) == x
  {
    var stride := g.Stride();
    SplitDigit(x, stride, n * g.iters);
    var y := x / stride;
    SplitDigit(y, g.iters, n);
    l, j, t := y / g.iters, y % g.iters, x % stride;
  }

  // ... and no distance twice ...
  lemma LaunchesUnique(g: Grid, l: nat, j: nat, t: nat, l': nat, j': nat, t': nat)
    requires j < g.iters && t < g.Stride() && j' < g.iters && t' < g.Stride()
    requires Distance(g, l, j, t) == Distance(g, l', j', t')
    ensures l == l' && j == j' && t == t'
  {
    MixedUnique(g.Stride(), g.iters, l, j, t, l', j', t');
  }

  lemma MixedUnique(m: nat, k: nat, l: nat, j: nat, t: nat, l': nat, j': nat, t': nat)
    requires j < k && t < m && j' < k && t' < m && (l * k + j) * m + t == (l' * k + j') * m + t'
    ensures l == l' && j == j' && t == t'
  {
    var a, c := l * k + j, l' * k + j';
    DigitsUnique(m, a, t, c, t');
    DigitsUnique(k, l, j, l', j');
  }

  // ... and none beyond.
  lemma LaunchesBounded(g: Grid, n: nat, l: nat, j: nat, t: nat)
    requires l < n && j < g.iters && t < g.Stride()
    ensures Distance(g, l, j, t) < n * g.iters * g.Stride()
  {
    JoinDigit(l, j, g.iters, n);
    JoinDigit(l * g.iters + j, t, g.Stride(), n * g.iters);
  }

  // The cursor before launch l, as the host advances it.
  function Cursor(g: Grid, l: nat): nat {
    (g.base + l * (g.Stride() * g.iters)) % U64_MODULUS
  }

  // Launch l runs the kernel on the grid moved to the cursor; its nonces are base + Distance, modulo 2^64.
  lemma LaunchNonce(g: Grid, l: nat, j: nat, t: nat)
    ensures NonceOf(g.(base := Cursor(g, l)), t, j) == (g.base + Distance(g, l, j, t)) % U64_MODULUS
  {
    var stride := g.Stride();
    var whole := g.base + l * (stride * g.iters);
    assert l * (stride * g.iters) == l * g.iters * stride;
    assert (l * g.iters + j) * stride == l * g.iters * stride + j * stride;
    ModAdd(whole, t + j * stride);
  }

  lemma ModAdd(a: nat, b: nat)
    ensures (a % U64_MODULUS + b) % U64_MODULUS == (a + b) % U64_MODULUS
  {
  }

  lemma CursorStep(g: Grid, l: nat)
    ensures (Cursor(g, l) + g.Stride() * g.iters) % U64_MODULUS == Cursor(g, l + 1)
  {
    OneMore(g.base, l, g.Stride() * g.iters);
  }

  lemma OneMore(base: nat, l: nat, size: nat)
    ensures ((base + l * size) % U64_MODULUS + size) % U64_MODULUS == (base + (l + 1) * size) % U64_MODULUS
  {
    var done := l * size;
    assert (l + 1) * size == done + size;
    ModAdd(base + done, size);
  }

  // ---------- the nonces of one process, and of successive ones ----------

  // The nonces of one launch.
  function Size(g: Grid): nat {
    g.iters * g.Stride()
  }

  // The nonce that iteration j of thread t of launch l tests.
  function Tested(g: Grid, l: nat, j: nat, t: nat): nat {
    NonceOf(g.(base := Cursor(g, l)), t, j)
  }

  // Some thread of the first n launches tests v.
  ghost predicate Tests(g: Grid, n: nat, v: nat) {
    exists l: nat, j: nat, t: nat :: l < n && j < g.iters && t < g.Stride() && Tested(g, l, j, t) == v
  }

  lemma Regroup(a: nat, b: nat, c: nat)
    ensures a * (b * c) == a * b * c
  {
  }

  lemma TestsAt(g: Grid, n: nat, x: nat)
    requires x < n * Size(g)
    ensures Tests(g, n, (g.base + x) % U64_MODULUS)
  {
    hide Cursor, Distance;
    Regroup(n, g.iters, g.Stride());
    var l, j, t := LaunchesCover(g, n, x);
    LaunchNonce(g, l, j, t);
    assert Tested(g, l, j, t) == (g.base + x) % U64_MODULUS;
  }

  lemma TestsOnly(g: Grid, n: nat, v: nat) returns (x: nat)
    requires Tests(g, n, v)
    ensures x < n * Size(g) && v == (g.base + x) % U64_MODULUS
  {
    hide Cursor, Distance;
    var l: nat, j: nat, t: nat :| l < n && j < g.iters && t < g.Stride() && Tested(g, l, j, t) == v;
    LaunchNonce(g, l, j, t);
    LaunchesBounded(g, n, l, j, t);
    Regroup(n, g.iters, g.Stride());
    x := Distance(g, l, j, t);
  }

  // Without 64-bit wrap, n launches test each nonce of [base, base + n * blocks * threads * iters) exactly once.
  lemma TestedExactlyOnce(g: Grid, n: nat, v: nat) returns (l: nat, j: nat, t: nat)
    requires g.base + n * Size(g) <= U64_MODULUS && g.base <= v < g.base + n * Size(g)
    ensures l < n && j < g.iters && t < g.Stride() && Tested(g, l, j, t) == v
    ensures forall l': nat, j': nat, t': nat |
              l' < n && j' < g.iters && t' < g.Stride() && Tested(g, l', j', t') == v ::
              l' == l && j' == j && t' == t
  {
    hide Cursor, Distance;
    Regroup(n, g.iters, g.Stride());
    l, j, t := LaunchesCover(g, n, v - g.base);
    LaunchNonce(g, l, j, t);
    forall l': nat, j': nat, t': nat | l' < n && j' < g.iters && t' < g.Stride() && Tested(g, l', j', t') == v
      ensures l' == l && j' == j && t' == t
    {
      LaunchNonce(g, l', j', t');
      LaunchesBounded(g, n, l', j', t');
      LaunchesUnique(g, l, j, t, l', j', t');
    }
  }

  // The d-th slice that gpu_hunter_continuous.py runs after this one: its base has moved by d launches.
  function Later(g: Grid, d: nat): (h: Grid)
    ensures Size(h) == Size(g) && h.base == g.base + d * Size(g)
  {
    g.(base := g.base + d * Size(g))
  }

  // A slice of n launches and the d-th slice after it, of at least one, test no common nonce if and only if the first
  // runs no launch, or at most d launches and the way from the start of one to the end of the other does not go round
  // the 64-bit counter.
  lemma SlicesDisjoint(g: Grid, n: nat, d: nat, next: nat)
    requires Size(g) > 0 && d > 0 && next > 0 && Later(g, d).base < U64_MODULUS
    ensures (forall v: nat | Tests(g, n, v) :: !Tests(Later(g, d), next, v)) <==>
            n == 0 || (n <= d && (next + d) * Size(g) <= U64_MODULUS)
  {
    hide Tests, Size;
    if n > d {
      LaterLaunchRepeats(g, n, d, next);
    } else if n > 0 && (next + d) * Size(g) > U64_MODULUS {
      WrapRepeats(g, n, d, next);
    } else {
      forall v: nat | Tests(g, n, v)
        ensures 0 < n <= d && !Tests(Later(g, d), next, v)
      {
        LaunchTests(g, n, v);
        FewLaunchesRepeatNothing(g, n, d, next, v);
      }
    }
  }

  lemma LaterLaunchRepeats(g: Grid, n: nat, d: nat, next: nat)
    requires Size(g) > 0 && n > d && next > 0
    ensures exists v: nat :: Tests(g, n, v) && Tests(Later(g, d), next, v)
  {
    hide Tests, Size;
    SizeMultiples(Size(g), n, d, next);
    TestsAt(g, n, d * Size(g));
    TestsAt(Later(g, d), next, 0);
  }

  lemma WrapRepeats(g: Grid, n: nat, d: nat, next: nat)
    requires Size(g) > 0 && 0 < n <= d && next > 0
    requires Later(g, d).base < U64_MODULUS && (next + d) * Size(g) > U64_MODULUS
    ensures exists v: nat :: Tests(g, n, v) && Tests(Later(g, d), next, v)
  {
    hide Tests, Size;
    SizeMultiples(Size(g), n, 0, next);
    SizeMultiples(Size(g), n, d, next);
    TestsAt(g, n, 0);
    TestsAt(Later(g, d), next, U64_MODULUS - d * Size(g));
    OnceRound(g.base);
  }

  lemma OnceRound(base: nat)
    ensures (base + U64_MODULUS) % U64_MODULUS == (base + 0) % U64_MODULUS
  {
  }

  lemma LaunchTests(g: Grid, n: nat, v: nat)
    requires Tests(g, n, v)
    ensures n > 0
  {
  }

  lemma FewLaunchesRepeatNothing(g: Grid, n: nat, d: nat, next: nat, v: nat)
    requires Tests(g, n, v) && n <= d && next > 0 && (next + d) * Size(g) <= U64_MODULUS
    ensures !Tests(Later(g, d), next, v)
  {
    hide Tests, Size;
    if Tests(Later(g, d), next, v) {
      SizeMultiples(Size(g), n, d, next);
      var x := TestsOnly(g, n, v);
      var y := TestsOnly(Later(g, d), next, v);
      ArcsDisjoint(g.base, x, d * Size(g) + y);
      assert false;
    }
  }

  lemma Distribute(a: nat, b: nat, size: nat)
    ensures (a + b) * size == a * size + b * size
  {
  }

  lemma SizeMultiples(size: nat, n: nat, d: nat, next: nat)
    requires next > 0
    ensures (next + d) * size == next * size + d * size && next * size >= size
    ensures n <= d ==> n * size <= d * size
    ensures n > d ==> n * size >= d * size + size
  {
    Distribute(next, d, size);
    Distribute(next - 1, 1, size);
    if n > d {
      Distribute(n - d - 1, d + 1, size);
      Distribute(d, 1, size);
    } else {
      Distribute(d - n, n, size);
    }
  }

  lemma ArcsDisjoint(base: nat, x: nat, y: nat)
    requires x < y < U64_MODULUS
    ensures (base + x) % U64_MODULUS != (base + y) % U64_MODULUS
  {
  }
}
