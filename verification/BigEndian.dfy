/** Numbers as byte strings, most significant byte first: int.to_bytes(w, "big"),
    int.from_bytes(s, "big"), and lt_be of keccak_miner.c. */
module BigEndian {
  import opened Words

  function Pow256(n: nat): (p: nat)
    ensures p > 0
  {
    if n == 0 then 1 else 256 * Pow256(n - 1)
  }

  // int.from_bytes(s, "big")
  function Value(s: seq<byte>): nat {
    if s == [] then 0 else 256 * Value(s[..|s| - 1]) + s[|s| - 1] as nat
  }

  // The w low bytes of n; int.to_bytes(w, "big") when n fits.
  function Bytes(n: nat, w: nat): (s: seq<byte>)
    ensures |s| == w
  {
    if w == 0 then [] else Bytes(n / 256, w - 1) + [(n % 256) as byte]
  }

  lemma {:induction false} ValueBound(s: seq<byte>)
    ensures Value(s) < Pow256(|s|)
  {
    if s != [] {
      ValueBound(s[..|s| - 1]);
    }
  }

  lemma {:induction false} ValueOfBytes(n: nat, w: nat)
    requires n < Pow256(w)
    ensures Value(Bytes(n, w)) == n
  {
    if w > 0 {
      ValueOfBytes(n / 256, w - 1);
      assert Bytes(n, w)[..w - 1] == Bytes(n / 256, w - 1);
    }
  }

  lemma {:induction false} BytesOfValue(s: seq<byte>)
    ensures Bytes(Value(s), |s|) == s
  {
    if s != [] {
      BytesOfValue(s[..|s| - 1]);
      assert s == s[..|s| - 1] + [s[|s| - 1]];
    }
  }

  lemma BytesInjective(m: nat, n: nat, w: nat)
    requires m < Pow256(w) && n < Pow256(w) && Bytes(m, w) == Bytes(n, w)
    ensures m == n
  {
    ValueOfBytes(m, w);
    ValueOfBytes(n, w);
  }

  // The byte b places from the right is n divided by 256^b, modulo 256.
  lemma {:induction false} BytesAt(n: nat, w: nat, b: nat)
    requires b < w
    ensures Bytes(n, w)[w - 1 - b] as nat == n / Pow256(b) % 256
  {
    if b > 0 {
      BytesAt(n / 256, w - 1, b - 1);
      DivDiv(n, Pow256(b - 1));
    }
  }

  lemma DivDiv(n: nat, p: nat)
    requires p > 0
    ensures n / 256 / p == n / (256 * p)
  {
    var q, r := n / 256 / p, n / 256 % p;
    assert n == 256 * (p * q + r) + n % 256;
    assert n == (256 * p) * q + (256 * r + n % 256);
    assert 256 * r + n % 256 < 256 * p;
    QuotientUnique(n, 256 * p, q, 256 * r + n % 256);
  }

  lemma QuotientUnique(n: nat, d: nat, q: nat, r: nat)
    requires r < d && n == d * q + r
    ensures n / d == q
  {
    var k := n / d - q;
    assert n == d * (n / d) + n % d;
    assert d * k == r - n % d;
    ProductBound(d, k);
  }

  lemma ProductBound(d: nat, k: int)
    ensures k >= 1 ==> d * k >= d
    ensures k <= -1 ==> d * k + d <= 0
  {
  }

  lemma {:induction false} LeadingZeros(n: nat, w: nat, k: nat)
    requires n < Pow256(w)
    ensures Bytes(n, k + w) == seq(k, _ => 0) + Bytes(n, w)
  {
    if w == 0 {
      ZeroBytes(k);
    } else {
      LeadingZeros(n / 256, w - 1, k);
    }
  }

  lemma {:induction false} ZeroBytes(k: nat)
    ensures Bytes(0, k) == seq(k, _ => 0)
  {
    if k > 0 {
      ZeroBytes(k - 1);
    }
  }

  // ---------- the order ----------

  // The first byte that differs decides the order of two strings of equal length.
  lemma {:induction false} FirstDifference(a: seq<byte>, b: seq<byte>, i: nat)
    requires |a| == |b| && i < |a| && a[..i] == b[..i] && a[i] < b[i]
    ensures Value(a) < Value(b)
  {
    var n := |a| - 1;
    if i < n {
      assert a[..n][..i] == a[..i] && b[..n][..i] == b[..i];
      FirstDifference(a[..n], b[..n], i);
    }
  }

  // lt_be, for any two arrays of one length (the C code passes 32 bytes each).
  method LtBe(a: array<byte>, b: array<byte>) returns (less: bool)
    requires a.Length == b.Length
    ensures less == (Value(a[..]) < Value(b[..]))
  {
    for i := 0 to a.Length
      invariant a[..i] == b[..i]
    {
      if a[i] != b[i] {
        if a[i] < b[i] {
          FirstDifference(a[..], b[..], i);
        } else {
          FirstDifference(b[..], a[..], i);
        }
        return a[i] < b[i];
      }
    }
    assert a[..] == b[..];
    return false;
  }
}
