/** The text forms in which csolver.py hands a job to the C program and reads
    its answer back: lower-case hexadecimal for the 256-bit values, decimal for
    nonces. */
module Codecs {
  import opened Words
  import B = BigEndian

  datatype Option<+T> = None | Some(value: T)

  // ---------- hexadecimal ----------

  function HexChar(d: nat): char
    requires d < 16
  {
    "0123456789abcdef"[d]
  }

  function HexDigit(c: char): (d: Option<nat>)
    ensures d.Some? ==> d.value < 16
  {
    if '0' <= c <= '9' then Some(c as nat - '0' as nat)
    else if 'a' <= c <= 'f' then Some(c as nat - 'a' as nat + 10)
    else if 'A' <= c <= 'F' then Some(c as nat - 'A' as nat + 10)
    else None
  }

  // bytes.hex()
  function Hex(m: seq<byte>): (s: string)
    ensures |s| == 2 * |m|
  {
    if m == [] then [] else Hex(m[..|m| - 1]) + [HexChar(m[|m| - 1] as nat / 16), HexChar(m[|m| - 1] as nat % 16)]
  }

  // The shortest hexadecimal form of n, as format(n, "x") gives it.
  function ShortHex(n: nat): (s: string)
    ensures |s| > 0
  {
    if n < 16 then [HexChar(n)] else ShortHex(n / 16) + [HexChar(n % 16)]
  }

  // f"{n:0<w>x}": at least w digits, padded with zeros on the left.
  function PaddedHex(n: nat, w: nat): (s: string)
    ensures |s| >= w
  {
    var s := ShortHex(n);
    if |s| < w then seq(w - |s|, _ => '0') + s else s
  }

  // What the scan of byte i reads: one or two hexadecimal digits, or nothing.
  function ScanByte(hex: string, i: nat): Option<byte> {
    if 2 * i >= |hex| || HexDigit(hex[2 * i]).None? then None
    else
      var hi := HexDigit(hex[2 * i]).value;
      if 2 * i + 1 >= |hex| || HexDigit(hex[2 * i + 1]).None? then Some(hi as byte)
      else Some((16 * hi + HexDigit(hex[2 * i + 1]).value) as byte)
  }

  // The first w bytes that hex2bin reads, if each of them scans.
  function HexBytes(hex: string, w: nat): (r: Option<seq<byte>>)
    ensures r.Some? ==> |r.value| == w
  {
    if w == 0 then Some([])
    else
      match HexBytes(hex, w - 1)
      case None => None
      case Some(m) => match ScanByte(hex, w - 1) case None => None case Some(b) => Some(m + [b])
  }

  // hex2bin of keccak_miner.c: writes out and returns true, or stops at the first byte that does not scan.
  method Hex2Bin(hex: string, out: array<byte>) returns (ok: bool)
    modifies out
    ensures ok == HexBytes(hex, out.Length).Some?
    ensures ok ==> Some(out[..]) == HexBytes(hex, out.Length)
  {
    for i := 0 to out.Length
      invariant HexBytes(hex, i) == Some(out[..i])
    {
      match ScanByte(hex, i)
      case None =>
        NoBytesBeyond(hex, i + 1, out.Length);
        return false;
      case Some(v) =>
        out[i] := v;
        assert out[..i + 1] == out[..i] + [v];
    }
    assert out[..] == out[..out.Length];
    return true;
  }

  lemma {:induction false} NoBytesBeyond(hex: string, i: nat, w: nat)
    requires i <= w && HexBytes(hex, i).None?
    ensures HexBytes(hex, w).None?
  {
    if i < w {
      NoBytesBeyond(hex, i, w - 1);
    }
  }

  // A character reads as digit d exactly when it is the d-th of the lower-case or of the upper-case digits.
  lemma HexDigitMeans(c: char, d: nat)
    ensures HexDigit(c) == Some(d) <==> d < 16 && (c == "0123456789abcdef"[d] || c == "0123456789ABCDEF"[d])
  {
  }

  // hex2bin fails exactly when some byte has no digit at its first place.
  lemma {:induction false} HexBytesFail(hex: string, w: nat)
    ensures HexBytes(hex, w).None? <==>
            exists i: nat :: i < w && (2 * i >= |hex| || HexDigit(hex[2 * i]).None?)
  {
    hide HexDigit;
    if w > 0 {
      HexBytesFail(hex, w - 1);
      assert ScanByte(hex, w - 1).None? <==> 2 * (w - 1) >= |hex| || HexDigit(hex[2 * (w - 1)]).None?;
    }
  }

  // What it reads otherwise: two digits, or one when the second place has none.
  lemma {:induction false} HexBytesRead(hex: string, w: nat, i: nat)
    requires i < w && HexBytes(hex, w).Some?
    ensures 2 * i < |hex| && HexDigit(hex[2 * i]).Some?
    ensures HexBytes(hex, w).value[i] as nat ==
            if 2 * i + 1 < |hex| && HexDigit(hex[2 * i + 1]).Some?
            then 16 * HexDigit(hex[2 * i]).value + HexDigit(hex[2 * i + 1]).value
            else HexDigit(hex[2 * i]).value
  {
    hide HexDigit;
    if i < w - 1 {
      HexBytesRead(hex, w - 1, i);
    }
  }

  lemma HexCharDigit(d: nat)
    requires d < 16
    ensures HexDigit(HexChar(d)) == Some(d)
  {
  }

  lemma {:induction false} PrefixScans(s: string, t: string, w: nat)
    requires 2 * w <= |s|
    ensures HexBytes(s + t, w) == HexBytes(s, w)
  {
    if w > 0 {
      PrefixScans(s, t, w - 1);
    }
  }

  lemma ScanTwoDigits(s: string, i: nat, b: byte)
    requires 2 * i + 1 < |s| && s[2 * i] == HexChar(b as nat / 16) && s[2 * i + 1] == HexChar(b as nat % 16)
    ensures ScanByte(s, i) == Some(b)
  {
    hide HexChar, HexDigit;
    HexCharDigit(b as nat / 16);
    HexCharDigit(b as nat % 16);
  }

  // hex2bin undoes bytes.hex().
  lemma {:induction false} HexBytesOfHex(m: seq<byte>)
    ensures HexBytes(Hex(m), |m|) == Some(m)
  {
    hide HexChar, ScanByte;
    if m != [] {
      var k := |m| - 1;
      var front := Hex(m[..k]);
      HexBytesOfHex(m[..k]);
      PrefixScans(front, [HexChar(m[k] as nat / 16), HexChar(m[k] as nat % 16)], k);
      ScanTwoDigits(Hex(m), k, m[k]);
      assert m == m[..k] + [m[k]];
    }
  }

  // bytes.hex() writes lower-case digits only.
  lemma {:induction false} HexIsLower(m: seq<byte>, k: nat)
    requires k < |Hex(m)|
    ensures Hex(m)[k] in "0123456789abcdef"
  {
    if k < |Hex(m)| - 2 {
      HexIsLower(m[..|m| - 1], k);
    }
  }

  function Pow16(n: nat): (p: nat)
    ensures p > 0
  {
    if n == 0 then 1 else 16 * Pow16(n - 1)
  }

  // Exactly w hexadecimal digits.
  function FixedHex(n: nat, w: nat): (s: string)
    ensures |s| == w
  {
    if w == 0 then [] else FixedHex(n / 16, w - 1) + [HexChar(n % 16)]
  }

  lemma {:induction false} FixedHexZero(w: nat)
    ensures FixedHex(0, w) == seq(w, _ => '0')
  {
    if w > 0 {
      FixedHexZero(w - 1);
    }
  }

  lemma {:induction false} PaddedIsFixed(n: nat, w: nat)
    requires n < Pow16(w) && w > 0
    ensures PaddedHex(n, w) == FixedHex(n, w)
    decreases w
  {
    if n < 16 {
      assert n / 16 == 0;
      FixedHexZero(w - 1);
    } else {
      assert w > 1;
      PaddedIsFixed(n / 16, w - 1);
    }
  }

  lemma TwoHexDigits(n: nat)
    ensures n / 16 / 16 == n / 256 && n / 16 % 16 == n % 256 / 16 && n % 16 == n % 256 % 16
  {
    var q, r := n / 256, n % 256;
    assert n / 16 == 16 * q + r / 16;
  }

  lemma {:induction false} FixedHexOfBytes(n: nat, w: nat)
    ensures FixedHex(n, 2 * w) == Hex(B.Bytes(n, w))
  {
    hide HexChar;
    if w > 0 {
      FixedHexOfBytes(n / 256, w - 1);
      TwoHexDigits(n);
      var front := FixedHex(n / 256, 2 * w - 2);
      var hi, lo := HexChar(n / 16 % 16), HexChar(n % 16);
      assert FixedHex(n / 16, 2 * w - 1) == front + [hi];
      assert FixedHex(n, 2 * w) == front + [hi] + [lo] == front + [hi, lo];
      assert B.Bytes(n, w)[..w - 1] == B.Bytes(n / 256, w - 1);
    }
  }

  lemma {:induction false} Pow16Is256(w: nat)
    ensures Pow16(2 * w) == B.Pow256(w)
  {
    if w > 0 {
      Pow16Is256(w - 1);
      assert Pow16(2 * w) == 16 * Pow16(2 * w - 1);
    }
  }

  // hex2bin of the 2w-digit form of n is n as w bytes, most significant first.
  lemma HexBytesOfPadded(n: nat, w: nat)
    requires n < B.Pow256(w) && w > 0
    ensures HexBytes(PaddedHex(n, 2 * w), w) == Some(B.Bytes(n, w))
  {
    Pow16Is256(w);
    PaddedIsFixed(n, 2 * w);
    FixedHexOfBytes(n, w);
    HexBytesOfHex(B.Bytes(n, w));
  }

  // ---------- addresses ----------

  function LowerChar(c: char): char {
    if 'A' <= c <= 'Z' then (c as nat + 32) as char else c
  }

  // str.lower() on ASCII text.
  function Lower(s: string): (t: string)
    ensures |t| == |s|
  {
    seq(|s|, i requires 0 <= i < |s| => LowerChar(s[i]))
  }

  // Lower case: an upper-case letter becomes the lower-case one, anything else stays.
  lemma LowerCharMeans(c: char)
    ensures !('A' <= LowerChar(c) <= 'Z')
    ensures LowerChar(c) != c <==> 'A' <= c <= 'Z'
    ensures LowerChar(c) != c ==> LowerChar(c) as int - c as int == 'a' as int - 'A' as int
  {
  }

  // bytes.fromhex(s): digits of either case, in pairs.
  function FromHex(s: string): (r: Option<seq<byte>>)
    ensures r.Some? ==> 2 * |r.value| == |s|
  {
    if |s| % 2 == 0 && forall i | 0 <= i < |s| :: HexDigit(s[i]).Some? then HexBytes(s, |s| / 2) else None
  }

  lemma LowerDigit(c: char)
    ensures HexDigit(LowerChar(c)) == HexDigit(c)
  {
  }

  lemma {:induction false} LowerScans(s: string, w: nat)
    ensures HexBytes(Lower(s), w) == HexBytes(s, w)
  {
    hide HexDigit, LowerChar;
    if w > 0 {
      LowerScans(s, w - 1);
      var i := 2 * (w - 1);
      if i < |s| {
        LowerDigit(s[i]);
      }
      if i + 1 < |s| {
        LowerDigit(s[i + 1]);
      }
    }
  }

  // What the C program reads from the lower-cased address is what Python reads from the address itself.
  lemma HexBytesOfLower(s: string)
    requires FromHex(s).Some?
    ensures HexBytes(Lower(s), |s| / 2) == FromHex(s)
  {
    LowerScans(s, |s| / 2);
  }

  // ---------- decimal ----------

  predicate IsDigit(c: char) {
    '0' <= c <= '9'
  }

  function DigitChar(d: nat): (c: char)
    requires d < 10
    ensures IsDigit(c) && c as nat - '0' as nat == d
  {
    ('0' as nat + d) as char
  }

  // The decimal digits of n, as Python and C write them.
  function Dec(n: nat): (s: string)
    ensures |s| > 0
  {
    if n < 10 then [DigitChar(n)] else Dec(n / 10) + [DigitChar(n % 10)]
  }

  // int(s) on a string of digits.
  function DecValue(s: string): Option<nat> {
    if s == [] || !IsDigit(s[|s| - 1]) then None
    else
      var d := s[|s| - 1] as nat - '0' as nat;
      if |s| == 1 then Some(d)
      else match DecValue(s[..|s| - 1]) case None => None case Some(v) => Some(10 * v + d)
  }

  // The longest prefix of s that is all digits.
  function DigitPrefix(s: string): (p: string)
    ensures p <= s
  {
    if s == [] || !IsDigit(s[0]) then [] else [s[0]] + DigitPrefix(s[1..])
  }

  // strtoull(s, NULL, 10) on text without sign or white space: stops at the first other
  // character, is 0 without digits, and saturates at ULLONG_MAX.
  function Strtoull(s: string): (n: nat)
    ensures n < U64_MODULUS
  {
    match DecValue(DigitPrefix(s))
    case None => 0
    case Some(v) => if v < U64_MODULUS then v else U64_MODULUS - 1
  }

  lemma {:induction false} DecRoundTrip(n: nat)
    ensures DecValue(Dec(n)) == Some(n)
  {
    if n >= 10 {
      DecRoundTrip(n / 10);
      assert Dec(n)[..|Dec(n)| - 1] == Dec(n / 10);
    }
  }

  lemma {:induction false} DecDigits(n: nat)
    ensures forall i | 0 <= i < |Dec(n)| :: IsDigit(Dec(n)[i])
  {
    if n >= 10 {
      DecDigits(n / 10);
    }
  }

  lemma {:induction false} DigitPrefixOf(s: string)
    requires forall i | 0 <= i < |s| :: IsDigit(s[i])
    ensures DigitPrefix(s) == s
  {
    if s != [] {
      DigitPrefixOf(s[1..]);
    }
  }

  // A decimal argument is read back exactly below 2^64 and as 2^64 - 1 from there on.
  lemma StrtoullOfDec(n: nat)
    ensures Strtoull(Dec(n)) == if n < U64_MODULUS then n else U64_MODULUS - 1
  {
    DecRoundTrip(n);
    DecDigits(n);
    DigitPrefixOf(Dec(n));
  }

  lemma {:induction false} DigitPrefixStops(s: string, rest: string)
    requires forall i | 0 <= i < |s| :: IsDigit(s[i])
    requires rest == [] || !IsDigit(rest[0])
    ensures DigitPrefix(s + rest) == s
  {
    if s == [] {
      assert s + rest == rest;
    } else {
      assert (s + rest)[1..] == s[1..] + rest;
      DigitPrefixStops(s[1..], rest);
    }
  }

  // Reading stops at the first character that is not a digit, and yields 0 if that is the very first.
  lemma StrtoullStops(n: nat, rest: string)
    requires rest == [] || !IsDigit(rest[0])
    ensures Strtoull(Dec(n) + rest) == Strtoull(Dec(n)) && Strtoull(rest) == 0
  {
    DecDigits(n);
    DigitPrefixStops(Dec(n), rest);
    DigitPrefixOf(Dec(n));
    DigitPrefixStops([], rest);
    assert [] + rest == rest;
  }

  // ---------- the answer line ----------

  // The line that announces a nonce, without its line end.
  function FoundLine(nonce: nat): string {
    "FOUND " + Dec(nonce)
  }

  // The words between spaces.
  function Word(s: string): (w: string)
    ensures w <= s
  {
    if s == [] || s[0] == ' ' then [] else [s[0]] + Word(s[1..])
  }

  function Split(s: string): seq<string> {
    if s == [] then []
    else if s[0] == ' ' then Split(s[1..])
    else [Word(s)] + Split(s[|Word(s)|..])
  }

  // The nonce that the parent takes from a line: the second word of one that starts with FOUND.
  function ReadFound(line: string): Option<nat> {
    if "FOUND" <= line && |Split(line)| > 1 then DecValue(Split(line)[1]) else None
  }

  lemma {:induction false} WordOf(w: string, rest: string)
    requires forall i | 0 <= i < |w| :: w[i] != ' '
    requires rest == [] || rest[0] == ' '
    ensures Word(w + rest) == w
  {
    if w == [] {
      assert w + rest == rest;
    } else {
      assert (w + rest)[1..] == w[1..] + rest;
      WordOf(w[1..], rest);
    }
  }

  lemma SplitOf(w: string, rest: string)
    requires w != [] && forall i | 0 <= i < |w| :: w[i] != ' '
    requires rest == [] || rest[0] == ' '
    ensures Split(w + rest) == [w] + Split(rest)
  {
    WordOf(w, rest);
    assert (w + rest)[|w|..] == rest;
  }

  // The parent reads back the nonce that the child printed.
  lemma FoundLineRoundTrip(nonce: nat)
    ensures ReadFound(FoundLine(nonce)) == Some(nonce)
  {
    hide Split, Dec, DecValue;
    var d := Dec(nonce);
    DecDigits(nonce);
    DecRoundTrip(nonce);
    assert FoundLine(nonce) == "FOUND" + (" " + d);
    SplitOf("FOUND", " " + d);
    SplitSpace(d);
    assert d + [] == d;
    SplitOf(d, []);
  }

  // Lines that do not announce a nonce, such as NONE, yield none.
  lemma OtherLines(line: string)
    requires !("FOUND" <= line)
    ensures ReadFound(line).None? && ReadFound("NONE").None?
  {
    assert "NONE"[0] != "FOUND"[0];
  }

  lemma SplitSpace(s: string)
    ensures Split(" " + s) == Split(s)
  {
    assert (" " + s)[1..] == s;
  }
}
