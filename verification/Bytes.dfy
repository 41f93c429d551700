/** Machine words of the kernel: bits of unsigned words, little-endian integers,
    and C strings kept in fixed-size buffers. */
module Bytes {
  type byte = x: int | 0 <= x < 256

  const U16: nat := 0x1_0000
  const U32: nat := 0x1_0000_0000

  datatype Option<T> = None | Some(value: T)

  function Min(a: int, b: int): int { if a < b then a else b }

  function Max(a: int, b: int): int { if a < b then b else a }

  // ---------------------------------------------------------------- bits

  function Pow2(n: nat): (p: nat)
    ensures p > 0
  {
    if n == 0 then 1 else 2 * Pow2(n - 1)
  }

  /** `(v >> i) & 1` on an unsigned word. */
  predicate Bit(v: nat, i: nat) {
    if i == 0 then v % 2 == 1 else Bit(v / 2, i - 1)
  }

  /** `v | (1 << i)` */
  function SetBit(v: nat, i: nat): (r: nat) {
    if i == 0 then v / 2 * 2 + 1 else v % 2 + 2 * SetBit(v / 2, i - 1)
  }

  /** `v & ~(1 << i)` */
  function ClearBit(v: nat, i: nat): (r: nat)
    ensures r <= v
  {
    if i == 0 then v / 2 * 2 else v % 2 + 2 * ClearBit(v / 2, i - 1)
  }

  /** `v | w` */
  function Or(v: nat, w: nat): (r: nat)
    decreases v + w
  {
    if v == 0 then w else if w == 0 then v
    else (if v % 2 == 1 || w % 2 == 1 then 1 else 0) + 2 * Or(v / 2, w / 2)
  }

  lemma {:induction false} OrFits(v: nat, w: nat, n: nat)
    requires v < Pow2(n) && w < Pow2(n)
    ensures Or(v, w) < Pow2(n)
  {
    if n > 0 { OrFits(v / 2, w / 2, n - 1); }
  }

  lemma OrStep(v: nat, w: nat)
    requires v > 0 && w > 0
    ensures Or(v, w) / 2 == Or(v / 2, w / 2) && (Or(v, w) % 2 == 1 <==> v % 2 == 1 || w % 2 == 1)
  {}

  lemma {:induction false} OrAt(v: nat, w: nat, i: nat)
    ensures Bit(Or(v, w), i) <==> Bit(v, i) || Bit(w, i)
    decreases i
  {
    if v == 0 || w == 0 {
      ZeroBits(i);
    } else {
      OrStep(v, w);
      hide Or;
      if i > 0 { OrAt(v / 2, w / 2, i - 1); }
    }
  }

  lemma {:induction false} SetBitAt(v: nat, i: nat, j: nat)
    ensures Bit(SetBit(v, i), j) <==> j == i || Bit(v, j)
  {
    if i > 0 {
      assert SetBit(v, i) / 2 == SetBit(v / 2, i - 1);
      if j > 0 { SetBitAt(v / 2, i - 1, j - 1); }
    }
  }

  lemma {:induction false} ClearBitAt(v: nat, i: nat, j: nat)
    ensures Bit(ClearBit(v, i), j) <==> j != i && Bit(v, j)
  {
    if i > 0 {
      assert ClearBit(v, i) / 2 == ClearBit(v / 2, i - 1);
      if j > 0 { ClearBitAt(v / 2, i - 1, j - 1); }
    }
  }

  lemma SetBitFits(v: nat, i: nat, n: nat)
    requires v < Pow2(n) && i < n
    ensures SetBit(v, i) < Pow2(n)
  {
    if i > 0 {
      SetBitFits(v / 2, i - 1, n - 1);
    }
  }

  lemma ZeroBits(i: nat)
    ensures !Bit(0, i)
  {
    if i > 0 { ZeroBits(i - 1); }
  }

  /** A word that is all ones has every bit set, so a search may skip it. */
  lemma {:induction false} FullWord(n: nat, i: nat)
    requires i < n
    ensures Bit(Pow2(n) - 1, i)
  {
    if i > 0 {
      assert (Pow2(n) - 1) / 2 == Pow2(n - 1) - 1;
      FullWord(n - 1, i - 1);
    }
  }

  lemma PowersOfTwo()
    ensures Pow2(8) == 256 && Pow2(32) == U32
  {
    assert Pow2(8) == 256;
    PowAdds(8, 8);
    PowAdds(16, 16);
  }

  lemma {:induction false} PowAdds(m: nat, n: nat)
    ensures Pow2(m + n) == Pow2(m) * Pow2(n)
  {
    if m > 0 { PowAdds(m - 1, n); }
  }

  /** Bit i is the binary digit of weight 2^i. */
  lemma {:induction false} BitIsDigit(v: nat, i: nat)
    ensures Bit(v, i) <==> v / Pow2(i) % 2 == 1
  {
    if i > 0 {
      BitIsDigit(v / 2, i - 1);
      DivTwice(v, Pow2(i - 1));
    }
  }

  lemma DivTwice(v: nat, n: nat)
    requires n > 0
    ensures v / (2 * n) == v / 2 / n
  {
    var q, r := v / 2 / n, v / 2 % n;
    assert v == 2 * (q * n + r) + v % 2;
    assert v == q * (2 * n) + (2 * r + v % 2) && 0 <= 2 * r + v % 2 < 2 * n;
    QuotientIs(v, 2 * n, q, 2 * r + v % 2);
  }

  lemma QuotientIs(v: nat, n: nat, q: nat, r: nat)
    requires v == q * n + r && r < n
    ensures v / n == q
  {
    var p := v / n;
    assert v == p * n + v % n;
    Monotone(p + 1, q, n);
    Monotone(q + 1, p, n);
    assert (p + 1) * n == p * n + n && (q + 1) * n == q * n + n;
  }

  lemma Monotone(p: nat, q: nat, n: nat)
    ensures p <= q ==> p * n <= q * n
  {}

  /** The bits of a number put together from two parts. */
  lemma {:induction false} BitSplit(high: nat, low: nat, n: nat, k: nat)
    requires low < Pow2(n)
    ensures Bit(high * Pow2(n) + low, k) <==> if k < n then Bit(low, k) else Bit(high, k - n)
    decreases n
  {
    if n > 0 {
      var v := high * Pow2(n) + low;
      assert v == 2 * (high * Pow2(n - 1)) + low;
      assert v / 2 == high * Pow2(n - 1) + low / 2 && v % 2 == low % 2;
      if k > 0 { BitSplit(high, low / 2, n - 1, k - 1); }
    }
  }

  // ---------------------------------------------------------------- little-endian integers

  function PutU16(v: nat): (r: seq<byte>)
    ensures |r| == 2
  {
    [v % 256, (v / 256) % 256]
  }

  function GetU16(b: seq<byte>): (v: nat)
    requires |b| == 2
    ensures v < U16
  {
    var b0: int, b1: int := b[0], b[1];
    b0 + 256 * b1
  }

  function PutU32(v: nat): (r: seq<byte>)
    ensures |r| == 4
  {
    [v % 256, (v / 256) % 256, (v / 0x1_0000) % 256, (v / 0x100_0000) % 256]
  }

  function GetU32(b: seq<byte>): (v: nat)
    requires |b| == 4
    ensures v < U32
  {
    var b0: int, b1: int, b2: int, b3: int := b[0], b[1], b[2], b[3];
    b0 + 256 * b1 + 0x1_0000 * b2 + 0x100_0000 * b3
  }

  function PutBe32(v: nat): (r: seq<byte>)
    requires v < U32
    ensures |r| == 4
  {
    [v / 0x100_0000, v / 0x1_0000 % 256, v / 256 % 256, v % 256]
  }

  function GetBe32(b: seq<byte>): (v: nat)
    requires |b| >= 4
    ensures v < U32
  {
    var b0: int, b1: int, b2: int, b3: int := b[0], b[1], b[2], b[3];
    0x100_0000 * b0 + 0x1_0000 * b1 + 256 * b2 + b3
  }

  lemma Be32RoundTrip(v: nat)
    requires v < U32
    ensures GetBe32(PutBe32(v)) == v
  {
    var a, b, c := v / 256, v / 0x1_0000, v / 0x100_0000;
    assert b == a / 256 && c == b / 256;
    assert v == v % 256 + 256 * (a % 256) + 0x1_0000 * (b % 256) + 0x100_0000 * c;
  }

  lemma U16RoundTrip(v: nat)
    requires v < U16
    ensures GetU16(PutU16(v)) == v
  {
  }

  lemma U32RoundTrip(v: nat)
    requires v < U32
    ensures GetU32(PutU32(v)) == v
  {
    var a, b, c := v / 256, v / 0x1_0000, v / 0x100_0000;
    assert b == a / 256 && c == b / 256;
    assert v == v % 256 + 256 * (a % 256) + 0x1_0000 * (b % 256) + 0x100_0000 * c;
  }

  // ---------------------------------------------------------------- C strings

  /** The C string held in a buffer: everything before the first NUL. */
  function CStr(b: seq<byte>): (r: seq<byte>)
    ensures |r| <= |b| && r == b[..|r|] && 0 !in r
    ensures |r| < |b| ==> b[|r|] == 0
  {
    if b == [] || b[0] == 0 then [] else [b[0]] + CStr(b[1..])
  }

  lemma {:induction false} CStrOfPrefix(s: seq<byte>, rest: seq<byte>)
    requires 0 !in s
    ensures CStr(s + [0] + rest) == s
  {
    if s != [] {
      assert (s + [0] + rest)[1..] == s[1..] + [0] + rest;
      CStrOfPrefix(s[1..], rest);
    }
  }

  /** The kernel's bounded string copies (`bscpy`, `vstrcpy`, `ustrcpy`): at most |dst|-1
      characters, then a NUL; the bytes of the buffer behind the NUL keep their old value. */
  function CopyStr(dst: seq<byte>, src: seq<byte>): (r: seq<byte>)
    requires |dst| > 0
    ensures |r| == |dst| && forall i | Min(|src|, |dst| - 1) < i < |dst| :: r[i] == dst[i]
  {
    var n := Min(|src|, |dst| - 1);
    src[..n] + [0] + dst[n + 1..]
  }

  lemma CopyStrReads(dst: seq<byte>, src: seq<byte>)
    requires |dst| > 0 && 0 !in src
    ensures CStr(CopyStr(dst, src)) == src[..Min(|src|, |dst| - 1)]
    ensures 0 in CopyStr(dst, src)
  {
    var n := Min(|src|, |dst| - 1);
    CStrOfPrefix(src[..n], dst[n + 1..]);
    assert CopyStr(dst, src)[n] == 0;
  }

  // ---------------------------------------------------------------- sequences

  /** One more element of an overwrite that proceeds from left to right. */
  lemma OverwriteStep<T>(was: seq<T>, at: nat, chunk: seq<T>, i: nat)
    requires i < |chunk| && at + |chunk| <= |was|
    ensures (was[..at] + chunk[..i] + was[at + i..])[at + i := chunk[i]] == was[..at] + chunk[..i + 1] + was[at + i + 1..]
  {
  }

  lemma SliceShift<T>(d: seq<T>, base: nat, lo: nat, hi: nat)
    requires base <= lo <= hi <= |d|
    ensures d[lo..hi] == d[base..][lo - base..hi - base]
  {
  }
}
