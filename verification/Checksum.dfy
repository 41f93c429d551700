/** The Internet checksum of kernel/net/net.c: 16-bit words read in the machine's little-endian order,
    summed in 32 bits and folded (sections 1 and 2 of RFC 1071). */
module Checksum {
  import opened Bytes

  newtype uint32 = x: int | 0 <= x < 0x1_0000_0000

  /** The sum of the little-endian words; a last odd byte counts as it is. */
  function Sum(b: seq<byte>): (s: nat)
    ensures s <= 0xFFFF * ((|b| + 1) / 2)
  {
    if |b| == 0 then 0 else if |b| == 1 then b[0] else b[0] + 256 * b[1] + Sum(b[2..])
  }

  /** The sum of the big-endian words; a last odd byte is the high half of a word, as in the RFC. */
  function SumNetwork(b: seq<byte>): (s: nat) {
    if |b| == 0 then 0 else if |b| == 1 then 256 * b[0] else 256 * b[0] + b[1] + SumNetwork(b[2..])
  }

  /** End-around carry until the sum fits 16 bits. */
  function Fold(s: nat): (r: nat)
    ensures r < 0x1_0000
  {
    if s < 0x1_0000 then s else Fold(s % 0x1_0000 + s / 0x1_0000)
  }

  function Checksum(b: seq<byte>): (c: nat)
    ensures c < 0x1_0000
  {
    0xFFFF - Fold(Sum(b))
  }

  /** The checksum as the RFC defines it on network-order words. */
  function NetworkChecksum(b: seq<byte>): (c: nat)
    ensures c < 0x1_0000
  {
    0xFFFF - Fold(SumNetwork(b))
  }

  // ---------------------------------------------------------------- folding

  /** The fold is the residue modulo 65535 in 1..65535, and 0 for 0 alone. */
  lemma {:induction false} FoldIsResidue(s: nat)
    ensures Fold(s) == if s == 0 then 0 else (s - 1) % 0xFFFF + 1
  {
    if s >= 0x1_0000 {
      var next := s % 0x1_0000 + s / 0x1_0000;
      FoldIsResidue(next);
      SameResidue(next, s, s / 0x1_0000);
    }
  }

  lemma SameResidue(m: nat, n: nat, k: nat)
    requires 0 < m && n == m + 0xFFFF * k
    ensures (m - 1) % 0xFFFF == (n - 1) % 0xFFFF
  {}

  /** A value in 1..65535 that differs from a positive sum by a multiple of 65535 is its fold. */
  lemma FoldUnique(s: nat, r: nat, k: int)
    requires 0 < r <= 0xFFFF && 0 < s && s == r + 0xFFFF * k
    ensures Fold(s) == r
  {
    FoldIsResidue(s);
    hide Fold;
    assert (s - 1) == (r - 1) + 0xFFFF * k && 0 <= r - 1 < 0xFFFF;
    assert (s - 1) / 0xFFFF == k;
  }

  lemma FoldQuotient(s: nat) returns (k: nat)
    ensures s == Fold(s) + 0xFFFF * k && (Fold(s) == 0 <==> s == 0)
  {
    FoldIsResidue(s);
    k := if s == 0 then 0 else (s - 1) / 0xFFFF;
  }

  // ---------------------------------------------------------------- sums

  lemma {:induction false} SumAppends(a: seq<byte>, b: seq<byte>)
    requires |a| % 2 == 0
    ensures Sum(a + b) == Sum(a) + Sum(b)
  {
    if a == [] {
      assert a + b == b;
    } else {
      SumAppends(a[2..], b);
      assert (a + b)[2..] == a[2..] + b;
    }
  }

  /** The little-endian word at k. */
  function Word(b: seq<byte>, k: nat): (w: nat)
    requires k + 1 < |b|
    ensures w < 0x1_0000
  {
    var low: int, high: int := b[k], b[k + 1];
    low + 256 * high
  }

  lemma SumAround(b: seq<byte>, k: nat)
    requires k + 1 < |b| && k % 2 == 0
    ensures Sum(b) == Sum(b[..k]) + Word(b, k) + Sum(b[k + 2..])
  {
    SumAppends(b[..k], b[k..]);
    assert b == b[..k] + b[k..] && b[k..][2..] == b[k + 2..];
  }

  /** `b` with the 16-bit word at k stored in machine order. */
  function PutWord(b: seq<byte>, k: nat, w: nat): (r: seq<byte>)
    requires k + 1 < |b| && w < 0x1_0000
    ensures |r| == |b|
  {
    b[k := w % 256][k + 1 := w / 256]
  }

  lemma SumPutWord(b: seq<byte>, k: nat, w: nat)
    requires k + 1 < |b| && k % 2 == 0 && w < 0x1_0000
    ensures Sum(PutWord(b, k, w)) + Word(b, k) == Sum(b) + w
  {
    var r := PutWord(b, k, w);
    SumAround(b, k);
    SumAround(r, k);
    assert r[..k] == b[..k] && r[k + 2..] == b[k + 2..];
  }

  /** Storing the checksum in a zeroed aligned field makes the checksum of the whole 0. */
  lemma StoredChecksumVerifies(b: seq<byte>, k: nat)
    requires k + 1 < |b| && k % 2 == 0 && b[k] == 0 && b[k + 1] == 0
    ensures Checksum(PutWord(b, k, Checksum(b))) == 0
  {
    var c := Checksum(b);
    SumPutWord(b, k, c);
    var q := FoldQuotient(Sum(b));
    FoldUnique(Sum(b) + c, 0xFFFF, q);
  }

  lemma VerifiesIff(b: seq<byte>)
    ensures Checksum(b) == 0 <==> Sum(b) > 0 && Sum(b) % 0xFFFF == 0
  {
    FoldIsResidue(Sum(b));
    hide Sum, Fold;
  }

  lemma MultiplesClose(s: int, t: int)
    requires s % 0xFFFF == 0 && -0xFFFF <= t - s <= 0xFFFF
    ensures t % 0xFFFF == 0 <==> t == s || t == s + 0xFFFF || t == s - 0xFFFF
  {}

  /** A packet whose checksum verifies no longer does after a change of one aligned word, unless the
      change is between 0 and 65535, the two zeros of one's-complement arithmetic. */
  lemma OneWordChangeShows(b: seq<byte>, k: nat, w: nat)
    requires k + 1 < |b| && k % 2 == 0 && w < 0x1_0000 && Checksum(b) == 0
    ensures var was := Word(b, k);
            Checksum(PutWord(b, k, w)) == 0 <==>
            was == w || (was == 0 && w == 0xFFFF) || (was == 0xFFFF && w == 0 && Sum(b) > 0xFFFF)
  {
    SumPutWord(b, k, w);
    VerifiesIff(b);
    VerifiesIff(PutWord(b, k, w));
    MultiplesClose(Sum(b), Sum(PutWord(b, k, w)));
    hide Sum, Checksum, PutWord, Word;
  }

  // ---------------------------------------------------------------- byte order

  function Swap(w: nat): (r: nat)
    requires w < 0x1_0000
    ensures r < 0x1_0000 && (r == 0 <==> w == 0)
  {
    w % 256 * 256 + w / 256
  }

  /** Exchanging the bytes of every word multiplies the sum by 256 modulo 65535. */
  lemma {:induction false} SumsDiffer(b: seq<byte>) returns (k: nat)
    ensures 256 * Sum(b) == SumNetwork(b) + 0xFFFF * k && (Sum(b) == 0 <==> SumNetwork(b) == 0)
  {
    if |b| < 2 {
      k := 0;
    } else {
      k := SumsDiffer(b[2..]);
      k := k + b[1];
    }
  }

  lemma SwapIsTimes256(w: nat)
    requires w < 0x1_0000
    ensures 256 * w == Swap(w) + 0xFFFF * (w / 256)
    ensures 0xFFFF - Swap(w) == Swap(0xFFFF - w) && Swap(Swap(w)) == w
    ensures w % 256 == Swap(w) / 256 && w / 256 == Swap(w) % 256
  {
    var high, low := w / 256, w % 256;
    assert 0xFFFF - w == 256 * (255 - high) + (255 - low);
    SwapOf(high, low);
    SwapOf(255 - high, 255 - low);
    SwapOf(low, high);
    hide Swap;
  }

  lemma SwapOf(high: nat, low: nat)
    requires high < 256 && low < 256
    ensures Swap(256 * high + low) == 256 * low + high
  {
    assert (256 * high + low) % 256 == low && (256 * high + low) / 256 == high;
  }

  /** The machine's checksum is the network-order checksum with its bytes exchanged, so storing it in
      machine order puts the network-order checksum's bytes on the wire. */
  lemma MachineOrderIsNetworkOrder(b: seq<byte>)
    ensures Checksum(b) == Swap(NetworkChecksum(b))
    ensures Checksum(b) % 256 == NetworkChecksum(b) / 256 && Checksum(b) / 256 == NetworkChecksum(b) % 256
  {
    var k := SumsDiffer(b);
    var n := SumNetwork(b);
    var f := Fold(Sum(b));
    var q := FoldQuotient(Sum(b));
    SwapIsTimes256(f);
    SwapIsTimes256(0xFFFF - f);
    hide Sum, SumNetwork, Fold, Swap;
    if n > 0 {
      FoldUnique(n, Swap(f), 256 * q + f / 256 - k);
    }
    FoldIsResidue(0);
  }

  // ---------------------------------------------------------------- the loops

  method FoldCarries(s: uint32) returns (c: uint32)
    ensures c as nat == Fold(s as nat) && c < 0x1_0000
  {
    c := s;
    while c / 0x1_0000 != 0
      decreases c
      invariant Fold(c as nat) == Fold(s as nat)
    {
      c := c % 0x1_0000 + c / 0x1_0000;
    }
  }

  /** The two summing loops: `sum` plus the words of data[..len]. */
  method AddWords(sum: uint32, data: array<byte>, len: nat) returns (r: uint32)
    requires len <= data.Length && len < 0x1_0000 && sum <= 0x6_0000
    ensures r as nat == sum as nat + Sum(data[..len])
  {
    r := sum;
    var p, left := 0, len;
    assert data[0..len] == data[..len];
    while left > 1
      invariant p + left == len && p % 2 == 0
      invariant r as nat + Sum(data[p..len]) == sum as nat + Sum(data[..len])
    {
      assert data[p..len][2..] == data[p + 2..len];
      r := r + (data[p] as uint32 + 256 * data[p + 1] as uint32);
      p, left := p + 2, left - 2;
    }
    if left > 0 {
      r := r + data[p] as uint32;
    }
  }

  method NetChecksum(data: array<byte>, len: nat) returns (c: uint32)
    requires len <= data.Length && len < 0x1_0000
    ensures c as nat == Checksum(data[..len])
  {
    var sum := AddWords(0, data, len);
    sum := FoldCarries(sum);
    c := 0xFFFF - sum;
  }

  /** The pseudo-header: source, destination, zero, protocol 17, length, all in network order. */
  function PseudoHeader(src: nat, dst: nat, len: nat): (b: seq<byte>)
    requires src < U32 && dst < U32 && len < 0x1_0000
    ensures |b| == 12
  {
    PutBe32(src) + PutBe32(dst) + [0, 17, len / 256, len % 256]
  }

  /** The fields of the pseudo-header of RFC 768, read back in network order. */
  lemma PseudoFields(src: nat, dst: nat, len: nat)
    requires src < U32 && dst < U32 && len < 0x1_0000
    ensures var b := PseudoHeader(src, dst, len);
            GetBe32(b) == src && GetBe32(b[4..]) == dst && b[8] == 0 && b[9] == 17 && 256 * b[10] as int + b[11] as int == len
  {
    Be32RoundTrip(src);
    Be32RoundTrip(dst);
    var b := PseudoHeader(src, dst, len);
    assert b[..4] == PutBe32(src) && b[4..8] == PutBe32(dst);
    assert b[4..][0] == b[4..8][0] && b[4..][1] == b[4..8][1] && b[4..][2] == b[4..8][2] && b[4..][3] == b[4..8][3];
    assert b[0] == b[..4][0] && b[1] == b[..4][1] && b[2] == b[..4][2] && b[3] == b[..4][3];
    hide PutBe32, PseudoHeader;
  }

  method Pseudo(src: nat, dst: nat, len: nat) returns (pseudo: array<byte>)
    requires src < U32 && dst < U32 && len < 0x1_0000
    ensures fresh(pseudo) && pseudo[..] == PseudoHeader(src, dst, len)
  {
    pseudo := new byte[12];
    pseudo[0], pseudo[1], pseudo[2], pseudo[3] := src / 0x100_0000, src / 0x1_0000 % 256, src / 256 % 256, src % 256;
    pseudo[4], pseudo[5], pseudo[6], pseudo[7] := dst / 0x100_0000, dst / 0x1_0000 % 256, dst / 256 % 256, dst % 256;
    pseudo[8], pseudo[9], pseudo[10], pseudo[11] := 0, 17, len / 256, len % 256;
  }

  /** A datagram with its checksum stored in the UDP header verifies over the addresses the sender summed. */
  lemma StoredUdpVerifies(src: nat, dst: nat, seg: seq<byte>)
    requires src < U32 && dst < U32 && 8 <= |seg| < 0x1_0000 && seg[6] == 0 && seg[7] == 0
    ensures var header := PseudoHeader(src, dst, |seg|);
            Checksum(header + PutWord(seg, 6, Checksum(header + seg))) == 0
  {
    hide PseudoHeader, Checksum;
    var header := PseudoHeader(src, dst, |seg|);
    StoredChecksumVerifies(header + seg, 18);
    var c := Checksum(header + seg);
    assert header + PutWord(seg, 6, c) == PutWord(header + seg, 18, c);
  }

  // ---------------------------------------------------------------- the addresses on the wire

  function Htonl(x: nat): (r: nat)
    requires x < U32
    ensures r < U32
  {
    x / 0x100_0000 + x / 0x1_0000 % 256 * 256 + x / 256 % 256 * 0x1_0000 + x % 256 * 0x100_0000
  }

  /** An address as raw_ip4_send puts it into the IP header: swapped by htonl, then taken from the top. */
  function WireAddress(a: nat): (b: seq<byte>)
    requires a < U32
    ensures |b| == 4
  {
    PutBe32(Htonl(a))
  }

  /** The pseudo-header a receiver builds from the addresses in the IP header. */
  function WireHeader(src: nat, dst: nat, len: nat): (b: seq<byte>)
    requires src < U32 && dst < U32 && len < 0x1_0000
    ensures |b| == 12
  {
    WireAddress(src) + WireAddress(dst) + [0, 17, len / 256, len % 256]
  }

  /** Both swaps together reverse the four bytes. */
  lemma WireAddressReversed(a: nat)
    requires a < U32
    ensures var b, w := PutBe32(a), WireAddress(a); w[0] == b[3] && w[1] == b[2] && w[2] == b[1] && w[3] == b[0]
  {
    var x, y, z := a / 0x100_0000, a / 0x1_0000 % 256, a / 256 % 256;
    var h := Htonl(a);
    assert h == x + 256 * (y + 256 * (z + 256 * (a % 256)));
    ThreeBytes(x, y, z, a % 256);
  }

  lemma ThreeBytes(x: nat, y: nat, z: nat, w: nat)
    requires x < 256 && y < 256 && z < 256 && w < 256
    ensures var h := x + 256 * (y + 256 * (z + 256 * w));
            h % 256 == x && h / 256 % 256 == y && h / 0x1_0000 % 256 == z && h / 0x100_0000 == w
  {
    var h2 := z + 256 * w;
    var h1 := y + 256 * h2;
    var h := x + 256 * h1;
    assert h2 % 256 == z && h2 / 256 == w;
    assert h1 % 256 == y && h1 / 256 == h2;
    assert h % 256 == x && h / 256 == h1;
    assert h / 0x1_0000 == h1 / 256 && h / 0x100_0000 == h2 / 256;
  }

  /** By how much (in units of 255) reversing its bytes lowers the sum of an address a0.a1.a2.a3. */
  function Skew(a: nat): int
    requires a < U32
  {
    var b := PutBe32(a);
    var b0: int, b1: int, b2: int, b3: int := b[0], b[1], b[2], b[3];
    b1 - b2 - b0 + b3
  }

  lemma SumOfFour(b: seq<byte>)
    requires |b| == 4
    ensures Sum(b) == Word(b, 0) + Word(b, 2)
  {
    assert b[2..][2..] == [] && b[2..][0] == b[2] && b[2..][1] == b[3];
  }

  lemma SumReversed(a: nat)
    requires a < U32
    ensures Sum(WireAddress(a)) == Sum(PutBe32(a)) - 255 * Skew(a)
  {
    WireAddressReversed(a);
    hide PutBe32, WireAddress, Sum;
    SumOfFour(PutBe32(a));
    SumOfFour(WireAddress(a));
  }

  lemma SumOfThree(a: seq<byte>, b: seq<byte>, c: seq<byte>, d: seq<byte>)
    requires |a| % 2 == 0 && |b| % 2 == 0 && |c| % 2 == 0
    ensures Sum(a + b + c + d) == Sum(a) + Sum(b) + Sum(c) + Sum(d)
  {
    hide Sum;
    var ab := a + b;
    var abc := ab + c;
    assert |ab| % 2 == 0 && |abc| % 2 == 0;
    SumAppends(abc, d);
    SumAppends(ab, c);
    SumAppends(a, b);
  }

  lemma WireSum(src: nat, dst: nat, seg: seq<byte>, len: nat)
    requires src < U32 && dst < U32 && len < 0x1_0000
    ensures var wire := Sum(WireHeader(src, dst, len) + seg);
            wire > 0 && wire == Sum(PseudoHeader(src, dst, len) + seg) - 255 * (Skew(src) + Skew(dst))
  {
    hide PutBe32, WireAddress, Sum, Skew;
    var tail: seq<byte> := [0, 17, len / 256, len % 256];
    TailIsPositive(len);
    SumOfThree(PutBe32(src), PutBe32(dst), tail, seg);
    SumOfThree(WireAddress(src), WireAddress(dst), tail, seg);
    SumReversed(src);
    SumReversed(dst);
  }

  /** The datagram as it arrives, checked over the addresses in its IP header, verifies exactly when the
      skews of the two addresses cancel modulo 257. */
  lemma StoredUdpOnWireIff(src: nat, dst: nat, seg: seq<byte>)
    requires src < U32 && dst < U32 && 8 <= |seg| < 0x1_0000 && seg[6] == 0 && seg[7] == 0
    ensures var stored := PutWord(seg, 6, Checksum(PseudoHeader(src, dst, |seg|) + seg));
            Checksum(WireHeader(src, dst, |seg|) + stored) == 0 <==> (Skew(src) + Skew(dst)) % 257 == 0
  {
    hide Checksum, PutWord, PseudoHeader, WireHeader, Sum, Skew;
    var stored := PutWord(seg, 6, Checksum(PseudoHeader(src, dst, |seg|) + seg));
    StoredUdpVerifies(src, dst, seg);
    VerifiesIff(PseudoHeader(src, dst, |seg|) + stored);
    VerifiesIff(WireHeader(src, dst, |seg|) + stored);
    WireSum(src, dst, stored, |seg|);
    SkewsCancel(Sum(PseudoHeader(src, dst, |seg|) + stored), Skew(src) + Skew(dst));
  }

  lemma TailIsPositive(len: nat)
    requires len < 0x1_0000
    ensures Sum([0, 17, len / 256, len % 256]) > 0
  {
    var tail: seq<byte> := [0, 17, len / 256, len % 256];
    SumOfFour(tail);
    hide Sum;
  }

  lemma SkewsCancel(s: int, v: int)
    requires s % 0xFFFF == 0
    ensures (s - 255 * v) % 0xFFFF == 0 <==> v % 257 == 0
  {
    assert 0xFFFF == 255 * 257;
    var q := s / 0xFFFF;
    assert s == 255 * (257 * q);
    if v % 257 == 0 {
      assert 255 * v == 0xFFFF * (v / 257);
    }
    if (s - 255 * v) % 0xFFFF == 0 {
      var p := (s - 255 * v) / 0xFFFF;
      assert 255 * v == 255 * (257 * (q - p));
    }
  }

  /** From 10.0.2.15 to 10.0.2.3, the addresses of an emulator's user network, nothing verifies. */
  lemma UserNetworkFails(seg: seq<byte>)
    requires 8 <= |seg| < 0x1_0000 && seg[6] == 0 && seg[7] == 0
    ensures var src, dst := 0x0A00_020F, 0x0A00_0203;
            var stored := PutWord(seg, 6, Checksum(PseudoHeader(src, dst, |seg|) + seg));
            PutBe32(src) == [10, 0, 2, 15] && PutBe32(dst) == [10, 0, 2, 3] && Checksum(WireHeader(src, dst, |seg|) + stored) != 0
  {
    hide Checksum, PseudoHeader, WireHeader, Skew, PutWord;
    StoredUdpOnWireIff(0x0A00_020F, 0x0A00_0203, seg);
    UserNetworkSkews();
  }

  lemma UserNetworkSkews()
    ensures PutBe32(0x0A00_020F) == [10, 0, 2, 15] && PutBe32(0x0A00_0203) == [10, 0, 2, 3]
    ensures Skew(0x0A00_020F) == 3 && Skew(0x0A00_0203) == -9
  {
    assert PutBe32(0x0A00_020F) == [10, 0, 2, 15];
    assert PutBe32(0x0A00_0203) == [10, 0, 2, 3];
    hide PutBe32;
  }

  /** udp_checksum is the checksum of the pseudo-header followed by the segment. */
  method UdpChecksum(src: nat, dst: nat, seg: array<byte>, len: nat) returns (c: uint32)
    requires src < U32 && dst < U32 && len <= seg.Length && len < 0x1_0000
    ensures c as nat == Checksum(PseudoHeader(src, dst, len) + seg[..len])
  {
    var pseudo := Pseudo(src, dst, len);
    hide PseudoHeader, Sum;
    assert pseudo[..12] == pseudo[..];
    var sum := AddWords(0, pseudo, 12);
    sum := AddWords(sum, seg, len);
    SumAppends(PseudoHeader(src, dst, len), seg[..len]);
    sum := FoldCarries(sum);
    c := 0xFFFF - sum;
  }
}
