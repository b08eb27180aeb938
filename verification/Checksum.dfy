/** The checksums of tcpip.c: ones'-complement sums, against RFC 1071 and section 3.1 of RFC 793. */
module Checksum {
  import opened Bytes

  /** The little-endian word a 16-bit load reads at p; behind an odd end there is a zero. */
  function Word(b: Text, p: nat): (w: nat)
    requires p < |b|
    ensures w < 0x10000
  {
    var lo: nat := b[p];
    var hi: nat := if p + 1 < |b| then b[p + 1] else 0;
    lo + 256 * hi
  }

  /** The sum of all words, carries and all. */
  function Total(b: Text): nat {
    if b == [] then 0 else if |b| == 1 then b[0] else Word(b, 0) + Total(b[2..])
  }

  /** Section 1 of RFC 1071: the 16-bit ones'-complement value of a sum; only zero itself gives zero. */
  function Ones(n: nat): (s: nat)
    ensures s < 0x10000 && (s == 0 <==> n == 0) && (n < 0x10000 ==> s == n)
  {
    if n == 0 then 0 else (n - 1) % 0xffff + 1
  }

  /** `htons` on a little-endian machine. */
  function Swap(w: nat): (r: nat)
    requires w < 0x10000
    ensures r < 0x10000
  {
    w % 256 * 256 + w / 256
  }

  lemma OnesUnique(n: nat, k: nat, m: nat)
    requires n == m + 0xffff * k && (n > 0 ==> m > 0)
    ensures Ones(n) == Ones(m)
  {
  }

  /** Adding the carry back in does not change the ones'-complement value. */
  lemma FoldKeepsOnes(n: nat)
    ensures Ones(n % 0x10000 + n / 0x10000) == Ones(n)
    ensures n >= 0x10000 ==> n % 0x10000 + n / 0x10000 < n
  {
    OnesUnique(n, n / 0x10000, n % 0x10000 + n / 0x10000);
  }

  lemma OnesOfSum(a: nat, b: nat)
    ensures Ones(Ones(a) + b) == Ones(a + b)
  {
    if a > 0 {
      OnesUnique(a + b, (a - 1) / 0xffff, Ones(a) + b);
    }
  }

  /** The common summing loop: sum stays below 2^16 by folding each carry at once. */
  method SumWords(b: Text) returns (sum: nat, rest: Text)
    ensures |b| % 2 == |rest| <= 1 && sum < 0x10000
    ensures rest == b[|b| - |rest|..] && sum == Ones(Total(b[..|b| - |rest|]))
  {
    sum := 0;
    var count, p := |b|, 0;
    assert b[0..] == b && b[..0] == [];
    while count > 1
      invariant 0 <= count && p + count == |b| && p % 2 == 0
      invariant sum < 0x10000 && sum == Ones(Total(b[..p]))
    {
      TotalOneMore(b, p);
      var before := sum;
      sum := sum + Word(b, p);
      OnesOfSum(Total(b[..p]), Word(b, p));
      FoldKeepsOnes(sum);
      if sum >= 0x10000 {
        sum := sum % 0x10000 + sum / 0x10000;
      }
      p, count := p + 2, count - 2;
    }
    rest := b[p..];
  }

  lemma {:induction false} TotalOneMore(b: Text, p: nat)
    requires p % 2 == 0 && p + 1 < |b|
    ensures Total(b[..p + 2]) == Total(b[..p]) + Word(b, p)
    decreases p
  {
    if p == 0 {
      assert b[..2][2..] == [];
    } else {
      assert b[..p + 2][2..] == b[2..][..p] && b[..p][2..] == b[2..][..p - 2];
      TotalOneMore(b[2..], p - 2);
    }
  }

  lemma {:induction false} TotalOfConcat(a: Text, b: Text)
    requires |a| % 2 == 0
    ensures Total(a + b) == Total(a) + Total(b)
  {
    if a == [] {
      assert a + b == b;
    } else {
      assert (a + b)[2..] == a[2..] + b;
      TotalOfConcat(a[2..], b);
    }
  }

  /** `ipv4_chksum`: the complement of the ones'-complement sum of an even number of bytes. With an odd number the
      last byte's carry is not folded, and the result is right if and only if there is none. */
  method Ipv4Chksum(b: Text) returns (r: nat)
    ensures r < 0x10000
    ensures r == 0xffff - Ones(Total(b)) <==>
      |b| % 2 == 0 || Ones(Total(b[..|b| - 1])) + Word(b, |b| - 1) < 0x10000
  {
    hide Total, Ones, Word;
    var sum, rest := SumWords(b);
    if |rest| > 0 {
      OddTotal(b, rest);
      LastWord(b);
      var last: nat := rest[0];
      CarryMatters(sum, last);
      sum := sum + last;
    } else {
      assert b[..|b|] == b;
    }
    r := 0xffff - sum % 0x10000;
  }

  lemma OddTotal(b: Text, rest: Text)
    requires |b| % 2 == 1 && rest == b[|b| - 1..]
    ensures Ones(Total(b)) == Ones(Ones(Total(b[..|b| - 1])) + rest[0])
  {
    assert Total(rest) == rest[0];
    hide *;
    assert b == b[..|b| - 1] + rest;
    TotalOfConcat(b[..|b| - 1], rest);
    OnesOfSum(Total(b[..|b| - 1]), rest[0]);
  }

  lemma LastWord(b: Text)
    requires b != []
    ensures Word(b, |b| - 1) == b[|b| - 1] as nat
  {
  }

  lemma CarryMatters(sum: nat, last: nat)
    requires sum < 0x10000 && last < 0x100
    ensures (sum + last) % 0x10000 == Ones(sum + last) <==> sum + last < 0x10000
  {
    FoldKeepsOnes(sum + last);
  }

  /** Three bytes whose last one carries: the loop's sum 0xffff + 1 is cut to 0, where it should be 1. */
  lemma LostCarry()
    ensures var b: Text := [0xff, 0xff, 1];
      Ones(Total(b)) == 1 && Ones(Total(b[..2])) + Word(b, 2) == 0x10000
  {
    var b: Text := [0xff, 0xff, 1];
    assert b[2..] == [1] && b[..2] == [0xff, 0xff] && b[..2][2..] == [];
    assert Total(b) == Word(b, 0) + Total(b[2..]);
    assert Total(b[..2]) == Word(b[..2], 0) + Total(b[..2][2..]);
  }

  // ---------------------------------------------------------------------------- TCP

  /** The pseudo header of RFC 793: addresses, a zero, the protocol, the segment's length. */
  function PseudoHeader(src: Text, dst: Text, len: nat): Text
    requires |src| == 4 && |dst| == 4 && len < 0x10000
  {
    src + dst + [0, 6, len / 256, len % 256]
  }

  /** What `in_addr_t` holds on a little-endian machine. */
  function Address(a: Text): (n: nat)
    requires |a| == 4
    ensures n % 0x10000 == Word(a, 0) && n / 0x10000 == Word(a, 2)
  {
    Word(a, 0) + 0x10000 * Word(a, 2)
  }

  lemma PseudoTotal(src: Text, dst: Text, len: nat, seg: Text)
    requires |src| == 4 && |dst| == 4 && len < 0x10000
    ensures Total(PseudoHeader(src, dst, len) + seg) ==
      Total(seg) + Word(src, 0) + Word(src, 2) + Word(dst, 0) + Word(dst, 2) + Swap(6) + Swap(len)
  {
    var tail := [0, 6, len / 256, len % 256];
    TotalOfConcat(PseudoHeader(src, dst, len), seg);
    TotalOfConcat(src + dst, tail);
    TotalOfConcat(src, dst);
    TotalOfFour(src);
    TotalOfFour(dst);
    TotalOfFour(tail);
  }

  lemma TotalOfFour(a: Text)
    requires |a| == 4
    ensures Total(a) == Word(a, 0) + Word(a, 2)
  {
    assert a[2..][2..] == [];
    assert Total(a[2..]) == Word(a[2..], 0) == Word(a, 2);
  }

  /** The last loop of `tcp_chksum`. */
  method FoldAll(n: nat) returns (sum: nat)
    requires n < 0x1_0000_0000
    ensures sum == Ones(n)
  {
    sum := n;
    while sum / 0x10000 != 0
      invariant Ones(sum) == Ones(n) && sum < 0x1_0000_0000
      decreases sum
    {
      FoldKeepsOnes(sum);
      sum := sum % 0x10000 + sum / 0x10000;
    }
  }

  /** `tcp_chksum`: the complement of the ones'-complement sum of pseudo header and segment;
      no intermediate sum leaves 32 bits. */
  method TcpChksum(seg: Text, src: Text, dst: Text) returns (r: nat)
    requires |seg| < 0x10000 && |src| == 4 && |dst| == 4
    ensures r == 0xffff - Ones(Total(PseudoHeader(src, dst, |seg|) + seg))
  {
    var srcIp, dstIp := Address(src), Address(dst);
    var sum, rest := SumWords(seg);
    ghost var even := seg[..|seg| - |rest|];
    assert seg == even + rest;
    TotalOfConcat(even, rest);
    if |rest| > 0 {
      var last: nat := rest[0];
      sum := sum + last;
    }
    assert sum == Ones(Total(even)) + Total(rest);
    sum := sum + (srcIp % 0x10000 + srcIp / 0x10000);
    sum := sum + (dstIp % 0x10000 + dstIp / 0x10000);
    sum := sum + Swap(6);
    sum := sum + Swap(|seg|);
    PseudoTotal(src, dst, |seg|, seg);
    hide Word, Swap, PseudoHeader, Total, Ones;
    OnesOfSum(Total(even), sum - Ones(Total(even)));
    sum := FoldAll(sum);
    r := 0xffff - sum;
  }

  // ------------------------------------------------------------------- consequences

  /** The segment with r stored, as the machine stores it, in the check field at offset 16. */
  function WithCheck(seg: Text, r: nat): Text
    requires |seg| >= 18 && r < 0x10000
  {
    seg[..16] + [r % 256, r / 256] + seg[18..]
  }

  lemma TotalWithCheck(pre: Text, seg: Text, r: nat)
    requires |pre| % 2 == 0 && |seg| >= 18 && seg[16] == seg[17] == 0 && r < 0x10000
    ensures Total(pre + WithCheck(seg, r)) == Total(pre + seg) + r
  {
    var a, c := seg[..16], seg[18..];
    assert seg == a + [0, 0] + c;
    TotalOfConcat(pre, seg);
    TotalOfConcat(pre, WithCheck(seg, r));
    TotalAround(a, [0, 0], c);
    TotalAround(a, [r % 256, r / 256], c);
  }

  lemma TotalAround(a: Text, m: Text, c: Text)
    requires |a| % 2 == 0 && |m| == 2
    ensures Total(a + m + c) == Total(a) + (m[0] + 256 * (m[1] as int)) + Total(c)
  {
    TotalOfConcat(a + m, c);
    TotalOfConcat(a, m);
    assert m[2..] == [];
    assert Total(m) == Word(m, 0);
  }

  /** The receiver's test: storing the checksum makes the checksum of the whole zero. */
  lemma CheckedSumsToZero(pre: Text, seg: Text)
    requires |pre| % 2 == 0 && |seg| >= 18 && seg[16] == seg[17] == 0
    ensures 0xffff - Ones(Total(pre + WithCheck(seg, 0xffff - Ones(Total(pre + seg))))) == 0
  {
    var n := Total(pre + seg);
    TotalWithCheck(pre, seg, 0xffff - Ones(n));
    OnesOfSum(n, 0xffff - Ones(n));
  }

  /** Computes the checksum, stores it, computes it again, as the sender and then the receiver do. */
  method StoreAndCheck(seg: Text, src: Text, dst: Text) returns (sent: Text, check: nat)
    requires 18 <= |seg| < 0x10000 && |src| == 4 && |dst| == 4 && seg[16] == seg[17] == 0
    ensures check == 0 && |sent| == |seg| && sent[..16] == seg[..16] && sent[18..] == seg[18..]
  {
    var r := TcpChksum(seg, src, dst);
    sent := WithCheck(seg, r);
    CheckedSumsToZero(PseudoHeader(src, dst, |seg|), seg);
    check := TcpChksum(sent, src, dst);
  }

  /** The sum in network byte order, as the RFCs write it. */
  function NetworkTotal(b: Text): nat {
    if b == [] then 0
    else if |b| == 1 then 256 * Word(b, 0)
    else Swap(Word(b, 0)) + NetworkTotal(b[2..])
  }

  lemma {:induction false} TotalsAgree(b: Text) returns (k: nat)
    ensures 256 * NetworkTotal(b) == Total(b) + 0xffff * k && (Total(b) == 0 <==> NetworkTotal(b) == 0)
  {
    if b == [] {
      k := 0;
    } else if |b| == 1 {
      k := Word(b, 0);
    } else {
      k := TotalsAgree(b[2..]);
      k := k + Word(b, 0) % 256;
    }
  }

  /** Section 2(B) of RFC 1071: summing little-endian words gives the byte-swapped sum, so the bytes
      stored are those the standard asks for, whatever order the machine adds in. */
  lemma ByteOrderIndependent(b: Text)
    ensures Ones(Total(b)) == Swap(Ones(NetworkTotal(b)))
    ensures 0xffff - Ones(Total(b)) == Swap(0xffff - Ones(NetworkTotal(b)))
  {
    var k := TotalsAgree(b);
    OnesUnique(256 * NetworkTotal(b), k, Total(b));
    OnesScaled(NetworkTotal(b));
    SwapShifts(Ones(NetworkTotal(b)));
    SwapComplements(Ones(NetworkTotal(b)));
  }

  lemma OnesScaled(n: nat)
    ensures Ones(256 * n) == Ones(256 * Ones(n))
  {
    if n > 0 {
      OnesUnique(256 * n, 256 * ((n - 1) / 0xffff), 256 * Ones(n));
    }
  }

  /** Multiplying by 256 is swapping the bytes, in ones'-complement arithmetic. */
  lemma SwapShifts(s: nat)
    requires s < 0x10000
    ensures Ones(256 * s) == Swap(s)
  {
    assert 256 * s == Swap(s) + 0xffff * (s / 256);
    OnesUnique(256 * s, s / 256, Swap(s));
  }

  lemma SwapComplements(s: nat)
    requires s < 0x10000
    ensures Swap(0xffff - s) == 0xffff - Swap(s)
  {
    assert 0xffff - s == 256 * (255 - s / 256) + (255 - s % 256);
  }
}
