/** The base 64 codec of base64.c on bytes, against section 4 of RFC 4648. */
module Base64 {
  import opened Bytes

  const EQ: bv8 := 61 // '='

  /** The encoding table `base`. */
  function Alphabet(i: bv8): (c: bv8)
    requires i < 64
    ensures c <= 122 && c != EQ && c != 13 && Value(c) == i
  {
    if i < 26 then i + 65          // A-Z
    else if i < 52 then i + 71     // a-z
    else if i < 62 then i - 4      // 0-9
    else if i == 62 then 43 else 47 // + and /
  }

  /** The decoding table `esab`: 123 entries, 0 for characters outside the alphabet. */
  function Value(c: bv8): (i: bv8)
    requires c <= 122
    ensures i < 64
  {
    if 65 <= c <= 90 then c - 65
    else if 97 <= c then c - 71
    else if 48 <= c <= 57 then c + 4
    else if c == 43 then 62
    else if c == 47 then 63 else 0
  }

  // ------------------------------------------------------- the standard, by 24-bit groups

  function Group(b1: bv8, b2: bv8, b3: bv8): bv24 {
    ((b1 as bv24) << 16) | ((b2 as bv24) << 8) | (b3 as bv24)
  }

  /** The j-th 6-bit group, from the left. */
  function Sextet(g: bv24, j: nat): (i: bv8)
    requires j < 4
    ensures i < 64
  {
    var s: bv24 := if j == 0 then g >> 18 else if j == 1 then g >> 12 else if j == 2 then g >> 6 else g;
    (s & 0x3f) as bv8
  }

  function Symbol(g: bv24, j: nat): (c: bv8)
    requires j < 4
    ensures c <= 122 && c != EQ && c != 13
  {
    Alphabet(Sextet(g, j))
  }

  /** One quantum of RFC 4648: three bytes as four symbols; short input is filled up
      with zero bits and the missing symbols with '='. */
  function Quantum(b: Octets): (q: Octets)
    requires 1 <= |b| <= 3
    ensures |q| == 4
  {
    var g := Group(b[0], if |b| > 1 then b[1] else 0, if |b| > 2 then b[2] else 0);
    [Symbol(g, 0), Symbol(g, 1), if |b| == 1 then EQ else Symbol(g, 2), if |b| <= 2 then EQ else Symbol(g, 3)]
  }

  /** Section 4 of RFC 4648. */
  function Encoding(b: Octets): (c: Octets)
    ensures |c| == 4 * ((|b| + 2) / 3) && |c| % 4 == 0
  {
    hide Quantum;
    Quanta(|b|);
    if b == [] then [] else if |b| <= 3 then Quantum(b) else Quantum(b[..3]) + Encoding(b[3..])
  }

  lemma Quanta(n: nat)
    ensures n == 0 ==> (n + 2) / 3 == 0
    ensures 1 <= n <= 3 ==> (n + 2) / 3 == 1
    ensures n > 3 ==> (n + 2) / 3 == 1 + (n - 3 + 2) / 3
    ensures 4 * ((n + 2) / 3) % 4 == 0
  {
  }

  // -------------------------------------------------------------------- `base64_encode`

  /** Three bytes written as the code writes them. */
  function Encode3(t1: bv8, t2: bv8, t3: bv8): Octets {
    [Alphabet(t1 >> 2), Alphabet(((t1 << 4) & 0x3f) | (t2 >> 4)),
     Alphabet(((t2 << 2) & 0x3f) | (t3 >> 6)), Alphabet(t3 & 0x3f)]
  }

  lemma SextetsOfGroup(t1: bv8, t2: bv8, t3: bv8)
    ensures var g := Group(t1, t2, t3);
      && Sextet(g, 0) == t1 >> 2
      && Sextet(g, 1) == ((t1 << 4) & 0x3f) | (t2 >> 4)
      && Sextet(g, 2) == ((t2 << 2) & 0x3f) | (t3 >> 6)
      && Sextet(g, 3) == t3 & 0x3f
  {
  }

  lemma ShortGroups(t1: bv8, t2: bv8)
    ensures ((t1 << 4) & 0x3f) | ((0 as bv8) >> 4) == (t1 << 4) & 0x3f
    ensures ((t2 << 2) & 0x3f) | ((0 as bv8) >> 6) == (t2 << 2) & 0x3f
    ensures (t2 & 0xf0) >> 4 == t2 >> 4
  {
  }

  /** What `base64_encode` writes for three bytes, and for the one or two left over, is the quantum. */
  lemma WritesQuantum(t1: bv8, t2: bv8, t3: bv8)
    ensures Encode3(t1, t2, t3) == Quantum([t1, t2, t3])
    ensures [Alphabet(t1 >> 2), Alphabet((t1 << 4) & 0x3f), EQ, EQ] == Quantum([t1])
    ensures [Alphabet(t1 >> 2), Alphabet(((t1 << 4) & 0x3f) | ((t2 & 0xf0) >> 4)), Alphabet((t2 << 2) & 0x3f), EQ] ==
      Quantum([t1, t2])
  {
    SextetsOfGroup(t1, t2, t3);
    SextetsOfGroup(t1, 0, 0);
    SextetsOfGroup(t1, t2, 0);
    ShortGroups(t1, t2);
  }

  lemma EncodingStep(b: Octets)
    requires |b| > 2
    ensures Encoding(b) == Quantum(b[..3]) + Encoding(b[3..])
  {
    assert |b| == 3 ==> b[..3] == b;
  }

  method WriteFour(code: array<bv8>, n: nat, c: Octets)
    requires n + 4 <= code.Length && |c| == 4
    modifies code
    ensures code[..n + 4] == old(code[..n]) + c
    ensures forall k :: n + 4 <= k < code.Length ==> code[k] == old(code[k])
  {
    code[n] := c[0];
    code[n + 1] := c[1];
    code[n + 2] := c[2];
    code[n + 3] := c[3];
  }

  /** One turn of the loop of `base64_encode`: the next three bytes. */
  method EncodeTriple(str: Octets, p: nat, code: array<bv8>, n: nat)
    requires p + 2 < |str| && n + |Encoding(str[p..])| < code.Length
    modifies code
    ensures n + 4 + |Encoding(str[p + 3..])| == n + |Encoding(str[p..])|
    ensures code[..n + 4] + Encoding(str[p + 3..]) == old(code[..n]) + Encoding(str[p..])
    ensures forall k :: n + 4 <= k < code.Length ==> code[k] == old(code[k])
  {
    var t1, t2, t3 := str[p], str[p + 1], str[p + 2];
    EncodingStep(str[p..]);
    WritesQuantum(t1, t2, t3);
    assert str[p..][..3] == [t1, t2, t3] && str[p..][3..] == str[p + 3..];
    WriteFour(code, n, Encode3(t1, t2, t3));
    assert old(code[..n]) + (Quantum([t1, t2, t3]) + Encoding(str[p + 3..])) == code[..n + 4] + Encoding(str[p + 3..]);
  }

  /** The last one or two bytes. */
  method EncodeRest(rest: Octets, code: array<bv8>, n: nat) returns (n': nat)
    requires |rest| <= 2 && n + |Encoding(rest)| <= code.Length
    modifies code
    ensures n' == n + |Encoding(rest)| && code[..n'] == old(code[..n]) + Encoding(rest)
    ensures forall k :: n' <= k < code.Length ==> code[k] == old(code[k])
  {
    n' := n;
    if |rest| == 1 {
      var t1 := rest[0];
      WritesQuantum(t1, 0, 0);
      assert rest == [t1];
      WriteFour(code, n, [Alphabet(t1 >> 2), Alphabet((t1 << 4) & 0x3f), EQ, EQ]);
      n' := n + 4;
    }
    if |rest| == 2 {
      var t1, t2 := rest[0], rest[1];
      WritesQuantum(t1, t2, 0);
      assert rest == [t1, t2];
      WriteFour(code, n,
        [Alphabet(t1 >> 2), Alphabet(((t1 << 4) & 0x3f) | ((t2 & 0xf0) >> 4)), Alphabet((t2 << 2) & 0x3f), EQ]);
      n' := n + 4;
    }
  }

  /** How many cells from code on `base64_encode` writes. */
  function Written(slen: nat, clen: nat): nat {
    if slen == 0 || 4 * clen < 3 * slen then 0 else 4 * ((slen + 2) / 3) + 1
  }

  /** One byte encoded into a buffer of one cell passes the test for room and takes five cells. */
  lemma TestTooWeak()
    ensures Written(1, 1) == 5
    ensures forall slen: nat, clen: nat :: clen > 4 * ((slen + 2) / 3) ==> Written(slen, clen) <= clen
  {
  }

  /** `base64_encode`: the encoding of RFC 4648 and a NUL; 0 if there is nothing to encode, or if clen is below
      three quarters of slen. code is the memory the caller's clen cells begin; the test for room lets the
      encoding run past them exactly when clen does not exceed the encoding's length. */
  method Encode(str: Octets, code: array<bv8>, clen: nat) returns (n: nat)
    requires Written(|str|, clen) <= code.Length
    modifies code
    ensures n == if str == [] || 4 * clen < 3 * |str| then 0 else |Encoding(str)|
    ensures n > 0 ==> n < code.Length && code[..n] == Encoding(str) && code[n] == 0
    ensures forall k :: Written(|str|, clen) <= k < code.Length ==> code[k] == old(code[k])
    ensures Written(|str|, clen) == if n > 0 then n + 1 else 0
    ensures Written(|str|, clen) > clen <==> str != [] && 3 * |str| <= 4 * clen && clen <= |Encoding(str)|
  {
    if |str| == 0 || 4 * clen < 3 * |str| {
      return 0;
    }
    WrittenIs(str, clen);
    hide Written;
    n := EncodeAll(str, code);
  }

  lemma WrittenIs(str: Octets, clen: nat)
    requires str != [] && 4 * clen >= 3 * |str|
    ensures Written(|str|, clen) == |Encoding(str)| + 1 && |Encoding(str)| > 0
  {
    hide Encoding;
  }

  /** The groups of three, the rest, and the NUL. */
  method EncodeAll(str: Octets, code: array<bv8>) returns (n: nat)
    requires |Encoding(str)| < code.Length
    modifies code
    ensures n == |Encoding(str)| && code[..n] == Encoding(str) && code[n] == 0
    ensures forall k :: n < k < code.Length ==> code[k] == old(code[k])
  {
    hide Encoding, Quantum;
    var slen, p := |str|, 0;
    n := 0;
    while slen > 2
      invariant 0 <= slen && p + slen == |str| && n + |Encoding(str[p..])| == |Encoding(str)|
      invariant code[..n] + Encoding(str[p..]) == Encoding(str)
      invariant forall k :: n <= k < code.Length ==> code[k] == old(code[k])
    {
      EncodeTriple(str, p, code, n);
      p := p + 3;
      n, slen := n + 4, slen - 3;
    }
    n := EncodeRest(str[p..], code, n);
    code[n] := 0;
  }
}
