/** `base64_decode`, against the encoding. */
module Base64Decode {
  import opened Base64
  import opened Bytes

  /** How many of the four characters are '='. */
  function Signs(q: Octets): (n: nat)
    requires |q| == 4
  {
    (if q[0] == EQ then 1 else 0) + (if q[1] == EQ then 1 else 0)
    + (if q[2] == EQ then 1 else 0) + if q[3] == EQ then 1 else 0
  }

  /** `base64_equal_sign` */
  method EqualSign(code: Octets, p: nat) returns (n: int)
    requires p + 4 <= |code|
    ensures n == Signs(code[p..p + 4])
  {
    n := 0;
    for i := 0 to 4
      invariant n == (if i > 0 && code[p] == EQ then 1 else 0) + (if i > 1 && code[p + 1] == EQ then 1 else 0)
                   + (if i > 2 && code[p + 2] == EQ then 1 else 0) + if i > 3 && code[p + 3] == EQ then 1 else 0
    {
      if code[p + i] == EQ {
        n := n + 1;
      }
    }
  }

  /** The decoding table has 123 entries. */
  ghost predicate InTable(code: Octets) {
    forall i :: 0 <= i < |code| ==> code[i] <= 122
  }

  function First(c1: bv8, c2: bv8): bv8
    requires c1 <= 122 && c2 <= 122
  {
    (Value(c1) << 2) | (Value(c2) >> 4)
  }

  function Second(c2: bv8, c3: bv8): bv8
    requires c2 <= 122 && c3 <= 122
  {
    (Value(c2) << 4) | (Value(c3) >> 2)
  }

  function Third(c3: bv8, c4: bv8): bv8
    requires c3 <= 122 && c4 <= 122
  {
    (Value(c3) << 6) | Value(c4)
  }

  /** Four symbols read as three bytes. */
  function Decode4(q: Octets): (b: Octets)
    requires |q| == 4 && InTable(q)
    ensures |b| == 3
  {
    [First(q[0], q[1]), Second(q[1], q[2]), Third(q[2], q[3])]
  }

  lemma BitsReturn(t1: bv8, t2: bv8, t3: bv8)
    ensures ((t1 >> 2) << 2) | ((((t1 << 4) & 0x3f) | (t2 >> 4)) >> 4) == t1
    ensures ((((t1 << 4) & 0x3f) | (t2 >> 4)) << 4) | ((((t2 << 2) & 0x3f) | (t3 >> 6)) >> 2) == t2
    ensures ((((t2 << 2) & 0x3f) | (t3 >> 6)) << 6) | (t3 & 0x3f) == t3
  {
  }

  lemma GroupReturns(t1: bv8, t2: bv8, t3: bv8)
    ensures var g := Group(t1, t2, t3);
      && (Sextet(g, 0) << 2) | (Sextet(g, 1) >> 4) == t1
      && (Sextet(g, 1) << 4) | (Sextet(g, 2) >> 2) == t2
      && (Sextet(g, 2) << 6) | Sextet(g, 3) == t3
  {
    SextetsOfGroup(t1, t2, t3);
    BitsReturn(t1, t2, t3);
  }

  lemma SymbolsReturn(t1: bv8, t2: bv8, t3: bv8)
    ensures var g := Group(t1, t2, t3);
      && First(Symbol(g, 0), Symbol(g, 1)) == t1
      && Second(Symbol(g, 1), Symbol(g, 2)) == t2
      && Third(Symbol(g, 2), Symbol(g, 3)) == t3
  {
    GroupReturns(t1, t2, t3);
  }

  /** Decoding undoes one quantum; of a padded one, the bytes that are there. */
  lemma QuantumReturns(b: Octets)
    requires 1 <= |b| <= 3
    ensures InTable(Quantum(b)) && Signs(Quantum(b)) == 3 - |b|
    ensures Quantum(b)[0] != EQ && Quantum(b)[1] != EQ && Quantum(b)[0] != 13
    ensures |b| == 2 ==> Quantum(b)[2] != EQ && Quantum(b)[3] == EQ
    ensures |b| == 3 ==> Decode4(Quantum(b)) == b
    ensures First(Quantum(b)[0], Quantum(b)[1]) == b[0]
    ensures |b| == 2 ==> Second(Quantum(b)[1], Quantum(b)[2]) == b[1]
  {
    SymbolsReturn(b[0], if |b| > 1 then b[1] else 0, if |b| > 2 then b[2] else 0);
  }

  /** The two bytes of a group that ends in one '='. */
  function OnePad(mem: Octets): Octets
    requires |mem| >= 4 && (Signs(mem[..4]) == 1 ==> InTable(mem[..3]))
  {
    if Signs(mem[..4]) == 1 then [First(mem[0], mem[1]), Second(mem[1], mem[2])] else []
  }

  /** The one byte of a group that ends in two. */
  function TwoPads(mem: Octets): Octets
    requires |mem| >= 4 && (Signs(mem[..4]) == 2 ==> InTable(mem[..2]))
  {
    if Signs(mem[..4]) == 2 then [First(mem[0], mem[1])] else []
  }

  /** Where the code stands after the first of its two tests: three characters on, at the '='. */
  function AfterOnePad(mem: Octets): Octets
    requires |mem| >= 4
  {
    if Signs(mem[..4]) == 1 then mem[3..] else mem
  }

  /** The characters the two tests read are there, and those they look up are in the table. */
  ghost predicate EndLegible(mem: Octets) {
    && |mem| >= 4 && (Signs(mem[..4]) == 1 ==> |mem| >= 7 && InTable(mem[..3]))
    && var rest := AfterOnePad(mem);
    Signs(rest[..4]) == 2 ==> InTable(rest[..2])
  }

  /** What the code makes of the rest once a group contains '=': it tests for one sign, steps over
      three characters if so, and then tests the four characters it now stands on for two. */
  function End(mem: Octets): Octets
    requires EndLegible(mem)
  {
    OnePad(mem) + TwoPads(AfterOnePad(mem))
  }

  /** Every character read for clen characters at the start of mem is there, and every one looked up is in
      the table. Only a last group with one '=' makes the code read behind the text, and only a second
      padding found there makes it look up what it read. */
  ghost predicate Legible(mem: Octets, clen: nat) {
    clen < 4 ||
    (|mem| >= 4 && if Signs(mem[..4]) == 0 then InTable(mem[..4]) && Legible(mem[4..], clen - 4) else EndLegible(mem))
  }

  /** Everything `base64_decode` makes of clen characters at the start of mem, were there room for it. */
  function Decoded(mem: Octets, clen: nat): Octets
    requires Legible(mem, clen)
  {
    if clen < 4 then []
    else if Signs(mem[..4]) == 0 then Decode4(mem[..4]) + Decoded(mem[4..], clen - 4)
    else End(mem)
  }

  /** As Legible, but only as far as the code goes before it finds that room is short. */
  ghost predicate Readable(mem: Octets, clen: nat, room: nat) {
    clen < 4 ||
    (|mem| >= 4 &&
    if Signs(mem[..4]) == 0 then InTable(mem[..4]) && (room >= 3 ==> Readable(mem[4..], clen - 4, room - 3))
    else (Signs(mem[..4]) == 1 ==> InTable(mem[..3])) && (|OnePad(mem)| <= room ==> EndLegible(mem)))
  }

  /** The bytes `base64_decode` stores when it is told that there are room cells: it tests for room behind each
      group and behind each padding, and stops once it has stored too much. */
  function Stored(mem: Octets, clen: nat, room: nat): Octets
    requires Readable(mem, clen, room)
  {
    if clen < 4 then []
    else if Signs(mem[..4]) == 0 then
      Decode4(mem[..4]) + if room >= 3 then Stored(mem[4..], clen - 4, room - 3) else []
    else OnePad(mem) + if |OnePad(mem)| <= room then TwoPads(AfterOnePad(mem)) else []
  }

  /** How many cells that takes: there is a NUL behind what fits. */
  function Touched(stored: nat, room: nat): nat {
    if stored <= room then stored + 1 else stored
  }

  /** What fits is stored whole, and of what does not fit so much that it shows. */
  lemma {:induction false} StoredFits(mem: Octets, clen: nat, room: nat)
    requires Legible(mem, clen)
    ensures Readable(mem, clen, room) && Stored(mem, clen, room) <= Decoded(mem, clen)
    ensures |Decoded(mem, clen)| <= room ==> Stored(mem, clen, room) == Decoded(mem, clen)
    ensures |Decoded(mem, clen)| > room ==> |Stored(mem, clen, room)| > room
    decreases clen
  {
    if clen >= 4 && Signs(mem[..4]) == 0 && room >= 3 {
      StoredFits(mem[4..], clen - 4, room - 3);
    }
  }

  /** Cells past the room are written if and only if the decoded bytes fill it. */
  lemma PastIffFull(mem: Octets, clen: nat, room: nat)
    requires Legible(mem, clen)
    ensures Readable(mem, clen, room)
    ensures Touched(|Stored(mem, clen, room)|, room) > room <==> |Decoded(mem, clen)| >= room
  {
    StoredFits(mem, clen, room);
  }

  /** "AAAA" are three bytes, and with room for three a fourth cell is written. */
  lemma NulPastRoom()
    ensures var mem: Octets := [65, 65, 65, 65];
      Readable(mem, 4, 3) && Stored(mem, 4, 3) == [0, 0, 0] && Touched(3, 3) == 4
  {
    var mem: Octets := [65, 65, 65, 65];
    assert mem[..4] == mem && mem[4..] == [];
  }

  /** After a group with one '=', one more '=' among the next three characters is taken for padding too. */
  ghost predicate Overrun(b: Octets, after: Octets) {
    |b| % 3 == 2 && |after| >= 3 && Signs([EQ] + after[..3]) == 2
  }

  /** ... and one byte too many comes out. */
  ghost function Extra(b: Octets, after: Octets): Octets
    requires Overrun(b, after) ==> after[0] <= 122
  {
    if Overrun(b, after) then [First(EQ, after[0])] else []
  }

  /** What lies behind a text is there if it is read, and in the table if it is looked up. */
  ghost predicate Behind(b: Octets, after: Octets) {
    (|b| % 3 == 2 ==> |after| >= 3) && (Overrun(b, after) ==> after[0] <= 122)
  }

  lemma FullQuantum(b: Octets, rest: Octets, n: nat)
    requires |b| == 3 && Legible(rest, n)
    ensures Legible(Quantum(b) + rest, n + 4) && Decoded(Quantum(b) + rest, n + 4) == b + Decoded(rest, n)
  {
    QuantumReturns(b);
    assert (Quantum(b) + rest)[..4] == Quantum(b) && (Quantum(b) + rest)[4..] == rest;
  }

  lemma PaddedQuantum(b: Octets, after: Octets)
    requires 1 <= |b| <= 2 && Behind(b, after)
    ensures Signs((Quantum(b) + after)[..4]) == 3 - |b|
    ensures EndLegible(Quantum(b) + after) && End(Quantum(b) + after) == b + Extra(b, after)
  {
    QuantumReturns(b);
    var mem := Quantum(b) + after;
    assert mem[..4] == Quantum(b) && mem[..3] == Quantum(b)[..3] && mem[..2] == Quantum(b)[..2];
    if |b| == 2 {
      assert mem[3..][..4] == [EQ] + after[..3];
      assert mem[3..][..2] == [EQ, after[0]];
      assert b == [b[0], b[1]];
    } else {
      assert b == [b[0]];
    }
  }

  lemma EncodingOfConcat(a: Octets, b: Octets)
    requires |a| == 3
    ensures Encoding(a + b) == Quantum(a) + Encoding(b)
  {
    assert (a + b)[..3] == a && (a + b)[3..] == b;
    EncodingStep(a + b);
  }

  lemma ExtraOfConcat(a: Octets, b: Octets, after: Octets)
    requires |a| == 3 && Behind(b, after)
    ensures Behind(a + b, after) && Extra(a + b, after) == Extra(b, after)
  {
  }

  lemma DecodedStep(a: Octets, b: Octets, after: Octets)
    requires |a| == 3 && Behind(b, after) && Legible(Encoding(b) + after, |Encoding(b)|)
    requires Decoded(Encoding(b) + after, |Encoding(b)|) == b + Extra(b, after)
    ensures Behind(a + b, after) && Legible(Encoding(a + b) + after, |Encoding(a + b)|)
    ensures Decoded(Encoding(a + b) + after, |Encoding(a + b)|) == a + b + Extra(a + b, after)
  {
    hide Quantum, Signs, Legible, Decoded, Encoding, Overrun, Decode4, First;
    ExtraOfConcat(a, b, after);
    EncodingOfConcat(a, b);
    var rest, n, e := Encoding(b) + after, |Encoding(b)|, Extra(b, after);
    FullQuantum(a, rest, n);
    assert Encoding(a + b) + after == Quantum(a) + rest && |Encoding(a + b)| == n + 4;
    hide *;
    assert a + (b + e) == a + b + e;
  }

  lemma {:induction false} DecodedEncoding(b: Octets, after: Octets)
    requires Behind(b, after)
    ensures Legible(Encoding(b) + after, |Encoding(b)|)
    ensures Decoded(Encoding(b) + after, |Encoding(b)|) == b + Extra(b, after)
  {
    if b == [] {
      assert Encoding(b) + after == after;
    } else if |b| <= 2 {
      PaddedQuantum(b, after);
    } else {
      assert Behind(b[3..], after);
      hide *;
      DecodedEncoding(b[3..], after);
      DecodedStep(b[..3], b[3..], after);
      assert b[..3] + b[3..] == b;
    }
  }

  /** `base64_decode` undoes `base64_encode` if and only if the bytes behind the text do not
      happen to complete a second padding. */
  lemma RoundTripIff(b: Octets, after: Octets)
    requires |b| % 3 == 2 ==> |after| >= 3
    ensures !Overrun(b, after) <==>
      Legible(Encoding(b) + after, |Encoding(b)|) && Decoded(Encoding(b) + after, |Encoding(b)|) == b
  {
    if Behind(b, after) {
      DecodedEncoding(b, after);
    } else {
      NotLegible(b, after);
    }
  }

  lemma QuantumIllegible(b: Octets, after: Octets)
    requires |b| == 2 && Overrun(b, after) && after[0] > 122
    ensures !Legible(Encoding(b) + after, |Encoding(b)|)
  {
    assert Encoding(b) == Quantum(b);
    QuantumReturns(b);
    var q, mem := Quantum(b), Quantum(b) + after;
    hide Quantum;
    assert mem[..4] == q && mem[3..][..4] == [EQ] + after[..3];
    assert mem[3..][..2][1] == after[0];
  }

  /** A second padding that is no symbol is looked up outside the table. */
  lemma {:induction false} NotLegible(b: Octets, after: Octets)
    requires Overrun(b, after) && after[0] > 122
    ensures !Legible(Encoding(b) + after, |Encoding(b)|)
  {
    assert |b| == 2 || (|b| >= 3 && Overrun(b[3..], after));
    hide *;
    if |b| == 2 {
      QuantumIllegible(b, after);
    } else {
      NotLegible(b[3..], after);
      IllegibleStep(b[..3], b[3..], after);
      assert b[..3] + b[3..] == b;
    }
  }

  lemma IllegibleStep(a: Octets, b: Octets, after: Octets)
    requires |a| == 3 && !Legible(Encoding(b) + after, |Encoding(b)|)
    ensures !Legible(Encoding(a + b) + after, |Encoding(a + b)|)
  {
    hide *;
    EncodingOfConcat(a, b);
    IllegibleLater(a, Encoding(b) + after, |Encoding(b)|);
    assert Quantum(a) + Encoding(b) + after == Quantum(a) + (Encoding(b) + after);
  }

  lemma IllegibleLater(a: Octets, rest: Octets, n: nat)
    requires |a| == 3 && !Legible(rest, n)
    ensures !Legible(Quantum(a) + rest, n + 4)
  {
    QuantumReturns(a);
    hide Quantum;
    assert (Quantum(a) + rest)[..4] == Quantum(a) && (Quantum(a) + rest)[4..] == rest;
  }

  /** The two bytes 0 and 0 encode to "AAA="; with another '=' behind that, three bytes come back. */
  lemma ExtraByte()
    ensures Overrun([0, 0], [EQ, 65, 65]) && !Overrun([0, 0], [65, 65, 65])
    ensures !Overrun([0, 0], [EQ, EQ, 65])
    ensures |Encoding([0, 0])| == 4 && |Decoded(Encoding([0, 0]) + [EQ, 65, 65], 4)| == 3
  {
    DecodedEncoding([0, 0], [EQ, 65, 65]);
  }

  // -------------------------------------------------------------------- the method

  /** The output area holds out, at its start. */
  ghost predicate Holds(str: array<bv8>, out: Octets)
    reads str
  {
    |out| <= str.Length && str[..|out|] == out
  }

  method Put(str: array<bv8>, n: nat, c: bv8, ghost out: Octets)
    requires n == |out| && n < str.Length && Holds(str, out)
    modifies str
    ensures Holds(str, out + [c])
    ensures forall k :: 0 <= k < str.Length && k != n ==> str[k] == old(str[k])
  {
    str[n] := c;
    assert str[..n] == out;
  }

  /** One group of four without '='. */
  method StoreGroup(code: Octets, p: nat, str: array<bv8>, scnt: nat, ghost out: Octets)
    requires p + 4 <= |code| && InTable(code[p..p + 4])
    requires scnt == |out| && scnt + 3 <= str.Length && Holds(str, out)
    modifies str
    ensures Holds(str, out + Decode4(code[p..p + 4]))
    ensures forall k :: scnt + 3 <= k < str.Length ==> str[k] == old(str[k])
  {
    ghost var g := code[p..p + 4];
    assert code[p] == g[0] && code[p + 1] == g[1] && code[p + 2] == g[2] && code[p + 3] == g[3];
    hide First, Second, Third;
    var b1, b2, b3 := First(code[p], code[p + 1]), Second(code[p + 1], code[p + 2]), Third(code[p + 2], code[p + 3]);
    Put(str, scnt, b1, out);
    Put(str, scnt + 1, b2, out + [b1]);
    Put(str, scnt + 2, b3, out + [b1] + [b2]);
    assert out + [b1] + [b2] + [b3] == out + [b1, b2, b3];
  }

  lemma At(code: Octets, p: nat)
    requires p + 4 <= |code|
    ensures code[p..p + 4] == code[p..][..4]
    ensures forall i :: 0 <= i < 4 ==> code[p..][i] == code[p + i]
    ensures InTable(code[p..][..3]) ==> code[p] <= 122 && code[p + 1] <= 122 && code[p + 2] <= 122
    ensures InTable(code[p..][..2]) ==> code[p] <= 122 && code[p + 1] <= 122
    ensures code[p + 3..] == code[p..][3..]
  {
    assert forall i :: 0 <= i < 3 ==> code[p..][..3][i] == code[p + i];
    assert forall i :: 0 <= i < 2 ==> code[p..][..2][i] == code[p + i];
  }

  /** The test for one '=' after the loop. */
  method StoreOnePad(code: Octets, p: nat, str: array<bv8>, scnt: nat, ghost out: Octets)
    returns (n: nat, q: nat, seen: bool)
    requires p + 4 <= |code| && (Signs(code[p..][..4]) == 1 ==> InTable(code[p..][..3]))
    requires scnt == |out| && Holds(str, out) && scnt + |OnePad(code[p..])| <= str.Length
    modifies str
    ensures Holds(str, out + OnePad(code[p..])) && n == |out + OnePad(code[p..])|
    ensures q <= |code| && code[q..] == AfterOnePad(code[p..]) && seen == (Signs(code[p..][..4]) == 1)
    ensures forall k :: n <= k < str.Length ==> str[k] == old(str[k])
  {
    At(code, p);
    n, q, seen := scnt, p, false;
    var signs := EqualSign(code, p);
    hide Signs, InTable, First, Second;
    if signs == 1 {
      var b1, b2 := First(code[p], code[p + 1]), Second(code[p + 1], code[p + 2]);
      Put(str, n, b1, out);
      Put(str, n + 1, b2, out + [b1]);
      assert out + [b1] + [b2] == out + [b1, b2];
      n, q, seen := n + 2, p + 3, true;
    }
  }

  /** The test for two. */
  method StoreTwoPads(code: Octets, p: nat, str: array<bv8>, scnt: nat, ghost out: Octets) returns (n: nat)
    requires p + 4 <= |code| && (Signs(code[p..][..4]) == 2 ==> InTable(code[p..][..2]))
    requires scnt == |out| && Holds(str, out) && scnt + |TwoPads(code[p..])| <= str.Length
    modifies str
    ensures Holds(str, out + TwoPads(code[p..])) && n == |out + TwoPads(code[p..])|
    ensures forall k :: n <= k < str.Length ==> str[k] == old(str[k])
  {
    At(code, p);
    n := scnt;
    var signs := EqualSign(code, p);
    hide Signs, InTable, First;
    if signs == 2 {
      Put(str, n, First(code[p], code[p + 1]), out);
      n := n + 1;
    }
  }

  /** out is what is stored for the first p of clen characters, and the rest is still to come. */
  ghost predicate Decoding(code: Octets, clen: nat, slen: nat, p: nat, out: Octets) {
    && Readable(code, clen, slen) && p <= clen && p <= |code| && (clen - p) % 4 == 0 && |out| <= slen
    && Readable(code[p..], clen - p, slen - |out|)
    && out + Stored(code[p..], clen - p, slen - |out|) == Stored(code, clen, slen)
  }

  lemma DecodingStarts(code: Octets, clen: nat, slen: nat)
    requires Readable(code, clen, slen) && clen % 4 == 0
    ensures Decoding(code, clen, slen, 0, [])
  {
    assert code[0..] == code;
    assert [] + Stored(code, clen, slen) == Stored(code, clen, slen);
  }

  lemma DecodingReads(code: Octets, clen: nat, slen: nat, p: nat, out: Octets)
    requires Decoding(code, clen, slen, p, out) && p < clen
    ensures p + 4 <= clen && (clen - (p + 4)) % 4 == 0
    ensures p + 4 <= |code| && code[p..p + 4] == code[p..][..4] && code[p + 4..] == code[p..][4..]
    ensures Signs(code[p..][..4]) == 0 ==> InTable(code[p..p + 4])
  {
    assert (clen - p) % 4 == 0 && clen - p > 0;
  }

  lemma DecodingParts(code: Octets, clen: nat, slen: nat, p: nat, out: Octets)
    requires Decoding(code, clen, slen, p, out)
    ensures Readable(code, clen, slen) && p <= clen && p <= |code| && |out| <= slen
    ensures Readable(code[p..], clen - p, slen - |out|)
    ensures out + Stored(code[p..], clen - p, slen - |out|) == Stored(code, clen, slen)
    ensures |out| <= |Stored(code, clen, slen)|
  {
  }

  lemma StoredStep(mem: Octets, left: nat, room: nat)
    requires Readable(mem, left, room) && left >= 4 && |mem| >= 4 && Signs(mem[..4]) == 0
    ensures InTable(mem[..4]) && (room >= 3 ==> Readable(mem[4..], left - 4, room - 3))
    ensures Stored(mem, left, room) ==
      Decode4(mem[..4]) + if room >= 3 then Stored(mem[4..], left - 4, room - 3) else []
  {
  }

  lemma Longer(out: Octets, d: Octets, rest: Octets)
    ensures out + (d + rest) == out + d + rest && out + d + [] == out + d
  {
  }

  /** A group without '=' goes on ... */
  lemma DecodingGoesOn(code: Octets, clen: nat, slen: nat, p: nat, out: Octets)
    requires Decoding(code, clen, slen, p, out) && p < clen && p + 4 <= |code| && Signs(code[p..][..4]) == 0
    requires |out| + 3 <= slen
    ensures InTable(code[p..p + 4]) && Decoding(code, clen, slen, p + 4, out + Decode4(code[p..p + 4]))
  {
    hide *;
    DecodingReads(code, clen, slen, p, out);
    DecodingParts(code, clen, slen, p, out);
    StoredStep(code[p..], clen - p, slen - |out|);
    var d := Decode4(code[p..p + 4]);
    Longer(out, d, Stored(code[p..][4..], clen - p - 4, slen - |out| - 3));
    DecodingIf(code, clen, slen, p + 4, out + d);
  }

  /** ... or is the last one stored. */
  lemma DecodingStops(code: Octets, clen: nat, slen: nat, p: nat, out: Octets)
    requires Decoding(code, clen, slen, p, out) && p < clen && p + 4 <= |code| && Signs(code[p..][..4]) == 0
    requires |out| + 3 > slen
    ensures InTable(code[p..p + 4]) && out + Decode4(code[p..p + 4]) == Stored(code, clen, slen)
  {
    hide *;
    DecodingReads(code, clen, slen, p, out);
    DecodingParts(code, clen, slen, p, out);
    StoredStep(code[p..], clen - p, slen - |out|);
    Longer(out, Decode4(code[p..p + 4]), []);
  }

  lemma DecodingIf(code: Octets, clen: nat, slen: nat, p: nat, out: Octets)
    requires Readable(code, clen, slen) && p <= clen && p <= |code| && (clen - p) % 4 == 0 && |out| <= slen
    requires Readable(code[p..], clen - p, slen - |out|)
    requires out + Stored(code[p..], clen - p, slen - |out|) == Stored(code, clen, slen)
    ensures Decoding(code, clen, slen, p, out)
  {
  }

  lemma DecodingEnds(code: Octets, clen: nat, slen: nat, p: nat, out: Octets)
    requires Decoding(code, clen, slen, p, out)
    ensures p == clen ==> out == Stored(code, clen, slen)
    ensures p < clen && |code[p..]| >= 4 && Signs(code[p..][..4]) != 0 ==>
      && (Signs(code[p..][..4]) == 1 ==> InTable(code[p..][..3]))
      && (|out + OnePad(code[p..])| <= slen ==> EndLegible(code[p..]))
    ensures p < clen && |code[p..]| >= 4 && Signs(code[p..][..4]) != 0 ==>
      Stored(code, clen, slen) == out + OnePad(code[p..]) +
        if |out + OnePad(code[p..])| <= slen then TwoPads(AfterOnePad(code[p..])) else []
  {
    assert out + [] == out;
    var mem := code[p..];
    if p < clen && |mem| >= 4 && Signs(mem[..4]) != 0 {
      var one := OnePad(mem);
      var two := if |one| <= slen - |out| then TwoPads(AfterOnePad(mem)) else [];
      assert out + (one + two) == out + one + two;
    }
  }

  /** The loop of `base64_decode`: groups without '=' until the text ends, one has a '=', or room is short. */
  method StoreGroups(code: Octets, clen: nat, str: array<bv8>, slen: nat)
    returns (p: nat, scnt: nat, ghost out: Octets)
    requires clen % 4 == 0 && Readable(code, clen, slen) && |Stored(code, clen, slen)| <= str.Length
    modifies str
    ensures scnt == |out| && Holds(str, out)
    ensures scnt > slen ==> out == Stored(code, clen, slen)
    ensures scnt <= slen ==>
      Decoding(code, clen, slen, p, out) && (p == clen || (p + 4 <= |code| && Signs(code[p..][..4]) != 0))
    ensures forall k :: scnt <= k < str.Length ==> str[k] == old(str[k])
  {
    p, scnt, out := 0, 0, [];
    DecodingStarts(code, clen, slen);
    while p < clen
      invariant Decoding(code, clen, slen, p, out) && scnt == |out| && Holds(str, out)
      invariant forall k :: scnt <= k < str.Length ==> str[k] == old(str[k])
    {
      DecodingReads(code, clen, slen, p, out);
      var signs := EqualSign(code, p);
      hide Decoding, Signs, Decode4, Readable, Stored, InTable;
      if signs != 0 {
        return;
      }
      if scnt + 3 <= slen {
        DecodingGoesOn(code, clen, slen, p, out);
        DecodingParts(code, clen, slen, p + 4, out + Decode4(code[p..p + 4]));
      } else {
        DecodingStops(code, clen, slen, p, out);
      }
      StoreGroup(code, p, str, scnt, out);
      out := out + Decode4(code[p..p + 4]);
      p, scnt := p + 4, scnt + 3;
      if scnt > slen {
        return;
      }
    }
  }

  /** Both tests, each followed by the check for room. */
  method StoreEnd(code: Octets, p: nat, str: array<bv8>, scnt: nat, slen: nat, ghost out: Octets)
    returns (n: nat, ghost end: Octets)
    requires p + 4 <= |code| && (Signs(code[p..][..4]) == 1 ==> InTable(code[p..][..3]))
    requires |out + OnePad(code[p..])| <= slen ==> EndLegible(code[p..])
    requires scnt == |out| && Holds(str, out) && |out + OnePad(code[p..])| <= str.Length
    requires |out + OnePad(code[p..])| <= slen ==>
      |out + OnePad(code[p..]) + TwoPads(AfterOnePad(code[p..]))| <= str.Length
    modifies str
    ensures Holds(str, end) && n == |end|
    ensures end == out + OnePad(code[p..]) +
      if |out + OnePad(code[p..])| <= slen then TwoPads(AfterOnePad(code[p..])) else []
    ensures forall k :: n <= k < str.Length ==> str[k] == old(str[k])
  {
    ghost var one := out + OnePad(code[p..]);
    var q, seen;
    n, q, seen := StoreOnePad(code, p, str, scnt, out);
    end := one;
    assert one + [] == one;
    hide InTable, OnePad, Signs, TwoPads;
    if n <= slen {
      n := StoreTwoPads(code, q, str, n, one);
      end := one + TwoPads(code[q..]);
    }
  }

  /** `base64_decode`: 0 if there is nothing to do, if the length is no multiple of four, or if what it stores
      does not fit; else the number of bytes stored, with a NUL behind them. No other cell is written. */
  method Decode(code: Octets, clen: nat, str: array<bv8>, slen: nat) returns (n: nat)
    requires clen % 4 == 0 && slen > 0 && clen > 0 ==>
      Readable(code, clen, slen) && Touched(|Stored(code, clen, slen)|, slen) <= str.Length
    modifies str
    ensures clen == 0 || clen % 4 != 0 || slen == 0 ==> n == 0 && str[..] == old(str[..])
    ensures clen > 0 && clen % 4 == 0 && slen > 0 ==> var stored := Stored(code, clen, slen);
      && n == (if |stored| <= slen then |stored| else 0)
      && Holds(str, stored) && (|stored| <= slen ==> |stored| < str.Length && str[|stored|] == 0)
      && forall k :: Touched(|stored|, slen) <= k < str.Length ==> str[k] == old(str[k])
  {
    if clen == 0 || slen == 0 {
      return 0;
    }
    if clen % 4 != 0 {
      return 0;
    }
    var p, scnt;
    ghost var out;
    p, scnt, out := StoreGroups(code, clen, str, slen);
    if scnt > slen {
      return 0;
    }
    DecodingEnds(code, clen, slen, p, out);
    hide Stored, OnePad, TwoPads, InTable, Readable, Signs, EndLegible, Decoding, AfterOnePad;
    if p < clen {
      scnt, out := StoreEnd(code, p, str, scnt, slen, out);
      if scnt > slen {
        return 0;
      }
    }
    str[scnt] := 0;
    assert str[..scnt] == out;
    return scnt;
  }
}
