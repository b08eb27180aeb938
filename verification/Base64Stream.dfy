/** `base64_decode_stream`: decoding a text that may be wrapped and may be cut anywhere. */
module Base64Stream {
  import opened Base64
  import opened Base64Decode
  import opened Bytes

  const CR: bv8 := 13
  const LF: bv8 := 10

  /** What a call gives back: the bytes at the start of the output area, how many more it counts without
      having written them, and how many characters it leaves. */
  datatype Streamed = Streamed(out: Octets, unset: nat, left: int)

  /** How the streaming decoder ends. It does not step on in the output area after a group with one '=', so
      the byte of a second padding replaces the group's first byte, and a third byte is counted unwritten. */
  function StreamEnd(mem: Octets, left: int): Streamed
    requires EndLegible(mem)
  {
    var rest := AfterOnePad(mem);
    var one, two := Signs(mem[..4]) == 1, Signs(rest[..4]) == 2;
    Streamed(
      if one && two then TwoPads(rest) + OnePad(mem)[1..] else OnePad(mem) + TwoPads(rest),
      if one && two then 1 else 0,
      left - (if one then 4 else 0) - if two then 4 else 0)
  }

  function Prepend(b: Octets, r: Streamed): Streamed {
    r.(out := b + r.out)
  }

  /** Every character the streaming decoder reads is there, and every one it looks up is in the table. */
  ghost predicate StreamLegible(mem: Octets, clen: nat)
    decreases clen
  {
    clen < 4 ||
    (|mem| >= 4 &&
    if Signs(mem[..4]) != 0 then EndLegible(mem)
    else if mem[0] == CR then StreamLegible(mem[2..], clen - 2)
    else InTable(mem[..4]) && StreamLegible(mem[4..], clen - 4))
  }

  /** What one call makes of the first clen bytes of mem: carriage returns at a group boundary are skipped
      together with the byte after them. */
  function Stream(mem: Octets, clen: nat): Streamed
    requires StreamLegible(mem, clen)
    decreases clen
  {
    if clen < 4 then Streamed([], 0, clen)
    else if Signs(mem[..4]) != 0 then StreamEnd(mem, clen)
    else if mem[0] == CR then Stream(mem[2..], clen - 2)
    else Prepend(Decode4(mem[..4]), Stream(mem[4..], clen - 4))
  }

  // ------------------------------------------------------------- texts it is meant for

  /** t is the encoding of b, with line breaks anywhere between groups and perhaps one behind padding. */
  ghost predicate Layout(t: Octets, b: Octets) {
    if t == [] then b == []
    else if t[0] == CR then |t| >= 2 && t[1] == LF && Layout(t[2..], b)
    else if |b| >= 3 then |t| >= 4 && t[..4] == Quantum(b[..3]) && Layout(t[4..], b[3..])
    else b != [] && |t| >= 4 && t[..4] == Quantum(b) && (t[4..] == [] || t[4..] == [CR, LF])
  }

  /** Lines of perLine groups, as mail programs write them: 19 groups make RFC 2045's 76 columns. */
  function Lines(b: Octets, perLine: nat): Octets
    requires perLine > 0
  {
    if |b| <= 3 * perLine then Encoding(b)
    else Encoding(b[..3 * perLine]) + ([CR, LF] + Lines(b[3 * perLine..], perLine))
  }

  lemma LayoutOfGroup(b: Octets, t: Octets, rest: Octets)
    requires |b| == 3 && Layout(t, rest)
    ensures Layout(Quantum(b) + t, b + rest)
  {
    QuantumReturns(b);
    var u := Quantum(b) + t;
    assert u[..4] == Quantum(b) && u[4..] == t;
    assert (b + rest)[..3] == b && (b + rest)[3..] == rest;
    assert u[0] == Quantum(b)[0];
  }

  lemma LayoutOfBreak(t: Octets, b: Octets)
    requires Layout(t, b)
    ensures Layout([CR, LF] + t, b)
  {
    assert ([CR, LF] + t)[2..] == t;
  }

  lemma LayoutOfLast(b: Octets)
    requires 1 <= |b| <= 3
    ensures Layout(Quantum(b), b)
  {
    QuantumReturns(b);
    LayoutOfQuantum(Quantum(b), b);
  }

  lemma LayoutOfQuantum(q: Octets, b: Octets)
    requires 1 <= |b| <= 3 && q == Quantum(b) && |q| == 4 && q[0] != CR
    ensures Layout(q, b)
  {
    hide Quantum;
    assert q[..4] == q && q[4..] == [];
    if |b| == 3 {
      assert b[..3] == b && b[3..] == [];
    }
  }

  lemma GroupsStep(b: Octets, t: Octets, rest: Octets)
    requires |b| > 2 && Layout(Encoding(b[3..]) + t, b[3..] + rest)
    ensures Layout(Encoding(b) + t, b + rest)
  {
    hide *;
    EncodingStep(b);
    LayoutOfGroup(b[..3], Encoding(b[3..]) + t, b[3..] + rest);
    assert Quantum(b[..3]) + (Encoding(b[3..]) + t) == Quantum(b[..3]) + Encoding(b[3..]) + t;
    assert b[..3] + (b[3..] + rest) == b + rest;
  }

  /** Whole groups in front of a layout. */
  lemma {:induction false} LayoutOfGroups(b: Octets, t: Octets, rest: Octets)
    requires |b| % 3 == 0 && Layout(t, rest)
    ensures Layout(Encoding(b) + t, b + rest)
  {
    if b == [] {
      assert Encoding(b) + t == t && b + rest == rest;
    } else {
      LayoutOfGroups(b[3..], t, rest);
      GroupsStep(b, t, rest);
    }
  }

  lemma {:induction false} LayoutOfEncoding(b: Octets)
    ensures Layout(Encoding(b), b)
  {
    if 1 <= |b| <= 3 {
      LayoutOfLast(b);
    } else if b != [] {
      hide *;
      LayoutOfEncoding(b[3..]);
      EncodingStep(b);
      LayoutOfGroup(b[..3], Encoding(b[3..]), b[3..]);
      assert b[..3] + b[3..] == b;
    }
  }

  lemma BreakAfterGroups(b: Octets, k: nat, l: Octets)
    requires k <= |b| && k % 3 == 0 && Layout([CR, LF] + l, b[k..])
    ensures Layout(Encoding(b[..k]) + ([CR, LF] + l), b)
  {
    hide *;
    LayoutOfGroups(b[..k], [CR, LF] + l, b[k..]);
    assert b[..k] + b[k..] == b;
  }

  lemma LinesUnfold(b: Octets, perLine: nat)
    requires perLine > 0
    ensures |b| <= 3 * perLine ==> Lines(b, perLine) == Encoding(b)
    ensures |b| > 3 * perLine ==>
      Lines(b, perLine) == Encoding(b[..3 * perLine]) + ([CR, LF] + Lines(b[3 * perLine..], perLine))
  {
  }

  lemma {:induction false} LinesAreLayout(b: Octets, perLine: nat)
    requires perLine > 0
    ensures Layout(Lines(b, perLine), b)
  {
    hide *;
    LinesUnfold(b, perLine);
    if |b| <= 3 * perLine {
      LayoutOfEncoding(b);
    } else {
      var k := 3 * perLine;
      LinesAreLayout(b[k..], perLine);
      LayoutOfBreak(Lines(b[k..], perLine), b[k..]);
      BreakAfterGroups(b, k, Lines(b[k..], perLine));
    }
  }

  // ------------------------------------------------------------------ one call on a piece

  /** A layout never begins with '=', nor, if it goes on, does its second character. */
  lemma LayoutStarts(t: Octets, b: Octets)
    requires Layout(t, b) && t != []
    ensures t[0] != EQ && (|t| > 1 ==> t[1] != EQ)
  {
    if t[0] != CR {
      QuantumReturns(if |b| >= 3 then b[..3] else b);
      assert t[0] == t[..4][0] && t[1] == t[..4][1];
    }
  }

  /** What follows the first '='. */
  function AfterSign(x: Octets): Octets {
    if x == [] then [] else if x[0] == EQ then x[1..] else AfterSign(x[1..])
  }

  lemma {:induction false} AfterSignSkips(a: Octets, x: Octets)
    requires EQ !in a
    ensures AfterSign(a + x) == AfterSign(x)
  {
    if a == [] {
      assert a + x == x;
    } else {
      assert (a + x)[1..] == a[1..] + x;
      AfterSignSkips(a[1..], x);
    }
  }

  /** The piece x ends the layout of b with one '=', and what the code then looks at, the rest of x and the
      memory behind it, completes a second padding. */
  ghost predicate Overruns(x: Octets, b: Octets, stale: Octets) {
    EQ in x && Overrun(b, AfterSign(x) + stale)
  }

  /** The memory behind the piece is there as far as it is read, and in the table as far as it is looked up. */
  ghost predicate StaleLegible(x: Octets, b: Octets, stale: Octets) {
    EQ in x ==> Behind(b, AfterSign(x) + stale)
  }

  /** What a call on the piece x of the layout x + rest must do: out is the first part of b, the bytes
      left are at most three and with the rest lay out the remaining part b2; while b ends in one '=',
      that sign is never seen before the call that finishes b. */
  ghost predicate Splits(x: Octets, rest: Octets, b: Octets, r: Streamed, b2: Octets) {
    && r.out + b2 == b && r.unset == 0
    && 0 <= r.left <= 3 && r.left <= |x|
    && Layout(x[|x| - r.left..] + rest, b2)
    && (b2 == [] || |b2| % 3 == |b| % 3)
    && (|b| % 3 == 2 && EQ in x ==> b2 == [])
  }

  /** What it does when the memory behind the piece completes a second padding: the first of the last two bytes
      is replaced, a byte is counted that was not written, and the count of characters left is negative. */
  ghost predicate Spoils(x: Octets, b: Octets, stale: Octets, r: Streamed) {
    var z := AfterSign(x) + stale;
    && |b| >= 2 && |z| >= 1 && z[0] <= 122
    && r == Streamed(b[..|b| - 2] + [First(EQ, z[0]), b[|b| - 1]], 1, |AfterSign(x)| - 4) && r.left < 0
  }

  /** Fewer than four bytes stay for the next call. */
  lemma TooShort(x: Octets, rest: Octets, b: Octets)
    requires Layout(x + rest, b) && |x| < 4
    ensures Splits(x, rest, b, Streamed([], 0, |x|), b)
    ensures |b| % 3 == 2 ==> EQ !in x
  {
    var t := x + rest;
    assert x[0..] == x;
    forall i | 0 <= i < |x| && |b| % 3 == 2 ensures x[i] != EQ {
      assert x[i] == t[i];
      LayoutStarts(t, b);
      if i == 2 {
        if t[0] == CR {
          LayoutStarts(t[2..], b);
        } else {
          QuantumReturns(if |b| >= 3 then b[..3] else b);
          assert t[2] == t[..4][2];
        }
      }
    }
  }

  lemma StreamUnfold(mem: Octets, clen: nat)
    ensures clen < 4 ==> StreamLegible(mem, clen) && Stream(mem, clen) == Streamed([], 0, clen)
    ensures clen >= 4 && |mem| >= 4 && Signs(mem[..4]) != 0 && EndLegible(mem) ==>
      StreamLegible(mem, clen) && Stream(mem, clen) == StreamEnd(mem, clen)
    ensures clen >= 4 && |mem| >= 4 && Signs(mem[..4]) == 0 && mem[0] == CR && StreamLegible(mem[2..], clen - 2) ==>
      StreamLegible(mem, clen) && Stream(mem, clen) == Stream(mem[2..], clen - 2)
    ensures && clen >= 4 && |mem| >= 4 && Signs(mem[..4]) == 0 && mem[0] != CR
            && InTable(mem[..4]) && StreamLegible(mem[4..], clen - 4)
            ==> StreamLegible(mem, clen) && Stream(mem, clen) == Prepend(Decode4(mem[..4]), Stream(mem[4..], clen - 4))
  {
  }

  lemma DropAll(x: Octets, rest: Octets, k: nat, n: int)
    requires k <= |x| && 0 <= n <= |x| - k
    ensures (x + rest)[k..] == x[k..] + rest
    ensures x[k..][|x| - k - n..] == x[|x| - n..]
    ensures x == x[..k] + x[k..]
  {
  }

  /** A line break at a group boundary. */
  lemma BreakStep(x: Octets, rest: Octets, b: Octets, r: Streamed, b2: Octets)
    requires |x| >= 4 && x[0] == CR && x[1] == LF && Splits(x[2..], rest, b, r, b2)
    ensures Splits(x, rest, b, r, b2)
  {
    DropAll(x, rest, 2, r.left);
    assert EQ in x ==> EQ in x[2..];
    hide Layout;
  }

  /** A whole group. */
  lemma GroupStep(x: Octets, rest: Octets, b: Octets, r: Streamed, b2: Octets)
    requires |x| >= 4 && |b| >= 3 && x[..4] == Quantum(b[..3]) && Splits(x[4..], rest, b[3..], r, b2)
    ensures Splits(x, rest, b, Prepend(b[..3], r), b2)
  {
    QuantumReturns(b[..3]);
    NoSigns(x[..4]);
    hide Layout, Quantum;
    DropAll(x, rest, 4, r.left);
    assert b[..3] + r.out + b2 == b[..3] + (r.out + b2) == b;
    assert |b[3..]| % 3 == |b| % 3;
  }

  lemma NoSigns(q: Octets)
    requires |q| == 4
    ensures Signs(q) == 0 <==> EQ !in q
  {
    assert EQ in q <==> EQ == q[0] || EQ == q[1] || EQ == q[2] || EQ == q[3];
  }

  /** Whatever comes before the last group decides nothing about what lies behind it. */
  lemma SkipFront(k: nat, x: Octets, b: Octets, b': Octets, stale: Octets)
    requires k <= |x| && EQ !in x[..k] && |b'| % 3 == |b| % 3
    ensures AfterSign(x) == AfterSign(x[k..])
    ensures Overruns(x, b, stale) <==> Overruns(x[k..], b', stale)
    ensures StaleLegible(x, b, stale) <==> StaleLegible(x[k..], b', stale)
  {
    assert x == x[..k] + x[k..];
    AfterSignSkips(x[..k], x[k..]);
    assert EQ in x <==> EQ in x[k..];
    hide Signs, AfterSign;
  }

  lemma SpoilsLater(x: Octets, x': Octets, front: Octets, b': Octets, stale: Octets, r: Streamed)
    requires AfterSign(x) == AfterSign(x') && Spoils(x', b', stale, r)
    ensures Spoils(x, front + b', stale, Prepend(front, r))
  {
    var b := front + b';
    hide AfterSign, First;
    assert front + b'[..|b'| - 2] == b[..|b| - 2] && b'[|b'| - 1] == b[|b| - 1];
    var end := [First(EQ, (AfterSign(x) + stale)[0]), b[|b| - 1]];
    assert front + (b'[..|b'| - 2] + end) == front + b'[..|b'| - 2] + end;
  }

  lemma BehindPadding(x: Octets, rest: Octets, b: Octets)
    requires |x| >= 4 && x[0] != CR && Layout(x + rest, b) && 1 <= |b| < 3
    ensures x[..4] == Quantum(b) && x == Quantum(b) + x[4..]
    ensures Layout(x[4..] + rest, []) && |x[4..]| <= 2 && EQ !in x[4..]
  {
    var t, s := x + rest, x[4..] + rest;
    hide Quantum;
    assert t[..4] == x[..4] && t[4..] == s && t[0] == x[0];
    assert forall i :: 0 <= i < |x[4..]| ==> x[4..][i] == s[i];
    if s != [] {
      assert s[2..] == [];
    }
  }

  /** The padded group ends the text, but for a line break y. */
  lemma LastSign(b: Octets, y: Octets)
    requires 1 <= |b| < 3
    ensures EQ in Quantum(b) + y && (|b| == 2 ==> AfterSign(Quantum(b) + y) == y)
  {
    QuantumReturns(b);
    var q := Quantum(b);
    hide Quantum;
    assert (q + y)[3] == q[3] == EQ;
    if |b| == 2 {
      assert q + y == q[..3] + ([EQ] + y);
      AfterSignSkips(q[..3], [EQ] + y);
      assert ([EQ] + y)[1..] == y;
    }
  }

  lemma LastEnds(b: Octets, z: Octets, left: int)
    requires 1 <= |b| < 3 && Behind(b, z)
    ensures Signs((Quantum(b) + z)[..4]) != 0 && EndLegible(Quantum(b) + z)
    ensures StreamEnd(Quantum(b) + z, left) ==
      if Overrun(b, z) then Streamed([First(EQ, z[0]), b[1]], 1, left - 8) else Streamed(b, 0, left - 4)
  {
    PaddedQuantum(b, z);
    QuantumReturns(b);
    var q, mem := Quantum(b), Quantum(b) + z;
    hide Quantum;
    assert mem[..4] == q && mem[3..] == [q[3]] + z;
    if |b| == 2 {
      assert mem[3..][..4] == [EQ] + z[..3];
      assert b == [b[0], b[1]] && OnePad(mem) == b && b[1..] == [b[1]];
    } else {
      assert b == [b[0]];
    }
  }

  lemma LastSpoils(x: Octets, b: Octets, y: Octets, stale: Octets, r: Streamed)
    requires |b| == 2 && AfterSign(x) == y && |y| <= 2 && |y + stale| >= 1 && (y + stale)[0] <= 122
    requires r == Streamed([First(EQ, (y + stale)[0]), b[1]], 1, |y| - 4)
    ensures Spoils(x, b, stale, r)
  {
    hide First, AfterSign;
    assert b[..0] + r.out == r.out;
  }

  lemma LastSplits(x: Octets, rest: Octets, b: Octets, y: Octets)
    requires |x| == |y| + 4 && x[4..] == y && |y| <= 2 && Layout(y + rest, []) && 1 <= |b| < 3
    ensures Splits(x, rest, b, Streamed(b, 0, |y|), [])
  {
    hide Layout;
    assert x[|x| - |y|..] == y && b + [] == b;
  }

  /** The call that meets the padded group. */
  lemma LastStep(x: Octets, rest: Octets, b: Octets, stale: Octets)
    requires |x| >= 4 && x[0] != CR && Layout(x + rest, b) && 1 <= |b| < 3 && StaleLegible(x, b, stale)
    ensures StreamLegible(x + stale, |x|)
    ensures var r := Stream(x + stale, |x|);
      if Overruns(x, b, stale) then Spoils(x, b, stale, r) else Splits(x, rest, b, r, [])
  {
    var y := x[4..];
    BehindPadding(x, rest, b);
    LastSign(b, y);
    var z := y + stale;
    assert Behind(b, z) && (Overruns(x, b, stale) <==> Overrun(b, z)) && (Overrun(b, z) ==> |b| == 2 && z[0] <= 122);
    LastEnds(b, z, |x|);
    assert x + stale == Quantum(b) + z;
    hide *;
    StreamUnfold(x + stale, |x|);
    if Overrun(b, z) {
      LastSpoils(x, b, y, stale, Stream(x + stale, |x|));
    } else {
      LastSplits(x, rest, b, y);
    }
  }

  /** One call of `base64_decode_stream` on any piece of a wrapped text decodes the part of the bytes that is
      complete, and leaves the rest for the next call, unless the memory behind completes a second padding. */
  lemma {:induction false} OneCall(x: Octets, rest: Octets, b: Octets, stale: Octets) returns (b2: Octets)
    requires Layout(x + rest, b) && StaleLegible(x, b, stale)
    ensures StreamLegible(x + stale, |x|)
    ensures var r := Stream(x + stale, |x|);
      if Overruns(x, b, stale) then Spoils(x, b, stale, r) else Splits(x, rest, b, r, b2)
    decreases |x|
  {
    StreamUnfold(x + stale, |x|);
    if |x| < 4 {
      TooShort(x, rest, b);
      b2 := b;
    } else if x[0] == CR {
      b2 := CallAtBreak(x, rest, b, stale);
    } else if |b| >= 3 {
      b2 := CallAtGroup(x, rest, b, stale);
    } else {
      LastStep(x, rest, b, stale);
      b2 := [];
    }
  }

  lemma {:induction false} CallAtBreak(x: Octets, rest: Octets, b: Octets, stale: Octets) returns (b2: Octets)
    requires Layout(x + rest, b) && StaleLegible(x, b, stale) && |x| >= 4 && x[0] == CR
    ensures StreamLegible(x + stale, |x|)
    ensures var r := Stream(x + stale, |x|);
      if Overruns(x, b, stale) then Spoils(x, b, stale, r) else Splits(x, rest, b, r, b2)
    decreases |x|, 0
  {
    var mem, t := x + stale, x + rest;
    assert mem[2..] == x[2..] + stale && t[2..] == x[2..] + rest;
    assert mem[..4] == x[..4] == t[..4];
    LayoutStarts(t[2..], b);
    NoSigns(x[..4]);
    assert EQ !in x[..2];
    SkipFront(2, x, b, b, stale);
    StreamUnfold(mem, |x|);
    hide Layout, Splits, Spoils, Overruns, StaleLegible, StreamLegible, Stream, Signs, AfterSign;
    b2 := OneCall(x[2..], rest, b, stale);
    var r := Stream(mem[2..], |x| - 2);
    if Overruns(x, b, stale) {
      SpoilsLater(x, x[2..], [], b, stale, r);
      assert [] + b == b && [] + r.out == r.out;
    } else {
      BreakStep(x, rest, b, r, b2);
    }
  }

  lemma {:induction false} CallAtGroup(x: Octets, rest: Octets, b: Octets, stale: Octets) returns (b2: Octets)
    requires Layout(x + rest, b) && StaleLegible(x, b, stale) && |x| >= 4 && x[0] != CR && |b| >= 3
    ensures StreamLegible(x + stale, |x|)
    ensures var r := Stream(x + stale, |x|);
      if Overruns(x, b, stale) then Spoils(x, b, stale, r) else Splits(x, rest, b, r, b2)
    decreases |x|, 0
  {
    var mem, t := x + stale, x + rest;
    assert mem[4..] == x[4..] + stale && t[4..] == x[4..] + rest;
    assert mem[..4] == x[..4] == t[..4];
    QuantumReturns(b[..3]);
    NoSigns(x[..4]);
    SkipFront(4, x, b, b[3..], stale);
    StreamUnfold(mem, |x|);
    hide Layout, Splits, Spoils, Overruns, StaleLegible, StreamLegible, Stream, Signs, AfterSign;
    b2 := OneCall(x[4..], rest, b[3..], stale);
    var r := Stream(mem[4..], |x| - 4);
    if Overruns(x, b, stale) {
      SpoilsLater(x, x[4..], b[..3], b[3..], stale, r);
      assert b[..3] + b[3..] == b;
    } else {
      GroupStep(x, rest, b, r, b2);
    }
  }

  /** A call on a piece of a wrapped text is right if and only if the memory behind the piece does not happen
      to complete a second padding. */
  lemma OneCallIff(x: Octets, rest: Octets, b: Octets, stale: Octets)
    requires Layout(x + rest, b) && StaleLegible(x, b, stale)
    ensures StreamLegible(x + stale, |x|)
    ensures (exists b2 :: Splits(x, rest, b, Stream(x + stale, |x|), b2)) <==> !Overruns(x, b, stale)
    ensures Overruns(x, b, stale) ==> Spoils(x, b, stale, Stream(x + stale, |x|))
  {
    var b2 := OneCall(x, rest, b, stale);
  }

  /** "YWI=" are the bytes 97 and 98; with "=AA" left in the buffer behind them the call gives back 0, 98 and
      a byte it never wrote. */
  lemma StaleSign()
    ensures Encoding([97, 98]) == [89, 87, 73, EQ]
    ensures StreamLegible([89, 87, 73, EQ] + [EQ, 65, 65], 4)
    ensures Stream([89, 87, 73, EQ] + [EQ, 65, 65], 4) == Streamed([0, 98], 1, -4)
  {
    var b, stale: Octets := [97, 98], [EQ, 65, 65];
    LayoutOfEncoding(b);
    assert Quantum(b) == [89, 87, 73, EQ];
    assert Encoding(b) + [] == Quantum(b);
    LastSign(b, []);
    assert Quantum(b) + [] == Quantum(b) && [] + stale == stale && stale[..3] == stale;
    hide Quantum, Encoding, Layout, StreamLegible, Stream;
    OneCallIff(Quantum(b), [], b, stale);
  }
}
