/** The streaming decoder as a method, and the carry-over buffer of `parse_content` around it. */
module Base64Reader {
  import opened Base64
  import opened Base64Decode
  import opened Base64Stream
  import opened Bytes

  /** out is what the first p of clen characters decode to; left of them are still to come. */
  ghost predicate Streaming(code: Octets, clen: nat, p: nat, left: nat, out: Octets) {
    && StreamLegible(code, clen) && p + left == clen && p <= |code| && StreamLegible(code[p..], left)
    && Stream(code, clen) == Prepend(out, Stream(code[p..], left))
  }

  lemma StreamingStarts(code: Octets, clen: nat)
    requires StreamLegible(code, clen)
    ensures Streaming(code, clen, 0, clen, [])
  {
    assert code[0..] == code;
    assert [] + Stream(code, clen).out == Stream(code, clen).out;
  }

  lemma StreamingReads(code: Octets, clen: nat, p: nat, left: nat, out: Octets)
    requires Streaming(code, clen, p, left, out) && left >= 4
    ensures p + 4 <= |code| && code[p..p + 4] == code[p..][..4] && code[p] == code[p..][0]
    ensures Signs(code[p..p + 4]) == 0 && code[p] != CR ==> InTable(code[p..p + 4])
    ensures Signs(code[p..p + 4]) != 0 ==> EndLegible(code[p..])
  {
  }

  lemma StreamingBreak(code: Octets, clen: nat, p: nat, left: nat, out: Octets)
    requires Streaming(code, clen, p, left, out) && left >= 4 && p + 4 <= |code|
    requires Signs(code[p..][..4]) == 0 && code[p] == CR
    ensures Streaming(code, clen, p + 2, left - 2, out)
  {
    assert code[p..][2..] == code[p + 2..];
  }

  lemma StreamingGroup(code: Octets, clen: nat, p: nat, left: nat, out: Octets)
    requires Streaming(code, clen, p, left, out) && left >= 4 && p + 4 <= |code|
    requires Signs(code[p..][..4]) == 0 && code[p] != CR
    ensures InTable(code[p..][..4]) && Streaming(code, clen, p + 4, left - 4, out + Decode4(code[p..][..4]))
  {
    var mem := code[p..];
    assert mem[4..] == code[p + 4..];
    var d, r := Decode4(mem[..4]), Stream(mem[4..], left - 4);
    assert Stream(mem, left) == Prepend(d, r);
    hide Stream, Decode4, Signs, StreamLegible;
    assert out + (d + r.out) == out + d + r.out;
  }

  lemma StreamingEnds(code: Octets, clen: nat, p: nat, left: nat, out: Octets)
    requires Streaming(code, clen, p, left, out)
    ensures left < 4 ==> Stream(code, clen) == Streamed(out, 0, left)
    ensures left >= 4 && |code[p..]| >= 4 && Signs(code[p..][..4]) != 0 ==>
      EndLegible(code[p..]) && Stream(code, clen) == Prepend(out, StreamEnd(code[p..], left))
  {
    assert out + [] == out;
  }

  lemma {:induction false} StreamSize(mem: Octets, clen: nat)
    requires StreamLegible(mem, clen)
    ensures var r := Stream(mem, clen); 4 * (|r.out| + r.unset) <= 3 * clen && r.left <= clen
    decreases clen
  {
    if clen >= 4 && Signs(mem[..4]) == 0 {
      StreamSize(if mem[0] == CR then mem[2..] else mem[4..], if mem[0] == CR then clen - 2 else clen - 4);
    }
  }

  /** There is room for what is decoded after out. */
  lemma StreamingRoom(code: Octets, clen: nat, p: nat, left: nat, out: Octets)
    requires Streaming(code, clen, p, left, out)
    ensures |out| <= |Stream(code, clen).out|
    ensures left >= 4 && |code[p..]| >= 4 && Signs(code[p..][..4]) == 0 && code[p] != CR ==>
      |out| + 3 <= |Stream(code, clen).out|
  {
  }

  /** The loop of `base64_decode_stream`. */
  method StreamGroups(code: Octets, clen: nat, str: array<bv8>)
    returns (p: nat, left: nat, scnt: nat, ghost out: Octets)
    requires StreamLegible(code, clen) && |Stream(code, clen).out| <= str.Length
    modifies str
    ensures Streaming(code, clen, p, left, out) && scnt == |out| && Holds(str, out)
    ensures left < 4 || (p + 4 <= |code| && Signs(code[p..][..4]) != 0)
    ensures forall k :: scnt <= k < str.Length ==> str[k] == old(str[k])
  {
    p, left, scnt, out := 0, clen, 0, [];
    StreamingStarts(code, clen);
    while left >= 4
      invariant Streaming(code, clen, p, left, out) && scnt == |out| && Holds(str, out)
      invariant forall k :: scnt <= k < str.Length ==> str[k] == old(str[k])
    {
      StreamingReads(code, clen, p, left, out);
      StreamingRoom(code, clen, p, left, out);
      var signs := EqualSign(code, p);
      hide Stream, StreamLegible, EndLegible, Streaming, Signs, Decode4, Holds, InTable;
      if signs != 0 {
        return;
      }
      if code[p] == CR {
        StreamingBreak(code, clen, p, left, out);
        p, left := p + 2, left - 2;
        continue;
      }
      StreamingGroup(code, clen, p, left, out);
      StoreGroup(code, p, str, scnt, out);
      out := out + Decode4(code[p..p + 4]);
      p, left, scnt := p + 4, left - 4, scnt + 3;
    }
  }

  /** Writing at the start of what was stored last, or behind out if nothing was. */
  method PutBack(str: array<bv8>, n: nat, c: bv8, ghost out: Octets, ghost last: Octets)
    requires n == |out| && n < str.Length && Holds(str, out + last)
    modifies str
    ensures Holds(str, out + ([c] + if last == [] then [] else last[1..]))
    ensures forall k :: 0 <= k < str.Length && k != n ==> str[k] == old(str[k])
  {
    ghost var held := out + last;
    str[n] := c;
    var want := out + ([c] + if last == [] then [] else last[1..]);
    assert forall k :: 0 <= k < |want| && k != n ==> want[k] == held[k];
  }

  /** The two tests at the end; neither moves the place in the output area. */
  method StoreStreamEnd(code: Octets, p: nat, left: int, str: array<bv8>, scnt: nat, ghost out: Octets)
    returns (n: nat, left': int)
    requires p + 4 <= |code| && EndLegible(code[p..]) && scnt == |out| && Holds(str, out)
    requires scnt + |StreamEnd(code[p..], left).out| <= str.Length
    modifies str
    ensures var r := StreamEnd(code[p..], left);
      && Holds(str, out + r.out) && n == |out| + |r.out| + r.unset && left' == r.left
      && forall k :: |out| + |r.out| <= k < str.Length ==> str[k] == old(str[k])
  {
    ghost var mem := code[p..];
    left' := left;
    var q, one;
    n, q, one := StoreOnePad(code, p, str, scnt, out);
    if one {
      left' := left' - 4;
    }
    At(code, q);
    var signs := EqualSign(code, q);
    hide Signs, InTable, First, Second, Holds;
    if signs == 2 {
      PutBack(str, scnt, First(code[q], code[q + 1]), out, OnePad(mem));
      n, left' := n + 1, left' - 4;
    }
    assert out + (OnePad(mem) + []) == out + OnePad(mem) && out + ([] + TwoPads(code[q..])) == out + TwoPads(code[q..]);
  }

  /** `base64_decode_stream` */
  method DecodeStream(code: Octets, clen: nat, str: array<bv8>) returns (n: nat, left: int)
    requires StreamLegible(code, clen) && |Stream(code, clen).out| <= str.Length
    modifies str
    ensures var r := Stream(code, clen);
      && Holds(str, r.out) && n == |r.out| + r.unset && left == r.left
      && forall k :: |r.out| <= k < str.Length ==> str[k] == old(str[k])
  {
    if clen < 4 {
      return 0, clen;
    }
    var p, scnt;
    ghost var out;
    p, left, scnt, out := StreamGroups(code, clen, str);
    StreamingEnds(code, clen, p, left, out);
    n := scnt;
    if left < 4 {
      return;
    }
    hide Stream, StreamLegible, EndLegible, Streaming, StreamEnd;
    n, left := StoreStreamEnd(code, p, left, str, scnt, out);
  }

  // ------------------------------------------------------------- the carry-over buffer

  const BUF := 1500

  /** The buffer once a packet has been copied in behind the bytes carried over. */
  ghost function Loaded(buf: Octets, dlen: nat, packet: Octets): (mem: Octets)
    requires dlen + |packet| <= |buf|
    ensures |mem| == |buf|
  {
    buf[..dlen] + packet + buf[dlen + |packet|..]
  }

  /** ... and once the last left of the n bytes decoded have been moved to the front. */
  ghost function Moved(mem: Octets, n: nat, left: int): (moved: Octets)
    requires 0 <= left <= n <= |mem|
    ensures |moved| == |mem|
  {
    mem[n - left..n] + mem[left..]
  }

  /** What the rest of a mail's text still holds for the content: b2, laid out by the carried bytes and t. */
  ghost predicate Pending(buf: Octets, dlen: int, t: Octets, b2: Octets) {
    |buf| == BUF && 0 <= dlen <= 3 && Layout(buf[..dlen] + t, b2)
  }

  ghost predicate Fits(buf: Octets, dlen: int, packet: Octets) {
    0 <= dlen && dlen + |packet| <= |buf|
  }

  /** A call that leaves a count the buffer can go on with. */
  ghost predicate GoesOn(mem: Octets, n: nat) {
    n <= |mem| && StreamLegible(mem, n) && 0 <= Stream(mem, n).left <= n
  }

  /** Every packet fits behind the carried bytes, and behind the '=' there is in memory what the code reads. */
  ghost predicate Feedable(buf: Octets, dlen: int, packets: seq<Octets>, b: Octets)
    decreases |packets|
  {
    packets == [] ||
    (Fits(buf, dlen, packets[0]) &&
    var mem, n := Loaded(buf, dlen, packets[0]), dlen + |packets[0]|;
    && StaleLegible(mem[..n], b, mem[n..])
    && (GoesOn(mem, n) ==>
      Feedable(Moved(mem, n, Stream(mem, n).left), Stream(mem, n).left, packets[1..], b)))
  }

  /** The packet that brings the '=' meets bytes in the buffer that complete a second padding. */
  ghost predicate Spoilt(buf: Octets, dlen: int, packets: seq<Octets>, b: Octets)
    decreases |packets|
  {
    packets != [] && Fits(buf, dlen, packets[0]) &&
    var mem, n := Loaded(buf, dlen, packets[0]), dlen + |packets[0]|;
    || Overruns(mem[..n], b, mem[n..])
    || (GoesOn(mem, n) && Spoilt(Moved(mem, n, Stream(mem, n).left), Stream(mem, n).left, packets[1..], b))
  }

  /** b2 is what is still to come of b. */
  ghost predicate Tail(b: Octets, b2: Octets) {
    b2 == [] || |b2| % 3 == |b| % 3
  }

  /** `memcpy(buf + at, data, ...)` */
  method CopyIn(buf: array<bv8>, at: nat, data: Octets)
    requires at + |data| <= buf.Length
    modifies buf
    ensures buf[..] == Loaded(old(buf[..]), at, data)
  {
    forall i | 0 <= i < |data| {
      buf[at + i] := data[i];
    }
  }

  /** `memmove(buf, buf + from, n)` */
  method MoveToFront(buf: array<bv8>, from: nat, n: nat)
    requires from + n <= buf.Length
    modifies buf
    ensures buf[..] == old(buf[from..from + n]) + old(buf[n..])
  {
    forall i | 0 <= i < n {
      buf[i] := buf[from + i];
    }
  }

  /** What a call appends to the content: a byte counted without having been written is a zero of the new
      output area. */
  ghost function Appended(r: Streamed): Octets {
    r.out + seq(r.unset, i => 0)
  }

  lemma AppendedIs(debuf: array<bv8>, r: Streamed)
    requires Holds(debuf, r.out) && |r.out| + r.unset <= debuf.Length
    requires forall k :: |r.out| <= k < debuf.Length ==> debuf[k] == 0
    ensures debuf[..|r.out| + r.unset] == Appended(r)
  {
    assert forall k :: 0 <= k < |r.out| ==> debuf[..|r.out|][k] == debuf[k];
  }

  /** Decoding into the zeroed local buffer. */
  method DecodeLocal(code: Octets, clen: nat) returns (data: Octets, left: int)
    requires StreamLegible(code, clen) && clen <= BUF
    ensures data == Appended(Stream(code, clen)) && left == Stream(code, clen).left <= clen
  {
    StreamSize(code, clen);
    hide Stream, StreamLegible, Holds, Appended;
    var debuf := new bv8[BUF](i => 0);
    var delen;
    delen, left := DecodeStream(code, clen, debuf);
    AppendedIs(debuf, Stream(code, clen));
    data := debuf[..delen];
    debuf[delen] := 0;
  }

  /** The static variables of `parse_content`, and the part of the mail's content they feed. */
  class Reader {
    const buf: array<bv8>
    var dlen: int
    var content: Octets

    /** A new mail: the buffer is zeroed and nothing is carried. */
    constructor ()
      ensures fresh(buf) && buf.Length == BUF && dlen == 0 && content == []
      ensures forall i :: 0 <= i < BUF ==> buf[i] == 0
    {
      buf := new bv8[BUF](i => 0);
      dlen := 0;
      content := [];
    }

    /** One packet: append it to the carried bytes, decode, move what is left to the front, append what was
        decoded to the content. With a negative count left the move is undefined in C, and the model stops there. */
    method Feed(packet: Octets) returns (ok: bool)
      requires buf.Length == BUF && Fits(buf[..], dlen, packet)
      requires StreamLegible(Loaded(buf[..], dlen, packet), dlen + |packet|)
      modifies this`dlen, this`content, buf
      ensures
        var mem, n := Loaded(old(buf[..]), old(dlen), packet), old(dlen) + |packet|;
        && dlen == Stream(mem, n).left <= n && ok == GoesOn(mem, n) == (dlen >= 0)
        && content == old(content) + (if ok then Appended(Stream(mem, n)) else [])
        && (ok ==> buf[..] == Moved(mem, n, dlen))
    {
      hide Stream, StreamLegible, Loaded, Appended;
      ghost var mem := Loaded(buf[..], dlen, packet);
      CopyIn(buf, dlen, packet);
      var zlen := dlen + |packet|;
      var data;
      data, dlen := DecodeLocal(buf[..], zlen);
      assert buf[..] == mem;
      if dlen < 0 {
        assert content + [] == content;
        return false;
      }
      if dlen != 0 {
        MoveToFront(buf, zlen - dlen, dlen);
      }
      content := content + data;
      return true;
    }

    /** One packet of a mail's text: what was still to come, b2, is now in the content or still to come, unless
        the packet's '=' is overrun. */
    method FeedOne(packet: Octets, ghost rest: seq<Octets>, ghost b: Octets, ghost b2: Octets)
      returns (ok: bool, ghost b3: Octets)
      requires buf.Length == BUF && Feeding(buf[..], dlen, [packet] + rest, b, b2)
      modifies this`dlen, this`content, buf
      ensures Spoilt(old(buf[..]), old(dlen), [packet] + rest, b) <==> !ok || Spoilt(buf[..], dlen, rest, b)
      ensures content + b3 == old(content) + b2 && (!ok ==> b3 != [])
      ensures ok ==> Feeding(buf[..], dlen, rest, b, b3)
    {
      hide *;
      ghost var was, had, before := buf[..], dlen, content;
      CanFeed(was, had, packet, rest, b, b2);
      ok := Feed(packet);
      b3 := FedOne(was, had, before, packet, rest, b, b2, ok, buf[..], dlen, content);
    }

    /** All packets of a mail's text, one after another, from whatever an earlier mail left in the buffer: however
        the text is cut, the content ends up being exactly the encoded bytes if and only if the packet that brings
        the '=' is not overrun. */
    method FeedAll(packets: seq<Octets>, ghost b: Octets) returns (ok: bool)
      requires buf.Length == BUF && dlen == 0 && content == []
      requires Layout(Concat(packets), b) && Feedable(buf[..], 0, packets, b)
      modifies this`dlen, this`content, buf
      ensures ok == (content == b) == !Spoilt(old(buf[..]), 0, packets, b)
    {
      hide *;
      ghost var b2, was := b, buf[..];
      FeedingStarts(was, packets, b);
      assert packets[0..] == packets && content + b2 == b;
      for i := 0 to |packets|
        invariant buf.Length == BUF && content + b2 == b && Feeding(buf[..], dlen, packets[i..], b, b2)
        invariant Spoilt(was, 0, packets, b) <==> Spoilt(buf[..], dlen, packets[i..], b)
      {
        assert packets[i..] == [packets[i]] + packets[i + 1..];
        ok, b2 := FeedOne(packets[i], packets[i + 1..], b, b2);
        if !ok {
          return;
        }
      }
      assert packets[|packets|..] == [];
      FeedingEnds(buf[..], dlen, b, b2);
      return true;
    }
  }

  /** A new mail's text, in packets that leave six bytes of the buffer free, is read as it was written. */
  method ReadMail(packets: seq<Octets>, ghost b: Octets) returns (r: Reader)
    requires Layout(Concat(packets), b) && forall i :: 0 <= i < |packets| ==> |packets[i]| + 6 <= BUF
    ensures fresh(r) && r.content == b
  {
    r := new Reader();
    assert r.buf[..0] + Concat(packets) == Concat(packets);
    CleanRun(r.buf[..], 0, packets, b, b);
    var ok := r.FeedAll(packets, b);
  }

  /** A run under way: b2 is still to come, and the packets are fit to bring it. */
  ghost predicate Feeding(buf: Octets, dlen: int, packets: seq<Octets>, b: Octets, b2: Octets) {
    Pending(buf, dlen, Concat(packets), b2) && Tail(b, b2) && Feedable(buf, dlen, packets, b)
  }

  lemma FeedingStarts(buf: Octets, packets: seq<Octets>, b: Octets)
    requires |buf| == BUF && Layout(Concat(packets), b) && Feedable(buf, 0, packets, b)
    ensures Feeding(buf, 0, packets, b, b)
  {
    hide Layout, Feedable;
    assert buf[..0] + Concat(packets) == Concat(packets);
  }

  lemma FeedingEnds(buf: Octets, dlen: int, b: Octets, b2: Octets)
    requires Feeding(buf, dlen, [], b, b2)
    ensures b2 == [] && !Spoilt(buf, dlen, [], b)
  {
    NothingPending(buf, dlen, b2);
  }

  function Concat(packets: seq<Octets>): Octets {
    if packets == [] then [] else packets[0] + Concat(packets[1..])
  }

  lemma NothingPending(buf: Octets, dlen: int, b2: Octets)
    requires Pending(buf, dlen, [], b2)
    ensures b2 == []
  {
    var t := buf[..dlen];
    assert t + [] == t;
    if t != [] && t[0] == CR {
      assert Layout(t[2..], b2);
    }
  }

  lemma SplitsParts(x: Octets, rest: Octets, b: Octets, r: Streamed, b2: Octets)
    requires Splits(x, rest, b, r, b2)
    ensures 0 <= r.left <= 3 && r.left <= |x| && r.out + b2 == b && Layout(x[|x| - r.left..] + rest, b2)
    ensures Appended(r) == r.out
    ensures |b2| % 3 == 2 ==> |b| % 3 == 2 && EQ !in x
  {
    assert r.out + [] == r.out;
  }

  /** A layout holds one '=' for b of this length, at the end of its last group. */
  lemma {:induction false} OneSign(t: Octets, b: Octets)
    requires Layout(t, b) && |b| % 3 == 2
    ensures EQ !in AfterSign(t)
    decreases |t|
  {
    if t[0] == CR {
      OneSign(t[2..], b);
      assert t == t[..2] + t[2..] && EQ !in t[..2];
      AfterSignSkips(t[..2], t[2..]);
    } else if |b| >= 3 {
      OneSign(t[4..], b[3..]);
      QuantumReturns(b[..3]);
      NoSigns(t[..4]);
      hide Quantum;
      assert t == t[..4] + t[4..];
      AfterSignSkips(t[..4], t[4..]);
    } else {
      LastSign(b, t[4..]);
      assert t == Quantum(b) + t[4..];
      hide Quantum;
    }
  }

  lemma {:induction false} AfterSignOfPiece(x: Octets, rest: Octets)
    requires EQ in x
    ensures AfterSign(x + rest) == AfterSign(x) + rest
  {
    if x[0] == EQ {
      assert (x + rest)[1..] == x[1..] + rest;
    } else {
      assert (x + rest)[1..] == x[1..] + rest;
      AfterSignOfPiece(x[1..], rest);
    }
  }

  lemma NoSignBehind(y: Octets, stale: Octets)
    requires EQ !in y && EQ !in stale && |y + stale| >= 3
    ensures Signs([EQ] + (y + stale)[..3]) == 1
  {
    var z := y + stale;
    forall i | 0 <= i < 3 ensures z[i] != EQ {
      assert z[i] == if i < |y| then y[i] else stale[i - |y|];
    }
  }

  /** A buffer free of '=' never completes a second padding. */
  lemma CleanStale(x: Octets, rest: Octets, b: Octets, stale: Octets)
    requires Layout(x + rest, b) && |stale| >= 3 && (|b| % 3 == 2 ==> EQ !in stale)
    ensures StaleLegible(x, b, stale) && !Overruns(x, b, stale)
  {
    if |b| % 3 == 2 && EQ in x {
      OneSign(x + rest, b);
      AfterSignOfPiece(x, rest);
      hide Layout, AfterSign;
      assert forall c :: c in AfterSign(x) ==> c in AfterSign(x) + rest;
      NoSignBehind(AfterSign(x), stale);
    }
  }

  /** A packet behind the carried bytes continues the text. */
  lemma FeedReady(buf: Octets, dlen: int, packet: Octets, rest: Octets, b2: Octets)
    requires Pending(buf, dlen, packet + rest, b2) && Fits(buf, dlen, packet)
    ensures 0 <= dlen && dlen + |packet| <= |buf| == BUF
    ensures var mem, n := Loaded(buf, dlen, packet), dlen + |packet|;
      mem == mem[..n] + mem[n..] && |mem[..n]| == n && mem[n..] == buf[n..] && Layout(mem[..n] + rest, b2)
  {
    var x := buf[..dlen] + packet;
    assert Loaded(buf, dlen, packet)[..dlen + |packet|] == x;
    assert buf[..dlen] + (packet + rest) == x + rest;
    hide Layout;
  }

  lemma {:induction false} NothingHasNoSign(t: Octets)
    requires Layout(t, [])
    ensures EQ !in t
    decreases |t|
  {
    if t != [] {
      NothingHasNoSign(t[2..]);
      assert t == t[..2] + t[2..];
    }
  }

  /** Only the number of padding signs of what is to come matters, so all of b may stand for it. */
  lemma TailIsEnough(x: Octets, rest: Octets, b: Octets, b2: Octets, stale: Octets)
    requires Layout(x + rest, b2) && Tail(b, b2)
    ensures StaleLegible(x, b, stale) <==> StaleLegible(x, b2, stale)
    ensures Overruns(x, b, stale) <==> Overruns(x, b2, stale)
  {
    if b2 == [] {
      NothingHasNoSign(x + rest);
      assert forall c :: c in x ==> c in x + rest;
    }
    hide Layout, AfterSign, Signs;
  }

  /** What one packet leaves pending. */
  lemma OneFeed(buf: Octets, dlen: int, packet: Octets, t: Octets, b2: Octets) returns (b3: Octets)
    requires Pending(buf, dlen, packet + t, b2) && Fits(buf, dlen, packet)
    requires var mem, n := Loaded(buf, dlen, packet), dlen + |packet|; StaleLegible(mem[..n], b2, mem[n..])
    ensures var mem, n := Loaded(buf, dlen, packet), dlen + |packet|;
      && StreamLegible(mem, n)
      && if Overruns(mem[..n], b2, mem[n..]) then !GoesOn(mem, n) && b3 == b2 != []
         else Onward(mem, n, t, b2, b3)
  {
    hide *;
    FeedReady(buf, dlen, packet, t, b2);
    var mem, n := Loaded(buf, dlen, packet), dlen + |packet|;
    b3 := OneCall(mem[..n], t, b2, mem[n..]);
    if Overruns(mem[..n], b2, mem[n..]) {
      b3 := b2;
      SpoilsStops(mem[..n], b2, mem[n..]);
    } else {
      SplitsOnward(mem[..n], mem[n..], t, b2, b3);
    }
  }

  /** The call goes on: its output and b3 are b2, and b3 is pending. */
  ghost predicate Onward(mem: Octets, n: nat, t: Octets, b2: Octets, b3: Octets) {
    GoesOn(mem, n) &&
    var r := Stream(mem, n);
    var moved := Moved(mem, n, r.left);
    && r.out + b3 == b2 && Appended(r) == r.out && Pending(moved, r.left, t, b3) && Tail(b2, b3)
    && (|b3| % 3 == 2 && EQ !in mem[n..] ==> EQ !in moved)
  }

  lemma SpoilsStops(x: Octets, b: Octets, stale: Octets)
    requires StreamLegible(x + stale, |x|) && Spoils(x, b, stale, Stream(x + stale, |x|))
    ensures b != [] && !GoesOn(x + stale, |x|)
  {
    hide Stream, StreamLegible;
  }

  lemma MovedBytes(x: Octets, stale: Octets, k: nat)
    requires k <= |x|
    ensures var mem := x + stale; var moved := mem[|x| - k..|x|] + mem[k..];
      && |moved| == |mem| && moved[..k] == x[|x| - k..]
      && (EQ !in x && EQ !in stale ==> EQ !in moved)
  {
    var mem := x + stale;
    var moved := mem[|x| - k..|x|] + mem[k..];
    forall i | 0 <= i < |moved| ensures moved[i] == mem[if i < k then |x| - k + i else i] {
    }
  }

  lemma SplitsOnward(x: Octets, stale: Octets, t: Octets, b2: Octets, b3: Octets)
    requires |x + stale| == BUF && StreamLegible(x + stale, |x|)
    requires Splits(x, t, b2, Stream(x + stale, |x|), b3)
    ensures Onward(x + stale, |x|, t, b2, b3)
  {
    var mem, n := x + stale, |x|;
    var r := Stream(mem, n);
    SplitsParts(x, t, b2, r, b3);
    MovedBytes(x, stale, r.left);
    assert mem[n..] == stale && mem[..n] == x;
    hide Stream, StreamLegible, Layout;
  }

  lemma FeedableParts(buf: Octets, dlen: int, packet: Octets, rest: seq<Octets>, b: Octets)
    requires Fits(buf, dlen, packet)
    ensures var mem, n := Loaded(buf, dlen, packet), dlen + |packet|;
      Feedable(buf, dlen, [packet] + rest, b) <==>
        && StaleLegible(mem[..n], b, mem[n..])
        && (GoesOn(mem, n) ==> Feedable(Moved(mem, n, Stream(mem, n).left), Stream(mem, n).left, rest, b))
    ensures var mem, n := Loaded(buf, dlen, packet), dlen + |packet|;
      Spoilt(buf, dlen, [packet] + rest, b) <==>
        || Overruns(mem[..n], b, mem[n..])
        || (GoesOn(mem, n) && Spoilt(Moved(mem, n, Stream(mem, n).left), Stream(mem, n).left, rest, b))
    ensures Concat([packet] + rest) == packet + Concat(rest)
  {
    assert ([packet] + rest)[0] == packet && ([packet] + rest)[1..] == rest;
    hide StaleLegible, GoesOn, Overruns, Loaded, Moved;
  }

  lemma FeedableFits(buf: Octets, dlen: int, packet: Octets, rest: seq<Octets>, b: Octets)
    requires Feedable(buf, dlen, [packet] + rest, b)
    ensures Fits(buf, dlen, packet)
  {
    assert ([packet] + rest)[0] == packet;
  }

  /** One packet of a run, as the whole run needs it. */
  lemma FeedSplits(buf: Octets, dlen: int, packet: Octets, rest: seq<Octets>, b: Octets, b2: Octets)
    returns (b3: Octets)
    requires Pending(buf, dlen, Concat([packet] + rest), b2) && Tail(b, b2)
    requires Fits(buf, dlen, packet) && Feedable(buf, dlen, [packet] + rest, b)
    ensures var mem, n := Loaded(buf, dlen, packet), dlen + |packet|;
      && StreamLegible(mem, n)
      && (Spoilt(buf, dlen, [packet] + rest, b) <==>
          !GoesOn(mem, n) || Spoilt(Moved(mem, n, Stream(mem, n).left), Stream(mem, n).left, rest, b))
      && if GoesOn(mem, n)
         then Onward(mem, n, Concat(rest), b2, b3)
              && Feedable(Moved(mem, n, Stream(mem, n).left), Stream(mem, n).left, rest, b)
         else b3 == b2 != []
  {
    hide *;
    FeedableParts(buf, dlen, packet, rest, b);
    FeedReady(buf, dlen, packet, Concat(rest), b2);
    var mem, n := Loaded(buf, dlen, packet), dlen + |packet|;
    TailIsEnough(mem[..n], Concat(rest), b, b2, mem[n..]);
    b3 := OneFeed(buf, dlen, packet, Concat(rest), b2);
    OnwardGoesOn(mem, n, Concat(rest), b2, b3);
  }

  lemma OnwardGoesOn(mem: Octets, n: nat, t: Octets, b2: Octets, b3: Octets)
    ensures Onward(mem, n, t, b2, b3) ==> GoesOn(mem, n)
  {
  }

  lemma CanFeed(buf: Octets, dlen: int, packet: Octets, rest: seq<Octets>, b: Octets, b2: Octets)
    requires Feeding(buf, dlen, [packet] + rest, b, b2)
    ensures Fits(buf, dlen, packet) && 0 <= dlen && dlen + |packet| <= |buf|
    ensures StreamLegible(Loaded(buf, dlen, packet), dlen + |packet|)
  {
    FeedableFits(buf, dlen, packet, rest, b);
    var b3 := FeedSplits(buf, dlen, packet, rest, b, b2);
    hide StreamLegible, Feedable, Pending, Tail, Concat;
  }

  /** What feeding one packet does to a run. */
  lemma FedOne(buf: Octets, dlen: int, content: Octets, packet: Octets, rest: seq<Octets>, b: Octets, b2: Octets,
               ok: bool, buf': Octets, dlen': int, content': Octets)
    returns (b3: Octets)
    requires Feeding(buf, dlen, [packet] + rest, b, b2)
    requires 0 <= dlen && dlen + |packet| <= |buf|
    requires var mem, n := Loaded(buf, dlen, packet), dlen + |packet|;
      && StreamLegible(mem, n) && dlen' == Stream(mem, n).left <= n && ok == GoesOn(mem, n) == (dlen' >= 0)
      && content' == content + (if ok then Appended(Stream(mem, n)) else [])
      && (ok ==> buf' == Moved(mem, n, dlen'))
    ensures Spoilt(buf, dlen, [packet] + rest, b) <==> !ok || Spoilt(buf', dlen', rest, b)
    ensures content' + b3 == content + b2 && (!ok ==> b3 != [])
    ensures ok ==> Feeding(buf', dlen', rest, b, b3)
  {
    hide Pending, Tail, Feedable, Concat, Loaded, StreamLegible, Stream, GoesOn, Appended, Moved, Spoilt;
    FeedableFits(buf, dlen, packet, rest, b);
    b3 := FeedSplits(buf, dlen, packet, rest, b, b2);
    if ok {
      var mem, n := Loaded(buf, dlen, packet), dlen + |packet|;
      OnwardParts(mem, n, Concat(rest), b, b2, b3);
      OnwardContent(mem, n, Concat(rest), b2, b3, content);
    } else {
      assert content + [] == content;
    }
  }

  lemma OnwardContent(mem: Octets, n: nat, t: Octets, b2: Octets, b3: Octets, content: Octets)
    requires Onward(mem, n, t, b2, b3)
    ensures GoesOn(mem, n) && content + Appended(Stream(mem, n)) + b3 == content + b2
  {
    var out := Stream(mem, n).out;
    assert content + (out + b3) == content + out + b3;
  }

  /** From a buffer that brings no '=' of its own, and with packets that leave six bytes of it free, every packet can
      be fed and none is overrun. */
  lemma {:induction false} CleanRun(buf: Octets, dlen: int, packets: seq<Octets>, b: Octets, b2: Octets)
    requires Pending(buf, dlen, Concat(packets), b2) && Tail(b, b2) && (|b2| % 3 == 2 ==> EQ !in buf)
    requires forall i :: 0 <= i < |packets| ==> |packets[i]| + 6 <= BUF
    ensures Feedable(buf, dlen, packets, b) && !Spoilt(buf, dlen, packets, b)
    decreases |packets|
  {
    if packets != [] {
      hide *;
      var packet, rest := packets[0], packets[1..];
      assert packets == [packet] + rest;
      CleanFits(buf, dlen, packet, Concat(packets), b2);
      ConcatFirst(packet, rest);
      var moved, left, b3 := CleanPacket(buf, dlen, packet, Concat(rest), b, b2);
      assert forall i :: 0 <= i < |rest| ==> rest[i] == packets[i + 1];
      CleanRun(moved, left, rest, b, b3);
      CleanStep(buf, dlen, packet, rest, b, moved, left);
    }
  }

  lemma ConcatFirst(packet: Octets, rest: seq<Octets>)
    ensures Concat([packet] + rest) == packet + Concat(rest)
  {
    assert ([packet] + rest)[1..] == rest;
  }

  /** The packet is fed without being overrun, and leaves moved in the buffer. */
  ghost predicate CleanTo(buf: Octets, dlen: int, packet: Octets, b: Octets, moved: Octets, left: int) {
    Fits(buf, dlen, packet) &&
    var mem, n := Loaded(buf, dlen, packet), dlen + |packet|;
    && StaleLegible(mem[..n], b, mem[n..]) && !Overruns(mem[..n], b, mem[n..])
    && GoesOn(mem, n) && left == Stream(mem, n).left && moved == Moved(mem, n, left)
  }

  lemma CleanStep(buf: Octets, dlen: int, packet: Octets, rest: seq<Octets>, b: Octets, moved: Octets, left: int)
    requires CleanTo(buf, dlen, packet, b, moved, left)
    requires Feedable(moved, left, rest, b) && !Spoilt(moved, left, rest, b)
    ensures Feedable(buf, dlen, [packet] + rest, b) && !Spoilt(buf, dlen, [packet] + rest, b)
  {
    FeedableParts(buf, dlen, packet, rest, b);
    hide Feedable, Spoilt, StaleLegible, Overruns, Loaded, Moved;
  }

  lemma CleanPacket(buf: Octets, dlen: int, packet: Octets, t: Octets, b: Octets, b2: Octets)
    returns (moved: Octets, left: int, b3: Octets)
    requires Pending(buf, dlen, packet + t, b2) && Tail(b, b2) && (|b2| % 3 == 2 ==> EQ !in buf)
    requires Fits(buf, dlen, packet) && |packet| + 6 <= BUF
    ensures CleanTo(buf, dlen, packet, b, moved, left)
    ensures Pending(moved, left, t, b3) && Tail(b, b3) && (|b3| % 3 == 2 ==> EQ !in moved)
  {
    hide Pending, Tail, Loaded, Moved, StaleLegible, Overruns, GoesOn, Stream, StreamLegible;
    CleanFits(buf, dlen, packet, packet + t, b2);
    FeedReady(buf, dlen, packet, t, b2);
    var mem, n := Loaded(buf, dlen, packet), dlen + |packet|;
    CleanBehind(buf, n, b2);
    CleanStale(mem[..n], t, b2, mem[n..]);
    TailIsEnough(mem[..n], t, b, b2, mem[n..]);
    b3 := OneFeed(buf, dlen, packet, t, b2);
    OnwardParts(mem, n, t, b, b2, b3);
    left := Stream(mem, n).left;
    moved := Moved(mem, n, left);
  }

  lemma CleanFits(buf: Octets, dlen: int, packet: Octets, t: Octets, b2: Octets)
    requires Pending(buf, dlen, t, b2) && |packet| + 6 <= BUF
    ensures Fits(buf, dlen, packet) && 0 <= dlen && dlen + |packet| + 3 <= |buf|
  {
    hide Layout;
  }

  lemma CleanBehind(buf: Octets, n: nat, b2: Octets)
    requires n <= |buf| && (|b2| % 3 == 2 ==> EQ !in buf)
    ensures |b2| % 3 == 2 ==> EQ !in buf[n..]
  {
  }

  lemma OnwardParts(mem: Octets, n: nat, t: Octets, b: Octets, b2: Octets, b3: Octets)
    requires Onward(mem, n, t, b2, b3) && Tail(b, b2)
    ensures GoesOn(mem, n) && n <= |mem| && StreamLegible(mem, n) && 0 <= Stream(mem, n).left <= n
    ensures var r := Stream(mem, n);
      var moved := Moved(mem, n, r.left);
      Pending(moved, r.left, t, b3) && Tail(b, b3) && (|b3| % 3 == 2 && EQ !in mem[n..] ==> EQ !in moved)
    ensures |b3| % 3 == 2 ==> |b2| % 3 == 2
  {
    hide Stream, StreamLegible, Pending, Appended;
  }

  /** A body "ABCD" leaves "QUJDRA==" in the buffer, and an attachment "ab" fed behind it is spoilt: "YWI=" is
      followed there by "RA=". */
  lemma AttachmentSpoilt(buf: Octets)
    requires |buf| == BUF && buf[..8] == Encoding([65, 66, 67, 68])
    ensures Feedable(buf, 0, [Encoding([97, 98])], [97, 98]) && Spoilt(buf, 0, [Encoding([97, 98])], [97, 98])
  {
    StaleSign();
    BodyOfFour();
    var x, stale := [89, 87, 73, EQ], buf[4..];
    assert stale[0] == buf[..8][4] && stale[1] == buf[..8][5] && stale[2] == buf[..8][6];
    RaOverruns(x, stale);
    hide *;
    LoadedFirst(buf, x);
    FeedableParts(buf, 0, x, [], [97, 98]);
    assert [x] + [] == [x];
    NothingToFeed([97, 98]);
  }

  lemma NothingToFeed(b: Octets)
    ensures forall buf, dlen :: Feedable(buf, dlen, [], b)
  {
  }

  lemma LoadedFirst(buf: Octets, x: Octets)
    requires |x| <= |buf|
    ensures Fits(buf, 0, x) && Loaded(buf, 0, x)[..|x|] == x && Loaded(buf, 0, x)[|x|..] == buf[|x|..]
  {
  }

  lemma RaOverruns(x: Octets, stale: Octets)
    requires x == [89, 87, 73, EQ] && |stale| >= 3 && stale[0] == 82 && stale[1] == 65 && stale[2] == EQ
    ensures StaleLegible(x, [97, 98], stale) && Overruns(x, [97, 98], stale)
  {
    assert x == [89, 87, 73] + [EQ] && [EQ][1..] == [];
    AfterSignSkips([89, 87, 73], [EQ]);
    assert AfterSign([EQ]) == [] && [] + stale == stale;
    assert stale[..3] == [82, 65, EQ] && [EQ] + stale[..3] == [EQ, 82, 65, EQ];
    hide AfterSign;
  }

  lemma BodyOfFour()
    ensures Encoding([65, 66, 67, 68]) == [81, 85, 74, 68, 82, 65, EQ, EQ]
  {
    EncodingStep([65, 66, 67, 68]);
    assert [65, 66, 67, 68][..3] == [65, 66, 67] && [65, 66, 67, 68][3..] == [68];
  }
}
