/** The URL decoder of urlencode.c, into a second buffer and in place. */
module UrlEncode {
  import opened Bytes

  const PLUS: bv8 := 43
  const PERCENT: bv8 := 37
  const SPACE: bv8 := 32

  /** `url_decode_byte`; char is signed, so bytes from 128 on count as below 65. */
  function DecodeByte(c0: bv8, c1: bv8): bv8 {
    var a := if 65 <= c0 < 128 then c0 - 55 else c0 - 48;
    var b := if 65 <= c1 < 128 then c1 - 55 else c1 - 48;
    (a << 4) | (b & 0x0f)
  }

  /** c is the hexadecimal digit for v, upper or lower case. */
  predicate IsHex(c: bv8, v: bv8) {
    v < 16 && if v < 10 then c == v + 48 else c == v + 55 || c == v + 87
  }

  /** Two hexadecimal digits are read back; a lower-case first digit survives because
      the excess bits are shifted out. */
  lemma HexReturns(c0: bv8, c1: bv8, x: bv8)
    requires IsHex(c0, x >> 4) && IsHex(c1, x & 0x0f)
    ensures DecodeByte(c0, c1) == x
  {
  }

  /** Every byte `url_decode` reads from i up to slen is there: an escape that begins before slen is read whole. */
  predicate Legible(mem: Octets, i: nat, slen: nat)
    decreases slen - i
  {
    i >= slen ||
    (i < |mem| && (mem[i] == 0 ||
    if mem[i] == PERCENT then i + 2 < |mem| && Legible(mem, i + 3, slen) else Legible(mem, i + 1, slen)))
  }

  /** What `url_decode` makes of mem from i up to slen. */
  function Decoded(mem: Octets, i: nat, slen: nat): (r: Octets)
    requires Legible(mem, i, slen)
    ensures i <= slen ==> |r| <= slen - i
    decreases slen - i
  {
    if i >= slen || mem[i] == 0 then []
    else if mem[i] == PLUS then [SPACE] + Decoded(mem, i + 1, slen)
    else if mem[i] == PERCENT then [DecodeByte(mem[i + 1], mem[i + 2])] + Decoded(mem, i + 3, slen)
    else [mem[i]] + Decoded(mem, i + 1, slen)
  }

  /** What `url_decode_replace` makes of it: an escape cut off by slen ends the text. */
  function Replaced(mem: Octets, i: nat, slen: nat): (r: Octets)
    requires slen <= |mem|
    ensures i <= slen ==> |r| <= slen - i
    decreases slen - i
  {
    if i >= slen || mem[i] == 0 then []
    else if mem[i] == PLUS then [SPACE] + Replaced(mem, i + 1, slen)
    else if mem[i] == PERCENT then
      if i + 2 >= slen then [] else [DecodeByte(mem[i + 1], mem[i + 2])] + Replaced(mem, i + 3, slen)
    else [mem[i]] + Replaced(mem, i + 1, slen)
  }

  /** No escape that the scan meets is cut off by slen. */
  predicate Complete(mem: Octets, i: nat, slen: nat)
    requires slen <= |mem|
    decreases slen - i
  {
    i >= slen || mem[i] == 0 ||
    if mem[i] == PERCENT then i + 2 < slen && Complete(mem, i + 3, slen) else Complete(mem, i + 1, slen)
  }

  /** The two decoders agree if and only if no escape is cut off. */
  lemma {:induction false} AgreeIffComplete(mem: Octets, i: nat, slen: nat)
    requires slen <= |mem| && Legible(mem, i, slen)
    ensures Replaced(mem, i, slen) <= Decoded(mem, i, slen)
    ensures Replaced(mem, i, slen) == Decoded(mem, i, slen) <==> Complete(mem, i, slen)
    decreases slen - i
  {
    if i < slen && mem[i] != 0 {
      AgreeIffComplete(mem, if mem[i] == PERCENT then i + 3 else i + 1, slen);
      if mem[i] != PERCENT || i + 2 < slen {
        var next := if mem[i] == PERCENT then i + 3 else i + 1;
        assert Decoded(mem, i, slen)[1..] == Decoded(mem, next, slen);
        assert Replaced(mem, i, slen)[1..] == Replaced(mem, next, slen);
      }
    }
  }

  /** "%41" cut after its first digit: the in-place decoder drops it, the other reads past the length. */
  lemma CutEscape()
    ensures var mem := [PERCENT, 52, 49]; Legible(mem, 0, 2) && Decoded(mem, 0, 2) == [65] && Replaced(mem, 0, 2) == []
  {
  }

  // -------------------------------------------------------------------- round trip

  /** t writes b: each byte as itself, as an escape of section 2.1 of RFC 3986 with digits of
      either case, or, a space, as '+'. */
  ghost predicate Encodes(t: Octets, b: Octets) {
    if b == [] then t == []
    else if t == [] then false
    else if t[0] == PERCENT then
      |t| >= 3 && IsHex(t[1], b[0] >> 4) && IsHex(t[2], b[0] & 0x0f) && Encodes(t[3..], b[1..])
    else if t[0] == PLUS then b[0] == SPACE && Encodes(t[1..], b[1..])
    else t[0] != 0 && t[0] == b[0] && Encodes(t[1..], b[1..])
  }

  lemma DecodersUnfold(mem: Octets, i: nat, slen: nat)
    requires slen <= |mem| && i < slen && mem[i] != 0
    requires Legible(mem, if mem[i] == PERCENT then i + 3 else i + 1, slen)
    ensures mem[i] != PERCENT || i + 2 < slen ==> Legible(mem, i, slen)
    ensures mem[i] == PERCENT && i + 2 < slen ==>
      var c := DecodeByte(mem[i + 1], mem[i + 2]);
      && Decoded(mem, i, slen) == [c] + Decoded(mem, i + 3, slen)
      && Replaced(mem, i, slen) == [c] + Replaced(mem, i + 3, slen)
    ensures mem[i] != PERCENT ==>
      var c := if mem[i] == PLUS then SPACE else mem[i];
      && Decoded(mem, i, slen) == [c] + Decoded(mem, i + 1, slen)
      && Replaced(mem, i, slen) == [c] + Replaced(mem, i + 1, slen)
  {
  }

  /** Whatever such an encoding is embedded in, both decoders give the bytes back. */
  lemma {:induction false} RoundTrip(mem: Octets, i: nat, t: Octets, b: Octets)
    requires Encodes(t, b) && i + |t| <= |mem| && mem[i..i + |t|] == t
    ensures Legible(mem, i, i + |t|) && Decoded(mem, i, i + |t|) == b && Replaced(mem, i, i + |t|) == b
    decreases |t|
  {
    if b != [] {
      hide Decoded, Replaced, DecodeByte, IsHex;
      var k := if t[0] == PERCENT then 3 else 1;
      assert forall j :: 0 <= j < k ==> mem[i + j] == t[j];
      assert mem[i + k..i + |t|] == t[k..];
      RoundTrip(mem, i + k, t[k..], b[1..]);
      DecodersUnfold(mem, i, i + |t|);
      if t[0] == PERCENT {
        HexReturns(t[1], t[2], b[0]);
      }
      assert b == [b[0]] + b[1..];
    }
  }

  // ----------------------------------------------------------------------- methods

  /** `url_decode` */
  method Decode(str: Octets, slen: int, buf: array<bv8>) returns (n: nat)
    requires slen > 0 ==> Legible(str, 0, slen) && |Decoded(str, 0, slen)| < buf.Length
    modifies buf
    ensures n == if slen <= 0 then 0 else |Decoded(str, 0, slen)|
    ensures slen > 0 ==> buf[..n] == Decoded(str, 0, slen) && buf[n] == 0
  {
    if slen <= 0 {
      return 0;
    }
    n := DecodeLoop(str, slen, buf);
    buf[n] := 0;
  }

  lemma OutputStep(buf: Octets, j: nat, c: bv8, rest: Octets)
    requires j < |buf|
    ensures buf[j := c][..j + 1] + rest == buf[..j] + ([c] + rest)
  {
  }

  method DecodeLoop(str: Octets, slen: nat, buf: array<bv8>) returns (j: nat)
    requires Legible(str, 0, slen) && |Decoded(str, 0, slen)| < buf.Length
    modifies buf
    ensures j == |Decoded(str, 0, slen)| && buf[..j] == Decoded(str, 0, slen)
  {
    var i := 0;
    j := 0;
    while i < slen
      invariant Legible(str, i, slen) && 0 <= j < buf.Length
      invariant buf[..][..j] + Decoded(str, i, slen) == Decoded(str, 0, slen)
      decreases slen - i
    {
      ghost var now, k := buf[..], i;
      if str[i] == PLUS {
        buf[j] := SPACE;
        j := j + 1;
      } else if str[i] == PERCENT {
        buf[j] := DecodeByte(str[i + 1], str[i + 2]);
        j := j + 1;
        i := i + 2;
      } else if str[i] == 0 {
        break;
      } else {
        buf[j] := str[i];
        j := j + 1;
      }
      i := i + 1;
      assert Decoded(str, k, slen) == [buf[j - 1]] + Decoded(str, i, slen);
      hide Decoded, DecodeByte;
      assert buf[..] == now[j - 1 := buf[j - 1]];
      OutputStep(now, j - 1, buf[j - 1], Decoded(str, i, slen));
    }
    assert Decoded(str, i, slen) == [];
    assert buf[..][..j] == buf[..j];
  }

  /** In place: the first j bytes are the result so far, from i on nothing has been overwritten, and j <= i. */
  ghost predicate InPlace(now: Octets, mem: Octets, i: nat, j: nat, slen: nat) {
    && j <= i <= slen < |mem| == |now|
    && now[i..] == mem[i..]
    && now[..j] + Replaced(mem, i, slen) == Replaced(mem, 0, slen)
  }

  /** Writing the byte that the next k bytes stand for at j keeps that. */
  lemma InPlaceStep(now: Octets, mem: Octets, i: nat, j: nat, slen: nat, c: bv8, k: nat)
    requires InPlace(now, mem, i, j, slen) && 1 <= k && i + k <= slen
    requires Replaced(mem, i, slen) == [c] + Replaced(mem, i + k, slen)
    ensures InPlace(now[j := c], mem, i + k, j + 1, slen)
  {
    hide Replaced;
    var rest := Replaced(mem, i + k, slen);
    assert now[j := c][..j + 1] == now[..j] + [c];
    assert now[..j] + [c] + rest == now[..j] + ([c] + rest);
    assert now[j := c][i + k..] == now[i..][k..] == mem[i..][k..] == mem[i + k..];
  }

  lemma Unread(now: Octets, mem: Octets, i: nat, j: nat, slen: nat)
    requires InPlace(now, mem, i, j, slen)
    ensures forall k :: i <= k < |mem| ==> now[k] == mem[k]
  {
    assert forall k :: i <= k < |mem| ==> now[k] == now[i..][k - i] == mem[i..][k - i];
  }

  /** `url_decode_replace`: what is written never lies beyond what has been read. */
  method DecodeReplace(str: array<bv8>, slen: int) returns (n: nat)
    requires slen > 0 ==> slen < str.Length
    modifies str
    ensures n == if slen <= 0 then 0 else |Replaced(old(str[..]), 0, slen)|
    ensures slen > 0 ==> str[..n] == Replaced(old(str[..]), 0, slen) && str[n] == 0
    ensures forall k :: 0 <= k < str.Length && (slen <= 0 || k > slen) ==> str[k] == old(str[k])
  {
    if slen <= 0 {
      n := 0;
      return;
    }
    ghost var mem := str[..];
    n := ReplaceLoop(str, slen, mem);
    str[n] := 0;
  }

  lemma ReplacedAt(mem: Octets, i: nat, slen: nat)
    requires i < slen <= |mem|
    ensures mem[i] == PERCENT && i + 2 >= slen ==> Replaced(mem, i, slen) == []
    ensures mem[i] == PERCENT && i + 2 < slen ==>
      Replaced(mem, i, slen) == [DecodeByte(mem[i + 1], mem[i + 2])] + Replaced(mem, i + 3, slen)
    ensures mem[i] == PLUS ==> Replaced(mem, i, slen) == [SPACE] + Replaced(mem, i + 1, slen)
    ensures mem[i] == 0 ==> Replaced(mem, i, slen) == []
    ensures mem[i] != PERCENT && mem[i] != PLUS && mem[i] != 0 ==>
      Replaced(mem, i, slen) == [mem[i]] + Replaced(mem, i + 1, slen)
  {
  }

  /** `*buf++ = c`, once the k bytes are read that c stands for. */
  method PutByte(str: array<bv8>, ghost mem: Octets, ghost i: nat, j: nat, ghost slen: nat, c: bv8, ghost k: nat)
    requires InPlace(str[..], mem, i, j, slen) && 1 <= k && i + k <= slen
    requires Replaced(mem, i, slen) == [c] + Replaced(mem, i + k, slen)
    modifies str
    ensures InPlace(str[..], mem, i + k, j + 1, slen)
  {
    hide Replaced;
    ghost var now := str[..];
    InPlaceStep(now, mem, i, j, slen, c, k);
    str[j] := c;
    assert str[..] == now[j := c];
  }

  method ReplaceLoop(str: array<bv8>, slen: nat, ghost mem: Octets) returns (j: nat)
    requires slen < str.Length && str[..] == mem
    modifies str
    ensures j <= slen && j == |Replaced(mem, 0, slen)| && str[..j] == Replaced(mem, 0, slen)
    ensures forall k :: slen <= k < str.Length ==> str[k] == mem[k]
  {
    hide Replaced, DecodeByte;
    var i := 0;
    j := 0;
    while i < slen
      invariant InPlace(str[..], mem, i, j, slen)
      decreases slen - i
    {
      Unread(str[..], mem, i, j, slen);
      ReplacedAt(mem, i, slen);
      if str[i] == PLUS {
        PutByte(str, mem, i, j, slen, SPACE, 1);
        j := j + 1;
      } else if str[i] == PERCENT {
        if i + 1 == slen {
          break;
        }
        if i + 2 == slen {
          break;
        }
        var tmp := DecodeByte(str[i + 1], str[i + 2]);
        PutByte(str, mem, i, j, slen, tmp, 3);
        j := j + 1;
        i := i + 2;
      } else if str[i] == 0 {
        break;
      } else {
        PutByte(str, mem, i, j, slen, str[i], 1);
        j := j + 1;
      }
      hide *;
      i := i + 1;
    }
    Unread(str[..], mem, i, j, slen);
    ReplacedEnds(mem, i, slen);
    assert str[..j] + [] == str[..j];
  }

  lemma ReplacedEnds(mem: Octets, i: nat, slen: nat)
    requires slen <= |mem|
    ensures i >= slen ==> Replaced(mem, i, slen) == []
  {
  }
}
