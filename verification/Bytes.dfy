/** Bytes and NUL-terminated strings, as the C sources see them. */
module Bytes {
  type byte = x: int | 0 <= x < 256

  type Text = seq<byte>

  /** Bytes as the codecs shift and mask them. */
  type Octets = seq<bv8>

  /** The text before the first NUL: what `strlen` measures and `while (*p)` walks. */
  function CString(mem: Text): (s: Text)
    requires 0 in mem
    ensures |s| < |mem| && mem[|s|] == 0 && s == mem[..|s|] && 0 !in s
  {
    if mem[0] == 0 then [] else [mem[0]] + CString(mem[1..])
  }

  ghost predicate IsSuffix(t: Text, s: Text) {
    |t| <= |s| && s[|s| - |t|..] == t
  }
}
