/** Byte strings as Go's []byte, with the few byte-level helpers the codec needs. */
module Bytes {

  type byte = x: int | 0 <= x < 256
  type Bytes = seq<byte>

  const Nul: byte := 0
  const Newline: byte := 10
  /** os.PathSeparator on the Unix hosts the tool runs on. */
  const Slash: byte := 47

  /** n zero bytes, as left in a freshly made Go buffer. */
  function Zeros(n: nat): (z: Bytes)
    ensures |z| == n
    ensures forall k :: 0 <= k < n ==> z[k] == Nul
  {
    if n == 0 then [] else Zeros(n - 1) + [Nul]
  }

  /** bytes.TrimRight(s, "\x00"): s with every trailing NUL byte removed. */
  function TrimRightNul(s: Bytes): (r: Bytes)
    ensures |r| <= |s| && r == s[..|r|]
    ensures r == [] || r[|r| - 1] != Nul
    ensures forall k :: |r| <= k < |s| ==> s[k] == Nul
  {
    if s == [] || s[|s| - 1] != Nul then s else TrimRightNul(s[..|s| - 1])
  }

  /** Trimming the NUL padding off a string that does not itself end in NUL restores it. */
  lemma {:induction false} TrimRightNulPadding(s: Bytes, n: nat)
    requires s == [] || s[|s| - 1] != Nul
    ensures TrimRightNul(s + Zeros(n)) == s
  {
    if n == 0 {
      assert s + Zeros(n) == s;
    } else {
      var padded := s + Zeros(n);
      assert padded[|padded| - 1] == Nul;
      assert padded[..|padded| - 1] == s + Zeros(n - 1);
      TrimRightNulPadding(s, n - 1);
    }
  }
}
