/** Little-endian words in byte buffers, as amd64 stores them. */
module Bytes {

  newtype byte = x: int | 0 <= x < 256

  const WORD: nat := 0x1_0000_0000

  function Read32(s: seq<byte>, off: nat): (v: nat)
    requires off + 4 <= |s|
    ensures v < WORD
  {
    s[off] as int + 0x100 * s[off + 1] as int + 0x1_0000 * s[off + 2] as int + 0x100_0000 * s[off + 3] as int
  }

  function Read64(s: seq<byte>, off: nat): nat
    requires off + 8 <= |s|
  {
    Read32(s, off) + WORD * Read32(s, off + 4)
  }

  /** Nothing outside [lo, hi) differs. */
  ghost predicate SameOutside(s: seq<byte>, s': seq<byte>, lo: nat, hi: nat) {
    |s| == |s'| && forall i :: 0 <= i < |s| && !(lo <= i < hi) ==> s[i] == s'[i]
  }

  lemma FourBytes(v: nat)
    requires v < WORD
    ensures v == v % 0x100 + 0x100 * (v / 0x100 % 0x100) + 0x1_0000 * (v / 0x1_0000 % 0x100) + 0x100_0000 * (v / 0x100_0000)
  {
  }

  /** A word only depends on its own four bytes. */
  lemma Read32Frame(s: seq<byte>, s': seq<byte>, off: nat)
    requires off + 4 <= |s| && |s| == |s'| && forall i :: off <= i < off + 4 ==> s[i] == s'[i]
    ensures Read32(s, off) == Read32(s', off)
  {
  }

  method Write32(a: array<byte>, off: nat, v: nat)
    requires off + 4 <= a.Length && v < WORD
    modifies a
    ensures Read32(a[..], off) == v
    ensures SameOutside(old(a[..]), a[..], off, off + 4)
  {
    FourBytes(v);
    a[off] := (v % 0x100) as byte;
    a[off + 1] := (v / 0x100 % 0x100) as byte;
    a[off + 2] := (v / 0x1_0000 % 0x100) as byte;
    a[off + 3] := (v / 0x100_0000) as byte;
  }

  method Write64(a: array<byte>, off: nat, v: nat)
    requires off + 8 <= a.Length && v < WORD * WORD
    modifies a
    ensures Read64(a[..], off) == v
    ensures SameOutside(old(a[..]), a[..], off, off + 8)
  {
    Write32(a, off, v % WORD);
    label low:
    Write32(a, off + 4, v / WORD);
    Read32Frame(old@low(a[..]), a[..], off);
  }

  /** memcpy between two buffers at the same offset. */
  method CopyAt(dst: array<byte>, src: array<byte>, off: nat, n: nat)
    requires dst != src && off + n <= dst.Length && off + n <= src.Length
    modifies dst
    ensures dst[off..off + n] == src[off..off + n]
    ensures SameOutside(old(dst[..]), dst[..], off, off + n)
  {
    for i := off to off + n
      invariant dst[off..i] == src[off..i]
      invariant SameOutside(old(dst[..]), dst[..], off, i)
    {
      dst[i] := src[i];
    }
  }
}
