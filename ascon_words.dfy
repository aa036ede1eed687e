/** Big-endian packing of eight bytes into one 64-bit word of the Ascon
    state (`load64`) and unpacking of a word into eight bytes (`store64`). */
module AsconWords {

  type Byte = bv8

  /** The C `int` type. */
  type Int32 = i: int | -0x8000_0000 <= i < 0x8000_0000

  /** `((u64) c) << (56 - i * 8)`: byte `c` moved to bits 56-8i .. 63-8i.
      The shift amount is spelled out case by case so that every shift
      has a literal amount. */
  function PlaceByte(c: Byte, i: nat): bv64
    requires i < 8
  {
    var w := c as bv64;
    if i == 0 then w << 56 else if i == 1 then w << 48
    else if i == 2 then w << 40 else if i == 3 then w << 32
    else if i == 4 then w << 24 else if i == 5 then w << 16
    else if i == 6 then w << 8 else w
  }

  /** `(u8) (x >> (56 - i * 8))`: bits 56-8i .. 63-8i of `x`; the cast keeps
      the low eight bits, written here as an explicit mask. */
  function ExtractByte(x: bv64, i: nat): Byte
    requires i < 8
  {
    var w := if i == 0 then x >> 56 else if i == 1 then x >> 48
      else if i == 2 then x >> 40 else if i == 3 then x >> 32
      else if i == 4 then x >> 24 else if i == 5 then x >> 16
      else if i == 6 then x >> 8 else x;
    (w & 0xff) as Byte
  }

  /** The bytes `b[0..n)` placed big-endian in a word, the other bits zero:
      the value of `*x` after `n` turns of the `load64` loop. */
  function PartialWord(b: seq<Byte>, n: nat): bv64
    requires n <= 8 <= |b|
  {
    (if 0 < n then (b[0] as bv64) << 56 else 0) | (if 1 < n then (b[1] as bv64) << 48 else 0) |
    (if 2 < n then (b[2] as bv64) << 40 else 0) | (if 3 < n then (b[3] as bv64) << 32 else 0) |
    (if 4 < n then (b[4] as bv64) << 24 else 0) | (if 5 < n then (b[5] as bv64) << 16 else 0) |
    (if 6 < n then (b[6] as bv64) << 8 else 0) | (if 7 < n then b[7] as bv64 else 0)
  }

  /** The big-endian word of eight bytes. */
  function BigEndianWord(b: seq<Byte>): bv64
    requires |b| == 8
  {
    PartialWord(b, 8)
  }

  /** The eight bytes of `x`, most significant first. */
  function BigEndianBytes(x: bv64): (r: seq<Byte>)
    ensures |r| == 8
  {
    seq(8, i requires 0 <= i < 8 => ExtractByte(x, i))
  }

  /** One turn of the `load64` loop ORs byte `n` in at its place. */
  lemma PartialWordStep(b: seq<Byte>, n: nat)
    requires n < 8 <= |b|
    ensures PartialWord(b, n + 1) == PartialWord(b, n) | PlaceByte(b[n], n)
  {
    if n == 0 {} else if n == 1 {} else if n == 2 {} else if n == 3 {}
    else if n == 4 {} else if n == 5 {} else if n == 6 {} else {}
  }

  /** `store64` then `load64` gives back the word. */
  lemma WordOfBytes(x: bv64)
    ensures BigEndianWord(BigEndianBytes(x)) == x
  {
  }

  /** Byte `i` of the input occupies bits 56-8i .. 63-8i of the loaded word. */
  lemma WordByteLayout(b: seq<Byte>, i: nat)
    requires |b| == 8 && i < 8
    ensures ExtractByte(BigEndianWord(b), i) == b[i]
  {
    if i == 0 {} else if i == 1 {} else if i == 2 {} else if i == 3 {}
    else if i == 4 {} else if i == 5 {} else if i == 6 {} else {}
  }

  /** `load64` then `store64` gives back the eight bytes. */
  lemma BytesOfWord(b: seq<Byte>)
    requires |b| == 8
    ensures BigEndianBytes(BigEndianWord(b)) == b
  {
    forall i | 0 <= i < 8
      ensures BigEndianBytes(BigEndianWord(b))[i] == b[i]
    {
      WordByteLayout(b, i);
    }
  }

  /** A buffer that agrees with `B` on `off .. off + |B|` and with `c0`
      everywhere else is `c0` with that range replaced by `B`. */
  lemma Spliced(c0: seq<Byte>, c1: seq<Byte>, off: nat, B: seq<Byte>)
    requires |c1| == |c0| && off + |B| <= |c0|
    requires forall q :: 0 <= q < |c0| ==> c1[q] == if off <= q < off + |B| then B[q - off] else c0[q]
    ensures c1 == c0[..off] + B + c0[off + |B|..]
  {
    var r := c0[..off] + B + c0[off + |B|..];
    forall q | 0 <= q < |c0|
      ensures c1[q] == r[q]
    {
      if q < off {
        assert r[q] == c0[..off][q];
      } else if q < off + |B| {
        assert r[q] == (c0[..off] + B)[q];
      } else {
        assert r[q] == c0[off + |B|..][q - off - |B|];
      }
    }
  }

  /** `load64(x, S + off)`. */
  method Load64(S: array<Byte>, off: nat) returns (x: bv64)
    requires off + 8 <= S.Length
    ensures x == BigEndianWord(S[off..off + 8])
  {
    ghost var b := S[off..off + 8];
    x := 0;
    var i := 0;
    while i < 8
      invariant 0 <= i <= 8
      invariant x == PartialWord(b, i)
    {
      PartialWordStep(b, i);
      x := x | PlaceByte(S[off + i], i);
      i := i + 1;
    }
  }

  /** `store64(S + off, x)`: writes the eight bytes of `x` and nothing else. */
  method Store64(S: array<Byte>, off: nat, x: bv64)
    requires off + 8 <= S.Length
    modifies S
    ensures S[..] == old(S[..off]) + BigEndianBytes(x) + old(S[off + 8..])
  {
    var i := 0;
    while i < 8
      invariant 0 <= i <= 8
      invariant forall q {:trigger S[q]} :: 0 <= q < S.Length ==> S[q] == if off <= q < off + i then ExtractByte(x, q - off) else old(S[q])
    {
      S[off + i] := ExtractByte(x, i);
      i := i + 1;
    }
    Spliced(old(S[..]), S[..], off, BigEndianBytes(x));
  }
}
