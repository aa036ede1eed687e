/** The in-place steps that `crypto_aead_encrypt` and `crypto_aead_decrypt`
    share, written out identically in both source files: building a padded
    buffer, setting up and initialising the state, absorbing the associated
    data, XORing bytes into the state, finalisation, and copying bytes of
    the state out. Each is proved against the sponge function it
    implements, with `permutation` as the permutation. */
module AsconState {

  import opened AsconWords
  import opened AsconPermutation
  import opened AsconSponge

  /** The padded buffer `A` (or `M`): `x` copied, 0x80 after it, and zeros
      up to `(|x| / rate + 1) * rate` bytes. */
  method PadInto(x: seq<Byte>) returns (X: array<Byte>)
    ensures fresh(X) && X[..] == Pad(x)
  {
    var n := (|x| / Rate + 1) * Rate;
    X := new Byte[n];
    var i := 0;
    while i < |x|
      invariant 0 <= i <= |x|
      invariant forall q :: 0 <= q < i ==> X[q] == x[q]
    {
      X[i] := x[i];
      i := i + 1;
    }
    X[|x|] := 0x80;
    i := |x| + 1;
    while i < n
      invariant |x| + 1 <= i <= n
      invariant forall q :: 0 <= q < |x| ==> X[q] == x[q]
      invariant X[|x|] == 0x80
      invariant forall q :: |x| < q < i ==> X[q] == 0
    {
      X[i] := 0;
      i := i + 1;
    }
    PadLayout(x, X[..]);
  }

  /** A buffer that has the layout of `Pad(x)` byte by byte is `Pad(x)`. */
  lemma PadLayout(x: seq<Byte>, X: seq<Byte>)
    requires |X| == (|x| / Rate + 1) * Rate
    requires forall q :: 0 <= q < |x| ==> X[q] == x[q]
    requires X[|x|] == 0x80 && forall q :: |x| < q < |X| ==> X[q] == 0
    ensures X == Pad(x)
  {
    var R := Pad(x);
    forall q | 0 <= q < |x|
      ensures X[q] == R[q]
    {
      assert R[q] == R[..|x|][q];
    }
  }

  /** `S[off + j] ^= B[j]` for `j` in `0 .. |B|`. */
  method XorBytesInto(S: array<Byte>, off: nat, B: seq<Byte>)
    requires S.Length == StateBytes && off + |B| <= StateBytes
    modifies S
    ensures S[..] == XorInto(old(S[..]), off, B)
  {
    var j := 0;
    while j < |B|
      invariant 0 <= j <= |B|
      invariant forall q :: 0 <= q < StateBytes && !(off <= q < off + j) ==> S[q] == old(S[q])
      invariant forall q :: off <= q < off + j ==> S[q] == old(S[q]) ^ B[q - off]
    {
      S[off + j] := S[off + j] ^ B[j];
      j := j + 1;
    }
  }

  /** `dst[off + j] = src[from + j]` for `j` in `0 .. n`: the rest of `dst`
      is unchanged. */
  method CopyOut(src: array<Byte>, from: nat, dst: array<Byte>, off: nat, n: nat)
    requires from + n <= src.Length && off + n <= dst.Length && src != dst
    modifies dst
    ensures dst[..] == old(dst[..off]) + src[from..from + n] + old(dst[off + n..])
  {
    var j := 0;
    while j < n
      invariant 0 <= j <= n
      invariant forall q :: 0 <= q < dst.Length && !(off <= q < off + j) ==> dst[q] == old(dst[q])
      invariant forall q :: off <= q < off + j ==> dst[q] == src[from + q - off]
    {
      dst[off + j] := src[from + j];
      j := j + 1;
    }
    assert dst[off..off + n] == src[from..from + n];
    assert dst[..] == dst[..off] + dst[off..off + n] + dst[off + n..];
  }

  /** Writing block `i` after the first `i` blocks of a buffer extends the
      prefix by that block and leaves what follows it alone. */
  lemma BlocksAppend(c0: seq<Byte>, c1: seq<Byte>, B: seq<Byte>, i: nat)
    requires |B| == Rate && (i + 1) * Rate <= |c0|
    requires c1 == c0[..i * Rate] + B + c0[(i + 1) * Rate..]
    ensures c1[..(i + 1) * Rate] == c0[..i * Rate] + B
    ensures c1[(i + 1) * Rate..] == c0[(i + 1) * Rate..]
  {
  }

  /** The state before the first permutation: `klen * 8`, `a`, `b`, zeros
      up to the rate, the key, the nonce. Each loop extends the prefix of
      `S` that agrees with `InitialState(k, npub)`. */
  method LoadInitialState(S: array<Byte>, k: seq<Byte>, npub: seq<Byte>)
    requires S.Length == StateBytes && |k| == KeyBytes && |npub| == KeyBytes
    modifies S
    ensures S[..] == InitialState(k, npub)
  {
    ghost var R := InitialState(k, npub);
    S[0] := (KeyBytes * 8) as Byte;
    S[1] := ARounds as Byte;
    S[2] := BRounds as Byte;
    var i := 3;
    while i < Rate
      invariant 3 <= i <= Rate
      invariant forall q :: 0 <= q < i ==> S[q] == R[q]
    {
      S[i] := 0;
      i := i + 1;
    }
    i := 0;
    while i < KeyBytes
      invariant 0 <= i <= KeyBytes
      invariant forall q :: 0 <= q < Rate + i ==> S[q] == R[q]
    {
      assert R[Rate + i] == R[Rate..Rate + KeyBytes][i];
      S[Rate + i] := k[i];
      i := i + 1;
    }
    i := 0;
    while i < KeyBytes
      invariant 0 <= i <= KeyBytes
      invariant forall q :: 0 <= q < Rate + KeyBytes + i ==> S[q] == R[q]
    {
      assert R[Rate + KeyBytes + i] == R[Rate + KeyBytes..][i];
      S[Rate + KeyBytes + i] := npub[i];
      i := i + 1;
    }
    assert S[..] == R;
  }

  /** A call of `permutation` on the state, as the sponge functions see it. */
  method PermuteState(S: array<Byte>, rounds: Int32)
    requires S.Length == StateBytes
    modifies S
    ensures S[..] == Permute320(old(S[..]), rounds)
  {
    Permutation(S, rounds);
    Permute320IsPermute(old(S[..]), rounds);
  }

  /** Initialisation: the initial state, `a` rounds, the key XORed into
      the last `klen` bytes. */
  method InitializeState(S: array<Byte>, k: seq<Byte>, npub: seq<Byte>)
    requires S.Length == StateBytes && |k| == KeyBytes && |npub| == KeyBytes
    modifies S
    ensures S[..] == Initialize(Permute320, k, npub)
  {
    LoadInitialState(S, k, npub);
    PermuteState(S, ARounds);
    XorBytesInto(S, Rate + KeyBytes, k);
  }

  /** Block `i` of a padded buffer XORed into the rate. */
  method XorBlockInto(S: array<Byte>, X: array<Byte>, i: nat)
    requires S.Length == StateBytes && (i + 1) * Rate <= X.Length && S != X
    modifies S
    ensures S[..] == XorInto(old(S[..]), 0, Block(X[..], i))
  {
    ghost var S0 := S[..];
    NextBlockOffset(i);
    XorBytesAt(S, X, i * Rate, X[..]);
    XoredBlock(S0, S[..], X[..], i);
  }

  /** The byte loop `S[j] ^= X[base + j]` for `j` in `0 .. rate`, stated
      byte by byte. */
  method XorBytesAt(S: array<Byte>, X: array<Byte>, base: nat, ghost B: seq<Byte>)
    requires S.Length == StateBytes && base + Rate <= X.Length && S != X && X[..] == B
    modifies S
    ensures forall q {:trigger S[q]} :: 0 <= q < StateBytes ==> S[q] == if q < Rate then old(S[q]) ^ B[base + q] else old(S[q])
  {
    var j := 0;
    while j < Rate
      invariant 0 <= j <= Rate
      invariant forall q {:trigger S[q]} :: 0 <= q < StateBytes ==> S[q] == if q < j then old(S[q]) ^ B[base + q] else old(S[q])
    {
      assert S[j] == old(S[j]) && X[base + j] == B[base + j];
      S[j] := S[j] ^ X[base + j];
      j := j + 1;
    }
  }

  /** A state whose rate is the old rate XORed with block `i` of `X`, and
      whose other bytes are unchanged, is `XorInto` of that block. */
  lemma XoredBlock(S0: State, S1: State, X: seq<Byte>, i: nat)
    requires (i + 1) * Rate <= |X|
    requires forall q :: 0 <= q < StateBytes ==> S1[q] == if q < Rate then S0[q] ^ X[i * Rate + q] else S0[q]
    ensures S1 == XorInto(S0, 0, Block(X, i))
  {
    var r := XorInto(S0, 0, Block(X, i));
    assert forall q :: 0 <= q < StateBytes ==> S1[q] == r[q];
  }

  /** The loop over the `s` blocks of the padded buffer `A`: each is XORed
      into the rate and followed by `b` rounds. */
  method AbsorbBlocks(S: array<Byte>, A: array<Byte>, s: nat, ghost X: seq<Byte>)
    requires S.Length == StateBytes && s * Rate <= A.Length && S != A && A[..] == X
    modifies S
    ensures S[..] == Absorb(Permute320, old(S[..]), X, s)
  {
    ghost var S0: State := S[..];
    var i := 0;
    while i < s
      invariant 0 <= i <= s
      invariant S[..] == Absorb(Permute320, S0, A[..], i)
    {
      XorBlockInto(S, A, i);
      PermuteState(S, BRounds);
      i := i + 1;
    }
  }

  /** Absorption of the padded associated data `A` when `adlen != 0`, then
      the domain separation bit XORed into the last state byte. */
  method AbsorbAssociatedData(S: array<Byte>, A: array<Byte>, ad: seq<Byte>)
    requires S.Length == StateBytes && A[..] == Pad(ad) && S != A
    modifies S
    ensures S[..] == AbsorbAd(Permute320, old(S[..]), ad)
  {
    if |ad| != 0 {
      AbsorbBlocks(S, A, |ad| / Rate + 1, Pad(ad));
    }
    XorBytesInto(S, StateBytes - 1, [1]);
  }

  /** Initialisation followed by the associated data: the state both
      duplexes start from. */
  method PrepareState(S: array<Byte>, A: array<Byte>, k: seq<Byte>, npub: seq<Byte>, ad: seq<Byte>)
    requires S.Length == StateBytes && |k| == KeyBytes && |npub| == KeyBytes
    requires A[..] == Pad(ad) && S != A
    modifies S
    ensures S[..] == Prepared(Permute320, k, npub, ad)
  {
    InitializeState(S, k, npub);
    AbsorbAssociatedData(S, A, ad);
  }

  /** Finalisation: the key XORed into the bytes after the rate, `a`
      rounds, the key XORed into the last `klen` bytes. */
  method FinalizeState(S: array<Byte>, k: seq<Byte>)
    requires S.Length == StateBytes && |k| == KeyBytes
    modifies S
    ensures S[..] == Finalize(Permute320, old(S[..]), k)
  {
    XorBytesInto(S, Rate, k);
    PermuteState(S, ARounds);
    XorBytesInto(S, Rate + KeyBytes, k);
  }
}
