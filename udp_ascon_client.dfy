/** `crypto_aead_encrypt` of the client: the padded buffers, initialisation,
    the associated data, the encryption duplex over the message blocks,
    finalisation and the tag, on a 40-byte state array and into the
    caller's ciphertext buffer. It is proved to write `Encrypt` of its
    inputs, with `permutation` as the permutation. */
module AsconClient {

  import opened AsconWords
  import opened AsconSponge
  import opened AsconState

  /** The byte loop of one full block, from `base = i * rate`:
      `S[j] ^= M[base + j]; c[base + j] = S[j]` for `j` in `0 .. rate`,
      stated byte by byte. */
  method EncryptBytes(S: array<Byte>, M: array<Byte>, c: array<Byte>, base: nat, ghost X: seq<Byte>)
    requires S.Length == StateBytes && base + Rate <= M.Length && base + Rate <= c.Length
    requires S != M && S != c && M != c && M[..] == X
    modifies S, c
    ensures forall q {:trigger S[q]} :: 0 <= q < StateBytes ==> S[q] == if q < Rate then old(S[q]) ^ X[base + q] else old(S[q])
    ensures forall q {:trigger c[q]} :: 0 <= q < c.Length ==> c[q] == if base <= q < base + Rate then old(S[q - base]) ^ X[q] else old(c[q])
  {
    var j := 0;
    while j < Rate
      invariant 0 <= j <= Rate
      invariant forall q {:trigger S[q]} :: 0 <= q < StateBytes ==> S[q] == if q < j then old(S[q]) ^ X[base + q] else old(S[q])
      invariant forall q {:trigger c[q]} :: 0 <= q < c.Length ==> c[q] == if base <= q < base + j then old(S[q - base]) ^ X[q] else old(c[q])
    {
      assert S[j] == old(S[j]) && M[base + j] == X[base + j];
      S[j] := S[j] ^ M[base + j];
      c[base + j] := S[j];
      j := j + 1;
    }
  }

  /** A state and a buffer that have, byte by byte, the layout after one
      full block are the sponge's state and the buffer with the new rate
      spliced in at block `i`. */
  lemma EncryptedBlock(S0: State, S1: State, X: seq<Byte>, c0: seq<Byte>, c1: seq<Byte>, i: nat)
    requires (i + 1) * Rate <= |X| && (i + 1) * Rate <= |c0| && |c1| == |c0|
    requires forall q :: 0 <= q < StateBytes ==> S1[q] == if q < Rate then S0[q] ^ X[i * Rate + q] else S0[q]
    requires forall q :: 0 <= q < |c0| ==> c1[q] == if i * Rate <= q < i * Rate + Rate then S0[q - i * Rate] ^ X[q] else c0[q]
    ensures S1 == XorInto(S0, 0, Block(X, i))
    ensures c1 == c0[..i * Rate] + S1[..Rate] + c0[i * Rate + Rate..]
  {
    XoredBlock(S0, S1, X, i);
    Spliced(c0, c1, i * Rate, S1[..Rate]);
  }

  /** One turn of the full-block loop before its permutation: the rate of
      `S` is XORed with block `i` of `M`, and the new rate is copied to
      block `i` of `c`. */
  method EncryptBlockInto(S: array<Byte>, M: array<Byte>, c: array<Byte>, i: nat)
    requires S.Length == StateBytes && (i + 1) * Rate <= M.Length && (i + 1) * Rate <= c.Length
    requires S != M && S != c && M != c
    modifies S, c
    ensures S[..] == XorInto(old(S[..]), 0, Block(M[..], i))
    ensures c[..] == old(c[..i * Rate]) + S[..Rate] + old(c[i * Rate + Rate..])
  {
    ghost var S0, c0 := S[..], c[..];
    EncryptBytes(S, M, c, i * Rate, M[..]);
    EncryptedBlock(S0, S[..], M[..], c0, c[..], i);
  }

  /** The loop over the `n = t - 1` full blocks of the padded message `M`:
      the state follows the absorption of those blocks, and the
      ciphertext buffer starts with their encryption. */
  method EncryptFullBlocks(S: array<Byte>, M: array<Byte>, c: array<Byte>, n: nat, ghost X: seq<Byte>)
    requires S.Length == StateBytes && n * Rate <= M.Length && n * Rate <= c.Length
    requires S != M && S != c && M != c && M[..] == X
    modifies S, c
    ensures S[..] == Absorb(Permute320, old(S[..]), X, n)
    ensures c[..n * Rate] == EncryptBlocks(Permute320, old(S[..]), X, n)
    ensures c[n * Rate..] == old(c[n * Rate..])
  {
    ghost var S0: State := S[..];
    var i := 0;
    while i < n
      invariant 0 <= i <= n
      invariant S[..] == Absorb(Permute320, S0, X, i)
      invariant c[..i * Rate] == EncryptBlocks(Permute320, S0, X, i)
      invariant c[i * Rate..] == old(c[i * Rate..])
    {
      ghost var s0, c0 := S[..], c[..];
      NextBlockOffset(i);
      EncryptBlockInto(S, M, c, i);
      ghost var B := S[..Rate];
      PermuteState(S, BRounds);
      BlocksAppend(c0, c[..], B, i);
      i := i + 1;
    }
  }

  /** The last, padded block `t - 1` of `M` XORed into the rate, and the
      first `l` bytes of the new rate copied to `c[(t - 1) * rate ..]`. */
  method EncryptLastBlock(S: array<Byte>, M: array<Byte>, c: array<Byte>, p: nat, l: nat)
    requires S.Length == StateBytes && (p + 1) * Rate <= M.Length && l < Rate && p * Rate + l <= c.Length
    requires S != M && S != c && M != c
    modifies S, c
    ensures S[..] == XorInto(old(S[..]), 0, Block(M[..], p))
    ensures c[..] == old(c[..p * Rate]) + S[..l] + old(c[p * Rate + l..])
  {
    XorBlockInto(S, M, p);
    CopyOut(S, 0, c, p * Rate, l);
  }

  /** The message part of `crypto_aead_encrypt`: the full blocks, then the
      last padded block XORed into the rate and its first `l = mlen % rate`
      bytes copied out. The state ends as `EncryptState` and the buffer
      starts with `EncryptBody`. */
  method EncryptMessage(S: array<Byte>, M: array<Byte>, c: array<Byte>, m: seq<Byte>)
    requires S.Length == StateBytes && M[..] == Pad(m) && |m| <= c.Length
    requires S != M && S != c && M != c
    modifies S, c
    ensures S[..] == EncryptState(Permute320, old(S[..]), m)
    ensures c[..|m|] == EncryptBody(Permute320, old(S[..]), m)
    ensures c[|m|..] == old(c[|m|..])
  {
    ghost var S0: State := S[..];
    var p, l := |m| / Rate, |m| % Rate;
    EncryptFullBlocks(S, M, c, p, Pad(m));
    ghost var c1 := c[..];
    EncryptLastBlock(S, M, c, p, l);
    BodyLayout(Permute320, S0, m, S[..], old(c[..]), c1, c[..]);
  }

  /** The buffer after the full blocks and the last partial block holds
      the ciphertext body, and nothing after it has changed. */
  lemma BodyLayout(P: Perm, S0: State, m: seq<Byte>, last: State, c0: seq<Byte>, c1: seq<Byte>, c2: seq<Byte>)
    requires |m| <= |c0| && last == EncryptState(P, S0, m)
    requires var n := (|m| / Rate) * Rate;
      |c1| == |c0| && c1[..n] == EncryptBlocks(P, S0, Pad(m), |m| / Rate) && c1[n..] == c0[n..]
    requires var n := (|m| / Rate) * Rate;
      c2 == c1[..n] + last[..|m| - n] + c1[|m|..]
    ensures c2[..|m|] == EncryptBody(P, S0, m)
    ensures c2[|m|..] == c0[|m|..]
  {
  }

  /** Finalisation and the tag: the `klen` bytes after the rate and the key
      copied to `c[off ..]` after the finalisation steps. */
  method WriteTag(S: array<Byte>, k: seq<Byte>, c: array<Byte>, off: nat)
    requires S.Length == StateBytes && |k| == KeyBytes && off + KeyBytes <= c.Length && S != c
    modifies S, c
    ensures S[..] == Finalize(Permute320, old(S[..]), k)
    ensures c[..] == old(c[..off]) + Tag(S[..]) + old(c[off + KeyBytes..])
  {
    FinalizeState(S, k);
    CopyOut(S, Rate + KeyBytes, c, off, KeyBytes);
    assert S[Rate + KeyBytes..Rate + KeyBytes + KeyBytes] == Tag(S[..]);
  }

  /** `crypto_aead_encrypt(c, &clen, m, mlen, ad, adlen, nsec, npub, k)`:
      writes the `mlen + klen` bytes of the ciphertext and tag to `c`,
      sets `clen` to that length and returns 0. */
  method CryptoAeadEncrypt(c: array<Byte>, m: seq<Byte>, ad: seq<Byte>, npub: seq<Byte>, k: seq<Byte>)
    returns (clen: nat, rc: int)
    requires |k| == KeyBytes && |npub| == KeyBytes && c.Length >= |m| + KeyBytes
    modifies c
    ensures rc == 0 && clen == |m| + KeyBytes
    ensures c[..clen] == Encrypt(Permute320, k, npub, ad, m)
    ensures c[clen..] == old(c[clen..])
  {
    var A := PadInto(ad);
    var M := PadInto(m);
    var S := new Byte[StateBytes];
    PrepareState(S, A, k, npub, ad);
    EncryptMessage(S, M, c, m);
    ghost var c1 := c[..];
    WriteTag(S, k, c, |m|);
    clen, rc := |m| + KeyBytes, 0;
    assert c[..clen] == c1[..|m|] + Tag(S[..]);
  }
}
