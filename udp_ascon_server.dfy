/** `crypto_aead_decrypt` of the server: the padded associated data,
    initialisation, the decryption duplex over the ciphertext blocks into a
    local buffer `M`, finalisation, the tag comparison, and the copy of the
    plaintext to the caller's buffer. It is proved to return 0 and write the
    plaintext exactly when `Decrypt` of its inputs succeeds, and to return
    -1 and leave the caller's buffer alone otherwise. */
module AsconServer {

  import opened AsconWords
  import opened AsconSponge
  import opened AsconState

  /** One turn of the full-block loop before its permutation:
      `M[i * rate + j] = S[j] ^ c[i * rate + j]; S[j] = c[i * rate + j]`
      for `j` in `0 .. rate`. Byte by byte: block `i` of `M` is the old
      rate XORed with block `i` of the ciphertext, and the rate is
      overwritten with that ciphertext block. */
  method DecryptBlockInto(S: array<Byte>, M: array<Byte>, C: seq<Byte>, i: nat)
    requires S.Length == StateBytes && (i + 1) * Rate <= M.Length && (i + 1) * Rate <= |C| && S != M
    modifies S, M
    ensures S[..] == Overwrite(old(S[..]), Block(C, i))
    ensures M[..] == old(M[..i * Rate]) + Xor(old(S[..Rate]), Block(C, i)) + old(M[i * Rate + Rate..])
  {
    var base := i * Rate;
    var j := 0;
    while j < Rate
      invariant 0 <= j <= Rate
      invariant forall q :: 0 <= q < StateBytes ==> S[q] == if q < j then C[base + q] else old(S[q])
      invariant forall q :: 0 <= q < M.Length ==> M[q] == if base <= q < base + j then old(S[q - base]) ^ C[q] else old(M[q])
    {
      M[base + j] := S[j] ^ C[base + j];
      S[j] := C[base + j];
      j := j + 1;
    }
    OverwrittenBlock(old(S[..]), S[..], C, i);
    RecoveredBlock(old(M[..]), M[..], old(S[..]), C, i);
  }

  /** A state whose rate holds block `i` of `C` and whose other bytes are
      unchanged is `Overwrite` of that block. */
  lemma OverwrittenBlock(S0: State, S1: State, C: seq<Byte>, i: nat)
    requires (i + 1) * Rate <= |C|
    requires forall q :: 0 <= q < StateBytes ==> S1[q] == if q < Rate then C[i * Rate + q] else S0[q]
    ensures S1 == Overwrite(S0, Block(C, i))
  {
    var r := Overwrite(S0, Block(C, i));
    forall q | 0 <= q < StateBytes
      ensures S1[q] == r[q]
    {
      if q < Rate {
        assert r[q] == r[..Rate][q];
      } else {
        assert r[q] == r[Rate..][q - Rate];
      }
    }
  }

  /** Block `i` of the recovered plaintext, byte by byte, is the old rate
      XORed with block `i` of the ciphertext. */
  lemma RecoveredBlock(M0: seq<Byte>, M1: seq<Byte>, S0: State, C: seq<Byte>, i: nat)
    requires (i + 1) * Rate <= |M0| && (i + 1) * Rate <= |C| && |M1| == |M0|
    requires forall q :: 0 <= q < |M0| ==> M1[q] == if i * Rate <= q < i * Rate + Rate then S0[q - i * Rate] ^ C[q] else M0[q]
    ensures M1 == M0[..i * Rate] + Xor(S0[..Rate], Block(C, i)) + M0[i * Rate + Rate..]
  {
    var B := Xor(S0[..Rate], Block(C, i));
    forall q | 0 <= q < |M0|
      ensures M1[q] == if i * Rate <= q < i * Rate + |B| then B[q - i * Rate] else M0[q]
    {
    }
    Spliced(M0, M1, i * Rate, B);
  }

  /** The loop over the `n = t - 1` full blocks of the ciphertext body `C`:
      the state follows the decryption duplex, and `M` starts with the
      recovered plaintext blocks. */
  method DecryptFullBlocks(S: array<Byte>, M: array<Byte>, C: seq<Byte>, n: nat)
    requires S.Length == StateBytes && n * Rate <= M.Length && n * Rate <= |C| && S != M
    modifies S, M
    ensures S[..] == Unabsorb(Permute320, old(S[..]), C, n)
    ensures M[..n * Rate] == DecryptBlocks(Permute320, old(S[..]), C, n)
    ensures M[n * Rate..] == old(M[n * Rate..])
  {
    ghost var S0: State := S[..];
    var i := 0;
    while i < n
      invariant 0 <= i <= n
      invariant S[..] == Unabsorb(Permute320, S0, C, i)
      invariant M[..i * Rate] == DecryptBlocks(Permute320, S0, C, i)
      invariant M[i * Rate..] == old(M[i * Rate..])
    {
      ghost var s0, m0 := S[..], M[..];
      NextBlockOffset(i);
      DecryptBlockInto(S, M, C, i);
      PermuteState(S, BRounds);
      BlocksAppend(m0, M[..], Xor(s0[..Rate], Block(C, i)), i);
      i := i + 1;
    }
  }

  /** `M[off + j] = S[j] ^ B[j]` for `j` in `0 .. |B|`: the first `|B|`
      plaintext bytes of the last block. */
  method XorOut(S: array<Byte>, M: array<Byte>, off: nat, B: seq<Byte>)
    requires S.Length == StateBytes && |B| < Rate && off + |B| <= M.Length && S != M
    modifies M
    ensures M[..] == old(M[..off]) + Xor(S[..|B|], B) + old(M[off + |B|..])
  {
    var j := 0;
    while j < |B|
      invariant 0 <= j <= |B|
      invariant forall q :: 0 <= q < M.Length ==> M[q] == if off <= q < off + j then S[q - off] ^ B[q - off] else old(M[q])
    {
      M[off + j] := S[j] ^ B[j];
      j := j + 1;
    }
    Spliced(old(M[..]), M[..], off, Xor(S[..|B|], B));
  }

  /** `S[j] = B[j]` for `j` in `0 .. |B|`, then `S[|B|] ^= 0x80`: the last,
      partial ciphertext block overwrites the start of the rate and the
      padding byte is XORed in after it. */
  method AbsorbLastBlock(S: array<Byte>, B: seq<Byte>)
    requires S.Length == StateBytes && |B| < Rate
    modifies S
    ensures S[..] == UnabsorbLast(old(S[..]), B)
  {
    var j := 0;
    while j < |B|
      invariant 0 <= j <= |B|
      invariant forall q :: 0 <= q < StateBytes ==> S[q] == if q < j then B[q] else old(S[q])
    {
      S[j] := B[j];
      j := j + 1;
    }
    S[|B|] := S[|B|] ^ 0x80;
    LastBlockLayout(old(S[..]), S[..], B);
  }

  /** A state that holds `B` at its start, the old byte XOR 0x80 right
      after it and the old bytes elsewhere is `UnabsorbLast` of `B`. */
  lemma LastBlockLayout(S0: State, S1: State, B: seq<Byte>)
    requires |B| < Rate
    requires forall q :: 0 <= q < StateBytes ==> S1[q] == if q < |B| then B[q] else if q == |B| then S0[q] ^ 0x80 else S0[q]
    ensures S1 == UnabsorbLast(S0, B)
  {
    var r := UnabsorbLast(S0, B);
    forall q | 0 <= q < StateBytes
      ensures S1[q] == r[q]
    {
      if q < |B| {
        assert r[q] == r[..|B|][q];
      } else if q > |B| {
        assert r[q] == r[|B| + 1..][q - |B| - 1];
      }
    }
  }

  /** The ciphertext part of `crypto_aead_decrypt`: the full blocks, then
      the `l = (clen - klen) % rate` bytes of the last block. The state ends
      as `DecryptState` and `M` starts with `DecryptBody`. */
  method DecryptMessage(S: array<Byte>, M: array<Byte>, C: seq<Byte>)
    requires S.Length == StateBytes && M.Length == (|C| / Rate + 1) * Rate && S != M
    modifies S, M
    ensures S[..] == DecryptState(Permute320, old(S[..]), C)
    ensures M[..|C|] == DecryptBody(Permute320, old(S[..]), C)
  {
    ghost var S0: State := S[..];
    var t := |C| / Rate + 1;
    DecryptFullBlocks(S, M, C, t - 1);
    ghost var S1: State, M1 := S[..], M[..];
    XorOut(S, M, (t - 1) * Rate, C[(t - 1) * Rate..]);
    AbsorbLastBlock(S, C[(t - 1) * Rate..]);
    PlaintextLayout(Permute320, S0, C, S1, M1, M[..]);
  }

  /** `M` after the full blocks and the last partial block holds the
      recovered plaintext body. */
  lemma PlaintextLayout(P: Perm, S0: State, C: seq<Byte>, S1: State, M1: seq<Byte>, M2: seq<Byte>)
    requires var n := (|C| / Rate) * Rate;
      |C| <= |M1| && S1 == Unabsorb(P, S0, C, |C| / Rate) && M1[..n] == DecryptBlocks(P, S0, C, |C| / Rate)
    requires var n := (|C| / Rate) * Rate;
      M2 == M1[..n] + Xor(S1[..|C| - n], C[n..]) + M1[|C|..]
    ensures M2[..|C|] == DecryptBody(P, S0, C)
  {
  }

  /** The early-exit comparison of the last `klen` bytes of `c` with the
      tag: `false` at the first byte that differs. */
  method TagMatches(S: array<Byte>, c: seq<Byte>) returns (equal: bool)
    requires S.Length == StateBytes && KeyBytes <= |c|
    ensures equal <==> Tag(S[..]) == c[|c| - KeyBytes..]
  {
    ghost var T, E := Tag(S[..]), c[|c| - KeyBytes..];
    var i := 0;
    while i < KeyBytes
      invariant 0 <= i <= KeyBytes
      invariant forall q :: 0 <= q < i ==> T[q] == E[q]
    {
      if c[|c| - KeyBytes + i] != S[Rate + KeyBytes + i] {
        assert T[i] != E[i];
        return false;
      }
      i := i + 1;
    }
    assert T == E;
    return true;
  }

  /** Everything of `crypto_aead_decrypt` between the length check and the
      copy to the caller: the padded associated data, initialisation, the
      ciphertext body decrypted into `M`, finalisation and the tag
      comparison. The tag matches exactly when `Decrypt` succeeds, and then
      `M` starts with its plaintext. */
  method DecryptAndVerify(M: array<Byte>, c: seq<Byte>, ad: seq<Byte>, npub: seq<Byte>, k: seq<Byte>)
    returns (equal: bool)
    requires |k| == KeyBytes && |npub| == KeyBytes && KeyBytes <= |c|
    requires M.Length == ((|c| - KeyBytes) / Rate + 1) * Rate
    modifies M
    ensures equal <==> Decrypt(Permute320, k, npub, ad, c).Some?
    ensures equal ==> M[..|c| - KeyBytes] == Decrypt(Permute320, k, npub, ad, c).value
  {
    var A := PadInto(ad);
    var S := new Byte[StateBytes];
    PrepareState(S, A, k, npub, ad);
    DecryptMessage(S, M, c[..|c| - KeyBytes]);
    FinalizeState(S, k);
    equal := TagMatches(S, c);
  }

  /** `crypto_aead_decrypt(m, &mlen, nsec, c, clen, ad, adlen, npub, k)`:
      returns -1 with `mlen` 0 and `m` untouched when `clen < klen` or the
      tag does not match, and otherwise returns 0, sets `mlen` to
      `clen - klen` and writes the plaintext to `m`. */
  method CryptoAeadDecrypt(m: array<Byte>, c: seq<Byte>, ad: seq<Byte>, npub: seq<Byte>, k: seq<Byte>)
    returns (mlen: nat, rc: int)
    requires |k| == KeyBytes && |npub| == KeyBytes
    requires KeyBytes <= |c| ==> |c| - KeyBytes <= m.Length
    modifies m
    ensures rc == 0 || rc == -1
    ensures rc == 0 <==> Decrypt(Permute320, k, npub, ad, c).Some?
    ensures rc == 0 ==> mlen == |c| - KeyBytes && m[..mlen] == Decrypt(Permute320, k, npub, ad, c).value
    ensures rc == 0 ==> m[mlen..] == old(m[mlen..])
    ensures rc == -1 ==> mlen == 0 && m[..] == old(m[..])
  {
    mlen := 0;
    if |c| < KeyBytes {
      return mlen, -1;
    }
    var M := new Byte[((|c| - KeyBytes) / Rate + 1) * Rate];
    var equal := DecryptAndVerify(M, c, ad, npub, k);
    if !equal {
      return mlen, -1;
    }
    mlen := |c| - KeyBytes;
    CopyOut(M, 0, m, 0, mlen);
    rc := 0;
  }
}
