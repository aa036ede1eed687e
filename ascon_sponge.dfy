/** The sponge AEAD mode over the 40-byte state, as pure functions of the
    inputs: padding, the initial state, absorption of the associated data,
    the encryption and decryption duplex over the message blocks,
    finalisation and the tag. These are the specifications the imperative
    `crypto_aead_encrypt` and `crypto_aead_decrypt` are proved against, and
    the round trip of the two is proved about them.

    The mode is written for any family `P` of state permutations indexed
    by a round count; `permutation` is the instance `Permute320`. The round
    trip holds whatever `P` is, so its proof never looks inside the rounds.

    The parameters are those of a 16-byte key: rate 8, capacity 32,
    12 rounds for initialisation and finalisation, 6 rounds per block. */
module AsconSponge {

  import opened AsconWords
  import opened AsconPermutation

  /** `CRYPTO_KEYBYTES`; the nonce has the same length. */
  const KeyBytes: nat := 16
  /** `size = 320 / 8`: the state in bytes. */
  const StateBytes: nat := 40
  /** `rate = size - capacity` with `capacity = 2 * klen`: 40 - 32. */
  const Rate: nat := 8
  /** Rounds of initialisation and finalisation. */
  const ARounds: Int32 := 12
  /** Rounds per block: `(klen == 16) ? 6 : 8` for `klen = 16`. */
  const BRounds: Int32 := 6

  datatype Option<T> = None | Some(value: T)

  /** The 40-byte state `S`. */
  type State = S: seq<Byte> | |S| == StateBytes witness seq(40, _ => 0)

  /** A family of state permutations indexed by a round count. */
  type Perm = (State, Int32) -> State

  /** `permutation(S, rounds)` as a member of the family. It is reached
      through one step of `Delayed`, so that the proofs about the
      imperative code, which relate calls of the permutation to each other
      and never need its bits, do not unfold the rounds. */
  function Permute320(S: State, rounds: Int32): State
  {
    Delayed(S, rounds, 1)
  }

  /** `Permute(S, rounds)` after a countdown from `d`. */
  function Delayed(S: State, rounds: Int32, d: nat): State
  {
    if d == 0 then Permute(S, rounds) else Delayed(S, rounds, d - 1)
  }

  /** The member of the family is the permutation. */
  lemma Permute320IsPermute(S: State, rounds: Int32)
    ensures Permute320(S, rounds) == Permute(S, rounds)
  {
    assert Delayed(S, rounds, 1) == Delayed(S, rounds, 0);
  }

  function Zeros(n: nat): (r: seq<Byte>)
    ensures |r| == n && forall i :: 0 <= i < n ==> r[i] == 0
  {
    seq(n, _ => 0)
  }

  /** The padded buffer `A` or `M`: the input, then 0x80, then zeros up to
      the next multiple of the rate, so at least one padding byte is
      always present. */
  function Pad(x: seq<Byte>): (r: seq<Byte>)
    ensures |r| == (|x| / Rate + 1) * Rate && |x| < |r|
    ensures r[..|x|] == x && r[|x|] == 0x80
    ensures forall i :: |x| < i < |r| ==> r[i] == 0
  {
    x + [0x80] + Zeros(Rate - 1 - |x| % Rate)
  }

  /** Element-wise XOR of two equally long byte strings. */
  function Xor(a: seq<Byte>, b: seq<Byte>): (r: seq<Byte>)
    requires |a| == |b|
    ensures |r| == |a| && forall i {:trigger r[i]} :: 0 <= i < |a| ==> r[i] == a[i] ^ b[i]
  {
    seq(|a|, i requires 0 <= i < |a| => a[i] ^ b[i])
  }

  /** `S[off + j] ^= B[j]` for every `j`: the bytes of `B` XORed into the
      state from offset `off`, the other bytes unchanged. */
  function XorInto(S: State, off: nat, B: seq<Byte>): (r: State)
    requires off + |B| <= StateBytes
  {
    seq(StateBytes, i requires 0 <= i < StateBytes => if off <= i < off + |B| then S[i] ^ B[i - off] else S[i])
  }

  /** `S[j] = B[j]` for every `j`: the first bytes of the state replaced by
      `B`, the rest unchanged. */
  function Overwrite(S: State, B: seq<Byte>): (r: State)
    requires |B| <= StateBytes
    ensures r[..|B|] == B && r[|B|..] == S[|B|..]
  {
    B + S[|B|..]
  }

  /** Block `i + 1` starts where block `i` ends. */
  lemma NextBlockOffset(i: nat)
    ensures (i + 1) * Rate == i * Rate + Rate
  {
  }

  /** Block `i` of a padded buffer: `X[i * rate .. (i + 1) * rate)`. */
  function Block(X: seq<Byte>, i: nat): (r: seq<Byte>)
    requires (i + 1) * Rate <= |X|
    ensures |r| == Rate && forall j :: 0 <= j < Rate ==> r[j] == X[i * Rate + j]
  {
    X[i * Rate..(i + 1) * Rate]
  }

  /** The state before the first permutation: `klen * 8`, `a`, `b`, zeros
      up to the rate, then the key, then the nonce. */
  function InitialState(k: seq<Byte>, npub: seq<Byte>): (r: State)
    requires |k| == KeyBytes && |npub| == KeyBytes
    ensures r[0] == 128 && r[1] == 12 && r[2] == 6
    ensures forall i :: 3 <= i < Rate ==> r[i] == 0
    ensures r[Rate..Rate + KeyBytes] == k && r[Rate + KeyBytes..] == npub
  {
    [(KeyBytes * 8) as Byte, ARounds as Byte, BRounds as Byte] + Zeros(Rate - 3) + k + npub
  }

  /** The state after initialisation: `a` rounds, then the key XORed into
      the last `klen` bytes. */
  function Initialize(P: Perm, k: seq<Byte>, npub: seq<Byte>): State
    requires |k| == KeyBytes && |npub| == KeyBytes
  {
    XorInto(P(InitialState(k, npub), ARounds), Rate + KeyBytes, k)
  }

  /** The state after `n` blocks of `X` have each been XORed into the rate
      and followed by `b` rounds. This is both the absorption of the
      associated data and the state of the encryption duplex. */
  function Absorb(P: Perm, S: State, X: seq<Byte>, n: nat): State
    requires n * Rate <= |X|
  {
    if n == 0 then S
    else P(XorInto(Absorb(P, S, X, n - 1), 0, Block(X, n - 1)), BRounds)
  }

  /** Absorption of the associated data, skipped when `adlen` is 0, then
      the domain separation bit XORed into the last state byte. */
  function AbsorbAd(P: Perm, S: State, ad: seq<Byte>): State
  {
    var T := if |ad| != 0 then Absorb(P, S, Pad(ad), |ad| / Rate + 1) else S;
    XorInto(T, StateBytes - 1, [1])
  }

  /** The state common to encryption and decryption once the associated
      data has been processed. */
  function Prepared(P: Perm, k: seq<Byte>, npub: seq<Byte>, ad: seq<Byte>): State
    requires |k| == KeyBytes && |npub| == KeyBytes
  {
    AbsorbAd(P, Initialize(P, k, npub), ad)
  }

  /** Finalisation: the key XORed into the bytes after the rate, `a`
      rounds, the key XORed into the last `klen` bytes. */
  function Finalize(P: Perm, S: State, k: seq<Byte>): State
    requires |k| == KeyBytes
  {
    XorInto(P(XorInto(S, Rate, k), ARounds), Rate + KeyBytes, k)
  }

  /** The tag: the last `klen` bytes of the finalised state. */
  function Tag(S: State): (r: seq<Byte>)
    ensures |r| == KeyBytes && forall i :: 0 <= i < KeyBytes ==> r[i] == S[Rate + KeyBytes + i]
  {
    S[Rate + KeyBytes..]
  }

  /** The ciphertext of the first `n` full blocks: each block is the rate
      of the state right after the plaintext block was XORed into it. */
  function EncryptBlocks(P: Perm, S: State, M: seq<Byte>, n: nat): (r: seq<Byte>)
    requires n * Rate <= |M|
    ensures |r| == n * Rate
  {
    if n == 0 then []
    else EncryptBlocks(P, S, M, n - 1) + XorInto(Absorb(P, S, M, n - 1), 0, Block(M, n - 1))[..Rate]
  }

  /** The state once the last, padded message block is XORed in. */
  function EncryptState(P: Perm, S: State, m: seq<Byte>): State
  {
    var M, t := Pad(m), |m| / Rate + 1;
    XorInto(Absorb(P, S, M, t - 1), 0, Block(M, t - 1))
  }

  /** The ciphertext body: the full blocks, then the first `l` bytes of
      the rate after the last block. */
  function EncryptBody(P: Perm, S: State, m: seq<Byte>): (r: seq<Byte>)
    ensures |r| == |m|
  {
    var t, l := |m| / Rate + 1, |m| % Rate;
    EncryptBlocks(P, S, Pad(m), t - 1) + EncryptState(P, S, m)[..l]
  }

  /** `crypto_aead_encrypt`: the ciphertext body, as long as the message,
      followed by the tag. */
  function Encrypt(P: Perm, k: seq<Byte>, npub: seq<Byte>, ad: seq<Byte>, m: seq<Byte>): (c: seq<Byte>)
    requires |k| == KeyBytes && |npub| == KeyBytes
    ensures |c| == |m| + KeyBytes
  {
    var S := Prepared(P, k, npub, ad);
    EncryptBody(P, S, m) + Tag(Finalize(P, EncryptState(P, S, m), k))
  }

  /** The state of the decryption duplex after `n` full ciphertext blocks:
      each block overwrites the rate and is followed by `b` rounds. */
  function Unabsorb(P: Perm, S: State, C: seq<Byte>, n: nat): State
    requires n * Rate <= |C|
  {
    if n == 0 then S
    else P(Overwrite(Unabsorb(P, S, C, n - 1), Block(C, n - 1)), BRounds)
  }

  /** The plaintext of the first `n` full blocks: the rate of the state
      XORed with the ciphertext block. */
  function DecryptBlocks(P: Perm, S: State, C: seq<Byte>, n: nat): (r: seq<Byte>)
    requires n * Rate <= |C|
    ensures |r| == n * Rate
  {
    if n == 0 then []
    else DecryptBlocks(P, S, C, n - 1) + Xor(Unabsorb(P, S, C, n - 1)[..Rate], Block(C, n - 1))
  }

  /** The last, partial block of `l < rate` ciphertext bytes: the bytes
      overwrite the start of the rate and 0x80 is XORed in right after;
      the rest of the state is unchanged. */
  function UnabsorbLast(S: State, C: seq<Byte>): (r: State)
    requires |C| < Rate
    ensures r[..|C|] == C && r[|C|] == S[|C|] ^ 0x80 && r[|C| + 1..] == S[|C| + 1..]
  {
    XorInto(Overwrite(S, C), |C|, [0x80])
  }

  /** The state after the whole ciphertext body `C` has been processed. */
  function DecryptState(P: Perm, S: State, C: seq<Byte>): State
  {
    var t := |C| / Rate + 1;
    UnabsorbLast(Unabsorb(P, S, C, t - 1), C[(t - 1) * Rate..])
  }

  /** The plaintext recovered from the ciphertext body `C`. */
  function DecryptBody(P: Perm, S: State, C: seq<Byte>): (r: seq<Byte>)
    ensures |r| == |C|
  {
    var t := |C| / Rate + 1;
    DecryptBlocks(P, S, C, t - 1) + Xor(Unabsorb(P, S, C, t - 1)[..|C| - (t - 1) * Rate], C[(t - 1) * Rate..])
  }

  /** `crypto_aead_decrypt`: `None` (return code -1) when the input is
      shorter than a tag or the recomputed tag differs from its last
      `klen` bytes, otherwise the recovered plaintext. */
  function Decrypt(P: Perm, k: seq<Byte>, npub: seq<Byte>, ad: seq<Byte>, c: seq<Byte>): (r: Option<seq<Byte>>)
    requires |k| == KeyBytes && |npub| == KeyBytes
    ensures |c| < KeyBytes ==> r.None?
    ensures r.Some? ==> |r.value| == |c| - KeyBytes
  {
    if |c| < KeyBytes then None
    else
      var C := c[..|c| - KeyBytes];
      var S := Prepared(P, k, npub, ad);
      if Tag(Finalize(P, DecryptState(P, S, C), k)) == c[|c| - KeyBytes..] then Some(DecryptBody(P, S, C))
      else None
  }

  /** One full block: overwriting the rate with the ciphertext block that
      encryption produced gives the encryption state, and XORing the
      ciphertext into the rate gives back the plaintext block. */
  lemma BlockAgree(S: State, B: seq<Byte>)
    requires |B| == Rate
    ensures Overwrite(S, XorInto(S, 0, B)[..Rate]) == XorInto(S, 0, B)
    ensures Xor(S[..Rate], XorInto(S, 0, B)[..Rate]) == B
  {
    var X := XorInto(S, 0, B);
    assert Overwrite(S, X[..Rate]) == X by {
      assert X[Rate..] == S[Rate..];
    }
    assert forall j :: 0 <= j < Rate ==> S[j] ^ (S[j] ^ B[j]) == B[j];
  }

  /** A prefix of `(p + 1)` blocks ending in block `cb` splits into its
      first `p` blocks and block `p`. */
  lemma PrefixSplit(C: seq<Byte>, p: nat, E: seq<Byte>, cb: seq<Byte>)
    requires (p + 1) * Rate <= |C| && |E| == p * Rate && |cb| == Rate
    requires C[..(p + 1) * Rate] == E + cb
    ensures C[..p * Rate] == E && Block(C, p) == cb
  {
    assert C[..p * Rate] == C[..(p + 1) * Rate][..p * Rate];
    assert Block(C, p) == C[..(p + 1) * Rate][p * Rate..];
  }

  /** The first `p + 1` blocks are the first `p` blocks and block `p`. */
  lemma PrefixJoin(M: seq<Byte>, p: nat)
    requires (p + 1) * Rate <= |M|
    ensures M[..(p + 1) * Rate] == M[..p * Rate] + Block(M, p)
  {
  }

  /** After `n` full blocks the two duplexes are in the same state and
      decryption has recovered the plaintext blocks, whenever the
      ciphertext starts with the encryption of those blocks. */
  lemma {:induction false} DuplexAgree(P: Perm, S: State, M: seq<Byte>, C: seq<Byte>, n: nat)
    requires n * Rate <= |M| && n * Rate <= |C|
    requires C[..n * Rate] == EncryptBlocks(P, S, M, n)
    ensures Unabsorb(P, S, C, n) == Absorb(P, S, M, n)
    ensures DecryptBlocks(P, S, C, n) == M[..n * Rate]
  {
    if n > 0 {
      var p := n - 1;
      var X := Absorb(P, S, M, p);
      var cb := XorInto(X, 0, Block(M, p))[..Rate];
      PrefixSplit(C, p, EncryptBlocks(P, S, M, p), cb);
      DuplexAgree(P, S, M, C, p);
      BlockAgree(X, Block(M, p));
      PrefixJoin(M, p);
    }
  }

  /** The last block: XORing the padded block `m || 0x80 || 0..` into the
      rate gives the same state as overwriting the rate with the
      ciphertext bytes and XORing 0x80 in after them, and the ciphertext
      XORed with the rate gives back the message bytes. */
  lemma LastBlockAgree(S: State, B: seq<Byte>, l: nat)
    requires |B| == Rate && l < Rate
    requires B[l] == 0x80 && forall i :: l < i < Rate ==> B[i] == 0
    ensures UnabsorbLast(S, XorInto(S, 0, B)[..l]) == XorInto(S, 0, B)
    ensures Xor(S[..l], XorInto(S, 0, B)[..l]) == B[..l]
  {
    var X := XorInto(S, 0, B);
    var U := UnabsorbLast(S, X[..l]);
    forall i | 0 <= i < StateBytes
      ensures U[i] == X[i]
    {
      if i < l {
        assert U[i] == U[..l][i];
      } else if i > l {
        assert U[i] == U[l + 1..][i - l - 1];
      }
    }
    assert forall j :: 0 <= j < l ==> S[j] ^ (S[j] ^ B[j]) == B[j];
  }

  /** The body of the encryption of `m` decrypts back to `m`, and leaves
      the decryption duplex in the state the encryption duplex ended in. */
  lemma {:induction false} BodyAgree(P: Perm, S: State, m: seq<Byte>)
    ensures DecryptState(P, S, EncryptBody(P, S, m)) == EncryptState(P, S, m)
    ensures DecryptBody(P, S, EncryptBody(P, S, m)) == m
  {
    var M, t, l := Pad(m), |m| / Rate + 1, |m| % Rate;
    var p := t - 1;
    var C := EncryptBody(P, S, m);
    var last := EncryptState(P, S, m);
    assert C[..p * Rate] == EncryptBlocks(P, S, M, p);
    DuplexAgree(P, S, M, C, p);
    assert C[p * Rate..] == last[..l];
    LastBlockAgree(Absorb(P, S, M, p), Block(M, p), l);
    assert M[..p * Rate] == m[..p * Rate];
    assert Block(M, p)[..l] == m[p * Rate..];
    assert m == m[..p * Rate] + m[p * Rate..];
  }

  /** Decrypting the output of `crypto_aead_encrypt` with the same key,
      nonce and associated data succeeds and returns the message, for
      every permutation family and so in particular for `Permute320`. */
  lemma DecryptEncrypt(P: Perm, k: seq<Byte>, npub: seq<Byte>, ad: seq<Byte>, m: seq<Byte>)
    requires |k| == KeyBytes && |npub| == KeyBytes
    ensures Decrypt(P, k, npub, ad, Encrypt(P, k, npub, ad, m)) == Some(m)
  {
    var c := Encrypt(P, k, npub, ad, m);
    var S := Prepared(P, k, npub, ad);
    assert c[..|c| - KeyBytes] == EncryptBody(P, S, m);
    BodyAgree(P, S, m);
  }

  /** One full block, the other way: XORing into the rate the plaintext
      block that decryption recovered gives the state that overwriting the
      rate with the ciphertext block gives, and its rate is that
      ciphertext block. */
  lemma BlockAgreeBack(S: State, C: seq<Byte>)
    requires |C| == Rate
    ensures XorInto(S, 0, Xor(S[..Rate], C)) == Overwrite(S, C)
    ensures XorInto(S, 0, Xor(S[..Rate], C))[..Rate] == C
  {
    var X := XorInto(S, 0, Xor(S[..Rate], C));
    assert forall j :: 0 <= j < Rate ==> S[j] ^ (S[j] ^ C[j]) == C[j];
    assert X[..Rate] == C;
    assert X[Rate..] == S[Rate..];
  }

  /** After `n` full blocks the two duplexes are in the same state and
      encryption reproduces the ciphertext blocks, whenever the message
      starts with the plaintext that decryption recovered from them. */
  lemma {:induction false} DuplexAgreeBack(P: Perm, S: State, M: seq<Byte>, C: seq<Byte>, n: nat)
    requires n * Rate <= |M| && n * Rate <= |C|
    requires M[..n * Rate] == DecryptBlocks(P, S, C, n)
    ensures Absorb(P, S, M, n) == Unabsorb(P, S, C, n)
    ensures EncryptBlocks(P, S, M, n) == C[..n * Rate]
  {
    if n > 0 {
      var p := n - 1;
      var U := Unabsorb(P, S, C, p);
      var mb := Xor(U[..Rate], Block(C, p));
      PrefixSplit(M, p, DecryptBlocks(P, S, C, p), mb);
      DuplexAgreeBack(P, S, M, C, p);
      BlockAgreeBack(U, Block(C, p));
      PrefixJoin(C, p);
    }
  }

  /** The last block, the other way: XORing into the rate the padded
      block that starts with the `l` recovered bytes gives the state of
      the decryption fix-up, and its first `l` bytes are the ciphertext. */
  lemma LastBlockAgreeBack(S: State, C: seq<Byte>, B: seq<Byte>)
    requires |B| == Rate && |C| < Rate
    requires B[..|C|] == Xor(S[..|C|], C) && B[|C|] == 0x80
    requires forall i :: |C| < i < Rate ==> B[i] == 0
    ensures XorInto(S, 0, B) == UnabsorbLast(S, C)
    ensures XorInto(S, 0, B)[..|C|] == C
  {
    var l := |C|;
    var X := XorInto(S, 0, B);
    var U := UnabsorbLast(S, C);
    forall i | 0 <= i < StateBytes
      ensures X[i] == U[i]
    {
      if i < l {
        assert B[i] == B[..l][i];
        assert U[i] == U[..l][i];
        assert S[i] ^ (S[i] ^ C[i]) == C[i];
      } else if i > l {
        assert U[i] == U[l + 1..][i - l - 1];
      }
    }
  }

  /** Encrypting the plaintext that decryption recovers from a body `C`
      gives back `C`, and leaves the encryption duplex in the state the
      decryption duplex ended in. */
  lemma {:induction false} BodyAgreeBack(P: Perm, S: State, C: seq<Byte>)
    ensures EncryptBody(P, S, DecryptBody(P, S, C)) == C
    ensures EncryptState(P, S, DecryptBody(P, S, C)) == DecryptState(P, S, C)
  {
    var m := DecryptBody(P, S, C);
    var M, p, l := Pad(m), |C| / Rate, |C| % Rate;
    var U := Unabsorb(P, S, C, p);
    var Cl := C[p * Rate..];
    assert m[..p * Rate] == DecryptBlocks(P, S, C, p);
    assert M[..p * Rate] == m[..p * Rate];
    DuplexAgreeBack(P, S, M, C, p);
    var B := Block(M, p);
    assert B[..l] == m[p * Rate..];
    LastBlockAgreeBack(U, Cl, B);
    assert C == C[..p * Rate] + Cl;
  }

  /** A ciphertext that decryption accepts is exactly the output of
      `crypto_aead_encrypt` on the recovered message, for every
      permutation family. */
  lemma EncryptDecrypt(P: Perm, k: seq<Byte>, npub: seq<Byte>, ad: seq<Byte>, c: seq<Byte>, m: seq<Byte>)
    requires |k| == KeyBytes && |npub| == KeyBytes
    requires Decrypt(P, k, npub, ad, c) == Some(m)
    ensures Encrypt(P, k, npub, ad, m) == c
  {
    var C := c[..|c| - KeyBytes];
    var S := Prepared(P, k, npub, ad);
    BodyAgreeBack(P, S, C);
    assert c == C + c[|c| - KeyBytes..];
  }

  /** A ciphertext that carries the body of the encryption of `m` but a
      different tag is rejected. */
  lemma TagTamperRejected(P: Perm, k: seq<Byte>, npub: seq<Byte>, ad: seq<Byte>, m: seq<Byte>, c: seq<Byte>)
    requires |k| == KeyBytes && |npub| == KeyBytes
    requires |c| == |m| + KeyBytes && c[..|m|] == Encrypt(P, k, npub, ad, m)[..|m|]
    requires c != Encrypt(P, k, npub, ad, m)
    ensures Decrypt(P, k, npub, ad, c).None?
  {
    var S := Prepared(P, k, npub, ad);
    var r := Decrypt(P, k, npub, ad, c);
    if r.Some? {
      EncryptDecrypt(P, k, npub, ad, c, r.value);
      assert c[..|c| - KeyBytes] == EncryptBody(P, S, m);
      BodyAgree(P, S, m);
      assert false;
    }
  }
}
