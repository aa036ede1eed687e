# Ascon-style sponge AEAD of the UDP client and server

This project models the authenticated encryption that the Contiki UDP
client (`crypto_aead_encrypt`) and server (`crypto_aead_decrypt`) use,
and proves properties of the model. The design is an Ascon-style sponge
over a 40-byte state. It has:

- a 320-bit permutation `permutation`, whose rounds are a constant
  addition, a bitsliced substitution layer and a rotation-based linear
  layer;
- big-endian word packing, `load64` and `store64`;
- padding with 0x80 and zeros, initialisation from key and nonce,
  absorption of the associated data with a domain separation bit, a
  duplex over the message blocks, and finalisation into a 16-byte tag.

The parameters are those of a 16-byte key: rate 8 bytes, capacity 32
bytes, `a = 12` rounds for initialisation and finalisation, and `b = 6`
rounds per block.

The model is imperative where the C code is:

- the buffers `S`, `A`, `M`, `c` and `m` are Dafny arrays that the
  methods fill in place, with loops carrying their invariants;
- each step is proved against a pure function of `AsconWords`,
  `AsconPermutation` or `AsconSponge`: the word packing against
  `BigEndianWord`/`BigEndianBytes`, the permutation against
  `Rounds`/`Permute`, and the AEAD steps against the sponge functions.
  Three byte loops (`CopyOut`, `XorBytesAt`, `EncryptBytes`) are stated
  on slices or byte by byte, and lemmas lift them to those functions.

The main theorem is `AsconSponge.DecryptEncrypt`, decrypt(encrypt(m)) ==
Some(m). It is proved for every family of permutations, so its proof
never looks inside the rounds. `AsconRoundTrip.EncryptThenDecrypt` lifts
it to the two C entry points. A message encrypted by `CryptoAeadEncrypt`
and handed to `CryptoAeadDecrypt` with the same key, nonce and
associated data is accepted with return code 0 and comes back unchanged.
The converse, `AsconSponge.EncryptDecrypt`, also holds for every
permutation family: a ciphertext that decryption accepts is exactly the
encryption of the message it yields. So a ciphertext that carries the
body of an encryption with any other tag is rejected
(`AsconSponge.TagTamperRejected`).

Modules, in dependency order:

| module | file | models |
|---|---|---|
| `AsconWords` | `ascon_words.dfy` | `load64`, `store64`, byte ↔ word layout |
| `AsconPermutation` | `ascon_permutation.dfy` | `ROTR`, the round, `permutation` |
| `AsconSponge` | `ascon_sponge.dfy` | the mode as pure functions; the round-trip proof |
| `AsconState` | `ascon_state.dfy` | the in-place steps the two C files share (padding, initialisation, associated data, finalisation) |
| `AsconClient` | `udp_ascon_client.dfy` | `crypto_aead_encrypt` |
| `AsconServer` | `udp_ascon_server.dfy` | `crypto_aead_decrypt` |
| `AsconRoundTrip` | `ascon_round_trip.dfy` | encrypt on one end, decrypt on the other |

The model follows the code as written, including where it departs from
the Ascon v1.2 specification or from what a hardened implementation
would do:

- The b-round calls of `permutation` use the round constants of rounds
  0..5, because the counter restarts at 0 in every call. The b-round
  permutation of the Ascon v1.2 specification uses the last six
  constants of the 12-round schedule instead. `PartialRoundsArePrefix`
  states the behaviour as written.
- The initial state holds `klen * 8`, `a` and `b` in bytes 0..2, with
  no rate byte, unlike the IV of the Ascon v1.2 specification. So
  published Ascon test vectors are not expected to match, and no
  conformance with the standard is claimed.
- The tag comparison stops at the first byte that differs. A
  constant-time comparison would examine every tag byte. Only the
  accept/reject result is modelled (`TagMatches`).
- Failures have no typed error kinds. Both failures return -1 with
  `*mlen` 0.

## Model

| member | source | states |
|---|---|---|
| AsconWords.Load64 | udp-ascon-client.c:46-51 | the word loaded from `S + off` is the big-endian word of the eight bytes there |
| AsconWords.PartialWordStep | udp-ascon-client.c:49-50 | each loop turn ORs byte `n` into bits 56-8n .. 63-8n of the partial word |
| AsconWords.Store64 | udp-ascon-client.c:53-57 | the eight big-endian bytes of `x` are written at `S + off` and every other byte of `S` is unchanged |
| AsconWords.WordOfBytes | udp-ascon-client.c:46-57 | `store64` then `load64` returns the original word |
| AsconWords.BytesOfWord | udp-ascon-client.c:46-57 | `load64` then `store64` reproduces the eight bytes |
| AsconWords.WordByteLayout | udp-ascon-client.c:50 | byte `i` of the input sits in bits 56-8i .. 63-8i of the loaded word |
| AsconWords.BigEndianWord | udp-ascon-client.c:46-51 | definition: byte `i` of the eight placed at bits 56-8i .. 63-8i and ORed together, the value `load64` computes; `WordOfBytes` and `BytesOfWord` relate it to `BigEndianBytes` |
| AsconWords.BigEndianBytes | udp-ascon-client.c:53-57 | eight bytes, byte `i` being bits 56-8i .. 63-8i of the word, as `store64` writes them |
| AsconPermutation.RotrRotates | udp-ascon-client.c:44 | `ROTR(x, n)` is a right rotation by `n` for each of the ten amounts the round uses |
| AsconPermutation.RoundConstantsEarly | udp-ascon-client.c:69 | round counters 0..5 give the constants 0xf0, 0xe1, 0xd2, 0xc3, 0xb4, 0xa5 |
| AsconPermutation.RoundConstantsLate | udp-ascon-client.c:69 | round counters 6..11 give the constants 0x96, 0x87, 0x78, 0x69, 0x5a, 0x4b |
| AsconPermutation.IterateSplit | udp-ascon-client.c:68 | running the round loop over `lo..hi` is running it over `lo..mid` and then over `mid..hi` |
| AsconPermutation.PartialRoundsArePrefix | udp-ascon-client.c:68-69 | the 12-round call is the 6-round call followed by rounds 6..11, so a 6-round call uses the first six constants of the schedule |
| AsconPermutation.LanesRoundTrip | udp-ascon-client.c:63-67 | loading the five words and storing them back leaves the 40-byte state unchanged |
| AsconPermutation.PermuteNoRounds | udp-ascon-client.c:59-87 | `permutation(S, r)` with `r <= 0` leaves the state unchanged |
| AsconPermutation.StoresCompose | udp-ascon-client.c:82-86 | the five `store64` calls at offsets 0, 8, .., 32 write exactly the bytes of the five words |
| AsconPermutation.LoadLanes | udp-ascon-client.c:63-67 | `x0..x4` are the big-endian words of the five 8-byte slices of the state |
| AsconPermutation.StoreLanes | udp-ascon-client.c:82-86 | the whole state becomes the bytes of `x0..x4`, big-endian |
| AsconPermutation.RoundLoop | udp-ascon-client.c:68-81 | after the loop the words are `Round` applied for counters `0 .. rounds-1` in order, the counter starting at 0 |
| AsconPermutation.Permutation | udp-ascon-client.c:59-87 | the state becomes `Permute` of the old state: load, `rounds` rounds with the counter from 0, store |
| AsconPermutation.Rotr | udp-ascon-client.c:44 | definition: the macro `ROTR(x, n)`, `(x >> n) \| (x << (64 - n))`, for `0 < n < 64`; `RotrRotates` proves it a right rotation |
| AsconPermutation.RoundConstant | udp-ascon-client.c:69 | definition: `((0xf - i) << 4) \| i` on 64 bits with the subtraction wrapping; its values are stated by `RoundConstantsEarly` and `RoundConstantsLate` |
| AsconPermutation.AddRoundConstant | udp-ascon-client.c:69 | definition: the round constant XORed into `x2` only, the other words unchanged |
| AsconPermutation.SubstitutionLayer | udp-ascon-client.c:70-75 | definition: the statement sequence of lines 70-75 (XOR, NOT and AND across the five words) written as successive `var` bindings; no contract of its own |
| AsconPermutation.LinearLayer | udp-ascon-client.c:76-80 | definition: each word XORed with two `ROTR`s of itself, by 19/28, 61/39, 1/6, 10/17 and 7/41 |
| AsconPermutation.Round | udp-ascon-client.c:69-80 | definition: constant addition, then substitution layer, then linear layer, with round counter `i` |
| AsconPermutation.Iterate | udp-ascon-client.c:68 | definition: a round function applied for counters `lo .. hi-1` in order; `IterateSplit` splits it |
| AsconPermutation.Rounds | udp-ascon-client.c:68 | definition: `Round` for counters `0 .. rounds-1`, the counter starting at 0 in every call; `PartialRoundsArePrefix` relates the 6- and 12-round calls |
| AsconPermutation.Permute | udp-ascon-client.c:59-87 | the state after `permutation(S, rounds)` is again 40 bytes: load the five words, `Rounds`, store; `PermuteNoRounds` gives the zero-round case |
| AsconSponge.Pad | udp-ascon-client.c:103-121 | the padded buffer has `(len / rate + 1) * rate` bytes: the input, then 0x80 at index `len`, then zeros, so there is always a padding byte |
| AsconSponge.InitialState | udp-ascon-client.c:123-131 | `S[0] = 128`, `S[1] = 12`, `S[2] = 6`, `S[3..8) = 0`, `S[8..24) = k`, `S[24..40) = npub` |
| AsconSponge.Tag | udp-ascon-client.c:163-164 | the tag is the 16 bytes `S[rate + klen .. 40)` |
| AsconSponge.EncryptBody | udp-ascon-client.c:145-155 | exactly `mlen` ciphertext body bytes are produced |
| AsconSponge.Encrypt | udp-ascon-client.c:163-165 | the output is `mlen + klen` bytes long |
| AsconSponge.Overwrite | udp-ascon-server.c:146 | the rate bytes are replaced by the ciphertext block and the rest of the state is unchanged |
| AsconSponge.UnabsorbLast | udp-ascon-server.c:152-154 | `S[0..l)` becomes the ciphertext bytes, `S[l]` is XORed with 0x80, and `S[l+1..40)` is unchanged |
| AsconSponge.DecryptBody | udp-ascon-server.c:143-154 | the plaintext is as long as the ciphertext body |
| AsconSponge.Decrypt | udp-ascon-server.c:92-94 | input shorter than the tag is rejected, and an accepted input yields `clen - klen` bytes |
| AsconSponge.Initialize | udp-ascon-client.c:123-134 | definition: `a` rounds of `InitialState`, then the key XORed into `S[24..40)`; `InitializeState` is proved to compute it |
| AsconSponge.Absorb | udp-ascon-client.c:137-141 | definition: `n` blocks, each XORed into the rate and followed by `b` rounds; the state of both the associated-data loop and the encryption duplex |
| AsconSponge.AbsorbAd | udp-ascon-client.c:136-143 | definition: `Absorb` of the padded associated data only when `adlen != 0`, then `S[39] ^= 1` |
| AsconSponge.Finalize | udp-ascon-client.c:157-161 | definition: key into `S[8..24)`, `a` rounds, key into `S[24..40)` |
| AsconSponge.EncryptBlocks | udp-ascon-client.c:145-151 | the ciphertext of the first `n` full blocks is `n * rate` bytes, block `i` being the rate after plaintext block `i` was XORed in |
| AsconSponge.EncryptState | udp-ascon-client.c:152-153 | definition: the state once the padded last block is XORed into the rate after the full blocks |
| AsconSponge.Unabsorb | udp-ascon-server.c:143-149 | definition: `n` ciphertext blocks, each overwriting the rate and followed by `b` rounds |
| AsconSponge.DecryptBlocks | udp-ascon-server.c:143-149 | the plaintext of the first `n` full blocks is `n * rate` bytes, block `i` being the rate XORed with ciphertext block `i` |
| AsconSponge.DecryptState | udp-ascon-server.c:150-154 | definition: `UnabsorbLast` of the last `l` ciphertext bytes after the full blocks |
| AsconSponge.BlockAgree | udp-ascon-server.c:145-146 | overwriting the rate with the ciphertext block that encryption emitted gives the encryption state, and XORing that ciphertext with the old rate gives back the plaintext block |
| AsconSponge.DuplexAgree | udp-ascon-server.c:143-149 | after the full blocks of an encrypted message, the decryption state equals the encryption state and the recovered blocks are the message blocks |
| AsconSponge.LastBlockAgree | udp-ascon-server.c:150-154 | for the last block, XORing in `m ‖ 0x80 ‖ 0…` gives the same state as setting `S[0..l)` to the ciphertext and XORing 0x80 into `S[l]`; the `l` recovered bytes are the message bytes |
| AsconSponge.BodyAgree | udp-ascon-server.c:143-154 | decrypting the encrypted body gives the message and leaves the state encryption ended in |
| AsconSponge.DecryptEncrypt | udp-ascon-server.c:84-174 | decrypting the output of encryption with the same key, nonce and associated data succeeds and returns the message |
| AsconSponge.BlockAgreeBack | udp-ascon-client.c:146-148 | XORing the recovered plaintext block into the rate gives the overwritten state, and its rate is the ciphertext block |
| AsconSponge.DuplexAgreeBack | udp-ascon-client.c:145-151 | after the full blocks of a recovered plaintext, the encryption state equals the decryption state and encryption reproduces the ciphertext blocks |
| AsconSponge.LastBlockAgreeBack | udp-ascon-client.c:152-155 | XORing in the recovered last bytes with 0x80 and zeros gives the state of the decryption fix-up, and its first `l` bytes are the ciphertext |
| AsconSponge.BodyAgreeBack | udp-ascon-client.c:145-155 | encrypting the plaintext recovered from a body gives back that body and the state decryption ended in |
| AsconSponge.EncryptDecrypt | udp-ascon-client.c:89-168 | a ciphertext that decryption accepts as `m` is exactly the encryption of `m` with the same key, nonce and associated data |
| AsconSponge.TagTamperRejected | udp-ascon-server.c:163-166 | a ciphertext with the body of the encryption of `m` and any other tag is rejected |
| AsconState.PadInto | udp-ascon-client.c:112-121 | the freshly built buffer `A` or `M` equals `Pad` of the input |
| AsconState.PadLayout | udp-ascon-client.c:117-121 | a buffer holding the input, 0x80 and then zeros up to `t * rate` is `Pad` of the input |
| AsconState.XorBytesInto | udp-ascon-client.c:133-134 | the bytes are XORed into the state from offset `off` and nothing else changes |
| AsconState.CopyOut | udp-ascon-client.c:163-164 | `n` bytes are copied from `src[from..]` to `dst[off..]` and the rest of `dst` is unchanged |
| AsconState.BlocksAppend | udp-ascon-client.c:148 | writing block `i` after `i` written blocks extends the written prefix by that block and leaves the rest alone |
| AsconState.LoadInitialState | udp-ascon-client.c:123-131 | the state before the first permutation is `InitialState(k, npub)` |
| AsconState.PermuteState | udp-ascon-client.c:132 | a call of `permutation` is `Permute320` on the state |
| AsconState.InitializeState | udp-ascon-client.c:123-134 | after initialisation the state is `a` rounds of the initial state with the key XORed into its last 16 bytes |
| AsconState.XorBlockInto | udp-ascon-client.c:138-139 | block `i` of the padded buffer is XORed into the rate and nothing else changes |
| AsconState.XorBytesAt | udp-ascon-client.c:138-139 | byte by byte, rate byte `j` is XORed with `A[base + j]` for every `j < rate` and the other 32 state bytes are unchanged |
| AsconState.XoredBlock | udp-ascon-client.c:138-139 | a state whose rate is the old rate XOR block `i`, with the other bytes unchanged, is that block XORed into the state |
| AsconState.AbsorbBlocks | udp-ascon-client.c:137-141 | after the loop the state is the absorption of the first `s` blocks, each followed by `b` rounds |
| AsconState.AbsorbAssociatedData | udp-ascon-client.c:136-143 | blocks are absorbed only when `adlen != 0`, and `S[39] ^= 1` is always applied |
| AsconState.PrepareState | udp-ascon-server.c:118-140 | initialisation and associated data leave the state `Prepared(k, npub, ad)`, the same in both files |
| AsconState.FinalizeState | udp-ascon-client.c:157-161 | the key is XORed into `S[8..24)`, then `a` rounds, then the key is XORed into `S[24..40)` |
| AsconClient.EncryptBytes | udp-ascon-client.c:146-149 | byte by byte, the rate is XORed with block `i` of `M` and `c[i * rate + j]` receives the new rate byte; the rest of `S` and `c` is unchanged |
| AsconClient.EncryptedBlock | udp-ascon-client.c:146-149 | that byte layout is the sponge's block XOR, with the new rate spliced into `c` at block `i` |
| AsconClient.EncryptBlockInto | udp-ascon-client.c:146-149 | each ciphertext byte of a full block is the state rate byte after the plaintext byte was XORed into it |
| AsconClient.EncryptFullBlocks | udp-ascon-client.c:145-151 | after the `t - 1` full blocks the state is their absorption and `c` starts with their encryption; the rest of `c` is unchanged |
| AsconClient.EncryptLastBlock | udp-ascon-client.c:152-155 | the padded last block is XORed into the rate and only its first `l` bytes are written to `c`, so the padding bytes are never written |
| AsconClient.EncryptMessage | udp-ascon-client.c:145-155 | `c[0..mlen)` is the ciphertext body, nothing after it is written, and the state is `EncryptState` |
| AsconClient.BodyLayout | udp-ascon-client.c:145-155 | the full-block ciphertext followed by `l` bytes of the last rate is the ciphertext body |
| AsconClient.WriteTag | udp-ascon-client.c:157-164 | after finalisation the tag is written to `c[mlen..mlen + klen)` and nothing else in `c` changes |
| AsconClient.CryptoAeadEncrypt | udp-ascon-client.c:89-168 | returns 0, sets `clen = mlen + klen`, writes `Encrypt(k, npub, ad, m)` to `c[0..clen)` and leaves the rest of `c` alone |
| AsconServer.DecryptBlockInto | udp-ascon-server.c:144-147 | block `i` of `M` is the old rate XORed with ciphertext block `i`, and the rate is overwritten with that ciphertext block, not XORed |
| AsconServer.OverwrittenBlock | udp-ascon-server.c:146 | a state holding ciphertext block `i` in its rate, with the other bytes unchanged, is `Overwrite` of that block |
| AsconServer.RecoveredBlock | udp-ascon-server.c:145 | a buffer holding old rate XOR ciphertext at block `i`, with the other bytes unchanged, is that block spliced into `M` |
| AsconServer.DecryptFullBlocks | udp-ascon-server.c:143-149 | after the `t - 1` full blocks the state is `Unabsorb` of them and `M` starts with the recovered blocks |
| AsconServer.XorOut | udp-ascon-server.c:150-151 | the `l` plaintext bytes of the last block are the rate XORed with the ciphertext bytes, and nothing else in `M` changes |
| AsconServer.AbsorbLastBlock | udp-ascon-server.c:152-154 | the state after the last block is `UnabsorbLast`: the ciphertext bytes are copied in and 0x80 is XORed into `S[l]` |
| AsconServer.LastBlockLayout | udp-ascon-server.c:152-154 | a state with that byte layout is `UnabsorbLast` of the block |
| AsconServer.DecryptMessage | udp-ascon-server.c:143-154 | the state ends as `DecryptState` and `M[0..clen - klen)` is the recovered body |
| AsconServer.PlaintextLayout | udp-ascon-server.c:143-154 | the recovered full blocks followed by the last `l` bytes are the recovered body |
| AsconServer.TagMatches | udp-ascon-server.c:164-166 | the early-exit loop accepts exactly when all 16 tag bytes equal the last 16 bytes of `c` |
| AsconServer.DecryptAndVerify | udp-ascon-server.c:111-166 | the tag matches exactly when `Decrypt` succeeds, and then `M` starts with the plaintext |
| AsconServer.CryptoAeadDecrypt | udp-ascon-server.c:84-174 | returns 0 or -1, and 0 exactly when `Decrypt` succeeds; then `mlen = clen - klen`, `m[0..mlen)` is the plaintext and nothing after it changes; on -1, `mlen` is 0 and `m` is untouched, so no partial plaintext is released |
| AsconRoundTrip.EncryptThenDecrypt | udp-ascon-client.c:89-168 | a message encrypted by `crypto_aead_encrypt` and decrypted by `crypto_aead_decrypt` with the same key, nonce and associated data is accepted (0) and returned unchanged |

## Left out

- The Contiki plumbing of both programs is not modelled because it is I/O and cooperative scheduling. This covers process threads, UDP registration and sending, timers, the random send jitter, routing reachability, logging and `print_hex`.
- udp-energest-client.c and the energest helper `to_seconds` are not modelled. They hold counters and unit conversion and no algorithmic content.
- Timing is not modelled: Dafny cannot state constant-time behaviour. The tag comparison is modelled by its result only, and in the code it exits early.
- Conformance with the published Ascon test vectors is not claimed, because of the IV and round-constant departures above.
- Only the 16-byte key is modelled. With a 20-byte key the rate would be `40 - 40 = 0`, and the divisions by the rate would divide by zero.
- SubstitutionLayer is not proved equal to the 5-bit S-box table of section 2.6 of the Ascon v1.2 specification. The bit-column proof of the bitsliced circuit exceeds the solver budget, so the layer is stated as the code's XOR/NOT/AND sequence only.
- AsconPermutation.RoundLoop runs each round as the pure `Round` function, which is defined by the constant addition, substitution and linear layers of udp-ascon-client.c:69-80. The statement-by-statement update of the locals `x0..x4` and `t0..t4` is not modelled step by step.
- Message, ciphertext and associated-data lengths are unbounded naturals. The 64-bit `unsigned long long` widths and the `i64` loop counters are not modelled, because no input reaches their limits.
- The C variable-length arrays `A`, `M` and `S` are separate fresh arrays, and the caller's `c` (or `m`) is assumed distinct from them. Aliasing between the inputs and the output buffer is not modelled.
- The only preconditions added are buffer sizes: `c` holds at least `mlen + klen` bytes, and `m` holds at least `clen - klen` bytes. The code checks neither. The server's receive handler passes a fixed 100-byte `m` and does not check `datalen` against it.
- The unused parameter `nsec` is not modelled.
- Confidentiality, and resistance to forgery by tampering with the ciphertext body or the associated data, are not stated. They are cryptographic properties of the permutation and cannot be proved here. Tampering with the tag alone is covered by `TagTamperRejected`.
- Determinism is not stated as a separate property: every specification function is a function of its inputs, so identical inputs give identical outputs.
