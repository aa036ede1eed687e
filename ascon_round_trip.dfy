/** The two ends together: a message encrypted by the client's
    `crypto_aead_encrypt` and handed, with the same key, nonce and
    associated data, to the server's `crypto_aead_decrypt` is accepted and
    comes back unchanged. */
module AsconRoundTrip {

  import opened AsconWords
  import opened AsconSponge
  import opened AsconClient
  import opened AsconServer

  /** `crypto_aead_encrypt` into a buffer of `mlen + klen` bytes, then
      `crypto_aead_decrypt` of the `clen` bytes written into a buffer of
      `mlen` bytes. */
  method EncryptThenDecrypt(m: seq<Byte>, ad: seq<Byte>, npub: seq<Byte>, k: seq<Byte>)
    returns (rc: int, received: seq<Byte>)
    requires |k| == KeyBytes && |npub| == KeyBytes
    ensures rc == 0 && received == m
  {
    var c := new Byte[|m| + KeyBytes];
    var clen, _ := CryptoAeadEncrypt(c, m, ad, npub, k);
    var out := new Byte[|m|];
    var mlen;
    DecryptEncrypt(Permute320, k, npub, ad, m);
    mlen, rc := CryptoAeadDecrypt(out, c[..clen], ad, npub, k);
    received := out[..mlen];
  }
}
