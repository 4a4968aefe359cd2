/**
 * AES as `project2/SecureVaultAuthentication/crypto_utils.py` uses it, as an
 * ideal cipher: a ciphertext opens under the key that sealed it and under no
 * other. Padding, ECB blocks and the timings are not modelled.
 */
module Cipher {
  import opened Common
  import opened Octets

  datatype Ciphertext = Ciphertext(key: Bytes, plain: Bytes)

  /** `decrypt`: `None` stands for the unpadding error a wrong key raises. */
  function Decrypt(key: Bytes, c: Ciphertext): (r: Option<Bytes>)
    ensures r.Some? <==> c.key == key
  {
    if c.key == key then Some(c.plain) else None
  }

  /** `encrypt`. */
  function Encrypt(key: Bytes, payload: Bytes): (c: Ciphertext)
    ensures Decrypt(key, c) == Some(payload)
    ensures forall other :: other != key ==> Decrypt(other, c).None?
  {
    Ciphertext(key, payload)
  }
}
