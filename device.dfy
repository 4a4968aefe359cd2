/**
 * The device side of the Secure-Vault handshake in
 * `project2/SecureVaultAuthentication/iot_devices.py`. Given the server's
 * challenge c1 and nonce r1 (M2), the device draws its own challenge c2, which
 * must differ from c1, and nonces r2 and t1, and answers with
 * M3 = Enc(k1, r1 ‖ t1 ‖ c2 ‖ r2). On M4 = Enc(k2 ⊕ t1, r2 ‖ t2) it checks r2,
 * takes t2 ⊕ t1 as the session key and refreshes its vault with it.
 *
 * The random draws are parameters.
 */
module Device {
  import opened Common
  import opened Octets
  import opened Vault
  import opened Cipher

  /** The M3 plaintext `r1 + t1 + bytes(c2) + r2`. */
  function M3Payload(r1: Bytes, t1: Bytes, c2: seq<int>, r2: Bytes): (p: Bytes)
    requires forall k :: 0 <= k < |c2| ==> 0 <= c2[k] < 256
    ensures |p| == |r1| + |t1| + |c2| + |r2|
  {
    r1 + t1 + ToBytes(c2) + r2
  }

  /** `__parse_m4`: the first M bytes are r2, the next M are t2. */
  function ParseM4(msg: Bytes): (r: (Bytes, Bytes))
    ensures |msg| >= 2 * M ==> |r.0| == M && |r.1| == M
  {
    (Prefix(msg, M), Slice(msg, M, 2 * M))
  }

  /** `__parse_m4` recovers r2 and t2 from the server's payload `r2 + t2`,
      whatever follows them. */
  lemma ParseM4RoundTrip(r2: Bytes, t2: Bytes, rest: Bytes)
    requires |r2| == M && |t2| == M
    ensures ParseM4(r2 + t2 + rest) == (r2, t2)
  {
    var msg := r2 + t2 + rest;
    assert msg[..M] == r2;
    assert msg[M..2 * M] == t2;
  }

  class IoTDevice {
    const id: int
    /** The copy of the vault received at connection, `None` before. */
    var vault: SecureVault?
    var c2: seq<int>
    var r2: Bytes
    var t1: Bytes

    constructor (id: int)
      ensures this.id == id && vault == null
    {
      this.id := id;
      vault := null;
      c2 := [];
      r2 := [];
      t1 := [];
    }

    /** `sendMessage2`: derive k1, draw challenges until one differs from c1,
        and seal r1 ‖ t1 ‖ c2 ‖ r2 under k1. `draws` are the successive results
        of `generateChallenge`; one of them differs from c1. */
    method SendMessage2(c1: seq<int>, r1: Bytes, draws: seq<seq<int>>, r2: Bytes, t1: Bytes)
      returns (m3: Ciphertext)
      requires vault != null && Indexes(vault.keys, c1)
      requires forall k :: 0 <= k < |draws| ==> IsChallenge(draws[k])
      requires exists k :: 0 <= k < |draws| && draws[k] != c1
      modifies this
      ensures vault == old(vault)
      ensures this.r2 == r2
      ensures this.t1 == t1
      ensures c2 != c1 && IsChallenge(c2)
      ensures exists k :: 0 <= k < |draws| && c2 == draws[k] && forall j :: 0 <= j < k ==> draws[j] == c1
      ensures m3 == Encrypt(KeyOf(vault.keys, c1), M3Payload(r1, t1, c2, r2))
    {
      var k1 := vault.GetKey(c1);
      ghost var w :| 0 <= w < |draws| && draws[w] != c1;
      var i := 0;
      c2 := draws[0];
      while c2 == c1
        invariant vault == old(vault)
        invariant 0 <= i <= w && c2 == draws[i]
        invariant forall j :: 0 <= j < i ==> draws[j] == c1
        decreases w - i
      {
        i := i + 1;
        c2 := draws[i];
      }
      this.r2 := r2;
      this.t1 := t1;
      var m3Payload := r1 + t1 + ToBytes(c2) + r2;
      m3 := Encrypt(k1, m3Payload);
    }

    /** `sendMessage4`: open M4 under k2 ⊕ t1, check r2, then refresh the vault
        with the session key t2 ⊕ t1. A ciphertext that does not open is
        refused like a wrong r2. */
    method SendMessage4(m4: Ciphertext, mac: Mac, hash: Hash) returns (ok: bool)
      requires vault != null && Indexes(vault.keys, c2) && Sha512Sized(mac, hash)
      modifies vault
      ensures var plain := Decrypt(Xor(KeyOf(old(vault.keys), c2), t1), m4);
        (ok <==> plain.Some? && ParseM4(plain.value).0 == r2) &&
        (ok ==>
           vault.keys == Updated(Sha512WithHmac, old(vault.keys), Xor(ParseM4(plain.value).1, t1), mac, hash)) &&
        (!ok ==> vault.keys == old(vault.keys))
    {
      var k2 := vault.GetKey(c2);
      var k3 := Xor(k2, t1);
      var plaintext := Decrypt(k3, m4);
      if plaintext.None? {
        return false;
      }
      var (r2', t2) := ParseM4(plaintext.value);
      if r2' != r2 {
        return false;
      }
      var sessionKey := Xor(t2, t1);
      vault.UpdateVault(Sha512WithHmac, sessionKey, mac, hash);
      return true;
    }
  }
}
