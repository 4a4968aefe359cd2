/**
 * The server side of the Secure-Vault handshake in
 * `project2/SecureVaultAuthentication/iot_server.py`. Devices register first
 * (`setUpConnection` keeps a vault and hands the device a deep copy), then
 * ask to authenticate (`startAuthentication` queues them unless already
 * paired). One turn of `run` serves the oldest pending device: it sends
 * M2 = (c1, r1), opens M3 under k1, checks r1, derives k3 = k2 ⊕ t1 from the
 * device's challenge c2, sends M4 = Enc(k3, r2 ‖ t2) and, when the device
 * accepts, refreshes its vault with the session key t2 ⊕ t1 and records the
 * device as paired.
 *
 * Threads, the condition variable and the random draws are left out: one call
 * of `Serve` is one turn of the loop with its draws as parameters. An
 * exception or the early `return` ends the loop, which `running` records.
 */
module Server {
  import opened Common
  import opened Octets
  import opened Vault
  import opened Cipher
  import opened Device

  /** `__parseM3`: r1, t1, the challenge bytes c2 and r2, by Python slicing. */
  function ParseM3(msg: Bytes): (r: (Bytes, Bytes, Bytes, Bytes))
    ensures |msg| >= 3 * M ==>
      |r.0| == M && |r.1| == M && |r.3| == M && r.0 + r.1 + r.2 + r.3 == msg
  {
    (Prefix(msg, M), Slice(msg, M, 2 * M), Slice(msg, 2 * M, |msg| - M), Suffix(msg, -(M as int)))
  }

  /** `__parseM3` inverts the device's M3 layout when the three nonces are M
      bytes long. */
  lemma ParseM3RoundTrip(r1: Bytes, t1: Bytes, c: Bytes, r2: Bytes)
    requires |r1| == M && |t1| == M && |r2| == M
    ensures ParseM3(r1 + t1 + c + r2) == (r1, t1, c, r2)
  {
    var msg := r1 + t1 + c + r2;
    assert msg[..M] == r1;
    assert msg[M..2 * M] == t1;
    assert msg[2 * M..|msg| - M] == c;
    assert msg[|msg| - M..] == r2;
  }

  /** What an honest exchange between two holders of the same vault yields:
      M3 opens under the server's k1 and parses back to what the device sent,
      the challenge bytes decode to c2, both sides derive the same k3, and M4
      opens and parses back to r2 and t2. */
  lemma HonestHandshake(keys: seq<Bytes>, c1: seq<int>, r1: Bytes, c2: seq<int>, r2: Bytes, t1: Bytes, t2: Bytes)
    requires WellShaped(keys) && IsChallenge(c1) && IsChallenge(c2)
    requires |r1| == M && |t1| == M && |r2| == M && |t2| == M
    ensures Indexes(keys, c1) && Indexes(keys, c2)
    ensures var k1 := KeyOf(keys, c1);
      Decrypt(k1, Encrypt(k1, M3Payload(r1, t1, c2, r2))) == Some(M3Payload(r1, t1, c2, r2)) &&
      ParseM3(M3Payload(r1, t1, c2, r2)) == (r1, t1, ToBytes(c2), r2) &&
      FromBytes(ToBytes(c2)) == c2
    ensures var k3 := Xor(KeyOf(keys, c2), t1);
      Decrypt(k3, Encrypt(k3, r2 + t2)) == Some(r2 + t2) && ParseM4(r2 + t2) == (r2, t2)
  {
    ChallengeSelects(keys, c1);
    ChallengeSelects(keys, c2);
    ParseM3RoundTrip(r1, t1, ToBytes(c2), r2);
    BytesRoundTrip(c2);
    ParseM4RoundTrip(r2, t2, []);
    assert r2 + t2 + [] == r2 + t2;
  }

  /** A registration record: the device identifier, the device, and the
      server's vault for it. */
  datatype Request = Request(deviceId: int, device: IoTDevice, vault: SecureVault)

  /** `__getRequests`: the first record for `id`, or `None`. */
  function FirstRequest(reqs: seq<Request>, id: int): (r: Option<Request>)
    ensures r.Some? ==> r.value.deviceId == id && r.value in reqs
    ensures r.Some? ==> exists k ::
      0 <= k < |reqs| && reqs[k] == r.value && forall j :: 0 <= j < k ==> reqs[j].deviceId != id
    ensures r.None? ==> forall k :: 0 <= k < |reqs| ==> reqs[k].deviceId != id
  {
    if reqs == [] then None
    else if reqs[0].deviceId == id then Some(reqs[0])
    else
      var rest := FirstRequest(reqs[1..], id);
      assert forall k :: 1 <= k < |reqs| ==> reqs[k] == reqs[1..][k - 1];
      rest
  }

  /** A record `run` can serve: both vaults hold N keys of M bytes, and the
      device holds its own copy. */
  ghost predicate Registered(q: Request)
    reads q.vault, q.device, q.device.vault
  {
    WellShaped(q.vault.keys) && q.device.vault != null &&
    WellShaped(q.device.vault.keys) && q.device.vault != q.vault
  }

  /** The objects one turn of `run` for `id` may change: the vaults and the
      device of the first record registered under `id`. */
  function ServedObjects(reqs: seq<Request>, id: int): set<object?>
    reads set q | q in reqs :: q.device
  {
    match FirstRequest(reqs, id)
    case None => {}
    case Some(q) => {q.vault, q.device, q.device.vault}
  }

  /** A record whose vaults are either the served record's, which are
      servable, or hold the servable keys they held before, and whose device
      keeps its vault, is servable. */
  lemma StaysRegistered(r: Request, served: Request, vaultKeys: seq<Bytes>, deviceVault: SecureVault?,
                        deviceKeys: seq<Bytes>)
    requires WellShaped(vaultKeys) && deviceVault != null && deviceVault != r.vault && WellShaped(deviceKeys)
    requires Registered(served)
    requires r.vault == served.vault || r.vault == served.device.vault || r.vault.keys == vaultKeys
    requires r.device.vault == deviceVault
    requires deviceVault == served.vault || deviceVault == served.device.vault || deviceVault.keys == deviceKeys
    ensures Registered(r)
  {
  }

  /** How one turn of `run` ends. `NoRequest`, `Undecryptable` and
      `BadChallenge` are the exceptions a missing record, an M3 that does not
      open and an out-of-range challenge index raise. */
  datatype Outcome = Paired | Refused | M3Rejected | NoRequest | Undecryptable | BadChallenge

  /** The session key the server refreshes with: its t2 XOR the t1 it read
      from M3. */
  function ServerSessionKey(r1: Bytes, t1: Bytes, c2: seq<int>, r2: Bytes, t2: Bytes): Bytes
    requires IsChallenge(c2)
  {
    Xor(t2, ParseM3(M3Payload(r1, t1, c2, r2)).1)
  }

  /** The session key the device refreshes with: the t2 it read from M4 (whose
      plaintext is the r2 the server read from M3, then t2) XOR its own t1. */
  function DeviceSessionKey(r1: Bytes, t1: Bytes, c2: seq<int>, r2: Bytes, t2: Bytes): Bytes
    requires IsChallenge(c2)
  {
    Xor(ParseM4(ParseM3(M3Payload(r1, t1, c2, r2)).3 + t2).1, t1)
  }

  /** How one turn of `run` ends for a served record whose vaults hold
      `serverKeys` and `deviceKeys`, given the server's draws c1, r1, t2 and
      the device's challenge c2 and nonces t1, r2. M3 opens only when both
      sides derive the same k1; its first field must be r1; the challenge it
      carries must index the server's vault; and the device accepts M4 only
      when both sides derive the same k3 and M4 echoes its r2. */
  function Turn(serverKeys: seq<Bytes>, deviceKeys: seq<Bytes>, c1: seq<int>, r1: Bytes, t2: Bytes,
                c2: seq<int>, t1: Bytes, r2: Bytes): (r: Outcome)
    requires WellShaped(serverKeys) && WellShaped(deviceKeys) && IsChallenge(c1) && IsChallenge(c2)
    ensures r != NoRequest
    ensures r == Paired ==>
      KeyOf(serverKeys, c1) == KeyOf(deviceKeys, c1) && ParseM3(M3Payload(r1, t1, c2, r2)).0 == r1
  {
    if KeyOf(serverKeys, c1) != KeyOf(deviceKeys, c1) then Undecryptable
    else
      var (r1Received, t1Received, c2Bytes, r2Received) := ParseM3(M3Payload(r1, t1, c2, r2));
      var c2Received := FromBytes(c2Bytes);
      if r1Received != r1 then M3Rejected
      else if !Indexes(serverKeys, c2Received) then BadChallenge
      else if Xor(KeyOf(serverKeys, c2Received), t1Received) == Xor(KeyOf(deviceKeys, c2), t1) &&
              ParseM4(r2Received + t2).0 == r2 then Paired
      else Refused
  }

  /** What the server makes of M3 in `run`: `M3Failed` when M3 does not open
      under k1, when its first field is not r1, or when the challenge it
      carries does not index the server's vault; otherwise the device's t1,
      c2 and r2 as read from it. */
  datatype M3Reading = M3Failed(outcome: Outcome) | M3Fields(t1: Bytes, c2: seq<int>, r2: Bytes)

  /** The M3 half of `run`'s turn: decrypt, `__parseM3`, compare r1, decode
      the challenge. */
  function ReadM3(serverKeys: seq<Bytes>, k1: Bytes, r1: Bytes, m3: Ciphertext): (r: M3Reading)
    ensures r.M3Failed? ==> r.outcome in {Undecryptable, M3Rejected, BadChallenge}
    ensures r.M3Failed? && r.outcome == Undecryptable <==> m3.key != k1
    ensures r.M3Fields? ==>
      m3.key == k1 && Prefix(m3.plain, M) == r1 && Indexes(serverKeys, r.c2) &&
      r.t1 == Slice(m3.plain, M, 2 * M) && r.r2 == Suffix(m3.plain, -(M as int))
  {
    var plain := Decrypt(k1, m3);
    if plain.None? then M3Failed(Undecryptable)
    else
      var (r1Received, t1Received, c2Bytes, r2Received) := ParseM3(plain.value);
      var c2 := FromBytes(c2Bytes);
      if r1Received != r1 then M3Failed(M3Rejected)
      else if !Indexes(serverKeys, c2) then M3Failed(BadChallenge)
      else M3Fields(t1Received, c2, r2Received)
  }

  /** Reading the device's M3 agrees with `Turn`: a failure is the outcome
      `Turn` names, and after a successful read `Turn` pairs exactly when both
      sides derive the same k3 and M4 echoes r2; the session keys are the ones
      the read fields give. */
  lemma ReadM3Agrees(serverKeys: seq<Bytes>, deviceKeys: seq<Bytes>, c1: seq<int>, r1: Bytes, t2: Bytes,
                     c2: seq<int>, t1: Bytes, r2: Bytes)
    requires WellShaped(serverKeys) && WellShaped(deviceKeys) && IsChallenge(c1) && IsChallenge(c2)
    ensures var reading := ReadM3(serverKeys, KeyOf(serverKeys, c1), r1,
                                  Encrypt(KeyOf(deviceKeys, c1), M3Payload(r1, t1, c2, r2)));
      var turn := Turn(serverKeys, deviceKeys, c1, r1, t2, c2, t1, r2);
      (reading.M3Failed? ==> turn == reading.outcome) &&
      (reading.M3Fields? ==>
         (turn == Paired <==>
            Xor(KeyOf(serverKeys, reading.c2), reading.t1) == Xor(KeyOf(deviceKeys, c2), t1) &&
            ParseM4(reading.r2 + t2).0 == r2) &&
         (turn != Paired ==> turn == Refused) &&
         ServerSessionKey(r1, t1, c2, r2, t2) == Xor(t2, reading.t1) &&
         DeviceSessionKey(r1, t1, c2, r2, t2) == Xor(ParseM4(reading.r2 + t2).1, t1))
  {
  }

  /** Two holders of the same vault, with M-byte nonces, always pair, and
      both refresh with the session key t2 XOR t1. */
  lemma HonestTurnPairs(keys: seq<Bytes>, c1: seq<int>, r1: Bytes, t2: Bytes, c2: seq<int>, t1: Bytes, r2: Bytes)
    requires WellShaped(keys) && IsChallenge(c1) && IsChallenge(c2)
    requires |r1| == M && |t1| == M && |r2| == M && |t2| == M
    ensures Turn(keys, keys, c1, r1, t2, c2, t1, r2) == Paired
    ensures ServerSessionKey(r1, t1, c2, r2, t2) == Xor(t2, t1)
    ensures DeviceSessionKey(r1, t1, c2, r2, t2) == Xor(t2, t1)
  {
    HonestHandshake(keys, c1, r1, c2, r2, t1, t2);
  }

  /** How a turn of `run` leaves the served record's vaults, which held
      `keys` and `deviceKeys` before and hold `newKeys` and `newDeviceKeys`
      after: the outcome is `Turn`'s; the device pairs only after echoing r1;
      nothing but pairing changes the vaults, and pairing refreshes each side
      with its own session key; two holders of the same vault always pair and
      stay in step. */
  ghost predicate TurnEffect(keys: seq<Bytes>, deviceKeys: seq<Bytes>, newKeys: seq<Bytes>, newDeviceKeys: seq<Bytes>,
                             c1: seq<int>, r1: Bytes, t2: Bytes, c2: seq<int>, t1: Bytes, r2: Bytes,
                             mac: Mac, hash: Hash, outcome: Outcome)
  {
    WellShaped(keys) && WellShaped(deviceKeys) && IsChallenge(c1) && IsChallenge(c2) && Sha512Sized(mac, hash) &&
    outcome == Turn(keys, deviceKeys, c1, r1, t2, c2, t1, r2) &&
    (outcome == Paired ==> ParseM3(M3Payload(r1, t1, c2, r2)).0 == r1) &&
    (outcome != Paired ==> newKeys == keys && newDeviceKeys == deviceKeys) &&
    (outcome == Paired ==>
       newKeys == Updated(Sha512WithHmac, keys, ServerSessionKey(r1, t1, c2, r2, t2), mac, hash) &&
       newDeviceKeys == Updated(Sha512WithHmac, deviceKeys, DeviceSessionKey(r1, t1, c2, r2, t2), mac, hash)) &&
    (keys == deviceKeys && |r1| == M && |t1| == M && |r2| == M && |t2| == M ==>
       outcome == Paired && newKeys == newDeviceKeys &&
       newKeys == Updated(Sha512WithHmac, keys, Xor(t2, t1), mac, hash))
  }

  /** A turn that stops at M3 ends as `Turn` says and changes no vault. */
  lemma StoppedAtM3(keys: seq<Bytes>, deviceKeys: seq<Bytes>, c1: seq<int>, r1: Bytes, t2: Bytes,
                    c2: seq<int>, t1: Bytes, r2: Bytes, mac: Mac, hash: Hash, reading: M3Reading)
    requires WellShaped(keys) && WellShaped(deviceKeys) && IsChallenge(c1) && IsChallenge(c2) && Sha512Sized(mac, hash)
    requires reading == ReadM3(keys, KeyOf(keys, c1), r1, Encrypt(KeyOf(deviceKeys, c1), M3Payload(r1, t1, c2, r2)))
    requires reading.M3Failed?
    ensures TurnEffect(keys, deviceKeys, keys, deviceKeys, c1, r1, t2, c2, t1, r2, mac, hash, reading.outcome)
  {
    ReadM3Agrees(keys, deviceKeys, c1, r1, t2, c2, t1, r2);
    if keys == deviceKeys && |r1| == M && |t1| == M && |r2| == M && |t2| == M {
      HonestTurnPairs(keys, c1, r1, t2, c2, t1, r2);
    }
  }

  /** A turn whose M3 was read ends as `Turn` says when the server answers
      with M4 = Enc(k2 XOR t1, r2 ‖ t2) and the device pairs exactly when
      it opens M4 under its own k2 XOR t1 and finds its r2. */
  lemma AnsweredM4(keys: seq<Bytes>, deviceKeys: seq<Bytes>, newKeys: seq<Bytes>, newDeviceKeys: seq<Bytes>,
                   c1: seq<int>, r1: Bytes, t2: Bytes, c2: seq<int>, t1: Bytes, r2: Bytes,
                   mac: Mac, hash: Hash, reading: M3Reading, outcome: Outcome)
    requires WellShaped(keys) && WellShaped(deviceKeys) && IsChallenge(c1) && IsChallenge(c2) && Sha512Sized(mac, hash)
    requires reading == ReadM3(keys, KeyOf(keys, c1), r1, Encrypt(KeyOf(deviceKeys, c1), M3Payload(r1, t1, c2, r2)))
    requires reading.M3Fields?
    requires outcome == Paired || outcome == Refused
    requires var plain := Decrypt(Xor(KeyOf(deviceKeys, c2), t1),
                                  Encrypt(Xor(KeyOf(keys, reading.c2), reading.t1), reading.r2 + t2));
      (outcome == Paired <==> plain.Some? && ParseM4(plain.value).0 == r2) &&
      (outcome == Paired ==>
         newKeys == Updated(Sha512WithHmac, keys, Xor(t2, reading.t1), mac, hash) &&
         newDeviceKeys == Updated(Sha512WithHmac, deviceKeys, Xor(ParseM4(plain.value).1, t1), mac, hash))
    requires outcome == Refused ==> newKeys == keys && newDeviceKeys == deviceKeys
    ensures TurnEffect(keys, deviceKeys, newKeys, newDeviceKeys, c1, r1, t2, c2, t1, r2, mac, hash, outcome)
  {
    ReadM3Agrees(keys, deviceKeys, c1, r1, t2, c2, t1, r2);
    if keys == deviceKeys && |r1| == M && |t1| == M && |r2| == M && |t2| == M {
      HonestTurnPairs(keys, c1, r1, t2, c2, t1, r2);
    }
  }

  /** `run` rejects M3 exactly when it opens but does not start with the r1 the
      server sent. */
  lemma M3RejectedExactly(serverKeys: seq<Bytes>, deviceKeys: seq<Bytes>, c1: seq<int>, r1: Bytes, t2: Bytes,
                          c2: seq<int>, t1: Bytes, r2: Bytes)
    requires WellShaped(serverKeys) && WellShaped(deviceKeys) && IsChallenge(c1) && IsChallenge(c2)
    ensures Turn(serverKeys, deviceKeys, c1, r1, t2, c2, t1, r2) == M3Rejected <==>
      KeyOf(serverKeys, c1) == KeyOf(deviceKeys, c1) && ParseM3(M3Payload(r1, t1, c2, r2)).0 != r1
  {
  }

  /** A device whose vault yields another k1 for c1 never gets past M3. */
  lemma ForeignVaultUndecryptable(serverKeys: seq<Bytes>, deviceKeys: seq<Bytes>, c1: seq<int>, r1: Bytes, t2: Bytes,
                                  c2: seq<int>, t1: Bytes, r2: Bytes)
    requires WellShaped(serverKeys) && WellShaped(deviceKeys) && IsChallenge(c1) && IsChallenge(c2)
    requires KeyOf(serverKeys, c1) != KeyOf(deviceKeys, c1)
    ensures Turn(serverKeys, deviceKeys, c1, r1, t2, c2, t1, r2) == Undecryptable
  {
  }

  /** An r1 that is not M bytes long never comes back from `__parseM3`, so
      such a turn never pairs: it stops at M3 (or earlier). */
  lemma ShortOrLongNonceRejected(serverKeys: seq<Bytes>, deviceKeys: seq<Bytes>, c1: seq<int>, r1: Bytes, t2: Bytes,
                                 c2: seq<int>, t1: Bytes, r2: Bytes)
    requires WellShaped(serverKeys) && WellShaped(deviceKeys) && IsChallenge(c1) && IsChallenge(c2)
    requires |r1| != M
    ensures Turn(serverKeys, deviceKeys, c1, r1, t2, c2, t1, r2) in {Undecryptable, M3Rejected}
  {
    var msg := M3Payload(r1, t1, c2, r2);
    assert |msg| >= |r1| + P;
    assert |ParseM3(msg).0| != |r1|;
  }

  class IoTServer {
    var authRequests: seq<Request>
    var pairedDevices: seq<int>
    var pendingDevices: seq<(int, Bytes)>
    /** The `run` loop has not ended. */
    var running: bool

    constructor ()
      ensures authRequests == [] && pairedDevices == [] && pendingDevices == [] && running
    {
      authRequests := [];
      pairedDevices := [];
      pendingDevices := [];
      running := true;
    }

    /** `startAuthentication`: refuse an already-paired identifier with
        `False`; otherwise queue the request at the tail and return nothing. */
    method StartAuthentication(deviceId: int, sessionId: Bytes) returns (r: Option<bool>)
      modifies this
      ensures deviceId in old(pairedDevices) ==> r == Some(false) && pendingDevices == old(pendingDevices)
      ensures deviceId !in old(pairedDevices) ==>
        r == None && pendingDevices == old(pendingDevices) + [(deviceId, sessionId)]
      ensures authRequests == old(authRequests) && pairedDevices == old(pairedDevices)
      ensures running == old(running)
    {
      if deviceId in pairedDevices {
        return Some(false);
      }
      pendingDevices := pendingDevices + [(deviceId, sessionId)];
      return None;
    }

    /** `setUpConnection`: record a fresh vault for the device and hand back
        an independent copy of it. `initial` stands for the random keys. */
    method SetUpConnection(device: IoTDevice, initial: seq<Bytes>) returns (copy: SecureVault)
      requires WellShaped(initial)
      modifies this
      ensures |authRequests| == |old(authRequests)| + 1
      ensures authRequests[..|old(authRequests)|] == old(authRequests)
      ensures var r := authRequests[|old(authRequests)|];
        r.deviceId == device.id && r.device == device && fresh(r.vault) && r.vault.keys == initial &&
        fresh(copy) && copy != r.vault && copy.keys == r.vault.keys
      ensures pairedDevices == old(pairedDevices) && pendingDevices == old(pendingDevices)
      ensures running == old(running)
    {
      var sv := new SecureVault(initial);
      authRequests := authRequests + [Request(device.id, device, sv)];
      copy := new SecureVault(sv.keys);
    }

    /** One turn of `run` for the oldest pending device. `c1`, `r1`, `t2` are
        the server's draws; `draws`, `r2`, `t1` the device's. */
    method Serve(c1: seq<int>, r1: Bytes, t2: Bytes, draws: seq<seq<int>>, r2: Bytes, t1: Bytes,
                 mac: Mac, hash: Hash) returns (outcome: Outcome)
      requires running && pendingDevices != []
      requires IsChallenge(c1) && Sha512Sized(mac, hash)
      requires forall k :: 0 <= k < |draws| ==> IsChallenge(draws[k])
      requires exists k :: 0 <= k < |draws| && draws[k] != c1
      requires forall q :: q in authRequests ==> Registered(q)
      // only the served record's vaults and device can change
      modifies this, ServedObjects(authRequests, pendingDevices[0].0)
      ensures pendingDevices == old(pendingDevices)[1..] && authRequests == old(authRequests)
      // every record can still be served by the next turn
      ensures forall q :: q in authRequests ==> Registered(q)
      ensures outcome == Paired ==> pairedDevices == old(pairedDevices) + [old(pendingDevices)[0].0]
      ensures outcome != Paired ==> pairedDevices == old(pairedDevices)
      ensures running <==> outcome == Paired || outcome == Refused
      ensures outcome == NoRequest <==> FirstRequest(old(authRequests), old(pendingDevices)[0].0).None?
      // otherwise the served record's turn ends as `TurnEffect` says
      ensures var q := FirstRequest(old(authRequests), old(pendingDevices)[0].0);
        q.Some? ==>
          old(Registered(q.value)) && q.value.device.vault == old(q.value.device.vault) &&
          IsChallenge(q.value.device.c2) && q.value.device.c2 != c1 &&
          TurnEffect(old(q.value.vault.keys), old(q.value.device.vault.keys), q.value.vault.keys, q.value.device.vault.keys,
                     c1, r1, t2, q.value.device.c2, t1, r2, mac, hash, outcome)
    {
      var (deviceId, sessionId) := pendingDevices[0];
      pendingDevices := pendingDevices[1..];
      var request := FirstRequest(authRequests, deviceId);
      if request.None? {
        running := false;
        return NoRequest;
      }
      outcome := ServeRecord(deviceId, request.value, c1, r1, t2, draws, r2, t1, mac, hash, authRequests);
    }

    /** The turn for the record `run` found: `Authenticate`, after which every
        record of `registry` can still be served. */
    method ServeRecord(deviceId: int, q: Request, c1: seq<int>, r1: Bytes, t2: Bytes,
                       draws: seq<seq<int>>, r2: Bytes, t1: Bytes, mac: Mac, hash: Hash,
                       ghost registry: seq<Request>)
      returns (outcome: Outcome)
      requires running && Registered(q) && IsChallenge(c1) && Sha512Sized(mac, hash)
      requires forall k :: 0 <= k < |draws| ==> IsChallenge(draws[k])
      requires exists k :: 0 <= k < |draws| && draws[k] != c1
      requires forall r :: r in registry ==> Registered(r)
      modifies this, q.vault, q.device, q.device.vault
      ensures pendingDevices == old(pendingDevices) && authRequests == old(authRequests)
      ensures forall r :: r in registry ==> Registered(r)
      ensures outcome == Paired ==> pairedDevices == old(pairedDevices) + [deviceId]
      ensures outcome != Paired ==> pairedDevices == old(pairedDevices)
      ensures running <==> outcome == Paired || outcome == Refused
      ensures q.device.vault == old(q.device.vault) && IsChallenge(q.device.c2) && q.device.c2 != c1
      ensures TurnEffect(old(q.vault.keys), old(q.device.vault.keys), q.vault.keys, q.device.vault.keys,
                         c1, r1, t2, q.device.c2, t1, r2, mac, hash, outcome)
    {
      outcome := Authenticate(deviceId, q, c1, r1, t2, draws, r2, t1, mac, hash);
      forall r | r in registry
        ensures Registered(r)
      {
        StaysRegistered(r, q, old(r.vault.keys), old(r.device.vault), old(r.device.vault.keys));
      }
    }

    /** The exchange of M2 to M4 with a registered device, after `run` found its
        record. */
    method Authenticate(deviceId: int, q: Request, c1: seq<int>, r1: Bytes, t2: Bytes,
                        draws: seq<seq<int>>, r2: Bytes, t1: Bytes, mac: Mac, hash: Hash)
      returns (outcome: Outcome)
      requires running && Registered(q) && IsChallenge(c1) && Sha512Sized(mac, hash)
      requires forall k :: 0 <= k < |draws| ==> IsChallenge(draws[k])
      requires exists k :: 0 <= k < |draws| && draws[k] != c1
      modifies this, q.vault, q.device, q.device.vault
      ensures pendingDevices == old(pendingDevices) && authRequests == old(authRequests)
      ensures Registered(q)
      ensures outcome == Paired ==> pairedDevices == old(pairedDevices) + [deviceId]
      ensures outcome != Paired ==> pairedDevices == old(pairedDevices)
      ensures running <==> outcome == Paired || outcome == Refused
      ensures q.device.vault == old(q.device.vault) && IsChallenge(q.device.c2) && q.device.c2 != c1
      ensures TurnEffect(old(q.vault.keys), old(q.device.vault.keys), q.vault.keys, q.device.vault.keys,
                         c1, r1, t2, q.device.c2, t1, r2, mac, hash, outcome)
    {
      ghost var keys := q.vault.keys;
      ghost var deviceKeys := q.device.vault.keys;
      var reading := ReceiveM3(q, c1, r1, draws, r2, t1);
      ghost var c2Sent := q.device.c2;
      if reading.M3Failed? {
        running := false;
        StoppedAtM3(keys, deviceKeys, c1, r1, t2, c2Sent, t1, r2, mac, hash, reading);
        return reading.outcome;
      }
      outcome := SendM4(deviceId, q, reading.c2, reading.t1, reading.r2, t2, mac, hash);
      AnsweredM4(keys, deviceKeys, q.vault.keys, q.device.vault.keys, c1, r1, t2, c2Sent, t1, r2, mac, hash,
                 reading, outcome);
    }

    /** The M2/M3 phase of `run`: look up k1 for c1, let the device answer M2
        with M3 and read it back. */
    method ReceiveM3(q: Request, c1: seq<int>, r1: Bytes, draws: seq<seq<int>>, r2: Bytes, t1: Bytes)
      returns (reading: M3Reading)
      requires Registered(q) && IsChallenge(c1)
      requires forall k :: 0 <= k < |draws| ==> IsChallenge(draws[k])
      requires exists k :: 0 <= k < |draws| && draws[k] != c1
      modifies q.device
      ensures Registered(q) && q.device.vault == old(q.device.vault)
      ensures IsChallenge(q.device.c2) && q.device.c2 != c1 && q.device.t1 == t1 && q.device.r2 == r2
      ensures reading == ReadM3(q.vault.keys, KeyOf(q.vault.keys, c1), r1,
                                Encrypt(KeyOf(q.device.vault.keys, c1), M3Payload(r1, t1, q.device.c2, r2)))
    {
      var k1 := q.vault.GetKey(c1);
      var m3Sealed := q.device.SendMessage2(c1, r1, draws, r2, t1);
      reading := ReadM3(q.vault.keys, k1, r1, m3Sealed);
    }

    /** The end of `run`'s turn: derive k3 = k2 ⊕ t1, send M4 = Enc(k3, r2 ‖ t2)
        and, if the device accepts it, refresh the vault with t2 ⊕ t1 and
        record the device as paired. */
    method SendM4(deviceId: int, q: Request, c2: seq<int>, t1: Bytes, r2: Bytes, t2: Bytes,
                  mac: Mac, hash: Hash) returns (outcome: Outcome)
      requires Registered(q) && Indexes(q.vault.keys, c2) && Sha512Sized(mac, hash)
      requires Indexes(q.device.vault.keys, q.device.c2)
      modifies this, q.vault, q.device.vault
      ensures outcome == Paired || outcome == Refused
      ensures Registered(q)
      ensures pendingDevices == old(pendingDevices) && authRequests == old(authRequests)
      ensures running == old(running)
      ensures outcome == Paired ==> pairedDevices == old(pairedDevices) + [deviceId]
      ensures outcome != Paired ==> pairedDevices == old(pairedDevices)
      // paired exactly when the device accepts M4 under its own k2 XOR t1
      ensures var plain := Decrypt(Xor(KeyOf(old(q.device.vault.keys), q.device.c2), q.device.t1),
                                   Encrypt(Xor(KeyOf(old(q.vault.keys), c2), t1), r2 + t2));
        (outcome == Paired <==> plain.Some? && ParseM4(plain.value).0 == q.device.r2) &&
        (outcome == Paired ==>
           q.vault.keys == Updated(Sha512WithHmac, old(q.vault.keys), Xor(t2, t1), mac, hash) &&
           q.device.vault.keys ==
             Updated(Sha512WithHmac, old(q.device.vault.keys), Xor(ParseM4(plain.value).1, q.device.t1), mac, hash))
      ensures outcome == Refused ==>
        q.vault.keys == old(q.vault.keys) && q.device.vault.keys == old(q.device.vault.keys)
      ensures old(q.vault.keys) == old(q.device.vault.keys) &&
              c2 == q.device.c2 && t1 == q.device.t1 && r2 == q.device.r2 && |r2| == M && |t2| == M ==>
          outcome == Paired && q.device.vault != null &&
          q.vault.keys == q.device.vault.keys &&
          q.vault.keys == Updated(Sha512WithHmac, old(q.vault.keys), Xor(t2, t1), mac, hash)
    {
      var device := q.device;
      var secureVault := q.vault;
      if |r2| == M && |t2| == M {
        ParseM4RoundTrip(r2, t2, []);
        assert r2 + t2 + [] == r2 + t2;
      }
      var k2 := secureVault.GetKey(c2);
      var k3 := Xor(k2, t1);
      var m4 := Encrypt(k3, r2 + t2);
      ghost var deviceKeys := device.vault.keys;
      var ok := device.SendMessage4(m4, mac, hash);
      if ok {
        ghost var plain := Decrypt(Xor(KeyOf(deviceKeys, device.c2), device.t1), m4);
        RefreshKeepsShape(Sha512WithHmac, deviceKeys, Xor(ParseM4(plain.value).1, device.t1), mac, hash);
        RefreshKeepsShape(Sha512WithHmac, secureVault.keys, Xor(t2, t1), mac, hash);
        var sessionKey := Xor(t2, t1);
        secureVault.UpdateVault(Sha512WithHmac, sessionKey, mac, hash);
        pairedDevices := pairedDevices + [deviceId];
        return Paired;
      }
      return Refused;
    }
  }

  /** `connect` followed by the device's `run`: register with the server, keep
      the vault copy, and ask to authenticate with `sessionId`. */
  method Connect(device: IoTDevice, server: IoTServer, initial: seq<Bytes>, sessionId: Bytes)
    returns (r: Option<bool>)
    requires WellShaped(initial)
    modifies device, server
    ensures fresh(device.vault) && device.vault.keys == initial
    ensures |server.authRequests| == |old(server.authRequests)| + 1
    ensures server.authRequests[..|old(server.authRequests)|] == old(server.authRequests)
    ensures var q := server.authRequests[|old(server.authRequests)|];
      q.deviceId == device.id && q.device == device && fresh(q.vault) &&
      q.vault != device.vault && q.vault.keys == device.vault.keys
    ensures device.id in old(server.pairedDevices) ==>
      r == Some(false) && server.pendingDevices == old(server.pendingDevices)
    ensures device.id !in old(server.pairedDevices) ==>
      r == None && server.pendingDevices == old(server.pendingDevices) + [(device.id, sessionId)]
  {
    var copy := server.SetUpConnection(device, initial);
    device.vault := copy;
    r := server.StartAuthentication(device.id, sessionId);
  }
}
