/**
 * The secure vault of `project2/SecureVaultAuthentication/secure_vault.py`:
 * N keys of M bytes shared by a device and the server. A challenge is a list
 * of key indices; the key it selects is the XOR of those keys. After each
 * session both sides refresh the vault, either by XOR-ing every key with a
 * zero-padded M-byte partition of an HMAC-SHA-512 digest of the whole vault,
 * or by replacing every key with the first M bytes of its SHA-512 hash.
 *
 * The digests are functions given as parameters; only their output length
 * (64 bytes for SHA-512) is assumed where a property needs it.
 */
module Vault {
  import opened Octets

  const N: nat := 16
  const M: nat := 16
  const P: nat := 6
  const Sha512WithHmac: bool := true

  /** The length of a SHA-512 digest, with or without HMAC. */
  const DigestLength: nat := 64

  type Mac = (Bytes, Bytes) -> Bytes
  type Hash = Bytes -> Bytes

  /** Digest functions with SHA-512's output length. */
  ghost predicate Sha512Sized(mac: Mac, hash: Hash)
  {
    (forall key, msg :: |mac(key, msg)| == DigestLength) &&
    (forall x :: |hash(x)| == DigestLength)
  }

  /** N keys of M bytes each. */
  predicate WellShaped(keys: seq<Bytes>)
  {
    |keys| == N && forall i :: 0 <= i < |keys| ==> |keys[i]| == M
  }

  // ---------------------------------------------------------------------------
  // Key derivation

  /** What `getKey` needs to run without an IndexError. */
  predicate Indexes(keys: seq<Bytes>, challenge: seq<int>)
  {
    |challenge| >= 1 && forall k :: 0 <= k < |challenge| ==> 0 <= challenge[k] < |keys|
  }

  /** The left fold of byte-wise XOR over the selected keys. With every key M
      bytes long, so is the derived key: `zip` never truncates. */
  function KeyOf(keys: seq<Bytes>, challenge: seq<int>): (r: Bytes)
    requires Indexes(keys, challenge)
    ensures WellShaped(keys) ==> |r| == M
  {
    if |challenge| == 1 then keys[challenge[0]]
    else
      assert Indexes(keys, challenge[..|challenge| - 1]);
      Xor(KeyOf(keys, challenge[..|challenge| - 1]), keys[challenge[|challenge| - 1]])
  }

  /** Selecting a key twice more cancels it: which is why a challenge uses
      distinct indices. */
  lemma KeyRepeatCancels(keys: seq<Bytes>, challenge: seq<int>, i: int)
    requires WellShaped(keys) && Indexes(keys, challenge) && 0 <= i < N
    ensures Indexes(keys, challenge + [i, i])
    ensures KeyOf(keys, challenge + [i, i]) == KeyOf(keys, challenge)
  {
    var c := challenge + [i, i];
    assert Indexes(keys, c);
    assert c[..|c| - 1] == challenge + [i];
    assert (challenge + [i])[..|challenge|] == challenge;
    XorCancel(KeyOf(keys, challenge), keys[i]);
  }

  /** Deriving from two concatenated challenges is XOR-ing the two derived
      keys. */
  lemma {:induction false} KeyOfAppend(keys: seq<Bytes>, c: seq<int>, d: seq<int>)
    requires WellShaped(keys) && Indexes(keys, c) && Indexes(keys, d)
    ensures Indexes(keys, c + d)
    ensures KeyOf(keys, c + d) == Xor(KeyOf(keys, c), KeyOf(keys, d))
    decreases |d|
  {
    var cd := c + d;
    assert Indexes(keys, cd);
    var last := d[|d| - 1];
    if |d| == 1 {
      assert cd[..|cd| - 1] == c;
    } else {
      var d' := d[..|d| - 1];
      assert Indexes(keys, d');
      assert cd[..|cd| - 1] == c + d';
      KeyOfAppend(keys, c, d');
      XorAssociates(KeyOf(keys, c), KeyOf(keys, d'), keys[last]);
    }
  }

  /** The order of two challenge halves does not matter. */
  lemma KeyOfSwap(keys: seq<Bytes>, c: seq<int>, d: seq<int>)
    requires WellShaped(keys) && Indexes(keys, c) && Indexes(keys, d)
    ensures Indexes(keys, c + d) && Indexes(keys, d + c)
    ensures KeyOf(keys, c + d) == KeyOf(keys, d + c)
  {
    KeyOfAppend(keys, c, d);
    KeyOfAppend(keys, d, c);
    XorCommutes(KeyOf(keys, c), KeyOf(keys, d));
  }

  // ---------------------------------------------------------------------------
  // Challenges

  /** The contract of `generateChallenge`: P distinct indices below N. */
  predicate IsChallenge(c: seq<int>)
  {
    |c| == P &&
    (forall k :: 0 <= k < |c| ==> 0 <= c[k] < N) &&
    (forall j, k :: 0 <= j < k < |c| ==> c[j] != c[k])
  }

  /** An ordering of all indices, as `random.sample` draws them. */
  predicate IsShuffle(order: seq<int>)
  {
    |order| == N &&
    (forall k :: 0 <= k < |order| ==> 0 <= order[k] < N) &&
    (forall j, k :: 0 <= j < k < |order| ==> order[j] != order[k])
  }

  /** `generateChallenge`: `random.sample(range(N), P)` is the first P entries
      of a random ordering of the indices. */
  function GenerateChallenge(order: seq<int>): (c: seq<int>)
    requires IsShuffle(order)
    ensures IsChallenge(c)
  {
    order[..P]
  }

  /** Every challenge selects keys of a well-shaped vault, and every index fits
      in a byte. */
  lemma ChallengeSelects(keys: seq<Bytes>, c: seq<int>)
    requires WellShaped(keys) && IsChallenge(c)
    ensures Indexes(keys, c)
    ensures forall k :: 0 <= k < |c| ==> 0 <= c[k] < 256
  {
  }

  // ---------------------------------------------------------------------------
  // Vault refresh

  /** The digest extended with zero bytes to the next multiple of M. */
  function Pad(h: Bytes): (r: Bytes)
    ensures |r| % M == 0 && |h| <= |r| < |h| + M
    ensures r[..|h|] == h && forall k :: |h| <= k < |r| ==> r[k] == 0
  {
    if |h| % M != 0 then h + Zeros(M - |h| % M) else h
  }

  /** `[h[i:i+M] for i in range(0, len(h), M)]` on a padded digest. */
  function Partitions(h: Bytes): (parts: seq<Bytes>)
    requires |h| % M == 0
    ensures |parts| == |h| / M
    ensures forall i :: 0 <= i < |parts| ==> parts[i] == h[i * M..i * M + M]
  {
    if h == [] then []
    else
      var rest := Partitions(h[M..]);
      assert forall i :: 1 <= i < |rest| + 1 ==> h[M..][(i - 1) * M..(i - 1) * M + M] == h[i * M..i * M + M];
      [h[..M]] + rest
  }

  /** The vault after `__SHA512_HMAC` with digest `digest`: key i XOR-ed with
      partition i modulo the number of partitions. */
  function HmacRefreshed(keys: seq<Bytes>, digest: Bytes): (r: seq<Bytes>)
    requires |digest| > 0
    ensures |r| == |keys|
  {
    var parts := Partitions(Pad(digest));
    seq(|keys|, i requires 0 <= i < |keys| => Xor(keys[i], parts[i % |parts|]))
  }

  /** The vault after `__SHA512`: every key replaced by the first M bytes of
      its hash. */
  function ShaRefreshed(keys: seq<Bytes>, hash: Hash): (r: seq<Bytes>)
    ensures |r| == |keys|
  {
    seq(|keys|, i requires 0 <= i < |keys| => Prefix(hash(keys[i]), M))
  }

  /** `updateVault` with the exchanged data: HMAC keyed by the data over all
      keys concatenated, or plain SHA-512. */
  function Updated(withHmac: bool, keys: seq<Bytes>, data: Bytes, mac: Mac, hash: Hash): (r: seq<Bytes>)
    requires withHmac ==> |mac(data, Join(keys))| > 0
    ensures |r| == |keys|
    ensures withHmac ==> forall i :: 0 <= i < |r| ==> |r[i]| <= |keys[i]|
    ensures !withHmac ==> forall i :: 0 <= i < |r| ==> |r[i]| <= M
  {
    if withHmac then HmacRefreshed(keys, mac(data, Join(keys))) else ShaRefreshed(keys, hash)
  }

  /** `b''.join(keys)`: a vault of N keys of M bytes joins to N * M bytes. */
  function Join(keys: seq<Bytes>): (r: Bytes)
    ensures (forall i :: 0 <= i < |keys| ==> |keys[i]| == M) ==> |r| == M * |keys|
  {
    if keys == [] then [] else keys[0] + Join(keys[1..])
  }

  /** Both refresh variants keep N keys of M bytes, because M is at most 64. */
  lemma RefreshKeepsShape(withHmac: bool, keys: seq<Bytes>, data: Bytes, mac: Mac, hash: Hash)
    requires WellShaped(keys) && Sha512Sized(mac, hash)
    ensures WellShaped(Updated(withHmac, keys, data, mac, hash))
  {
    if withHmac {
      var h := Pad(mac(data, Join(keys)));
      var parts := Partitions(h);
      forall i | 0 <= i < |keys| ensures |parts[i % |parts|]| == M {
        var j := i % |parts|;
        assert parts[j] == h[j * M..j * M + M];
      }
    } else {
      assert forall x :: |hash(x)| == DigestLength;
    }
  }

  /** Given the digest, an HMAC refresh is undone by a second one with the
      same digest. */
  lemma HmacRefreshInvolution(keys: seq<Bytes>, digest: Bytes)
    requires |digest| > 0 && forall i :: 0 <= i < |keys| ==> |keys[i]| <= M
    ensures HmacRefreshed(HmacRefreshed(keys, digest), digest) == keys
  {
    var h := Pad(digest);
    var parts := Partitions(h);
    var once := HmacRefreshed(keys, digest);
    var twice := HmacRefreshed(once, digest);
    forall i | 0 <= i < |keys| ensures twice[i] == keys[i] {
      var j := i % |parts|;
      assert parts[j] == h[j * M..j * M + M];
      XorCancel(keys[i], parts[j]);
    }
  }

  // ---------------------------------------------------------------------------
  // The vault object

  class SecureVault {
    var keys: seq<Bytes>

    /** The keys drawn by `os.urandom` are the parameter. */
    constructor (initial: seq<Bytes>)
      requires WellShaped(initial)
      ensures keys == initial
    {
      keys := initial;
    }

    /** `getKey`: start from the first selected key and XOR in the others. */
    method GetKey(challenge: seq<int>) returns (key: Bytes)
      requires Indexes(keys, challenge)
      ensures key == KeyOf(keys, challenge)
    {
      key := keys[challenge[0]];
      var i := 1;
      while i < |challenge|
        invariant 1 <= i <= |challenge|
        invariant Indexes(keys, challenge[..i]) && key == KeyOf(keys, challenge[..i])
      {
        assert challenge[..i + 1][..i] == challenge[..i];
        key := Xor(key, keys[challenge[i]]);
        i := i + 1;
      }
      assert challenge[..i] == challenge;
    }

    /** `__SHA512_HMAC` once the digest is computed: pad, partition, XOR key by
        key. */
    method HmacRefresh(digest: Bytes)
      requires |digest| > 0
      modifies this
      ensures keys == HmacRefreshed(old(keys), digest)
    {
      var h := digest;
      if |h| % M != 0 {
        h := h + Zeros(M - |h| % M);
      }
      var partitions := Partitions(h);
      ghost var target := HmacRefreshed(keys, digest);
      for i := 0 to |keys|
        invariant |keys| == |old(keys)|
        invariant forall k :: 0 <= k < i ==> keys[k] == target[k]
        invariant forall k :: i <= k < |keys| ==> keys[k] == old(keys)[k]
      {
        keys := keys[i := Xor(keys[i], partitions[i % |partitions|])];
      }
    }

    /** `__SHA512`. */
    method ShaRefresh(hash: Hash)
      modifies this
      ensures keys == ShaRefreshed(old(keys), hash)
    {
      ghost var target := ShaRefreshed(keys, hash);
      for i := 0 to |keys|
        invariant |keys| == |old(keys)|
        invariant forall k :: 0 <= k < i ==> keys[k] == target[k]
        invariant forall k :: i <= k < |keys| ==> keys[k] == old(keys)[k]
      {
        keys := keys[i := Prefix(hash(keys[i]), M)];
      }
    }

    /** `updateVault`; `withHmac` is the configuration flag, `Sha512WithHmac`
        in this configuration. */
    method UpdateVault(withHmac: bool, data: Bytes, mac: Mac, hash: Hash)
      requires withHmac ==> |mac(data, Join(keys))| > 0
      modifies this
      ensures keys == Updated(withHmac, old(keys), data, mac, hash)
    {
      if withHmac {
        HmacRefresh(mac(data, Join(keys)));
      } else {
        ShaRefresh(hash);
      }
    }
  }
}
