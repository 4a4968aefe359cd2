/**
 * Python `bytes` as used by the Secure-Vault authentication code
 * (`project2/SecureVaultAuthentication/`): byte-wise XOR through `zip`, which
 * stops at the shorter operand, and slicing, which clamps its bounds and
 * counts negative ones from the end.
 */
module Octets {
  type Bytes = seq<bv8>

  /** The length `zip` stops at: the smaller of two lengths. */
  function Min(a: int, b: int): (r: int)
    ensures r <= a && r <= b && (r == a || r == b)
  {
    if a <= b then a else b
  }

  /** `bytes(a ^ b for a, b in zip(x, y))`. */
  function Xor(x: Bytes, y: Bytes): (r: Bytes)
    ensures |r| == Min(|x|, |y|)
    ensures forall k :: 0 <= k < |r| ==> r[k] == x[k] ^ y[k]
  {
    seq(Min(|x|, |y|), k requires 0 <= k < Min(|x|, |y|) => x[k] ^ y[k])
  }

  /** XOR-ing twice with the same operand gives the first operand back,
      provided the operand is long enough not to truncate it. */
  lemma XorCancel(x: Bytes, y: Bytes)
    requires |x| <= |y|
    ensures Xor(Xor(x, y), y) == x
  {
    var r := Xor(Xor(x, y), y);
    forall k | 0 <= k < |x| ensures r[k] == x[k] {
      assert r[k] == (x[k] ^ y[k]) ^ y[k];
    }
  }

  lemma XorCommutes(x: Bytes, y: Bytes)
    ensures Xor(x, y) == Xor(y, x)
  {
    var a, b := Xor(x, y), Xor(y, x);
    forall k | 0 <= k < |a| ensures a[k] == b[k] {
      assert a[k] == x[k] ^ y[k] && b[k] == y[k] ^ x[k];
    }
  }

  lemma ByteXorAssociates(u: bv8, v: bv8, w: bv8)
    ensures (u ^ v) ^ w == u ^ (v ^ w)
  {
  }

  lemma XorAssociates(x: Bytes, y: Bytes, z: Bytes)
    ensures Xor(Xor(x, y), z) == Xor(x, Xor(y, z))
  {
    var xy, yz := Xor(x, y), Xor(y, z);
    var a, b := Xor(xy, z), Xor(x, yz);
    var n := Min(Min(|x|, |y|), |z|);
    assert |a| == n == |b|;
    forall k | 0 <= k < n ensures a[k] == b[k] {
      ByteXorAssociates(x[k], y[k], z[k]);
    }
  }

  /** Python's normalisation of one slice bound against a length. */
  function Bound(i: int, n: nat): (r: nat)
    ensures r <= n
    ensures 0 <= i <= n ==> r == i
    ensures -(n as int) <= i < 0 ==> r as int == n as int + i
  {
    if i < 0 then (if n + i < 0 then 0 else n + i)
    else if i > n then n
    else i
  }

  /** `s[lo:hi]`: both bounds normalised; empty when they cross. */
  function Slice(s: Bytes, lo: int, hi: int): (r: Bytes)
    ensures |r| <= |s|
    ensures Bound(lo, |s|) <= Bound(hi, |s|) ==> r == s[Bound(lo, |s|)..Bound(hi, |s|)]
    ensures Bound(lo, |s|) > Bound(hi, |s|) ==> r == []
  {
    var a, b := Bound(lo, |s|), Bound(hi, |s|);
    if a <= b then s[a..b] else []
  }

  /** `s[:hi]`. */
  function Prefix(s: Bytes, hi: int): (r: Bytes)
    ensures r == Slice(s, 0, hi)
    ensures 0 <= hi ==> |r| == Min(hi, |s|)
  {
    s[..Bound(hi, |s|)]
  }

  /** `s[lo:]`. */
  function Suffix(s: Bytes, lo: int): (r: Bytes)
    ensures r == Slice(s, lo, |s|)
    ensures lo < 0 ==> |r| == Min(-lo, |s|)
  {
    s[Bound(lo, |s|)..]
  }

  /** `b'\0' * n`. */
  function Zeros(n: nat): (r: Bytes)
    ensures |r| == n && forall k :: 0 <= k < n ==> r[k] == 0
  {
    seq(n, _ => 0)
  }

  /** `bytes(c)` for a list of small integers. */
  function ToBytes(c: seq<int>): (r: Bytes)
    requires forall k :: 0 <= k < |c| ==> 0 <= c[k] < 256
    ensures |r| == |c|
  {
    seq(|c|, k requires 0 <= k < |c| => c[k] as bv8)
  }

  /** Iterating a `bytes` object: its values as integers. */
  function FromBytes(b: Bytes): (r: seq<int>)
    ensures |r| == |b| && forall k :: 0 <= k < |b| ==> 0 <= r[k] < 256
  {
    seq(|b|, k requires 0 <= k < |b| => b[k] as int)
  }

  /** A small value survives the trip through a byte; the cases are
      enumerated so that each conversion is of a constant. */
  lemma ByteValue(x: int)
    requires 0 <= x < 16
    ensures (x as bv8) as int == x
  {
    assert x in {0, 1, 2, 3, 4, 5, 6, 7, 8, 9, 10, 11, 12, 13, 14, 15};
  }

  /** `list(bytes(c)) == c` for lists of the small values a challenge holds. */
  lemma BytesRoundTrip(c: seq<int>)
    requires forall k :: 0 <= k < |c| ==> 0 <= c[k] < 16
    ensures FromBytes(ToBytes(c)) == c
  {
    var r := FromBytes(ToBytes(c));
    forall k | 0 <= k < |c| ensures r[k] == c[k] {
      assert ToBytes(c)[k] == c[k] as bv8;
      ByteValue(c[k]);
    }
  }
}
