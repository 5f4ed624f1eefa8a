/** The trust decision of validate_vbmeta_public_key: a presented public key
    is compared with memcmp against the one key embedded in the boot image. */
module KeyTrust {

  /** memcmp over the first `n` bytes, the bytes compared as unsigned char:
      zero when they agree, otherwise negative or positive as the first
      differing byte of `a` is smaller or larger. */
  function Memcmp(a: seq<bv8>, b: seq<bv8>, n: nat): (r: int)
    requires n <= |a| && n <= |b|
    ensures r < 0 ==> exists i :: 0 <= i < n && a[..i] == b[..i] && a[i] < b[i]
    ensures r > 0 ==> exists i :: 0 <= i < n && a[..i] == b[..i] && a[i] > b[i]
    decreases n
  {
    if n == 0 then 0
    else if a[0] < b[0] then assert a[..0] == b[..0]; -1
    else if a[0] > b[0] then assert a[..0] == b[..0]; 1
    else
      var r := Memcmp(a[1..], b[1..], n - 1);
      FirstDifferenceShifts(a, b, n, r);
      r
  }

  /** A first difference of the tails, at i, is one of the whole sequences
      at i + 1 when their first bytes agree. */
  lemma FirstDifferenceShifts(a: seq<bv8>, b: seq<bv8>, n: nat, r: int)
    requires 0 < n <= |a| && n <= |b| && a[0] == b[0]
    requires r < 0 ==> exists i :: 0 <= i < n - 1 && a[1..][..i] == b[1..][..i] && a[1..][i] < b[1..][i]
    requires r > 0 ==> exists i :: 0 <= i < n - 1 && a[1..][..i] == b[1..][..i] && a[1..][i] > b[1..][i]
    ensures r < 0 ==> exists i :: 0 <= i < n && a[..i] == b[..i] && a[i] < b[i]
    ensures r > 0 ==> exists i :: 0 <= i < n && a[..i] == b[..i] && a[i] > b[i]
  {
    if r != 0 {
      var i :| 0 <= i < n - 1 && a[1..][..i] == b[1..][..i] && a[1..][i] != b[1..][i] &&
               (r < 0 ==> a[1..][i] < b[1..][i]) && (r > 0 ==> a[1..][i] > b[1..][i]);
      assert a[..i + 1] == [a[0]] + a[1..][..i];
      assert b[..i + 1] == [b[0]] + b[1..][..i];
    }
  }

  /** memcmp reports equality exactly when the first `n` bytes agree. */
  lemma {:induction false} MemcmpZeroIffEqual(a: seq<bv8>, b: seq<bv8>, n: nat)
    requires n <= |a| && n <= |b|
    ensures Memcmp(a, b, n) == 0 <==> a[..n] == b[..n]
    decreases n
  {
    if n > 0 {
      if a[0] == b[0] {
        MemcmpZeroIffEqual(a[1..], b[1..], n - 1);
        assert a[..n] == [a[0]] + a[1..][..n - 1];
        assert b[..n] == [b[0]] + b[1..][..n - 1];
      } else {
        assert a[..n][0] != b[..n][0];
      }
    }
  }

  /** The trust rule: a presented key is trusted when it is non-empty, no
      longer than the embedded key, and equal to that many leading bytes of
      it. Any non-empty prefix of the embedded key is therefore trusted, the
      key itself included. */
  predicate IsTrustedKey(avbPk: seq<bv8>, key: seq<bv8>)
  {
    0 < |key| <= |avbPk| && key == avbPk[..|key|]
  }

  /** The same rule stated byte by byte, as memcmp compares. */
  lemma TrustedIffBytewiseEqual(avbPk: seq<bv8>, key: seq<bv8>)
    ensures IsTrustedKey(avbPk, key) <==>
              0 < |key| <= |avbPk| && forall i :: 0 <= i < |key| ==> key[i] == avbPk[i]
  {
    if 0 < |key| <= |avbPk| && forall i :: 0 <= i < |key| ==> key[i] == avbPk[i] {
      assert key == avbPk[..|key|];
    }
  }

  /** Presenting the embedded key itself is trusted. */
  lemma EmbeddedKeyTrusted(avbPk: seq<bv8>)
    requires |avbPk| > 0
    ensures IsTrustedKey(avbPk, avbPk)
  {
  }

  /** A proper non-empty prefix of the embedded key is trusted as well. */
  lemma ProperPrefixTrusted(avbPk: seq<bv8>, n: nat)
    requires 0 < n < |avbPk|
    ensures IsTrustedKey(avbPk, avbPk[..n])
  {
  }

  /** Changing any one byte of a trusted key makes it untrusted. */
  lemma MutatedKeyUntrusted(avbPk: seq<bv8>, key: seq<bv8>, i: nat, b: bv8)
    requires IsTrustedKey(avbPk, key) && i < |key| && b != key[i]
    ensures !IsTrustedKey(avbPk, key[i := b])
  {
    assert key[i := b][i] != avbPk[..|key|][i];
  }

  /** A key longer than the embedded key, or an empty one, is never trusted. */
  lemma WrongLengthUntrusted(avbPk: seq<bv8>, key: seq<bv8>)
    requires |key| == 0 || |key| > |avbPk|
    ensures !IsTrustedKey(avbPk, key)
  {
  }
}
