/** The framing of an encrypted backup: magic, salt and nonce in clear, all of them authenticated. */
module BackupSeal {
  import opened Wrappers

  type Bytes = seq<bv8>

  const HEADER_RANDOM: nat := 28 // 16 of salt, 12 of nonce
  const TAG: nat := 16
  const BACKUP_LIMIT: nat := 0x400_0000

  /** The cryptography: key derivation from passphrase and salt, and an authenticated cipher. */
  datatype Crypto = Crypto(
    magic: Bytes,
    blank: Bytes -> bool,
    kdf: (Bytes, Bytes) -> Bytes,
    seal: (Bytes, Bytes, Bytes, Bytes) -> Bytes,
    open: (Bytes, Bytes, Bytes, Bytes) -> Option<Bytes>)
  {
    /**
      open takes (key, nonce, data, header) and succeeds exactly on what seal made from (key, nonce,
      plain, header).
      */
    ghost predicate Authentic() {
      && (forall k, n, p, h :: |seal(k, n, p, h)| == |p| + TAG && open(k, n, seal(k, n, p, h), h) == Some(p))
      && (forall k, n, c, h :: open(k, n, c, h).Some? ==> seal(k, n, open(k, n, c, h).value, h) == c)
    }

    predicate PasswordOk(p: Bytes) {
      12 <= |p| <= 1024 && !blank(p)
    }
  }

  /** sealBackup with the random bytes it drew. */
  function SealBackup(c: Crypto, plain: Bytes, password: Bytes, random: Bytes): (r: Option<Bytes>)
    requires |random| == HEADER_RANDOM
    ensures r.Some? <==> 12 <= |password| <= 1024 && !c.blank(password) && |plain| <= 64 * 1024 * 1024
    ensures r.Some? && c.Authentic() ==> |r.value| == |c.magic| + 16 + 12 + |plain| + 16 && c.magic <= r.value
  {
    if !c.PasswordOk(password) || |plain| > BACKUP_LIMIT then None
    else
      var header := c.magic + random;
      Some(header + c.seal(c.kdf(password, random[..16]), random[16..], plain, header))
  }

  ghost predicate IsSealed(c: Crypto, data: Bytes, password: Bytes, plain: Bytes, random: Bytes) {
    |random| == HEADER_RANDOM && SealBackup(c, plain, password, random) == Some(data)
  }

  lemma OneSealing(c: Crypto, data: Bytes, password: Bytes, p1: Bytes, r1: Bytes, p2: Bytes, r2: Bytes)
    requires c.Authentic() && IsSealed(c, data, password, p1, r1) && IsSealed(c, data, password, p2, r2)
    ensures p1 == p2 && r1 == r2
  {
    var h1, h2 := c.magic + r1, c.magic + r2;
    var n := |c.magic| + HEADER_RANDOM;
    assert h1 == data[..n] == h2;
    assert r1 == h1[|c.magic|..] && r2 == h2[|c.magic|..];
    var k := c.kdf(password, r1[..16]);
    assert c.seal(k, r1[16..], p1, h1) == data[n..] == c.seal(k, r1[16..], p2, h1);
    assert c.open(k, r1[16..], data[n..], h1) == Some(p1) == Some(p2);
  }

  /**
    openBackup returns a plaintext exactly when the file is what sealBackup makes of it
    under the same password: nothing sealed is refused, nothing else is accepted.
    */
  method OpenBackup(c: Crypto, data: Bytes, password: Bytes) returns (r: Option<Bytes>)
    requires c.Authentic()
    ensures forall plain :: r == Some(plain) <==> exists random :: IsSealed(c, data, password, plain, random)
  {
    var m := |c.magic|;
    var n := m + HEADER_RANDOM;
    if !c.PasswordOk(password) {
      return None;
    }
    if |data| < n + TAG || |data| > BACKUP_LIMIT + n + TAG || !(c.magic <= data) {
      assert forall plain, random :: IsSealed(c, data, password, plain, random) ==> c.magic + random <= data;
      return None;
    }
    var random := data[m..n];
    assert data == c.magic + random + data[n..];
    r := c.open(c.kdf(password, data[m..m + 16]), data[m + 16..n], data[n..], data[..n]);
    assert data[..n] == c.magic + random && data[m..m + 16] == random[..16] && data[m + 16..n] == random[16..];
    if r.Some? {
      assert IsSealed(c, data, password, r.value, random);
    }
    forall plain, other | IsSealed(c, data, password, plain, other)
      ensures r == Some(plain)
    {
      var h := c.magic + other;
      assert data[..n] == h && other == h[m..] == random;
      assert data[n..] == c.seal(c.kdf(password, other[..16]), other[16..], plain, h);
    }
  }
}
