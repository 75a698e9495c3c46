/**
  The padding check that runs before a SCEP envelope is handed to the PKCS#7 library:
  it accepts exactly the encryptions of padded messages under the recovered key.
  */
module Envelope {
  import opened Wrappers

  type Bytes = seq<bv8>

  datatype Cipher = Aes128 | Aes256 | TripleDes | Des
  {
    function KeySize(): nat {
      match this
      case Aes128 => 16
      case Aes256 => 32
      case TripleDes => 24
      case Des => 8
    }

    function BlockSize(): (n: nat)
      ensures 8 <= n <= 16
    {
      match this
      case Aes128 => 16
      case Aes256 => 16
      case TripleDes => 8
      case Des => 8
    }
  }

  /** enc and dec undo each other on blocks of n bytes. */
  ghost predicate BlockCipher(enc: Bytes -> Bytes, dec: Bytes -> Bytes, n: nat) {
    && (forall x: Bytes {:trigger enc(x)} :: |x| == n ==> |enc(x)| == n)
    && (forall x: Bytes {:trigger dec(x)} :: |x| == n ==> |dec(x)| == n)
    && (forall x: Bytes {:trigger dec(enc(x))} :: |x| == n ==> dec(enc(x)) == x)
    && (forall x: Bytes {:trigger enc(dec(x))} :: |x| == n ==> enc(dec(x)) == x)
  }

  lemma OneBlock(enc: Bytes -> Bytes, dec: Bytes -> Bytes, n: nat, x: Bytes)
    requires BlockCipher(enc, dec, n) && |x| == n
    ensures |enc(x)| == n && dec(enc(x)) == x && |dec(x)| == n && enc(dec(x)) == x
  {
  }

  function Xor(a: Bytes, b: Bytes): (r: Bytes)
    requires |a| == |b|
    ensures |r| == |a|
  {
    seq(|a|, i requires 0 <= i < |a| => a[i] ^ b[i])
  }

  lemma XorTwice(a: Bytes, b: Bytes)
    requires |a| == |b|
    ensures Xor(Xor(a, b), b) == a
  {
    forall i | 0 <= i < |a|
      ensures (a[i] ^ b[i]) ^ b[i] == a[i]
    {
      XorBack(a[i], b[i]);
    }
  }

  lemma XorBack(x: bv8, y: bv8)
    ensures (x ^ y) ^ y == x
  {
  }

  // ----- CBC -----

  /** size is a number of whole blocks. */
  predicate Whole(size: nat, n: nat) {
    size == 0 || (0 < n <= size && Whole(size - n, n))
  }

  ghost function CbcEncrypt(enc: Bytes -> Bytes, dec: Bytes -> Bytes, n: nat, iv: Bytes, plain: Bytes): (r: Bytes)
    requires BlockCipher(enc, dec, n) && n > 0 && |iv| == n && Whole(|plain|, n)
    ensures |r| == |plain|
    decreases |plain|
  {
    if plain == [] then []
    else
      var c := enc(Xor(plain[..n], iv));
      c + CbcEncrypt(enc, dec, n, c, plain[n..])
  }

  ghost function CbcDecrypt(enc: Bytes -> Bytes, dec: Bytes -> Bytes, n: nat, iv: Bytes, data: Bytes): (r: Bytes)
    requires BlockCipher(enc, dec, n) && n > 0 && |iv| == n && Whole(|data|, n)
    ensures |r| == |data|
    decreases |data|
  {
    if data == [] then []
    else Xor(dec(data[..n]), iv) + CbcDecrypt(enc, dec, n, data[..n], data[n..])
  }

  lemma {:induction false} DecryptAfterEncrypt(
    enc: Bytes -> Bytes, dec: Bytes -> Bytes, n: nat, iv: Bytes, plain: Bytes)
    requires BlockCipher(enc, dec, n) && n > 0 && |iv| == n && Whole(|plain|, n)
    ensures CbcDecrypt(enc, dec, n, iv, CbcEncrypt(enc, dec, n, iv, plain)) == plain
    decreases |plain|
  {
    hide BlockCipher;
    if plain == [] {
    } else {
      OneBlock(enc, dec, n, Xor(plain[..n], iv));
      var c := enc(Xor(plain[..n], iv));
      var rest := CbcEncrypt(enc, dec, n, c, plain[n..]);
      DecryptAfterEncrypt(enc, dec, n, c, plain[n..]);
      XorTwice(plain[..n], iv);
      assert (c + rest)[..n] == c && (c + rest)[n..] == rest;
      assert plain == plain[..n] + plain[n..];
    }
  }

  lemma {:induction false} EncryptAfterDecrypt(enc: Bytes -> Bytes, dec: Bytes -> Bytes, n: nat, iv: Bytes, data: Bytes)
    requires BlockCipher(enc, dec, n) && n > 0 && |iv| == n && Whole(|data|, n)
    ensures CbcEncrypt(enc, dec, n, iv, CbcDecrypt(enc, dec, n, iv, data)) == data
    decreases |data|
  {
    hide BlockCipher;
    if data == [] {
    } else {
      OneBlock(enc, dec, n, data[..n]);
      var p := Xor(dec(data[..n]), iv);
      var rest := CbcDecrypt(enc, dec, n, data[..n], data[n..]);
      EncryptAfterDecrypt(enc, dec, n, data[..n], data[n..]);
      XorTwice(dec(data[..n]), iv);
      assert (p + rest)[..n] == p && (p + rest)[n..] == rest;
      assert data == data[..n] + data[n..];
    }
  }

  // ----- Padding -----

  /** A message padded to whole blocks of n bytes, by as many bytes as their value says. */
  ghost predicate IsPadded(m: Bytes, plain: Bytes, n: nat) {
    && m <= plain && 1 <= |plain| - |m| <= n && Whole(|plain|, n)
    && forall i :: |m| <= i < |plain| ==> plain[i] as int == |plain| - |m|
  }

  lemma PaddingDeterminesMessage(m1: Bytes, m2: Bytes, plain: Bytes, n: nat)
    requires 0 < n && IsPadded(m1, plain, n) && IsPadded(m2, plain, n)
    ensures m1 == m2
  {
    assert plain[|plain| - 1] as int == |plain| - |m1| == |plain| - |m2|;
  }

  /** The check on the decrypted bytes. */
  method CheckPadding(plain: Bytes, n: nat) returns (ok: bool)
    requires 0 < n && plain != [] && Whole(|plain|, n)
    ensures ok <==> exists m :: IsPadded(m, plain, n)
  {
    var k := plain[|plain| - 1] as int;
    if k < 1 || k > n || k > |plain| {
      forall m
        ensures !IsPadded(m, plain, n)
      {
      }
      return false;
    }
    for i := |plain| - k to |plain|
      invariant forall j :: |plain| - k <= j < i ==> plain[j] as int == k
    {
      if plain[i] as int != k {
        forall m
          ensures !IsPadded(m, plain, n)
        {
        }
        return false;
      }
    }
    assert IsPadded(plain[..|plain| - k], plain, n);
    return true;
  }

  /**
    scepDecrypter.Decrypt: the recovered key is handed on exactly when it has the
    cipher's length and the ciphertext is the encryption of some padded message.
    inspectEnvelope has checked the two lengths required here.
    */
  method Decrypt(
    cipher: Cipher, key: Option<Bytes>, iv: Bytes, data: Bytes,
    ghost enc: Bytes -> Bytes, ghost dec: Bytes -> Bytes, decrypted: Bytes)
    returns (r: Option<Bytes>)
    requires BlockCipher(enc, dec, cipher.BlockSize())
    requires |iv| == cipher.BlockSize() && data != [] && Whole(|data|, cipher.BlockSize())
    requires decrypted == CbcDecrypt(enc, dec, cipher.BlockSize(), iv, data)
    ensures r.Some? ==> r == key
    ensures r.Some?
       <==> && key.Some? && |key.value| == cipher.KeySize()
            && exists m, plain :: Encrypts(enc, dec, cipher.BlockSize(), iv, m, plain, data)
  {
    var n := cipher.BlockSize();
    EncryptAfterDecrypt(enc, dec, n, iv, data);
    forall m, plain | Encrypts(enc, dec, n, iv, m, plain, data)
      ensures plain == decrypted
    {
      DecryptAfterEncrypt(enc, dec, n, iv, plain);
    }
    var ok := CheckPadding(decrypted, n);
    assert ok ==> exists m :: IsPadded(m, decrypted, n) && Encrypts(enc, dec, n, iv, m, decrypted, data);
    if key.None? || |key.value| != cipher.KeySize() || !ok {
      return None;
    }
    return key;
  }

  ghost predicate Encrypts(
    enc: Bytes -> Bytes, dec: Bytes -> Bytes, n: nat, iv: Bytes, m: Bytes, plain: Bytes, data: Bytes)
    requires BlockCipher(enc, dec, n) && n > 0 && |iv| == n
  {
    IsPadded(m, plain, n) && CbcEncrypt(enc, dec, n, iv, plain) == data
  }
}
