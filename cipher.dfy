/** The rolling byte cipher shared by the editor (encoding on save) and the
    viewer (decoding on open): byte `i` is shifted by key byte `i mod 5`. */
module Cipher {
  import opened Base
  import opened Utf8

  /** Only the first five key bytes are ever read; the position in the key
      advances modulo this period. */
  const KeyPeriod: nat := 5

  /** Reading `key[i % KeyPeriod]` for every `i < n` stays inside the key:
      this holds for every `n` once the key has five bytes, and for short
      inputs with a short key. */
  predicate KeyCovers(key: seq<byte>, n: nat) {
    n <= |key| || KeyPeriod <= |key|
  }

  /** `Editor::crypt_add`: (c + k) mod 256. */
  function CryptAdd(c: byte, k: byte): (r: byte)
    ensures (r as int - k as int) % 0x100 == c as int
  {
    ((c as int + k as int) % 0x100) as byte
  }

  /** `Viewer::crypt_rm`: c - k, with 256 added when that would go below zero. */
  function CryptRm(c: byte, k: byte): (r: byte)
    ensures (r as int + k as int) % 0x100 == c as int
  {
    if c < k then (c as int - k as int + 0x100) as byte else c - k
  }

  /** Each byte map undoes the other for the same key byte. */
  lemma CryptInverse(c: byte, k: byte)
    ensures CryptRm(CryptAdd(c, k), k) == c
    ensures CryptAdd(CryptRm(c, k), k) == c
  {
  }

  /** The encoded bytes: byte `i` becomes `CryptAdd(b[i], key[i mod 5])`. */
  function Encode(b: seq<byte>, key: seq<byte>): (r: seq<byte>)
    requires KeyCovers(key, |b|)
    ensures |r| == |b|
  {
    seq(|b|, i requires 0 <= i < |b| => CryptAdd(b[i], key[i % KeyPeriod]))
  }

  /** The decoded bytes: byte `i` becomes `CryptRm(b[i], key[i mod 5])`. */
  function Decode(b: seq<byte>, key: seq<byte>): (r: seq<byte>)
    requires KeyCovers(key, |b|)
    ensures |r| == |b|
  {
    seq(|b|, i requires 0 <= i < |b| => CryptRm(b[i], key[i % KeyPeriod]))
  }

  /** `decrypt_binary`'s result: the decoded bytes as a `String` when they are
      well-formed UTF-8, otherwise the `FromUtf8Error` holding them. */
  function TryDecrypt(b: seq<byte>, key: seq<byte>): (r: Result<Str, seq<byte>>)
    requires KeyCovers(key, |b|)
    ensures r.Success? <==> ValidUtf8(Decode(b, key))
  {
    var d := Decode(b, key);
    if ValidUtf8(d) then Success(d) else Failure(d)
  }

  /** Round trip: decoding the encoded bytes gives the original back. */
  lemma {:induction false} DecodeEncode(b: seq<byte>, key: seq<byte>)
    requires KeyCovers(key, |b|)
    ensures |Encode(b, key)| == |b|
    ensures Decode(Encode(b, key), key) == b
  {
    var e := Encode(b, key);
    forall i | 0 <= i < |b| ensures Decode(e, key)[i] == b[i] {
      CryptInverse(b[i], key[i % KeyPeriod]);
    }
  }

  /** The other direction: every byte sequence is the encoding of its decoding,
      so encoding is a bijection on sequences of each length. */
  lemma {:induction false} EncodeDecode(b: seq<byte>, key: seq<byte>)
    requires KeyCovers(key, |b|)
    ensures |Decode(b, key)| == |b|
    ensures Encode(Decode(b, key), key) == b
  {
    var d := Decode(b, key);
    forall i | 0 <= i < |b| ensures Encode(d, key)[i] == b[i] {
      CryptInverse(b[i], key[i % KeyPeriod]);
    }
  }

  /** Locality in the input: output byte `i` depends only on input byte `i`,
      and different input bytes give different output bytes. */
  lemma EncodeLocal(a: seq<byte>, b: seq<byte>, key: seq<byte>, i: nat)
    requires |a| == |b| && KeyCovers(key, |a|) && i < |a|
    ensures a[i] == b[i] ==> Encode(a, key)[i] == Encode(b, key)[i]
    ensures a[i] != b[i] ==> Encode(a, key)[i] != Encode(b, key)[i]
  {
    if a[i] != b[i] {
      CryptInverse(a[i], key[i % KeyPeriod]);
      CryptInverse(b[i], key[i % KeyPeriod]);
    }
  }

  /** Locality in the key: output byte `i` depends on the key only through
      `key[i mod 5]`. */
  lemma EncodeKeyLocal(a: seq<byte>, k1: seq<byte>, k2: seq<byte>, i: nat)
    requires KeyPeriod <= |k1| && KeyPeriod <= |k2| && i < |a|
    requires k1[i % KeyPeriod] == k2[i % KeyPeriod]
    ensures Encode(a, k1)[i] == Encode(a, k2)[i]
  {
  }

  /** Only the first five key bytes are ever read: a longer key encodes as
      its five-byte prefix does. */
  lemma EncodeKeyPrefix(a: seq<byte>, key: seq<byte>)
    requires KeyPeriod <= |key|
    ensures Encode(a, key) == Encode(a, key[..KeyPeriod])
  {
  }

  /** The encoding of a prefix is the prefix of the encoding. */
  lemma EncodePrefix(a: seq<byte>, key: seq<byte>, n: nat)
    requires KeyPeriod <= |key| && n <= |a|
    ensures Encode(a[..n], key) == Encode(a, key)[..n]
  {
  }

  /** Moving on by a multiple of five bytes leaves the key position alone. */
  lemma KeyPositionShift(n: nat, j: nat)
    requires n % KeyPeriod == 0
    ensures (n + j) % KeyPeriod == j % KeyPeriod
  {
  }

  /** The key restarts every five bytes: a five-byte-aligned split encodes
      piecewise. */
  lemma {:induction false} EncodeAligned(a: seq<byte>, b: seq<byte>, key: seq<byte>)
    requires |a| % KeyPeriod == 0 && KeyPeriod <= |key|
    ensures Encode(a + b, key) == Encode(a, key) + Encode(b, key)
  {
    var ab := a + b;
    forall j | 0 <= j < |b|
      ensures Encode(ab, key)[|a| + j] == Encode(b, key)[j]
    {
      KeyPositionShift(|a|, j);
      assert ab[|a| + j] == b[j];
    }
    assert forall i | 0 <= i < |a| :: Encode(ab, key)[i] == Encode(a, key)[i];
  }

  /** A decoded blob is accepted as text exactly when it is the encoding of
      some text: the viewer's decode-then-validate heuristic recognises every
      file the editor encrypted, and also any binary file that happens to
      decode to well-formed UTF-8. */
  lemma DecryptsIffEncryptedText(b: seq<byte>, key: seq<byte>)
    requires KeyCovers(key, |b|)
    ensures TryDecrypt(b, key).Success? <==> exists t: Str :: |t| == |b| && Encode(t, key) == b
  {
    if TryDecrypt(b, key).Success? {
      var t: Str := Decode(b, key);
      EncodeDecode(b, key);
      assert |t| == |b| && Encode(t, key) == b;
    } else {
      if t: Str :| |t| == |b| && Encode(t, key) == b {
        DecodeEncode(t, key);
      }
    }
  }

  /** Opening what the editor encrypted gives back the very text. */
  lemma EncryptedTextDecrypts(t: Str, key: seq<byte>)
    requires KeyCovers(key, |t|)
    ensures |Encode(t, key)| == |t|
    ensures TryDecrypt(Encode(t, key), key) == Success(t)
  {
    DecodeEncode(t, key);
  }

  /** `Editor::encrypt_string`: a loop that pushes one shifted byte per input
      byte while advancing the key position modulo 5. */
  method EncryptString(s: Str, key: seq<byte>) returns (out: seq<byte>)
    requires KeyCovers(key, |s|)
    ensures out == Encode(s, key)
  {
    out := [];
    var count: nat := 0;
    var i := 0;
    while i < |s|
      invariant 0 <= i <= |s|
      invariant count == i % KeyPeriod
      invariant out == Encode(s[..i], key)
    {
      out := out + [CryptAdd(s[i], key[count])];
      count := (count + 1) % KeyPeriod;
      i := i + 1;
    }
    assert s[..i] == s;
  }

  /** `Viewer::decrypt_binary`: the inverse loop followed by `String::from_utf8`. */
  method DecryptBinary(bin: seq<byte>, key: seq<byte>) returns (r: Result<Str, seq<byte>>)
    requires KeyCovers(key, |bin|)
    ensures r == TryDecrypt(bin, key)
  {
    var text: seq<byte> := [];
    var count: nat := 0;
    var i := 0;
    while i < |bin|
      invariant 0 <= i <= |bin|
      invariant count == i % KeyPeriod
      invariant text == Decode(bin[..i], key)
    {
      text := text + [CryptRm(bin[i], key[count])];
      count := (count + 1) % KeyPeriod;
      i := i + 1;
    }
    assert bin[..i] == bin;
    if ValidUtf8(text) {
      r := Success(text);
    } else {
      r := Failure(text);
    }
  }
}
