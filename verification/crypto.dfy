/** The crypto facade of `src/utils/crypto.ts`. Web Crypto itself
    (SHA-256, ECDSA over P-256, key generation and export) is not
    reimplemented: it is the `SubtleCrypto` value every operation receives,
    a record of uninterpreted functions whose only known facts are the
    sizes of what they return. */
module CryptoFacade {
  import opened JsCore
  import opened Hex
  import opened TextEncoding

  /** A SHA-256 digest: 32 bytes. */
  type Digest = b: Bytes | |b| == 32 witness seq(32, _ => 0)

  /** An ECDSA P-256 signature as Web Crypto returns it: the two 32-byte
      integers r and s side by side. */
  type EcdsaSignature = b: Bytes | |b| == 64 witness seq(64, _ => 0)

  /** An opaque `CryptoKey` handle. */
  datatype CryptoKey = CryptoKey(handle: nat)

  /** The `DOMException` names a Web Crypto promise can reject with. */
  datatype CryptoError = OperationError | InvalidAccessError | NotSupportedError | DataError

  /** `crypto.subtle` as the facade calls it: `digest('SHA-256', ·)`,
      `sign({ECDSA, SHA-256}, key, data)` and
      `verify({ECDSA, SHA-256}, key, signature, data)`. A rejected promise is
      a `Failure`. */
  datatype SubtleCrypto = SubtleCrypto(
    digest: Bytes -> Digest,
    sign: (CryptoKey, Bytes) -> Result<EcdsaSignature, CryptoError>,
    verify: (CryptoKey, Bytes, Bytes) -> Result<bool, CryptoError>
  )

  /** What `generateKey({ECDSA, P-256})` and the two `exportKey` calls hand
      back: the key handles and the SubjectPublicKeyInfo and PKCS #8
      encodings. Fresh randomness makes this an input of the model. */
  datatype GeneratedKeys = GeneratedKeys(
    publicKey: CryptoKey, privateKey: CryptoKey, spki: Bytes, pkcs8: Bytes)

  /** The `KeyPair` interface: the handles plus display hex. */
  datatype KeyPair = KeyPair(
    publicKey: CryptoKey, privateKey: CryptoKey,
    publicKeyHex: JsString, privateKeyHex: JsString)

  /** Number of hex characters of an exported key that are displayed. */
  const DisplayHexLength := 64

  /** `sha256(message)`: the UTF-8 bytes of the message are digested and the
      digest is written in hex. */
  function Sha256(crypto: SubtleCrypto, message: JsString): (r: JsString)
    ensures |r| == 64 && IsLowerHex(r)
    ensures HexToBuffer(r) == crypto.digest(Utf8Encode(message))
  {
    var d := crypto.digest(Utf8Encode(message));
    HexRoundTrip(d);
    BufferToHex(d)
  }

  /** The display form of an exported key: `bufferToHex(exported).slice(-64)`. */
  function DisplayHex(exported: Bytes): (r: JsString)
    ensures |r| == Min(DisplayHexLength, 2 * |exported|)
    ensures IsLowerHex(r)
    ensures r == BufferToHex(exported)[2 * |exported| - |r|..]
    ensures r == BufferToHex(exported[|exported| - Min(32, |exported|)..])
  {
    TailHex(exported);
    SliceLast(BufferToHex(exported), DisplayHexLength)
  }

  /** `generateKeyPair`: a failure of key generation or export propagates;
      otherwise the handles are kept and each display string is the tail
      of the hex of its export. */
  function GenerateKeyPair(generated: Result<GeneratedKeys, CryptoError>): (r: Result<KeyPair, CryptoError>)
    ensures generated.Failure? <==> r.Failure?
    ensures generated.Failure? ==> r.error == generated.error
    ensures generated.Success? ==>
              var g := generated.value;
              && r.value.publicKey == g.publicKey && r.value.privateKey == g.privateKey
              && |r.value.publicKeyHex| == Min(64, 2 * |g.spki|)
              && |r.value.privateKeyHex| == Min(64, 2 * |g.pkcs8|)
              && r.value.publicKeyHex <= BufferToHex(g.spki)[2 * |g.spki| - |r.value.publicKeyHex|..]
              && r.value.privateKeyHex <= BufferToHex(g.pkcs8)[2 * |g.pkcs8| - |r.value.privateKeyHex|..]
  {
    match generated
    case Failure(e) => Failure(e)
    case Success(g) =>
      Success(KeyPair(g.publicKey, g.privateKey, DisplayHex(g.spki), DisplayHex(g.pkcs8)))
  }

  /** `signMessage`: an ECDSA/SHA-256 signature over the UTF-8 bytes of the
      message, in hex; a rejected `sign` propagates. */
  function SignMessage(crypto: SubtleCrypto, message: JsString, privateKey: CryptoKey)
    : (r: Result<JsString, CryptoError>)
    ensures r.Failure? <==> crypto.sign(privateKey, Utf8Encode(message)).Failure?
    ensures r.Success? ==>
              && |r.value| == 128 && IsLowerHex(r.value)
              && HexToBuffer(r.value) == crypto.sign(privateKey, Utf8Encode(message)).value
  {
    match crypto.sign(privateKey, Utf8Encode(message))
    case Failure(e) => Failure(e)
    case Success(sig) =>
      HexRoundTrip(sig);
      Success(BufferToHex(sig))
  }

  /** `verifySignature`: total. A rejected `verify` (a malformed key or
      signature) is caught and reads as `false`, exactly like a signature
      that does not match. */
  function VerifySignature(crypto: SubtleCrypto, message: JsString, signatureHex: JsString, publicKey: CryptoKey)
    : (ok: bool)
    ensures ok <==> crypto.verify(publicKey, HexToBuffer(signatureHex), Utf8Encode(message)) == Success(true)
  {
    match crypto.verify(publicKey, HexToBuffer(signatureHex), Utf8Encode(message))
    case Success(valid) => valid
    case Failure(_) => false
  }

  // ---- what ECDSA is trusted to provide ----

  /** ECDSA correctness for a key pair: whatever the private key signs, the
      public key accepts on the same bytes. */
  ghost predicate Correct(crypto: SubtleCrypto, keys: KeyPair)
  {
    forall m: Bytes {:trigger crypto.sign(keys.privateKey, m)} ::
      crypto.sign(keys.privateKey, m).Success? ==>
        crypto.verify(keys.publicKey, crypto.sign(keys.privateKey, m).value, m) == Success(true)
  }

  /** ECDSA unforgeability as the demos rely on it: a signature over some
      bytes is not accepted for any other bytes. */
  ghost predicate Binding(crypto: SubtleCrypto, keys: KeyPair)
  {
    forall m: Bytes, m': Bytes {:trigger crypto.verify(keys.publicKey, crypto.sign(keys.privateKey, m).value, m')} ::
      m != m' && crypto.sign(keys.privateKey, m).Success? ==>
        crypto.verify(keys.publicKey, crypto.sign(keys.privateKey, m).value, m') != Success(true)
  }

  // ---- properties ----

  /** The last 64 hex characters of a buffer are the hex of its last 32
      bytes. */
  lemma TailHex(b: Bytes)
    ensures SliceLast(BufferToHex(b), 64) == BufferToHex(b[|b| - Min(32, |b|)..])
  {
    var k := |b| - Min(32, |b|);
    var x, y := b[..k], b[k..];
    var p, q := BufferToHex(x), BufferToHex(y);
    assert BufferToHex(b) == p + q by {
      SplitAt(b, k);
      BufferToHexAppend(x, y);
    }
    assert |q| == Min(64, |p| + |q|) by {
      assert |p| == 2 * k && |q| == 2 * (|b| - k);
    }
    SliceLastOfConcat(p, q, 64);
  }

  lemma SplitAt<T>(s: seq<T>, k: nat)
    requires k <= |s|
    ensures s[..k] + s[k..] == s
  {
  }

  /** When the tail is exactly as long as the slice, the slice is the tail. */
  lemma SliceLastOfConcat<T>(p: seq<T>, q: seq<T>, n: nat)
    requires n > 0 && |q| == Min(n, |p| + |q|)
    ensures SliceLast(p + q, n) == q
  {
    assert (p + q)[|p|..] == q;
  }

  lemma {:induction false} BufferToHexAppend(a: Bytes, b: Bytes)
    ensures BufferToHex(a + b) == BufferToHex(a) + BufferToHex(b)
    decreases |a|
  {
    if a != [] {
      var ab := a + b;
      assert ab[0] == a[0] && ab[1..] == a[1..] + b;
      BufferToHexAppend(a[1..], b);
      calc {
        BufferToHex(ab);
        ByteToHex(a[0]) + BufferToHex(a[1..] + b);
        ByteToHex(a[0]) + (BufferToHex(a[1..]) + BufferToHex(b));
        (ByteToHex(a[0]) + BufferToHex(a[1..])) + BufferToHex(b);
      }
    } else {
      assert a + b == b;
    }
  }

  /** Sign/verify round trip: with a correct key pair, the facade verifies
      its own signature over the same message. */
  lemma SignThenVerify(crypto: SubtleCrypto, keys: KeyPair, message: JsString)
    requires Correct(crypto, keys)
    requires SignMessage(crypto, message, keys.privateKey).Success?
    ensures VerifySignature(crypto, message, SignMessage(crypto, message, keys.privateKey).value, keys.publicKey)
  {
    var m := Utf8Encode(message);
    assert crypto.sign(keys.privateKey, m).Success?;
  }

  /** Tamper detection: with a binding key pair, a signature over one message
      is rejected for any message whose UTF-8 bytes differ. */
  lemma VerifyRejectsOtherMessage(crypto: SubtleCrypto, keys: KeyPair, signed: JsString, received: JsString)
    requires Binding(crypto, keys)
    requires SignMessage(crypto, signed, keys.privateKey).Success?
    requires Utf8Encode(signed) != Utf8Encode(received)
    ensures !VerifySignature(crypto, received, SignMessage(crypto, signed, keys.privateKey).value, keys.publicKey)
  {
    var m := Utf8Encode(signed);
    var m' := Utf8Encode(received);
    assert crypto.verify(keys.publicKey, crypto.sign(keys.privateKey, m).value, m') != Success(true);
  }
}
