/**
 * The server's `encrypt` and `decrypt` helpers around an abstract keyed
 * block cipher. The key, the algorithm and the byte-level transform live
 * inside the two cipher parameters; what is modelled is what the helpers
 * themselves decide: the 16-byte IV and its hex form, the shape of the
 * payload, the input guard and the wrapping of every cipher failure.
 */
module CryptoCodec {
  import opened Wrappers
  import opened Hex
  import opened JsValues

  /** `crypto.randomBytes(16)`. */
  const IvLength: nat := 16

  /**
   * The keyed cipher of `encrypt`: given the IV bytes and the plaintext,
   * the hex ciphertext `update` plus `final` produce, or None when Node
   * would throw.
   */
  type Cipher = (seq<Byte>, string) -> Option<string>

  /**
   * The keyed decipher of `decrypt`: given the hex ciphertext and the hex
   * IV, the plaintext, or None when Node would throw (bad key or IV,
   * padding failure, unknown algorithm).
   */
  type Decipher = (string, string) -> Option<string>

  /** `{ iv, encryptedData }`, both hex text. */
  datatype Payload = Payload(iv: string, encryptedData: string)

  /** The payload as the object stored in a document's `password` field. */
  function PayloadValue(p: Payload): (r: JsValue)
    ensures r.Obj? && r.fields.Keys == {"iv", "encryptedData"}
    ensures Member(r, "iv") == Str(p.iv) && Member(r, "encryptedData") == Str(p.encryptedData)
  {
    Obj(map["iv" := Str(p.iv), "encryptedData" := Str(p.encryptedData)])
  }

  /**
   * `encrypt(text)` with the random IV supplied. A non-string text makes
   * `cipher.update` throw, as does any failure inside the cipher; both
   * are None here and propagate to the caller.
   */
  function Encrypt(text: JsValue, ivBytes: seq<Byte>, seal: Cipher): (r: Option<Payload>)
    requires |ivBytes| == IvLength
    ensures r.Some? <==> text.Str? && seal(ivBytes, text.s).Some?
    ensures r.Some? ==> |r.value.iv| == 2 * IvLength && IsLowerHex(r.value.iv)
    ensures r.Some? ==> FromHex(r.value.iv) == Some(ivBytes)
    ensures r.Some? ==> r.value.encryptedData == seal(ivBytes, text.s).value
  {
    if !text.Str? then None
    else match seal(ivBytes, text.s)
      case None => None
      case Some(c) =>
        FromHexToHex(ivBytes);
        Some(Payload(ToHex(ivBytes), c))
  }

  datatype DecryptError = InvalidInput | DecryptionFailed

  /** The message of the `Error` that `decrypt` throws. */
  function Message(e: DecryptError): (m: string)
    ensures m == "Decryption failed" <==> e == DecryptionFailed
    ensures m == "Invalid input to decrypt function" <==> e == InvalidInput
  {
    match e
    case InvalidInput => "Invalid input to decrypt function"
    case DecryptionFailed => "Decryption failed"
  }

  /**
   * `decrypt(encryptedData, iv)`: a falsy argument is rejected before the
   * cipher is consulted; everything that goes wrong after that, including
   * a non-string argument that `Buffer.from` or `update` refuses, becomes
   * the single error 'Decryption failed'.
   */
  function Decrypt(encryptedData: JsValue, iv: JsValue, open: Decipher): (r: Result<string, DecryptError>)
    ensures r == Failure(InvalidInput) <==> !Truthy(encryptedData) || !Truthy(iv)
    ensures r.Success? <==>
      Truthy(encryptedData) && Truthy(iv) && encryptedData.Str? && iv.Str? && open(encryptedData.s, iv.s).Some?
    ensures r.Success? ==> r.value == open(encryptedData.s, iv.s).value
    ensures r.Failure? && Truthy(encryptedData) && Truthy(iv) ==> r.error == DecryptionFailed
  {
    if !Truthy(encryptedData) || !Truthy(iv) then Failure(InvalidInput)
    else if !encryptedData.Str? || !iv.Str? then Failure(DecryptionFailed)
    else match open(encryptedData.s, iv.s)
      case Some(plain) => Success(plain)
      case None => Failure(DecryptionFailed)
  }

  /** The guard runs before any cipher work: a rejected input gives the same error whatever the cipher. */
  lemma DecryptGuardIgnoresCipher(encryptedData: JsValue, iv: JsValue, open1: Decipher, open2: Decipher)
    requires !Truthy(encryptedData) || !Truthy(iv)
    ensures Decrypt(encryptedData, iv, open1) == Decrypt(encryptedData, iv, open2) == Failure(InvalidInput)
  {
  }

  /** An empty string is rejected by the guard, whichever of the two arguments it is. */
  lemma DecryptRejectsEmpty(data: string, ivHex: string, open: Decipher)
    requires data == "" || ivHex == ""
    ensures Decrypt(Str(data), Str(ivHex), open) == Failure(InvalidInput)
    ensures Message(Decrypt(Str(data), Str(ivHex), open).error) == "Invalid input to decrypt function"
  {
  }
}
