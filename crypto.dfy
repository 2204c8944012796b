/** The foreign primitives the metadata codec calls: base64 and UTF-8 from
    Foundation, and the asymmetric and symmetric operations of the client's
    encryption manager. Nothing is assumed of them except, where a lemma asks
    for it, the inverse laws of `Lawful`. */
module Crypto {
  import opened Common

  datatype Primitives = Primitives(
    /** `Data.base64EncodedString()` */
    base64: seq<byte> -> string,
    /** `Data(base64Encoded:)` and `NSData(base64Encoded:)`: nil on malformed text */
    unbase64: string -> Option<seq<byte>>,
    /** `String.data(using: .utf8)`, which never fails for a Swift string */
    utf8: string -> seq<byte>,
    /** `String(data:encoding: .utf8)`: nil on bytes that are not UTF-8 */
    fromUtf8: seq<byte> -> Option<string>,
    /** `encryptAsymmetricString(_:publicKey: nil, privateKey:)` */
    encryptAsymmetric: (string, string) -> Option<seq<byte>>,
    /** `decryptAsymmetricData(_:privateKey:)` */
    decryptAsymmetric: (seq<byte>, string) -> Option<string>,
    /** `encryptEncryptedJson(_:key:)` */
    encryptJson: (string, string) -> Option<string>,
    /** `decryptEncryptedJson(_:key:)`, whose key may be nil */
    decryptJson: (string, Option<string>) -> Option<string>
  ) {

    /** The inverse laws: each decoding undoes its encoding, and what the
        asymmetric and symmetric encryptions produce decrypts back under the
        same key. Nothing is assumed of decryption with a nil key. */
    ghost predicate Lawful() {
      && (forall b :: unbase64(base64(b)) == Some(b))
      && (forall s :: fromUtf8(utf8(s)) == Some(s))
      && (forall plain, privateKey :: encryptAsymmetric(plain, privateKey).Some? ==>
            decryptAsymmetric(encryptAsymmetric(plain, privateKey).value, privateKey) == Some(plain))
      && (forall plain, key :: encryptJson(plain, key).Some? ==>
            decryptJson(encryptJson(plain, key).value, Some(key)) == Some(plain))
    }
  }
}
