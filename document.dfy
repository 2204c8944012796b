/** The end-to-end metadata document, field for field as it travels in JSON,
    and the JSON encoder and decoder the codec uses for it. */
module E2eDocument {
  import opened Common

  /** `metadata`: the wrapped metadata keys by slot name, and the version. */
  datatype MetadataKeyCodable = MetadataKeyCodable(metadataKeys: map<string, string>, version: int)

  /** The plaintext of a file entry's `encrypted` field. */
  datatype EncryptedFileAttributes = EncryptedFileAttributes(key: string, filename: string, mimetype: string, version: int)

  /** One entry of `files`: `metadataKey` is the number of the slot whose key
      encrypts `encrypted`. */
  datatype FilesCodable = FilesCodable(initializationVector: string, authenticationTag: string, metadataKey: int, encrypted: string)

  /** The whole document; `files` is keyed by file-name identifier. */
  datatype E2eMetadata = E2eMetadata(files: map<string, FilesCodable>, metadata: MetadataKeyCodable)

  /** `JSONEncoder` and `JSONDecoder` on the two document shapes. Encoding
      these closed shapes does not fail; decoding fails on malformed text. */
  datatype JsonCodec = JsonCodec(
    encodeAttributes: EncryptedFileAttributes -> string,
    decodeAttributes: string -> Option<EncryptedFileAttributes>,
    encodeMetadata: E2eMetadata -> string,
    decodeMetadata: string -> Option<E2eMetadata>
  ) {

    /** Decoding reads back what encoding wrote. */
    ghost predicate Lawful() {
      && (forall a :: decodeAttributes(encodeAttributes(a)) == Some(a))
      && (forall d :: decodeMetadata(encodeMetadata(d)) == Some(d))
    }
  }
}
