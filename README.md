# End-to-end metadata codec

A model of `NCEndToEndMetadata` from the Nextcloud iOS client. This is the
codec that turns a directory's per-file encryption records into the JSON
end-to-end metadata document, and turns such a document back into records.

The document has two parts:

- `files`: one entry per file-name identifier. Each entry holds the file's
  IV and authentication tag, the number of the key slot it uses, and its
  attributes (key, file name, MIME type, version). The attributes are
  encrypted with the metadata key.
- `metadata`: the key slots and a version. A slot holds the metadata key,
  base64-encoded twice, encrypted with the private key, then base64-encoded.

Encoding writes the raw metadata key as the directory's key. Decoding works
in this order:

1. delete the account's records for the directory;
2. parse the document;
3. unwrap every slot, writing the key of the highest-numbered slot as the
   directory's key;
4. decrypt every entry and write a record for each one that matches local
   file metadata.

Modules:

- `Common`: an option type, bytes, and Swift's `Int(String)` and `"\(n)"` on
  64-bit integers.
- `Crypto`: the foreign primitives: base64, UTF-8, and asymmetric and
  symmetric encryption. They are function-valued fields. `Lawful()` states
  their inverse laws.
- `E2eDocument`: the document's structs, and the JSON encoder/decoder with
  its round-trip law.
- `Database`: the part of `NCManageDatabase` that the codec uses, as a class
  `ManageDatabase`:
  - the record table and the directory keys, which the methods update in
    place;
  - the local file metadata, the directories that can take a key, and which
    record writes are accepted. These stay fixed during a call.
- `MetadataSpec`: what encoding and decoding compute, as functions, and the
  properties proved about them. These include the round trip: decoding an
  encoding gives back the raw key, each file's attributes, and records with
  the original parameters.
- `EndToEndMetadata`: `encoderMetadata` and `decoderMetadata` as methods with
  loops over the records, slots and entries, each proved against
  `MetadataSpec`.

Swift dictionaries are iterated in an unspecified order, so every loop over
a dictionary picks an arbitrary remaining key. Each contract holds for every
order.

Two behaviours of the code that a caller may not expect:

- `decoderMetadata` deletes the records before it parses the text
  (`iOSClient/Security/NCEndToEndMetadata.swift:152` comes before `:156`).
  Text that does not parse still leaves the directory without records.
  `DecoderMetadata` states this.
- The document's version is the last record's, not the largest
  (`VersionIsNotMaximum`).

## Model

| member | source | states |
|---|---|---|
| Common.ParseDecimalString | iOSClient/Security/NCEndToEndMetadata.swift:199 | `Int("\(n)")` gives back `n` for every 64-bit `n`. An entry's slot reference therefore names the slot whose name parses to its number. |
| Common.LeadingZeroSameNumber | iOSClient/Security/NCEndToEndMetadata.swift:182 | Slot names "01" and "1" both parse to 1, so two slots can share a number. |
| Database.Kept | iOSClient/Security/NCEndToEndMetadata.swift:152 | The records left by the delete are exactly those outside the account and directory. There are no more of them than before. |
| Database.ManageDatabase.DeleteE2eEncryption | iOSClient/Security/NCEndToEndMetadata.swift:152 | The table becomes the kept records, in their order. |
| Database.ManageDatabase.SetDirectoryE2EMetadataKey | iOSClient/Security/NCEndToEndMetadata.swift:130 | Succeeds exactly for a known directory. Then that directory's key is replaced and nothing else changes. |
| Database.ManageDatabase.GetMetadata | iOSClient/Security/NCEndToEndMetadata.swift:209 | Finds a row exactly when local file metadata of that account and name exists. |
| Database.ManageDatabase.AddE2eEncryption | iOSClient/Security/NCEndToEndMetadata.swift:225 | Reports whether the write was accepted. An accepted record is appended; otherwise the table is unchanged. |
| MetadataSpec.EncodedFiles | iOSClient/Security/NCEndToEndMetadata.swift:94-119 | `files` holds exactly the records' identifiers. Each entry is the encoding of the last record with that identifier, because a later record overwrites an earlier one. |
| MetadataSpec.EncodeFilesFails | iOSClient/Security/NCEndToEndMetadata.swift:94-116 | Building `files` fails exactly when the encryption of some record's attributes fails. |
| MetadataSpec.EncodedMetadata | iOSClient/Security/NCEndToEndMetadata.swift:85-125 | Encoding fails exactly when wrapping the double-base64 key fails or an entry's encryption fails. On success the document has one slot "0" holding the base64 of the wrapped key and the last record's version. Each identifier's entry refers to slot 0, carries its record's IV and tag, and holds its attributes encrypted with the raw key. |
| MetadataSpec.VersionIsNotMaximum | iOSClient/Security/NCEndToEndMetadata.swift:118-122 | Records of versions 2 then 1 give a document of version 1. |
| MetadataSpec.MaxSlotNumber | iOSClient/Security/NCEndToEndMetadata.swift:182-184 | The running maximum of the slot numbers is at least its start, bounds every number, and is either the start or some slot's number. |
| MetadataSpec.LastSlotNumberUnique | iOSClient/Security/NCEndToEndMetadata.swift:161-191 | Any value that bounds every slot number and is -1 or a slot's number equals the final `lastMetadataKeysNum`. The maximum does not depend on iteration order. |
| MetadataSpec.UnwrapSlotsFrom | iOSClient/Security/NCEndToEndMetadata.swift:165-191 | When every slot unwraps, the dictionary holding exactly the UTF-8 raw keys, by slot name, is the decoded key dictionary. |
| MetadataSpec.UnwrapSlotsFails | iOSClient/Security/NCEndToEndMetadata.swift:167-173 | One slot whose outer base64 or asymmetric decryption fails makes the slot decoding fail. |
| MetadataSpec.HighestSlotWins | iOSClient/Security/NCEndToEndMetadata.swift:182-190 | With slots "0" and "1", the last slot number is 1 in either order, and slot "1" is the only slot with it. |
| MetadataSpec.DecodedRecordsAt | iOSClient/Security/NCEndToEndMetadata.swift:193-222 | An identifier gets a record exactly when its entry decrypts and parses and local file metadata of that name exists. The record carries the entry's IV and tag, the decrypted attributes, the account, the directory and the path `serverUrl/identifier`. |
| MetadataSpec.MissingSlotRejected | iOSClient/Security/NCEndToEndMetadata.swift:199-203 | An entry whose slot is missing, or whose slot's key is not UTF-8, is decrypted with a nil key rather than skipped or rejected. Decoding then succeeds only if the foreign decryption accepts a nil key for that entry. |
| MetadataSpec.UnmatchedEntryDropped | iOSClient/Security/NCEndToEndMetadata.swift:209-228 | An identifier without local file metadata gets no record, and no record carries it. |
| MetadataSpec.SlotRoundTrip | iOSClient/Security/NCEndToEndMetadata.swift:176-177 | Slot "0" as encoding writes it unwraps to the raw key: outer base64, asymmetric decryption, inner base64 and UTF-8 undo the double base64. Its number 0 is the last slot number. |
| MetadataSpec.EntryRoundTrip | iOSClient/Security/NCEndToEndMetadata.swift:199-207 | An entry that encoding writes for a record decrypts, with slot "0"'s key, to that record's attributes. |
| MetadataSpec.DecodeOfEncode | iOSClient/Security/NCEndToEndMetadata.swift:156-207 | Decoding a successful encoding's text with the same private key works as follows: the text parses back to the document, the force-unwraps cannot fail, and the slots unwrap to the raw key under "0". Every entry decrypts to the attributes of the last record with its identifier. |
| MetadataSpec.RecordsOfEncode | iOSClient/Security/NCEndToEndMetadata.swift:209-222 | Decoding an encoding gives records exactly for the encoded identifiers with local file metadata. Each record carries its source record's identifier, key, name, MIME type, version, IV and tag, plus the account, directory and path. |
| MetadataSpec.RoundTripSucceeds | iOSClient/Security/NCEndToEndMetadata.swift:146-242 | With a store that accepts the writes, decoding a successful encoding returns true. |
| EndToEndMetadata.EncoderMetadata | iOSClient/Security/NCEndToEndMetadata.swift:71-144 | The result is the JSON of the encoded document, built with the caller's key or else the generated one. It is nothing exactly when encoding fails or the directory key cannot be written. The directory key changes only on success, to the raw key, and the records are untouched. |
| EndToEndMetadata.UnwrapMetadataKey | iOSClient/Security/NCEndToEndMetadata.swift:165-177 | One slot's loop body reports failure exactly when outer base64 or asymmetric decryption fails. Otherwise it yields the slot's raw key, or nil when the key is not UTF-8. |
| EndToEndMetadata.UnwrapMetadataKeys | iOSClient/Security/NCEndToEndMetadata.swift:161-191 | The slot loop succeeds exactly when every slot unwraps and, if some slot number exceeds -1, the directory key can be written. On success the dictionary is the decoded key dictionary. The directory key is then that of a highest-numbered slot, or unchanged when none exceeds -1. |
| EndToEndMetadata.UnwrapNextSlot | iOSClient/Security/NCEndToEndMetadata.swift:165-190 | One slot iteration keeps the loop's invariant: the dictionary so far, the running maximum, and the directory key of the slot holding it. A failure is a slot that does not unwrap or a refused key write. |
| EndToEndMetadata.SlotStep | iOSClient/Security/NCEndToEndMetadata.swift:179-190 | A slot numbered above the running maximum has a UTF-8 key, and writing it keeps the invariant. A lower-numbered slot only joins the dictionary, or stays out of it when its key is nil. |
| EndToEndMetadata.StoreFileRecord | iOSClient/Security/NCEndToEndMetadata.swift:195-228 | One entry succeeds exactly when it decrypts and parses and, for a matched identifier, its record is accepted. A matched success appends exactly that record. |
| EndToEndMetadata.StoreNextRecord | iOSClient/Security/NCEndToEndMetadata.swift:193-228 | One file iteration keeps the loop's invariant. A failure is an entry that does not decode or a rejected expected record, and then only distinct expected records have been appended. |
| EndToEndMetadata.FilesStep | iOSClient/Security/NCEndToEndMetadata.swift:193-234 | Finishing one more entry keeps every expected record appended exactly once, once its entry is done. |
| EndToEndMetadata.StoreFileRecords | iOSClient/Security/NCEndToEndMetadata.swift:193-234 | The file loop only appends, and only decoded records, none of them twice. It succeeds exactly when every entry decodes and every decoded record is accepted. It then appends each of them exactly once. |
| EndToEndMetadata.AppendedAreExpected | iOSClient/Security/NCEndToEndMetadata.swift:211-227 | Every appended record is an expected one, and no record is appended twice, since each carries its own identifier. |
| EndToEndMetadata.ExpectedAreAppended | iOSClient/Security/NCEndToEndMetadata.swift:193-234 | Once all identifiers are done, as many records were appended as are expected, and each expected one is among them. |
| EndToEndMetadata.DecodeDocument | iOSClient/Security/NCEndToEndMetadata.swift:158-241 | A parsed document's records are appended after those present. The result is true exactly when the document decodes. The directory key ends as that of a highest-numbered slot, or as it was. |
| EndToEndMetadata.DecoderMetadata | iOSClient/Security/NCEndToEndMetadata.swift:146-242 | The kept records stay first, in order. Only records decoded from the document follow them, and on success all of them, once each. The result is true exactly when the text parses and its document decodes. Text that does not parse still deletes the records and leaves the directory key alone. |

## Left out

- Cryptography, base64, UTF-8 and JSON are parameters (`Crypto.Primitives`, `E2eDocument.JsonCodec`), not implementations. The round-trip lemmas assume only their inverse laws (`Lawful`).
- `generateKey(16)` is random. `EncoderMetadata` takes its 16 bytes as the parameter `generated`.
- `EncoderMetadata` treats the JSON encoder as total: `jsonEncoder.encode` throwing on these closed structs (lines 101, 134) is not modelled, nor is `String(data:encoding: .utf8)` of the encoder's bytes returning nil (line 102, and the force-unwrap at line 136). Only decoding can fail.
- The `sharing` field is always nil when written and never read when decoding, so `E2eDocument.E2eMetadata` leaves it out.
- The `print` calls, the `sharedInstance` singleton, and the unused `url` parameter of `decoderMetadata` are left out.
- Force-unwraps become preconditions (`SlotsDecodable`, `DecoderPrecondition`), stated so that no iteration order crashes:
  - `Int(key)!` (lines 182, 184) requires every slot name to parse;
  - `Data(base64Encoded:)!` (line 176) requires the inner base64 of every unwrapped slot to be valid;
  - `metadataKey!` (line 187) requires a slot whose key is not UTF-8 to have a negative number, since any slot may be visited first.
- The force-unwraps at lines 86, 156 and 207 apply to UTF-8 conversions of Swift strings, which do not fail, so the model has no case for them.
- `NCManageDatabase` is reduced to what the codec observes:
  - a record table that `addE2eEncryption` appends to;
  - a key per directory;
  - a fixed set of local file metadata and of directories that can take a key;
  - a fixed predicate of accepted writes.
  Realm transactions, primary keys and concurrent writers are not modelled.
