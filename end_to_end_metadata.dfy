/** `NCEndToEndMetadata`: encoding a directory's file encryption records into
    the end-to-end metadata document, and decoding such a document back into
    records, against the client's database. */
module EndToEndMetadata {
  import opened Common
  import opened Crypto
  import opened E2eDocument
  import opened Database
  import opened MetadataSpec

  /** `encoderMetadata`: the JSON text of the document for `records`, or
      nothing. `generated` stands for the 16 bytes `generateKey(16)` returns,
      used only when `metadataKey` is "". The raw key is written as the
      directory's key only once the whole document is built, and a failed
      write yields nothing. */
  method EncoderMetadata(db: ManageDatabase, c: Primitives, j: JsonCodec, records: seq<E2eRecord>,
                         privateKey: string, serverUrl: string, metadataKey: string, generated: seq<byte>)
    returns (json: Option<string>)
    requires |generated| == 16
    modifies db
    ensures var key := MetadataKeyFor(c, metadataKey, generated);
            var doc := EncodeMetadata(c, j, records, privateKey, key);
            && (json.Some? <==> doc.Some? && serverUrl in db.directories)
            && (json.Some? ==> json.value == j.encodeMetadata(doc.value))
            && db.directoryKeys == (if json.Some? then old(db.directoryKeys)[serverUrl := key] else old(db.directoryKeys))
    ensures db.records == old(db.records)
  {
    var keyGenerated: string;
    if metadataKey == "" {
      keyGenerated := c.base64(generated);
    } else {
      keyGenerated := metadataKey;
    }

    // double base64 before wrapping
    var key := c.base64(c.utf8(keyGenerated));
    var metadataKeyEncryptedData := c.encryptAsymmetric(key, privateKey);
    if metadataKeyEncryptedData.None? {
      return None;
    }
    var metadataKeyBase64 := c.base64(metadataKeyEncryptedData.value);

    var files: map<string, FilesCodable> := map[];
    var version := 1;
    var i := 0;
    while i < |records|
      invariant 0 <= i <= |records|
      invariant EncodeFiles(c, j, records[..i], keyGenerated) == Some(files)
      invariant version == LastVersion(records[..i])
    {
      var r := records[i];
      var encrypted := EncryptedFileAttributes(r.key, r.fileName, r.mimeType, r.version);
      var encryptedJsonString := j.encodeAttributes(encrypted);
      var encryptedEncryptedJson := c.encryptJson(encryptedJsonString, keyGenerated);
      assert records[..i + 1][..i] == records[..i];
      if encryptedEncryptedJson.None? {
        EncodeFilesFails(c, j, records, keyGenerated);
        return None;
      }
      var entry := FilesCodable(r.initializationVector, r.authenticationTag, 0, encryptedEncryptedJson.value);
      files := files[r.fileNameIdentifier := entry];
      version := r.version;
      i := i + 1;
    }
    assert records[..i] == records;

    var e2eMetadataKey := MetadataKeyCodable(map["0" := metadataKeyBase64], version);
    var e2emetadata := E2eMetadata(files, e2eMetadataKey);

    var written := db.SetDirectoryE2EMetadataKey(serverUrl, keyGenerated);
    if !written {
      return None;
    }
    json := Some(j.encodeMetadata(e2emetadata));
  }

  /** One pass of the slot loop: outer base64 and asymmetric decryption,
      either of which may fail, then the inner base64 and UTF-8 that undo
      the double base64; the key is nil when it is not UTF-8. */
  method UnwrapMetadataKey(c: Primitives, privateKey: string, wrapped: string) returns (unwrapped: bool, metadataKey: Option<string>)
    requires UnwrapSlot(c, privateKey, wrapped).Some? ==> c.unbase64(UnwrapSlot(c, privateKey, wrapped).value).Some?
    ensures unwrapped <==> UnwrapSlot(c, privateKey, wrapped).Some?
    ensures metadataKey == SlotKey(c, privateKey, wrapped)
  {
    var metadataKeyEncryptedData := c.unbase64(wrapped);
    if metadataKeyEncryptedData.None? {
      return false, None;
    }
    var metadataKeyBase64 := c.decryptAsymmetric(metadataKeyEncryptedData.value, privateKey);
    if metadataKeyBase64.None? {
      return false, None;
    }
    // `Data(base64Encoded:)!` at line 176; the precondition rules out nil
    var metadataKeyBase64Data := c.unbase64(metadataKeyBase64.value).value;
    metadataKey := c.fromUtf8(metadataKeyBase64Data);
    unwrapped := true;
  }

  /** The slot loop of `decoderMetadata`: unwraps every slot into
      `metadataKeysDictionary`, writing the directory key whenever a slot
      number exceeds every one seen so far; nothing as soon as a slot fails
      to unwrap or the write fails. */
  method UnwrapMetadataKeys(db: ManageDatabase, c: Primitives, slots: map<string, string>, privateKey: string, serverUrl: string)
    returns (keys: Option<map<string, string>>)
    requires SlotsDecodable(c, privateKey, slots)
    modifies db`directoryKeys
    ensures keys.Some? <==> UnwrapSlots(c, privateKey, slots).Some? && (LastSlotNumber(slots) >= 0 ==> serverUrl in db.directories)
    ensures keys.Some? ==> keys == UnwrapSlots(c, privateKey, slots)
    ensures keys.Some? ==> DirectoryKeyDecoded(c, privateKey, slots, serverUrl, old(db.directoryKeys), db.directoryKeys)
    ensures db.directoryKeys == old(db.directoryKeys)
         || exists k :: k in slots && SlotKey(c, privateKey, slots[k]).Some?
                        && db.directoryKeys == old(db.directoryKeys)[serverUrl := SlotKey(c, privateKey, slots[k]).value]
  {
    var lastMetadataKeysNum := -1;
    var metadataKeysDictionary: map<string, string> := map[];
    var pending := slots.Keys;
    ghost var best, bestKey := "", "";
    while pending != {}
      invariant SlotsProgress(c, privateKey, slots, serverUrl, db.directories, pending, metadataKeysDictionary,
                              lastMetadataKeysNum, best, bestKey, old(db.directoryKeys), db.directoryKeys)
      decreases pending
    {
      var slot :| slot in pending;
      var ok;
      ok, metadataKeysDictionary, lastMetadataKeysNum, best, bestKey :=
        UnwrapNextSlot(db, c, slots, privateKey, serverUrl, slot, pending, metadataKeysDictionary,
                       lastMetadataKeysNum, best, bestKey, old(db.directoryKeys));
      if !ok {
        return None;
      }
      pending := pending - {slot};
    }
    LastSlotNumberUnique(slots, lastMetadataKeysNum);
    UnwrapSlotsFrom(c, privateKey, slots, metadataKeysDictionary);
    keys := Some(metadataKeysDictionary);
  }

  /** The state of the slot loop once the slots outside `pending` are done:
      they all unwrapped; `dict` holds the raw keys of those whose key is
      UTF-8; `last` is the largest of their numbers, or -1; and when it
      exceeds -1 the directory key is that of `best`, a slot with that
      number, otherwise it is unchanged. */
  ghost predicate SlotsProgress(c: Primitives, privateKey: string, slots: map<string, string>, serverUrl: string,
                                directories: set<string>, pending: set<string>, dict: map<string, string>, last: int,
                                best: string, bestKey: string, before: map<string, string>, after: map<string, string>)
    requires SlotNamesParse(slots)
  {
    && pending <= slots.Keys
    && (forall k :: k in slots && k !in pending ==> UnwrapSlot(c, privateKey, slots[k]).Some? && SlotNumber(k) <= last)
    && (forall k :: k in dict <==> k in slots && k !in pending && SlotKey(c, privateKey, slots[k]).Some?)
    && (forall k :: k in dict ==> Some(dict[k]) == SlotKey(c, privateKey, slots[k]))
    && last >= -1
    && (last == -1 ==> after == before)
    && (last >= 0 ==>
          && best in slots && best !in pending && SlotNumber(best) == last
          && Some(bestKey) == SlotKey(c, privateKey, slots[best])
          && after == before[serverUrl := bestKey]
          && serverUrl in directories)
  }

  /** One iteration of the slot loop: unwrap the slot into the dictionary,
      and write its key as the directory's when its number exceeds the
      largest so far. On failure the slot did not unwrap or the write was
      refused, and the directory key is one of the slots' keys or as it was. */
  method UnwrapNextSlot(db: ManageDatabase, c: Primitives, slots: map<string, string>, privateKey: string, serverUrl: string,
                        slot: string, ghost pending: set<string>, dict: map<string, string>, last: int,
                        ghost best: string, ghost bestKey: string, ghost before: map<string, string>)
    returns (ok: bool, dict': map<string, string>, last': int, ghost best': string, ghost bestKey': string)
    requires SlotsDecodable(c, privateKey, slots)
    requires slot in pending
    requires SlotsProgress(c, privateKey, slots, serverUrl, db.directories, pending, dict, last, best, bestKey, before, db.directoryKeys)
    modifies db`directoryKeys
    ensures ok ==> SlotsProgress(c, privateKey, slots, serverUrl, db.directories, pending - {slot}, dict', last', best', bestKey',
                                 before, db.directoryKeys)
    ensures !ok ==> && (UnwrapSlots(c, privateKey, slots).None? || (LastSlotNumber(slots) >= 0 && serverUrl !in db.directories))
                    && (db.directoryKeys == before
                        || exists k :: k in slots && SlotKey(c, privateKey, slots[k]).Some?
                                       && db.directoryKeys == before[serverUrl := SlotKey(c, privateKey, slots[k]).value])
  {
    dict', last', best', bestKey' := dict, last, best, bestKey;
    var unwrapped, metadataKey := UnwrapMetadataKey(c, privateKey, slots[slot]);
    if !unwrapped {
      UnwrapSlotsFails(c, privateKey, slots, slot);
      return false, dict', last', best', bestKey';
    }
    // assigning nil to a dictionary entry removes it
    dict' := if metadataKey.Some? then dict[slot := metadataKey.value] else dict - {slot};

    var num := ParseInt(slot).value;
    SlotStep(c, privateKey, slots, serverUrl, db.directories, pending, dict, last, best, bestKey, before, db.directoryKeys,
             slot, metadataKey);
    if num > last {
      last' := num;
      // `metadataKey!` at line 187; a slot numbered above -1 has a UTF-8 key
      var written := db.SetDirectoryE2EMetadataKey(serverUrl, metadataKey.value);
      if !written {
        return false, dict', last', best', bestKey';
      }
      best', bestKey' := slot, metadataKey.value;
    }
    ok := true;
  }

  /** Unwrapping one more slot keeps the slot loop's state: with the
      directory key written when its number is a new maximum, unchanged
      otherwise. A new maximum has a UTF-8 key, and a write can only be
      refused while no slot has been written. */
  lemma SlotStep(c: Primitives, privateKey: string, slots: map<string, string>, serverUrl: string,
                 directories: set<string>, pending: set<string>, dict: map<string, string>, last: int,
                 best: string, bestKey: string, before: map<string, string>, after: map<string, string>,
                 slot: string, key: Option<string>)
    requires SlotsDecodable(c, privateKey, slots)
    requires SlotsProgress(c, privateKey, slots, serverUrl, directories, pending, dict, last, best, bestKey, before, after)
    requires slot in pending && UnwrapSlot(c, privateKey, slots[slot]).Some? && key == SlotKey(c, privateKey, slots[slot])
    ensures SlotNumber(slot) > last ==> key.Some?
    ensures SlotNumber(slot) > last && serverUrl in directories ==>
              SlotsProgress(c, privateKey, slots, serverUrl, directories, pending - {slot}, dict[slot := key.value],
                            SlotNumber(slot), slot, key.value, before, after[serverUrl := key.value])
    ensures SlotNumber(slot) > last && serverUrl !in directories ==>
              LastSlotNumber(slots) >= 0 && after == before
    ensures SlotNumber(slot) <= last ==>
              SlotsProgress(c, privateKey, slots, serverUrl, directories, pending - {slot},
                            if key.Some? then dict[slot := key.value] else dict - {slot}, last, best, bestKey, before, after)
  {
    if last >= 0 {
      assert best in slots && SlotKey(c, privateKey, slots[best]).Some?;
    }
  }

  /** One pass of the file loop: decrypt the entry with its slot's key (nil
      when the slot is missing) and parse the attributes, failing if either
      fails; then, only if local file metadata is named by the identifier,
      write the record, failing if the write is rejected. */
  method StoreFileRecord(db: ManageDatabase, c: Primitives, j: JsonCodec, keys: map<string, string>,
                         account: string, serverUrl: string, fileNameIdentifier: string, filesCodable: FilesCodable)
    returns (ok: bool)
    modifies db`records
    ensures var attributes := DecodeEntry(c, j, keys, filesCodable);
            var matched := (account, fileNameIdentifier) in db.localFiles;
            && (ok <==> attributes.Some? && (matched ==> db.acceptRecord(RecordFor(account, serverUrl, fileNameIdentifier, filesCodable, attributes.value))))
            && db.records == (if ok && matched then old(db.records) + [RecordFor(account, serverUrl, fileNameIdentifier, filesCodable, attributes.value)]
                              else old(db.records))
  {
    var key := if DecimalString(filesCodable.metadataKey) in keys then Some(keys[DecimalString(filesCodable.metadataKey)]) else None;
    var encryptedFileAttributesJson := c.decryptJson(filesCodable.encrypted, key);
    if encryptedFileAttributesJson.None? {
      return false;
    }
    var encryptedFileAttributes := j.decodeAttributes(encryptedFileAttributesJson.value);
    if encryptedFileAttributes.None? {
      return false;
    }
    var found := db.GetMetadata(account, fileNameIdentifier);
    if found {
      var attributes := encryptedFileAttributes.value;
      var record := E2eRecord(account, serverUrl, attributes.filename, fileNameIdentifier,
                              serverUrl + "/" + fileNameIdentifier, attributes.key,
                              filesCodable.initializationVector, filesCodable.authenticationTag,
                              attributes.mimetype, attributes.version);
      ok := db.AddE2eEncryption(record);
    } else {
      ok := true;
    }
  }

  /** The file loop of `decoderMetadata`: every entry is decoded and the
      records of the matched ones appended; false as soon as an entry fails
      or a write is rejected. */
  method StoreFileRecords(db: ManageDatabase, c: Primitives, j: JsonCodec, doc: E2eMetadata,
                          keys: map<string, string>, account: string, serverUrl: string, ghost expected: map<string, E2eRecord>)
    returns (ok: bool)
    requires forall id :: id in expected <==> id in doc.files && (account, id) in db.localFiles && DecodeEntry(c, j, keys, doc.files[id]).Some?
    requires forall id :: id in expected ==> expected[id] == RecordFor(account, serverUrl, id, doc.files[id], DecodeEntry(c, j, keys, doc.files[id]).value)
    modifies db`records
    ensures |old(db.records)| <= |db.records| && db.records[..|old(db.records)|] == old(db.records)
    ensures forall i :: |old(db.records)| <= i < |db.records| ==> db.records[i] in expected.Values
    ensures forall i, k :: |old(db.records)| <= i < k < |db.records| ==> db.records[i] != db.records[k]
    ensures ok <==> (forall id :: id in doc.files ==> DecodeEntry(c, j, keys, doc.files[id]).Some?)
                    && (forall id :: id in expected ==> db.acceptRecord(expected[id]))
    ensures ok ==> |db.records| == |old(db.records)| + |expected|
                   && forall r :: r in expected.Values ==> r in db.records[|old(db.records)|..]
  {
    ghost var base := db.records;
    ghost var added: seq<E2eRecord> := [];
    ghost var addedIds: seq<string> := [];
    var pending := doc.files.Keys;
    while pending != {}
      invariant FilesProgress(c, j, keys, doc, expected, db.acceptRecord, pending, added, addedIds)
      invariant db.records == base + added
      decreases pending
    {
      var fileNameIdentifier :| fileNameIdentifier in pending;
      var stored;
      stored, added, addedIds := StoreNextRecord(db, c, j, doc, keys, account, serverUrl, expected,
                                                 fileNameIdentifier, base, pending, added, addedIds);
      if !stored {
        return false;
      }
      pending := pending - {fileNameIdentifier};
    }
    AppendedAreExpected(base, added, addedIds, expected);
    ExpectedAreAppended(base, added, addedIds, expected);
    ok := true;
  }

  /** One iteration of the file loop, with the ghost account of what has
      been appended: on success the loop's state holds for the entries left;
      on failure the entry did not decode or its record was rejected, and
      the records appended so far are distinct expected ones. */
  method StoreNextRecord(db: ManageDatabase, c: Primitives, j: JsonCodec, doc: E2eMetadata,
                         keys: map<string, string>, account: string, serverUrl: string, ghost expected: map<string, E2eRecord>,
                         fileNameIdentifier: string, ghost base: seq<E2eRecord>, ghost pending: set<string>,
                         ghost added: seq<E2eRecord>, ghost addedIds: seq<string>)
    returns (stored: bool, ghost added': seq<E2eRecord>, ghost addedIds': seq<string>)
    requires fileNameIdentifier in pending
    requires fileNameIdentifier in expected <==>
               fileNameIdentifier in doc.files && (account, fileNameIdentifier) in db.localFiles
               && DecodeEntry(c, j, keys, doc.files[fileNameIdentifier]).Some?
    requires fileNameIdentifier in expected ==>
               expected[fileNameIdentifier] == RecordFor(account, serverUrl, fileNameIdentifier, doc.files[fileNameIdentifier],
                                                         DecodeEntry(c, j, keys, doc.files[fileNameIdentifier]).value)
    requires forall id :: id in expected ==> expected[id].fileNameIdentifier == id
    requires FilesProgress(c, j, keys, doc, expected, db.acceptRecord, pending, added, addedIds)
    requires db.records == base + added
    modifies db`records
    ensures stored ==> FilesProgress(c, j, keys, doc, expected, db.acceptRecord, pending - {fileNameIdentifier}, added', addedIds')
                       && db.records == base + added'
    ensures !stored ==> && (DecodeEntry(c, j, keys, doc.files[fileNameIdentifier]).None?
                            || (fileNameIdentifier in expected && !db.acceptRecord(expected[fileNameIdentifier])))
                        && db.records == old(db.records)
                        && (forall i :: |base| <= i < |db.records| ==> db.records[i] in expected.Values)
                        && forall i, k :: |base| <= i < k < |db.records| ==> db.records[i] != db.records[k]
  {
    added', addedIds' := added, addedIds;
    stored := StoreFileRecord(db, c, j, keys, account, serverUrl, fileNameIdentifier, doc.files[fileNameIdentifier]);
    if !stored {
      AppendedAreExpected(base, added, addedIds, expected);
      return;
    }
    FilesStep(c, j, keys, doc, expected, db.acceptRecord, pending, added, addedIds, fileNameIdentifier);
    if fileNameIdentifier in expected {
      added', addedIds' := added + [expected[fileNameIdentifier]], addedIds + [fileNameIdentifier];
    }
  }

  /** The state of the file loop once the entries outside `pending` are
      done: they all decoded, the expected records among them were accepted
      and appended, each once, as `added`. */
  ghost predicate FilesProgress(c: Primitives, j: JsonCodec, keys: map<string, string>, doc: E2eMetadata,
                                expected: map<string, E2eRecord>, accept: E2eRecord -> bool,
                                pending: set<string>, added: seq<E2eRecord>, addedIds: seq<string>)
  {
    && pending <= doc.files.Keys
    && (forall id :: id in doc.files && id !in pending ==> DecodeEntry(c, j, keys, doc.files[id]).Some?)
    && (forall id :: id in expected && id !in pending ==> accept(expected[id]))
    && |added| == |addedIds|
    && (forall i :: 0 <= i < |addedIds| ==> addedIds[i] in expected && added[i] == expected[addedIds[i]])
    && (forall id :: id in addedIds <==> id in expected && id !in pending)
    && (forall i, k :: 0 <= i < k < |addedIds| ==> addedIds[i] != addedIds[k])
  }

  /** Finishing one more entry that decodes, and whose record, if expected,
      is accepted and appended, keeps the file loop's state. */
  lemma FilesStep(c: Primitives, j: JsonCodec, keys: map<string, string>, doc: E2eMetadata,
                  expected: map<string, E2eRecord>, accept: E2eRecord -> bool,
                  pending: set<string>, added: seq<E2eRecord>, addedIds: seq<string>, id: string)
    requires FilesProgress(c, j, keys, doc, expected, accept, pending, added, addedIds)
    requires id in pending
    requires DecodeEntry(c, j, keys, doc.files[id]).Some?
    requires id in expected ==> accept(expected[id])
    ensures id in expected ==>
              FilesProgress(c, j, keys, doc, expected, accept, pending - {id}, added + [expected[id]], addedIds + [id])
    ensures id !in expected ==>
              FilesProgress(c, j, keys, doc, expected, accept, pending - {id}, added, addedIds)
  {
  }

  /** Every record appended so far is an expected one, and none twice, since
      each expected record carries its own identifier. */
  lemma AppendedAreExpected(base: seq<E2eRecord>, added: seq<E2eRecord>, addedIds: seq<string>, expected: map<string, E2eRecord>)
    requires |added| == |addedIds|
    requires forall i :: 0 <= i < |addedIds| ==> addedIds[i] in expected && added[i] == expected[addedIds[i]]
    requires forall i, k :: 0 <= i < k < |addedIds| ==> addedIds[i] != addedIds[k]
    requires forall id :: id in expected ==> expected[id].fileNameIdentifier == id
    ensures forall i :: |base| <= i < |base + added| ==> (base + added)[i] in expected.Values
    ensures forall i, k :: |base| <= i < k < |base + added| ==> (base + added)[i] != (base + added)[k]
  {
    forall i | |base| <= i < |base + added|
      ensures (base + added)[i] in expected.Values
    {
      assert (base + added)[i] == added[i - |base|];
      assert addedIds[i - |base|] in expected;
    }
    forall i, k | |base| <= i < k < |base + added|
      ensures (base + added)[i] != (base + added)[k]
    {
      assert (base + added)[i].fileNameIdentifier == addedIds[i - |base|];
      assert (base + added)[k].fileNameIdentifier == addedIds[k - |base|];
    }
  }

  /** Once every expected identifier has been appended, every expected
      record is among the appended ones and there are as many of them. */
  lemma ExpectedAreAppended(base: seq<E2eRecord>, added: seq<E2eRecord>, addedIds: seq<string>, expected: map<string, E2eRecord>)
    requires |added| == |addedIds|
    requires forall i :: 0 <= i < |addedIds| ==> addedIds[i] in expected && added[i] == expected[addedIds[i]]
    requires forall id :: id in addedIds <==> id in expected
    requires forall i, k :: 0 <= i < k < |addedIds| ==> addedIds[i] != addedIds[k]
    ensures |base + added| == |base| + |expected|
    ensures forall r :: r in expected.Values ==> r in (base + added)[|base|..]
  {
    DistinctLength(addedIds, expected.Keys);
    assert (base + added)[|base|..] == added;
    forall r | r in expected.Values
      ensures r in added
    {
      var id :| id in expected && expected[id] == r;
      var i :| 0 <= i < |addedIds| && addedIds[i] == id;
      assert added[i] == r;
    }
  }

  /** A sequence without repetitions holding exactly the elements of a set
      is as long as the set is large. */
  lemma {:induction false} DistinctLength<T>(s: seq<T>, elements: set<T>)
    requires forall i, k :: 0 <= i < k < |s| ==> s[i] != s[k]
    requires forall x :: x in s <==> x in elements
    ensures |s| == |elements|
  {
    if s != [] {
      var rest := elements - {s[0]};
      forall x
        ensures x in s[1..] <==> x in rest
      {
        if x in s[1..] {
          var k :| 0 <= k < |s[1..]| && s[1..][k] == x;
          assert s[k + 1] == x;
        }
      }
      DistinctLength(s[1..], rest);
    }
  }

  /** `decoderMetadata`: deletes the account's records of the directory,
      then parses the text, unwraps the key slots and writes the records of
      the matched entries. Returns false on the first failure, keeping what
      was already written: the deletion is never undone, and the directory
      key written by the slot loop stays when the file loop fails. */
  method DecoderMetadata(db: ManageDatabase, c: Primitives, j: JsonCodec, e2eMetaDataJSON: string,
                         privateKey: string, serverUrl: string, account: string)
    returns (ok: bool)
    requires DecoderPrecondition(c, j, e2eMetaDataJSON, privateKey)
    modifies db
    ensures var kept := Kept(old(db.records), account, serverUrl);
            var expected := match j.decodeMetadata(e2eMetaDataJSON)
                            case None => map[]
                            case Some(doc) => DecodedRecords(c, j, privateKey, doc, account, serverUrl, db.localFiles);
            && |kept| <= |db.records|
            && db.records[..|kept|] == kept
            && (forall i :: |kept| <= i < |db.records| ==> db.records[i] in expected.Values)
            && (forall i, k :: |kept| <= i < k < |db.records| ==> db.records[i] != db.records[k])
            && (ok ==> |db.records| == |kept| + |expected|
                       && forall r :: r in expected.Values ==> r in db.records[|kept|..])
    ensures ok <==> DecodeSucceeds(c, j, e2eMetaDataJSON, privateKey, account, serverUrl, db)
    ensures j.decodeMetadata(e2eMetaDataJSON).None? ==>
              db.records == Kept(old(db.records), account, serverUrl) && db.directoryKeys == old(db.directoryKeys)
    ensures match j.decodeMetadata(e2eMetaDataJSON)
            case None => true
            case Some(doc) =>
              UnwrapSlots(c, privateKey, doc.metadata.metadataKeys).Some?
              && (LastSlotNumber(doc.metadata.metadataKeys) >= 0 ==> serverUrl in db.directories) ==>
                DirectoryKeyDecoded(c, privateKey, doc.metadata.metadataKeys, serverUrl, old(db.directoryKeys), db.directoryKeys)
    ensures db.directoryKeys == old(db.directoryKeys)
         || exists k :: var slots := j.decodeMetadata(e2eMetaDataJSON).value.metadata.metadataKeys;
                        && k in slots && SlotKey(c, privateKey, slots[k]).Some?
                        && db.directoryKeys == old(db.directoryKeys)[serverUrl := SlotKey(c, privateKey, slots[k]).value]
  {
    db.DeleteE2eEncryption(account, serverUrl);

    var decode := j.decodeMetadata(e2eMetaDataJSON);
    if decode.None? {
      return false;
    }
    ok := DecodeDocument(db, c, j, decode.value, privateKey, serverUrl, account);
  }

  /** `decoderMetadata` once the text has parsed to `doc`: unwraps the key
      slots, then writes the records of the matched entries after the
      records already present. The directory key written by the slot loop
      stays whatever the file loop does. */
  method DecodeDocument(db: ManageDatabase, c: Primitives, j: JsonCodec, doc: E2eMetadata,
                        privateKey: string, serverUrl: string, account: string)
    returns (ok: bool)
    requires SlotsDecodable(c, privateKey, doc.metadata.metadataKeys)
    modifies db`records, db`directoryKeys
    ensures var expected := DecodedRecords(c, j, privateKey, doc, account, serverUrl, db.localFiles);
            && |old(db.records)| <= |db.records|
            && db.records[..|old(db.records)|] == old(db.records)
            && (forall i :: |old(db.records)| <= i < |db.records| ==> db.records[i] in expected.Values)
            && (forall i, k :: |old(db.records)| <= i < k < |db.records| ==> db.records[i] != db.records[k])
            && (ok ==> |db.records| == |old(db.records)| + |expected|
                       && forall r :: r in expected.Values ==> r in db.records[|old(db.records)|..])
    ensures ok <==> DocumentDecodes(c, j, privateKey, doc, account, serverUrl, db)
    ensures UnwrapSlots(c, privateKey, doc.metadata.metadataKeys).Some?
            && (LastSlotNumber(doc.metadata.metadataKeys) >= 0 ==> serverUrl in db.directories) ==>
              DirectoryKeyDecoded(c, privateKey, doc.metadata.metadataKeys, serverUrl, old(db.directoryKeys), db.directoryKeys)
    ensures db.directoryKeys == old(db.directoryKeys)
         || exists k :: k in doc.metadata.metadataKeys && SlotKey(c, privateKey, doc.metadata.metadataKeys[k]).Some?
                        && db.directoryKeys == old(db.directoryKeys)[serverUrl := SlotKey(c, privateKey, doc.metadata.metadataKeys[k]).value]
  {
    var metadataKeysDictionary := UnwrapMetadataKeys(db, c, doc.metadata.metadataKeys, privateKey, serverUrl);
    if metadataKeysDictionary.None? {
      return false;
    }

    ghost var expected := DecodedRecords(c, j, privateKey, doc, account, serverUrl, db.localFiles);
    forall id {
      DecodedRecordsAt(c, j, privateKey, doc, account, serverUrl, db.localFiles, metadataKeysDictionary.value, id);
    }
    ok := StoreFileRecords(db, c, j, doc, metadataKeysDictionary.value, account, serverUrl, expected);
  }
}
