/** The observable part of the client's database that the metadata codec
    touches: the per-file encryption records, the current metadata key of
    each directory, and the local file metadata looked up by name. */
module Database {

  /** A row of `tableE2eEncryption`: one file's decryption parameters. */
  datatype E2eRecord = E2eRecord(
    account: string,
    serverUrl: string,
    fileName: string,
    fileNameIdentifier: string,
    fileNameIdentifierPath: string,
    key: string,
    initializationVector: string,
    authenticationTag: string,
    mimeType: string,
    version: int)

  /** The predicate `account = %@ AND serverUrl = %@` of the delete. */
  predicate InScope(r: E2eRecord, account: string, serverUrl: string) {
    r.account == account && r.serverUrl == serverUrl
  }

  /** The records that survive deleting those of one account and directory,
      in their original order. */
  function Kept(rs: seq<E2eRecord>, account: string, serverUrl: string): (ks: seq<E2eRecord>)
    ensures |ks| <= |rs|
    ensures forall r :: r in ks <==> r in rs && !InScope(r, account, serverUrl)
  {
    if rs == [] then []
    else
      assert forall r :: r in rs <==> r == rs[0] || r in rs[1..];
      (if InScope(rs[0], account, serverUrl) then [] else [rs[0]]) + Kept(rs[1..], account, serverUrl)
  }

  class ManageDatabase {
    /** The table of per-file encryption records. */
    var records: seq<E2eRecord>
    /** The current metadata key of each directory, by server URL. */
    var directoryKeys: map<string, string>
    /** (account, fileName) of every local file metadata row. */
    const localFiles: set<(string, string)>
    /** Server URLs of the directory rows; a directory key can only be
        written for one of these. */
    const directories: set<string>
    /** Which records a write accepts; a rejected write reports failure. */
    const acceptRecord: E2eRecord -> bool

    constructor (records: seq<E2eRecord>, directoryKeys: map<string, string>, localFiles: set<(string, string)>,
                 directories: set<string>, acceptRecord: E2eRecord -> bool)
      ensures this.records == records && this.directoryKeys == directoryKeys
      ensures this.localFiles == localFiles && this.directories == directories && this.acceptRecord == acceptRecord
    {
      this.records := records;
      this.directoryKeys := directoryKeys;
      this.localFiles := localFiles;
      this.directories := directories;
      this.acceptRecord := acceptRecord;
    }

    /** `deleteE2eEncryption(predicate:)` with the account and directory predicate. */
    method DeleteE2eEncryption(account: string, serverUrl: string)
      modifies this`records
      ensures records == Kept(old(records), account, serverUrl)
    {
      records := Kept(records, account, serverUrl);
    }

    /** `setDirectoryE2EMetadataKey(serverUrl:metadataKey:)` */
    method SetDirectoryE2EMetadataKey(serverUrl: string, metadataKey: string) returns (ok: bool)
      modifies this`directoryKeys
      ensures ok <==> serverUrl in directories
      ensures directoryKeys == if ok then old(directoryKeys)[serverUrl := metadataKey] else old(directoryKeys)
    {
      ok := serverUrl in directories;
      if ok {
        directoryKeys := directoryKeys[serverUrl := metadataKey];
      }
    }

    /** `getMetadata(predicate:) != nil` with the predicate `account = %@ AND fileName = %@`. */
    method GetMetadata(account: string, fileName: string) returns (found: bool)
      ensures found <==> (account, fileName) in localFiles
    {
      found := (account, fileName) in localFiles;
    }

    /** `addE2eEncryption(_:)` */
    method AddE2eEncryption(r: E2eRecord) returns (ok: bool)
      modifies this`records
      ensures ok == acceptRecord(r)
      ensures records == if ok then old(records) + [r] else old(records)
    {
      ok := acceptRecord(r);
      if ok {
        records := records + [r];
      }
    }
  }
}
