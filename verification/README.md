# Verified models of the runtime bundle and the knowledge base

Dafny models of the parts of the Tandem agents repository whose correctness
is easiest to get wrong, with proofs of what they promise.

- **Encrypted backups** (`BackupArchive`, `BackupDecrypt`, `BackupStream`,
  `BackupInventory`, `BackupSource`, `BackupVerify`, `BackupExport`,
  `BackupRecovery`): the chunked AES-GCM writer and its streaming reader, the
  ordered inventory of a host, the verifier of inventory and tar streams, the
  protocol that publishes the manifest last, and the recovery of what it
  committed. AES-GCM is a pair of functions that decrypt only
  what was encrypted, SHA-256 a function whose collisions are named where they
  matter, and the tar library a pair of functions that find the written members
  again.
- **Knowledge base** (`Paths`, `Text`, `KbPaths`, `KbStorage`, `KbIndexer`,
  `KbDocuments`): slugs and document ids, the chunker, and the SQL tables of the
  index as maps, with every operation that changes them.
- **Provisioning and keys** (`Prepare`, `Keyring`): provisioning as a sequence of
  durable effects that may stop after any one of them, and the rotation of the
  context keyring under its lock.
- **Checksums** (`Crc32c`): the bitwise CRC32C loop against division of
  polynomials over GF(2).
- **Smaller lookups and stores** (`ArtifactStore`, `TaskContract`, `MountRoots`).

Classes carry the fields the source updates. Their methods equate the new state
with a function of the old one, and the lemmas are about those functions.
Exceptions and error returns are `Result`, `Option` or an outcome value.
`Bytes`, `Sequences` and `Crypto` hold the shared vocabulary.

Where the code falls short of what one would expect of it, the model keeps the
code's behaviour and a lemma says exactly when the expectation holds:

- the exporter records modes above 0o777 and names with a backslash, and copies
  a write-ahead log, all of which the verifier refuses
  (`BackupVerify.ExportedInventoryPasses`, `BackupVerify.SetgidDirectoryRefused`);
- a body of headings alone is one chunk of any length
  (`KbStorage.LengthBound`, `KbStorage.HeadingsExceedLimit`);
- a sync keeps a row whose file has become a directory or an unsupported file
  (`KbIndexer.SyncedIds`, `KbIndexer.DirectoryKeepsRow`);
- a sync is not idempotent when two files give one document different texts
  (`KbIndexer.SecondSync`), and such a sibling can undo a written document
  (`KbDocuments.WriteThenGet`);
- a document is written with its carriage returns and read back without them
  (`KbDocuments.WriteThenGet`, `KbDocuments.CarriageReturnLost`);
- a write that runs out of space truncates the document's file, which the next
  sync then indexes (`KbDocuments.CutWriteIsSynced`);
- an object whose first write was cut short is never repaired, and is what a
  restore then writes (`ArtifactStore.AddressedIff`, `ArtifactStore.CutShortStays`,
  `ArtifactStore.RestoreGivesLast`);
- a manifest damaged on its way is stored and refused only afterwards
  (`BackupExport.BackedIff`, `BackupExport.ManifestCanBeDamaged`);
- the bundle builders take a path with two leading slashes for another directory,
  which provisioning then refuses (`MountRoots.BuiltRefusedOnlyForSlashes`,
  `MountRoots.DoubleSlashBuilt`);
- links are sound but not complete (`KbIndexer.ReindexDropsBacklinks`);
- a host can be provisioned with workload mounts inside one another, or with the
  audit anchor inside the installation tree, which the backup export then refuses
  (`MountRoots.BackupNeedsWorkloadsApart`).

## Model

| member | source | states |
|---|---|---|
| `BackupArchive.ImageStable` | packages/runtime-bundle/tandem_runtime_bundle/backup_archive.py:217-226 | Records already written are the same whatever is written after them. |
| `BackupArchive.ImageLength` | packages/runtime-bundle/tandem_runtime_bundle/backup_archive.py:206-226 | Record k starts at offset 21 + 20k + min(k * 2^20, n): every record before the last is full. |
| `BackupArchive.SealedSize` | packages/runtime-bundle/tandem_runtime_bundle/backup_archive.py:228-234 | For n plaintext bytes the reported size is 21 + n + 20 * ceil(n / 2^20) and the chunk count ceil(n / 2^20), a function of n alone. |
| `BackupArchive.WireFormat` | packages/runtime-bundle/tandem_runtime_bundle/backup_archive.py:217-226 | The object byte for byte: the magic, then record k at 21 + k(2^20 + 20), its length in four bytes with the highest first, and the encryption of the k-th 2^20 plaintext bytes under prefix and k, authenticated with context and k. |
| `BackupArchive.EncryptingWriter.FlushChunk` | packages/runtime-bundle/tandem_runtime_bundle/backup_archive.py:217-226 | Emits exactly the next record of the sealed object; raises iff 2^32 records are out. |
| `BackupArchive.EncryptingWriter.Write` | packages/runtime-bundle/tandem_runtime_bundle/backup_archive.py:211-215 | Any split into writes keeps the output at the full records of everything written; raises iff a record numbered 2^32 would be needed, and still loses nothing. |
| `BackupArchive.EncryptingWriter.Finish` | packages/runtime-bundle/tandem_runtime_bundle/backup_archive.py:228-234 | Output and metadata are those of the whole plaintext, however it was split; raises iff more than 2^32 chunks are needed. |
| `BackupDecrypt.UntamperedRecord` | packages/runtime-bundle/tandem_runtime_bundle/backup_decrypt.py:58-83 | At its own offset, record k of an untampered object is read, opened and accepted as plaintext chunk k. |
| `BackupDecrypt.RecordTest` | packages/runtime-bundle/tandem_runtime_bundle/backup_decrypt.py:71-83 | The bytes at an offset are taken as record i iff their length field is 17 to 2^20 + 16, the file holds them, they open under prefix and i with context and i to 1 to 2^20 bytes, and to exactly 2^20 unless i is the last. |
| `BackupDecrypt.DecryptingReader.Open` | packages/runtime-bundle/tandem_runtime_bundle/backup_decrypt.py:12-45 | Opening succeeds iff the key has 32 bytes, the metadata name at least one chunk and an 8-byte prefix with the domain byte first, and the file has the stated size and the magic. |
| `BackupDecrypt.DecryptingReader.ReadExact` | packages/runtime-bundle/tandem_runtime_bundle/backup_decrypt.py:50-56 | Digest and offset advance over what is there, also when the file is short and the call raises. |
| `BackupDecrypt.DecryptingReader.CheckEnd` | packages/runtime-bundle/tandem_runtime_bundle/backup_decrypt.py:59-70 | The end is accepted iff nothing is left, nothing was skipped, and size and digest are the sealed ones. |
| `BackupDecrypt.DecryptingReader.ReadRecord` | packages/runtime-bundle/tandem_runtime_bundle/backup_decrypt.py:71-74 | Reads a record iff its length field is within 17 and 2^20 + 16 and the file holds it. |
| `BackupDecrypt.DecryptingReader.NextChunk` | packages/runtime-bundle/tandem_runtime_bundle/backup_decrypt.py:58-83 | One more authenticated chunk of the right length, or the verified end; a raise changes neither index, buffer nor finished state. |
| `BackupDecrypt.DecryptingReader.NextChunkInStep` | packages/runtime-bundle/tandem_runtime_bundle/backup_decrypt.py:58-83 | On an untampered file the step never raises and stays on the record boundary. |
| `BackupDecrypt.DecryptingReader.Fill` | packages/runtime-bundle/tandem_runtime_bundle/backup_decrypt.py:88-89 | The loop ends with enough buffered or at the end of the object; never raises on an untampered file. |
| `BackupDecrypt.DecryptingReader.Read` | packages/runtime-bundle/tandem_runtime_bundle/backup_decrypt.py:85-92 | Returns exactly the next `count` plaintext bytes of an untampered file; on any file a short answer means finished and drained, and a raise loses nothing. |
| `BackupDecrypt.DecryptingReader.AllDelivered` | packages/runtime-bundle/tandem_runtime_bundle/backup_decrypt.py:58-99 | Whatever was returned is no longer than the plaintext, and a finished, drained reader has returned all of it. |
| `BackupDecrypt.DecryptingReader.Finish` | packages/runtime-bundle/tandem_runtime_bundle/backup_decrypt.py:94-99 | Succeeds only at the verified end with zero padding left; on an untampered file exactly when the unread rest is zero. |
| `BackupStream.LoggedNonce` | packages/runtime-bundle/tandem_runtime_bundle/backup_export.py:164-172 | Every nonce under the data key is 12 bytes: the domain byte names the object, the last four bytes the record. |
| `BackupStream.LoggedAad` | packages/runtime-bundle/tandem_runtime_bundle/backup_export.py:164-199 | What is encrypted for an object carries the object's own context followed by the last four bytes of the nonce, under the object's own domain byte and random bytes. |
| `BackupStream.NonceUniqueness` | packages/runtime-bundle/tandem_runtime_bundle/backup_export.py:164-172 | All encryptions under one data key (archive chunks, anchor chunks, manifest) use pairwise distinct nonces whatever the random bytes are. |
| `BackupStream.OpensOnlyAsWritten` | packages/runtime-bundle/tandem_runtime_bundle/backup_decrypt.py:75-83 | Under an unforgeable cipher record i of an object opens to chunk i of its own plaintext and to nothing else. |
| `BackupStream.OpensOnlyAtHome` | packages/runtime-bundle/tandem_runtime_bundle/backup_decrypt.py:75-77 | In an object's domain nothing opens under another prefix or another context than the object's own. |
| `BackupStream.ReadForeign` | packages/runtime-bundle/tandem_runtime_bundle/backup_decrypt.py:12-99 | A reader with the export's key and one of its domains, but another context or prefix than the object's, never returns a byte, whatever the file, the metadata and the reads. |
| `BackupStream.AcceptedIsPrefix` | packages/runtime-bundle/tandem_runtime_bundle/backup_decrypt.py:58-83 | Whatever the file holds, the accepted records are a prefix of the written plaintext, chunk by chunk. |
| `BackupStream.WriteObject` | packages/runtime-bundle/tandem_runtime_bundle/backup_archive.py:237-266 | For every split of a plaintext into writes the object and metadata are those of the plaintext; fails iff the material is invalid or the nonce space is exceeded. |
| `BackupStream.ExportIsUntampered` | packages/runtime-bundle/tandem_runtime_bundle/backup_archive.py:228-234 | What the writer produced is an untampered, openable object for the reader. |
| `BackupStream.RoundTrip` | packages/runtime-bundle/tandem_runtime_bundle/backup_decrypt.py:47-99 | Any split into writes, any sequence of bounded reads: read k returns the bytes following those already returned, together exactly the plaintext in order and then nothing; no read raises. |
| `BackupStream.PiecesInOrder` | packages/runtime-bundle/tandem_runtime_bundle/backup_decrypt.py:85-92 | The pieces of successive reads put together are the plaintext in order, as far as was asked for. |
| `BackupStream.ReadInTurn` | packages/runtime-bundle/tandem_runtime_bundle/backup_decrypt.py:85-92 | Call k of any sequence of bounded reads on an untampered file returns the bytes due to it. |
| `BackupStream.ReadAnyFile` | packages/runtime-bundle/tandem_runtime_bundle/backup_decrypt.py:58-99 | On an arbitrary file under the sealed metadata, with raised calls retried, the output is a prefix of the true plaintext, all of it once finished and drained, and finishing means the file is the sealed object or a SHA-256 collision. |
| `BackupStream.IdealSuiteExists` | packages/runtime-bundle/tandem_runtime_bundle/backup_decrypt.py:75-77 | The two hypotheses on the cipher can be met together. |
| `BackupInventory.Inventory.Visit` | packages/runtime-bundle/tandem_runtime_bundle/backup_archive.py:123-142 | The recursion over the shared list appends exactly the pre-order listing of the children; raises iff something below is a link, a special file or a file with several links. |
| `BackupInventory.Inventory.AddRoot` | packages/runtime-bundle/tandem_runtime_bundle/backup_archive.py:116-145 | Appends the pre-order inventory of a root; raises, keeping nothing of it, iff it is no directory or an irregular file lies below it. |
| `BackupInventory.Inventory.AddFile` | packages/runtime-bundle/tandem_runtime_bundle/backup_archive.py:148-150 | Appends the one entry of a configuration file; raises iff it is no regular file. |
| `BackupInventory.EntryAt` | packages/runtime-bundle/tandem_runtime_bundle/backup_archive.py:102-113 | Every node of a tree has its entry: its own archive and source path, exactly its metadata, and for a file the length and digest of its content. |
| `BackupInventory.EntryIsOf` | packages/runtime-bundle/tandem_runtime_bundle/backup_archive.py:116-145 | Every entry of a tree is that of one of its nodes. |
| `BackupInventory.RegularIff` | packages/runtime-bundle/tandem_runtime_bundle/backup_archive.py:123-142 | A tree is captured iff no file at any path below it is irregular. |
| `BackupInventory.TreesInOrder` | packages/runtime-bundle/tandem_runtime_bundle/backup_archive.py:132-142 | A directory's children are listed one whole tree after the other, in the order of the listing. |
| `BackupInventory.EntriesBelow` | packages/runtime-bundle/tandem_runtime_bundle/backup_archive.py:102-113 | Every entry of a root lies at or below the root's own archive path. |
| `BackupInventory.TreeUnique` | packages/runtime-bundle/tandem_runtime_bundle/backup_archive.py:116-145 | No archive path occurs twice in the inventory of a tree. |
| `BackupInventory.ParentsFirst` | packages/runtime-bundle/tandem_runtime_bundle/backup_archive.py:123-145 | Every entry but the root's has its parent directory's entry before it. |
| `BackupSource.CollectInventory` | packages/runtime-bundle/tandem_runtime_bundle/backup_source.py:175-194 | The inventory is the sections' inventories in order, each contiguous, with one record per root; raises iff some root is no directory, some configuration file is none, or anything captured is an irregular file. |
| `BackupSource.CollectedAt` | packages/runtime-bundle/tandem_runtime_bundle/backup_source.py:175-194 | The collected inventory has, for every node of every section, the entry with its archive path, source path, metadata, and a file's content length and digest. |
| `BackupSource.CollectedIsOf` | packages/runtime-bundle/tandem_runtime_bundle/backup_source.py:175-194 | It has no other entry. |
| `BackupSource.SectionsInOrder` | packages/runtime-bundle/tandem_runtime_bundle/backup_source.py:178-194 | The sections are listed one after the other. |
| `BackupSource.RootRecordsAre` | packages/runtime-bundle/tandem_runtime_bundle/backup_source.py:180-189 | Exactly the roots are recorded, each under its group with its own directory entry. |
| `BackupSource.SectionsUnique` | packages/runtime-bundle/tandem_runtime_bundle/backup_source.py:178-194 | No archive path occurs twice in a whole backup. |
| `BackupSource.InGroupBySplit` | packages/runtime-bundle/tandem_runtime_bundle/backup_export.py:214-215 | The name test decides exactly whether the first path component is the group. |
| `BackupSource.SelectIsSection` | packages/runtime-bundle/tandem_runtime_bundle/backup_export.py:214-215 | Selecting by name prefix yields exactly the root's own inventory, in order, and nothing of another root. |
| `BackupSource.SelectNone` | packages/runtime-bundle/tandem_runtime_bundle/backup_export.py:214-215 | A group without a section selects nothing. |
| `BackupVerify.CheckEntries` | packages/runtime-bundle/tandem_runtime_bundle/backup_verify.py:126-146 | The loop with its set-size test accepts exactly well-formed entries with pairwise different names. |
| `BackupVerify.CheckInventory` | packages/runtime-bundle/tandem_runtime_bundle/backup_verify.py:118-161 | Accepts exactly the complete v3 inventories; then no name has an empty, one-dot or two-dot component, a backslash or NUL. |
| `BackupVerify.InventoryTest` | packages/runtime-bundle/tandem_runtime_bundle/backup_verify.py:118-161 | The whole inventory test in plain terms: 1 to 200000 entries, safe names, modes to 0o777, absolute sources, 32-byte digests, no repeated name, one directory per root, every required name, no write-ahead log, an anchor file. |
| `BackupVerify.SafeNameParts` | packages/runtime-bundle/tandem_runtime_bundle/backup_verify.py:58-64 | For every string: a name is safe iff no component between its slashes is empty, one dot or two dots, and none has a backslash or NUL. |
| `BackupVerify.V3Configuration` | packages/runtime-bundle/tandem_runtime_bundle/backup_verify.py:149-151 | Each of the six configuration files is required under its own number. |
| `BackupVerify.V3Groups` | packages/runtime-bundle/tandem_runtime_bundle/backup_verify.py:121-122 | One root directory for each of the six security and nine workload roots. |
| `BackupVerify.V3IsValid` | packages/runtime-bundle/tandem_runtime_bundle/backup_verify.py:118-161 | The v3 names meet what the results below assume of a contract. |
| `BackupVerify.SafeJoin` | packages/runtime-bundle/tandem_runtime_bundle/backup_verify.py:58-64 | For the components of real directory entries a name is safe iff no component has a backslash or NUL. |
| `BackupVerify.EntriesOk` | packages/runtime-bundle/tandem_runtime_bundle/backup_verify.py:126-143 | The verifier passes every entry of a tree iff no name below it has a backslash or NUL and no mode exceeds 0o777. |
| `BackupVerify.SetgidDirectoryRefused` | packages/runtime-bundle/tandem_runtime_bundle/backup_archive.py:107-111 | A directory with the setgid bit is inventoried by the exporter and refused by the verifier. |
| `BackupVerify.HostHas` | packages/runtime-bundle/tandem_runtime_bundle/backup_archive.py:116-150 | A path is in the inventory iff the captured host has something there. |
| `BackupVerify.ExportedInventoryPasses` | packages/runtime-bundle/tandem_runtime_bundle/backup_verify.py:118-161 | The inventory of an initialized host passes the verifier iff every captured tree is portable and the replay database has no write-ahead log. |
| `BackupVerify.ReadMember` | packages/runtime-bundle/tandem_runtime_bundle/backup_verify.py:193-201 | The block loop returns the member's content, or raises iff a control file exceeds 8 MiB. |
| `BackupVerify.CheckMember` | packages/runtime-bundle/tandem_runtime_bundle/backup_verify.py:176-205 | A member is accepted iff name, owner, mode, type, size and digest are the sealed entry's and the size limits hold. |
| `BackupVerify.MemberTest` | packages/runtime-bundle/tandem_runtime_bundle/backup_verify.py:176-205 | The test of one member in plain terms: a safe name, equal to the entry's, its owner and mode, no link, time 0, and a directory of size 0 or a file with the entry's length and digest within the limits of 8 and 128 MiB. |
| `BackupVerify.ObservedAll` | packages/runtime-bundle/tandem_runtime_bundle/backup_verify.py:206-209 | The final comparison of dictionary keys holds iff all members came and no inventory name repeats. |
| `BackupVerify.TarObject` | packages/runtime-bundle/tandem_runtime_bundle/backup_verify.py:164-210 | Accepts exactly when the member sequence is the sealed inventory entry by entry, none extra, missing or repeated, and the rest is zero padding; then no member's name leaves its root; returns the control files and the replay database. |
| `BackupVerify.CapturedFiles` | packages/runtime-bundle/tandem_runtime_bundle/backup_verify.py:188-210 | What is returned is the content of every control file of the inventory, of no other file, and of the replay database. |
| `BackupVerify.WriteTar` | packages/runtime-bundle/tandem_runtime_bundle/backup_archive.py:237-266 | Writes one member per entry with the entry's metadata and the file's bytes; raises iff a file no longer has its inventoried size and digest. |
| `BackupVerify.WrittenTarMatches` | packages/runtime-bundle/tandem_runtime_bundle/backup_archive.py:248-263 | A tar stream written for entries that pass the inventory check is accepted by the verifier. |
| `BackupVerify.CapturedUnchanged` | packages/runtime-bundle/tandem_runtime_bundle/backup_archive.py:165-203 | While the disk holds every captured file's content at the file's source path, no entry of the inventory has changed. |
| `BackupVerify.SelectSubset` | packages/runtime-bundle/tandem_runtime_bundle/backup_export.py:214-215 | The anchor selection has exactly the group's entries, again without a repeated name. |
| `BackupVerify.ExportThenVerify` | packages/runtime-bundle/tandem_runtime_bundle/backup_export.py:209-258 | Inventory and both tar objects, with any zero padding, of an initialized host whose captured files are on the disk at their source paths, within the size limits, are accepted exactly when the host is portable and has no write-ahead log. |
| `BackupExport.StepGrows` | packages/runtime-bundle/tandem_runtime_bundle/backup_google_storage.py:216-245 | No step replaces or removes a stored object. |
| `BackupExport.StepKeepsInv` | packages/runtime-bundle/tandem_runtime_bundle/backup_commands.py:156-193 | Every step (begin, send, apply, drop, lost answer, receipt, read-back, crash) keeps the invariant of the protocol. |
| `BackupExport.RunKeepsInv` | packages/runtime-bundle/tandem_runtime_bundle/backup_export.py:265-289 | The invariant holds in every reachable world, for any number of interleaved attempts. |
| `BackupExport.ManifestImpliesObjects` | packages/runtime-bundle/tandem_runtime_bundle/backup_export.py:265-289 | Whenever the store holds a manifest, it holds the archive and anchors objects with exactly the digest and size that the manifest of the attempt that put it seals, whatever the transport makes of any file. |
| `BackupExport.RunNumbered` | packages/runtime-bundle/tandem_runtime_bundle/backup_google_storage.py:216-245 | In every reachable world no two objects have the same generation, and no attempt has put or is putting an empty file. |
| `BackupExport.AdvanceMeansVerified` | packages/runtime-bundle/tandem_runtime_bundle/backup_commands.py:172-193 | An attempt gets past an object only when the live object has the generation of the attempt's receipt and the digest and length of the attempt's file; archive, anchors, manifest in this order. |
| `BackupExport.BackedIff` | packages/runtime-bundle/tandem_runtime_bundle/backup_export.py:265-289 | The stored manifest itself names stored objects iff it reads like the one its attempt wrote, as it does when it has the reported digest, up to a collision. |
| `BackupExport.ManifestCanBeDamaged` | packages/runtime-bundle/tandem_runtime_bundle/backup_google_storage.py:233-237 | A transport that damages the manifest can leave any bytes in its place. |
| `BackupExport.DoneIsDelivered` | packages/runtime-bundle/tandem_runtime_bundle/backup_export.py:276-297 | The manifest of an attempt that reports success is stored with the reported digest and size. |
| `BackupExport.OneAttemptPerCommit` | packages/runtime-bundle/tandem_runtime_bundle/backup_export.py:196-230 | With a reused backup id the three objects of a committed backup still come from one attempt, and the manifest has its digest iff it was delivered. |
| `BackupExport.AttemptsExclude` | packages/runtime-bundle/tandem_runtime_bundle/backup_commands.py:163-169 | Of two attempts on one backup id at most one gets past the archive object. |
| `BackupExport.DoneIsStored` | packages/runtime-bundle/tandem_runtime_bundle/backup_export.py:276-297 | An attempt that reports success has its own three objects in the store, none empty, each with the digest and length of its file. |
| `BackupExport.StoredForever` | packages/runtime-bundle/tandem_runtime_bundle/backup_google_storage.py:234-237 | A stored object is the same in every later world. |
| `BackupExport.CommittedIsRestorable` | packages/runtime-bundle/tandem_runtime_bundle/backup_verify.py:67-102 | A manifest with the reported digest that seals an export's metadata commits to that export's sealed objects, unless the store holds a SHA-256 collision. |
| `BackupExport.PublishOne` | packages/runtime-bundle/tandem_runtime_bundle/backup_commands.py:156-193 | An undisturbed put, receipt and read-back publishes one object in four steps. |
| `BackupExport.UndisturbedExportCompletes` | packages/runtime-bundle/tandem_runtime_bundle/backup_export.py:265-289 | From any world an attempt on an unused scope can finish in twelve steps, whatever else is under way. |
| `BackupRecovery.VerifyFile` | packages/runtime-bundle/tandem_runtime_bundle/backup_verify.py:164-210 | Opening, reading through the tar layer, comparing and finishing: an untampered object is accepted exactly when its members are the inventory's, and an accepted file has the sealed size and digest. |
| `BackupRecovery.RecoverObject` | packages/runtime-bundle/tandem_runtime_bundle/backup_verify.py:334-352 | Any file in an object's place is accepted only if it is the sealed object or collides with it; the sealed object is accepted exactly when its members are the inventory's. |
| `BackupRecovery.ExportableMatches` | packages/runtime-bundle/tandem_runtime_bundle/backup_export.py:209-258 | The inventory and both member sequences of an exportable host pass the verifier. |
| `BackupRecovery.RecoverCommitted` | packages/runtime-bundle/tandem_runtime_bundle/backup_verify.py:334-352 | In every reachable world of the export protocol holding a manifest that seals a host's export and has the reported digest, the stored archive and anchors are accepted with exactly the exported files, whatever reads the tar layer makes, and agree on every control file of the anchor root, unless the store holds a SHA-256 collision. |
| `BackupRecovery.ExportedAnchorsAgree` | packages/runtime-bundle/tandem_runtime_bundle/backup_verify.py:350-352 | The captured control files below the anchor root are the same in the exported archive and in the anchors object. |
| `BackupRecovery.TarExists` | packages/runtime-bundle/tandem_runtime_bundle/backup_verify.py:171 | The hypothesis on the tar library can be met for both streams of an export. |
| `Keyring.ValidateTransition` | packages/runtime-bundle/tandem_runtime_bundle/keyring_lifecycle.py:64-83 | The loop accepts exactly the allowed transitions. |
| `Keyring.AllowedIs` | packages/runtime-bundle/tandem_runtime_bundle/keyring_lifecycle.py:64-83 | A transition is allowed iff every key is kept with its material and scope, no retired key is active again and no revoked one active or retired, and no validity window grows at either end. |
| `Keyring.DocumentIs` | packages/runtime-bundle/tandem_runtime_bundle/keyring_lifecycle.py:40-61 | A document is valid iff it fits 256 KiB, has an active key, and every key has a well-formed id, a 32-byte public key, this host's scope and a non-empty window of unsigned 64-bit times. |
| `Keyring.AllowedReflexive` | packages/runtime-bundle/tandem_runtime_bundle/keyring_lifecycle.py:64-83 | A document may follow itself. |
| `Keyring.AllowedTransitive` | packages/runtime-bundle/tandem_runtime_bundle/keyring_lifecycle.py:64-83 | Two allowed transitions in a row make an allowed transition. |
| `Keyring.AllowedAntisymmetric` | packages/runtime-bundle/tandem_runtime_bundle/keyring_lifecycle.py:64-83 | Documents allowed in both directions have the same keys, material, status and effective windows. |
| `Keyring.RotationOnlyRestricts` | packages/runtime-bundle/tandem_runtime_bundle/keyring_lifecycle.py:64-83 | A key usable at a time after a transition was usable at that time before, with the same material. |
| `Keyring.Directory.Install` | packages/runtime-bundle/tandem_runtime_bundle/keyring_lifecycle.py:86-145 | Accepted iff the proposal is valid and usable now and follows what is stored: the first document of an uninitialized host, the stored document again, or an allowed successor under the reviewed digest; the receipt and the stored document for every request and state, errors changing nothing. |
| `Keyring.RunAllowed` | packages/runtime-bundle/tandem_runtime_bundle/keyring_lifecycle.py:120-143 | Along any run of installs by anyone the later document is an allowed successor of every earlier one. |
| `Keyring.RunValid` | packages/runtime-bundle/tandem_runtime_bundle/keyring_lifecycle.py:99-125 | Every stored document of a run is valid. |
| `Keyring.RunOnlyRestricts` | packages/runtime-bundle/tandem_runtime_bundle/keyring_lifecycle.py:120-143 | No key disappears or changes material along a run, and a key usable at time t late in the run was usable at t under every earlier document. |
| `Keyring.ReviewedInstallLosesNothing` | packages/runtime-bundle/tandem_runtime_bundle/keyring_lifecycle.py:128-143 | An install with a reviewed fingerprint replaces only the reviewed document, and everything stored in between was equivalent to it. |
| `Keyring.OneWinner` | packages/runtime-bundle/tandem_runtime_bundle/keyring_lifecycle.py:128-143 | Of two operators who reviewed one document at most one installs a materially different one. |
| `Keyring.PreviewThenApply` | packages/runtime-bundle/tandem_runtime_bundle/keyring_lifecycle.py:126-143 | Applying with the previewed fingerprint on an unchanged document, while a key is valid, succeeds with the preview's digests; repeating it reports it as staged. |
| `Prepare.Host.MakeDirectories` | packages/runtime-bundle/tandem_runtime_bundle/prepare.py:242-246 | Creates exactly the missing directories the version needs. |
| `Prepare.Host.MakeAuditKey` | packages/runtime-bundle/tandem_runtime_bundle/prepare.py:247-255 | Generates the audit key once and never replaces one; raises iff the key that is there is too short, or none is there on a host with a marker or any history. |
| `Prepare.Host.InstallKeyring` | packages/runtime-bundle/tandem_runtime_bundle/prepare.py:256-257 | Installs the keyring; raises iff it is invalid now, is not an allowed successor, or is the first document of an initialized host. |
| `Prepare.Host.BindStorage` | packages/runtime-bundle/tandem_runtime_bundle/prepare.py:262-267 | First version 3 provisioning: new sentinels, then a binding equal to the identity they give. |
| `Prepare.Host.PrepareSecurity` | packages/runtime-bundle/tandem_runtime_bundle/prepare.py:151-273 | A call that is not cut off completes iff inputs, marker, storage, audit key and keyring fit, and then leaves exactly the provisioned host; 2 to 1, 3 to 1 or 2, 1 or 2 to 3 and unknown markers are refused and change nothing but the security directory; inputs that do not fit change nothing; every call, cut off anywhere, keeps the audit key, the keyring order, the marker order and the version 3 binding. |
| `Prepare.FitsIff` | packages/runtime-bundle/tandem_runtime_bundle/prepare.py:155-257 | The checks of a call, spread over its steps, together ask for exactly the stated conditions. |
| `Prepare.UpgradeFits` | packages/runtime-bundle/tandem_runtime_bundle/prepare.py:219-226 | A host initialized at version 1 is ready for version 2 with valid inputs and an allowed keyring. |
| `Prepare.PartialFits` | packages/runtime-bundle/tandem_runtime_bundle/prepare.py:190-271 | What any interrupted first provisioning leaves is ready to be completed with the same inputs. |
| `Prepare.HistoryPreserved` | packages/runtime-bundle/tandem_runtime_bundle/prepare.py:190-271 | Over any history of calls, crashes and normal use: the audit key never changes; marker 2 stays 2, 3 stays 3, an unknown one stays, 1 is followed only by 1 or 2; a marker keeps coming with a valid audit key and a keyring, each keyring an allowed successor of the earlier ones; from marker 3 on the binding and the bound identity stay the same. |
| `Prepare.RetryUntilDone` | packages/runtime-bundle/tandem_runtime_bundle/prepare.py:190-271 | On a fresh host any number of attempts cut off anywhere, followed by one that is not, reaches the marker, with audit key, keyring and binding in place. |
| `Crc32c.Crc` | packages/runtime-bundle/tandem_runtime_bundle/backup_google_kms.py:26-33 | The nested loop computes the checksum of every byte string. |
| `Crc32c.PolynomialValue` | packages/runtime-bundle/tandem_runtime_bundle/backup_google_kms.py:32 | The generator given by its coefficients is the constant 0x82f63b78. |
| `Crc32c.AllSetValue` | packages/runtime-bundle/tandem_runtime_bundle/backup_google_kms.py:28-33 | The initial and final mask is 0xffffffff. |
| `Crc32c.FeedDivides` | packages/runtime-bundle/tandem_runtime_bundle/backup_google_kms.py:29-32 | Feeding the message bits to a register of ones leaves a remainder of the message polynomial, for any generator of degree 32. |
| `Crc32c.RemainderUnique` | packages/runtime-bundle/tandem_runtime_bundle/backup_google_kms.py:26-33 | The remainder is unique. |
| `Crc32c.RegisterIsFeed` | packages/runtime-bundle/tandem_runtime_bundle/backup_google_kms.py:28-32 | The reflected integer register is long division, digit by digit. |
| `Crc32c.ChecksumIsRemainder` | packages/runtime-bundle/tandem_runtime_bundle/backup_google_kms.py:26-33 | The checksum is the complement of the one remainder modulo the Castagnoli polynomial (section 12.1 of RFC 3720), in both directions. |
| `Crc32c.BurstsDetected` | packages/runtime-bundle/tandem_runtime_bundle/backup_google_kms.py:26-33 | Messages of one length that agree outside 32 consecutive bits have the same checksum iff they are equal. |
| `Crc32c.FourBytesDetected` | packages/runtime-bundle/tandem_runtime_bundle/backup_google_kms.py:26-33 | Messages that agree outside four consecutive bytes have the same checksum iff they are equal. |
| `Crc32c.ChecksumAffine` | packages/runtime-bundle/tandem_runtime_bundle/backup_google_kms.py:26-33 | The checksum is affine under xor of messages of equal length. |
| `Paths.SplitJoin` | packages/runtime-bundle/tandem_runtime_bundle/backup_verify.py:58-64 | Splitting a joined path gives its components back. |
| `Paths.JoinSplit` | packages/runtime-bundle/tandem_runtime_bundle/backup_verify.py:58-64 | Joining the components of a path gives the path back. |
| `Text.AsReadKeeps` | src/tandem_agents/kb/indexer.py:1116 | A text is read back as it was written iff it has no carriage return. |
| `Text.AsReadBreak` | src/tandem_agents/kb/indexer.py:1113 | A carriage return with a newline, alone, or a newline alone is read as one newline, and the text on either side by itself. |
| `Text.StripIs` | src/tandem_agents/kb/storage.py:22 | Only white space is stripped, and only at the two ends. |
| `KbPaths.SlugifyIsSlug` | src/tandem_agents/kb/storage.py:21-25 | A slug is words of lower-case letters and digits joined by single dashes. |
| `KbPaths.SlugifyIdempotent` | src/tandem_agents/kb/storage.py:21-25 | A slug is its own slug. |
| `KbPaths.SlugOfBreak` | src/tandem_agents/kb/storage.py:21-25 | Anything but a lower-case letter or digit separates: the slug of two sides is their slugs joined by one dash, or the one that is not empty. |
| `KbPaths.SlugifyWord` | src/tandem_agents/kb/storage.py:21-25 | A text that is a word of lower-case letters and digits once stripped and lower-cased is its own slug. |
| `KbPaths.NormalizeBreak` | src/tandem_agents/kb/storage.py:36-41 | A slash or backslash separates: a normalised path is that of its left side followed by that of its right side, whatever is trimmed. |
| `KbPaths.NormalizeOne` | src/tandem_agents/kb/storage.py:36-41 | A text without separators is one component, its slug, dropped when that is empty. |
| `KbPaths.StemIs` | src/tandem_agents/kb/indexer.py:1107 | The last dot divides a file's name unless it is its first or last character. |
| `KbPaths.NormalizedAreSlugs` | src/tandem_agents/kb/storage.py:36-41 | A normalised path consists of non-empty slugs. |
| `KbPaths.NormalizeIdempotent` | src/tandem_agents/kb/storage.py:36-41 | Normalising a normalised path changes nothing. |
| `KbPaths.IdTextInjective` | src/tandem_agents/kb/storage.py:259-260 | Different normalised ids have different texts. |
| `KbPaths.FileIdRoundTrip` | src/tandem_agents/kb/storage.py:317-321 | The id re-derived from document_path(c, p, suffix) is collection_document_id(c, p). |
| `KbStorage.CollectSections` | src/tandem_agents/kb/storage.py:205-228 | The loop over the lines collects the sections of the specification. |
| `KbStorage.PackSection` | src/tandem_agents/kb/storage.py:238-250 | The packing loop makes the chunks of the specification. |
| `KbStorage.SplitIntoChunks` | src/tandem_agents/kb/storage.py:204-256 | The whole function: its chunks, their text under their headings, and the length bound when some section has a text. |
| `KbStorage.LinesBreak` | src/tandem_agents/kb/storage.py:205 | A line ends at its first boundary, and a carriage return with a newline is one boundary. |
| `KbStorage.HeadingIs` | src/tandem_agents/kb/storage.py:15 | A heading is one to six hashes followed by white space, and its text is the stripped rest. |
| `KbStorage.SectionsBreak` | src/tandem_agents/kb/storage.py:210-223 | The lines above a heading are a section of their own under the heading before it, unless they are blank and have none. |
| `KbStorage.UnbrokenIs` | src/tandem_agents/kb/storage.py:235 | A paragraph has no two newlines with only white space between them. |
| `KbStorage.SplitFirstParagraph` | src/tandem_agents/kb/storage.py:235 | Two newlines with only white space between them end a paragraph. |
| `KbStorage.PackExact` | src/tandem_agents/kb/storage.py:238-250 | Each group takes paragraphs for exactly as long as the joined text keeps to max_chars, or to max_chars - 2 in a section's first group. |
| `KbStorage.Conservation` | src/tandem_agents/kb/storage.py:204-256 | Every non-space character outside heading lines appears in the chunks once, in order, under the last heading before it; a body with no such character goes out whole. |
| `KbStorage.ChunkParagraphs` | src/tandem_agents/kb/storage.py:235-250 | Splitting a chunk at blank lines gives back exactly the paragraphs packed into it. |
| `KbStorage.PackGroups` | src/tandem_agents/kb/storage.py:238-250 | The groups hold the paragraphs in order, a group of two or more fits the limit, and two neighbours together exceed max_chars - 4. |
| `KbStorage.SectionIsPacked` | src/tandem_agents/kb/storage.py:231-250 | The chunks of a section: its paragraphs in order under its heading, none cut, two or more together only within max_chars, neighbours together above max_chars - 4. |
| `KbStorage.ChunkCount` | src/tandem_agents/kb/storage.py:231-250 | A section with text length n gives at most about 2(n + 2) / (max_chars + 1) + 1 chunks. |
| `KbStorage.AlwaysParagraphs` | src/tandem_agents/kb/storage.py:235-237 | The fallback to the whole section text is never taken. |
| `KbStorage.Unsplit` | src/tandem_agents/kb/storage.py:252-255 | When no section has a text the stripped body is the only chunk. |
| `KbStorage.LengthBound` | src/tandem_agents/kb/storage.py:204-256 | A chunk of two or more paragraphs keeps to max_chars for all chunks iff some section has a text or the whole body keeps to it. |
| `KbStorage.TwoHeadings` | src/tandem_agents/kb/storage.py:209-215 | Two headings with nothing below come out as one chunk of two paragraphs, whatever their length. |
| `KbStorage.HeadingsExceedLimit` | src/tandem_agents/kb/storage.py:252-255 | A body of two headings whose only chunk exceeds the limit. |
| `KbIndexer.WithoutConsistent` | src/tandem_agents/kb/indexer.py:799-805 | Deleting documents' rows keeps the table invariant. |
| `KbIndexer.WithoutTwice` | src/tandem_agents/kb/indexer.py:1221-1233 | Deleting documents one at a time, in any order, is deleting them together. |
| `KbIndexer.WithoutIs` | src/tandem_agents/kb/indexer.py:799-805 | Deleting documents removes exactly their rows from the four tables, the links at either end included. |
| `KbIndexer.WithChunksAt` | src/tandem_agents/kb/indexer.py:896-926 | Inserted chunks get consecutive fresh ids and ordinals 0..k-1 in both tables; nothing else moves. |
| `KbIndexer.AddedConsistent` | src/tandem_agents/kb/indexer.py:1130-1170 | Indexing a document that has no rows keeps the table invariant. |
| `KbIndexer.AfterFileConsistent` | src/tandem_agents/kb/indexer.py:1099-1180 | sync_file keeps the table invariant: chunks and chunks_fts in bijection by id, ordinals exactly 0..k-1, each chunk the right piece of an existing document's text, every link declared by its target. |
| `KbIndexer.AfterFileDocuments` | src/tandem_agents/kb/indexer.py:1119-1170 | sync_file leaves its document with the file's text and creation time, every other document as it was, and changes nothing when the text is the same. |
| `KbIndexer.AfterFileRow` | src/tandem_agents/kb/indexer.py:1129-1155 | The row of a created or updated document: its file, text, hash, title, tags and type, its first creation time and the time of the sync; no other row changes. |
| `KbIndexer.AfterFileLinks` | src/tandem_agents/kb/indexer.py:862-876 | A created or updated document is linked from exactly the sources it declares; links to others stay, except that an update drops those from the document. |
| `KbIndexer.AfterFileChunks` | src/tandem_agents/kb/indexer.py:896-926 | Its chunks and search rows, under fresh ids in order; those of other documents stay. |
| `KbIndexer.SyncConsistent` | src/tandem_agents/kb/indexer.py:1199-1234 | sync_from_disk keeps the table invariant. |
| `KbIndexer.SyncBalance` | src/tandem_agents/kb/indexer.py:1203-1231 | Documents before plus created are documents after plus deleted. |
| `KbIndexer.LastTextIs` | src/tandem_agents/kb/indexer.py:1205-1214 | Of several files of one document the last listed one counts. |
| `KbIndexer.WalkAgrees` | src/tandem_agents/kb/indexer.py:1206-1219 | After the file loop a document is seen iff some listed file belongs to it, and it holds the last such file's text. |
| `KbIndexer.SyncAgrees` | src/tandem_agents/kb/indexer.py:1199-1234 | From any state: a document some file belongs to holds the last such file's text; any other in scope survives iff its own file still exists; other collections are untouched. |
| `KbIndexer.SyncedIds` | src/tandem_agents/kb/indexer.py:1199-1234 | After an unfiltered sync the document ids are those of the supported files iff the index held no row whose path is still taken by something that is not such a file. |
| `KbIndexer.SyncedPieces` | src/tandem_agents/kb/indexer.py:1199-1234 | After a sync the chunk and search rows of a document on disk are the pieces of the last such file's text, each ordinal once. |
| `KbIndexer.Written` | src/tandem_agents/kb/indexer.py:1653-1664 | A write leaves its file with the stored characters, every other path as it was, and only the file's own directories new. |
| `KbIndexer.WrittenIs` | src/tandem_agents/kb/indexer.py:1653-1664 | A write is refused iff a directory's place is taken by a file or the file's by a directory; otherwise the file and its directories are there, and no other path is new. |
| `KbIndexer.StrayIsNoDocument` | src/tandem_agents/kb/indexer.py:1230-1231 | Such a row's path is a directory or an unsupported file. |
| `KbIndexer.DirectoryKeepsRow` | src/tandem_agents/kb/indexer.py:1230-1231 | A directory in an indexed file's place keeps the row alive. |
| `KbIndexer.QuietWalk` | src/tandem_agents/kb/indexer.py:1126-1133 | A pass over the files reports no creation or update iff the index already holds every file's text, and then changes nothing. |
| `KbIndexer.SecondSync` | src/tandem_agents/kb/indexer.py:1199-1234 | A second sync of an unchanged disk counts only unchanged and ignored iff no two files give one document different texts, and then changes no table. |
| `KbIndexer.ReindexDropsBacklinks` | src/tandem_agents/kb/indexer.py:799-805 | Re-indexing a changed source drops the links from it although their targets still declare it. |
| `KbIndexer.KnowledgebaseIndex.DeleteDocRows` | src/tandem_agents/kb/indexer.py:799-805 | Removes exactly the rows of one document and the links at either end of it. |
| `KbIndexer.KnowledgebaseIndex.InsertChunks` | src/tandem_agents/kb/indexer.py:896-926 | Appends a document's chunks to both tables. |
| `KbIndexer.KnowledgebaseIndex.RefreshLinks` | src/tandem_agents/kb/indexer.py:862-876 | The links to a document become exactly its declared sources. |
| `KbIndexer.KnowledgebaseIndex.SyncFile` | src/tandem_agents/kb/indexer.py:1099-1180 | The action reported and the whole new state, for every path and state; keeps the invariant. |
| `KbIndexer.KnowledgebaseIndex.RemoveDocument` | src/tandem_agents/kb/indexer.py:1182-1197 | Refused, missing or deleted, and the whole new state; keeps the invariant. |
| `KbIndexer.KnowledgebaseIndex.SyncFromDisk` | src/tandem_agents/kb/indexer.py:1199-1234 | The counts and the whole new state of a sync; keeps the invariant. |
| `KbIndexer.KnowledgebaseIndex.WriteDocument` | src/tandem_agents/kb/indexer.py:1632-1665 | The files on disk and the index after a write; a refused one changes neither, one that raises part way leaves what it wrote on disk and the index as it was. |
| `KbDocuments.NormalizeSourceIds` | src/tandem_agents/kb/indexer.py:832-847 | The declared source ids, each once. |
| `KbDocuments.SourceOfIs` | src/tandem_agents/kb/indexer.py:835-843 | A declared source names a document of the collection before its first slash, or else of the declaring document's own; nothing when only spaces and slashes are left. |
| `KbDocuments.DocumentNames` | src/tandem_agents/kb/indexer.py:1206 | A document is a file whose suffix is .md or .txt in any case. |
| `KbDocuments.SourcesAre` | src/tandem_agents/kb/indexer.py:832-847 | A document is a source of a text iff some declared item names it. |
| `KbDocuments.KbReaderWellNamed` | src/tandem_agents/kb/indexer.py:1108-1114 | A document's collection is the slug of its file's first directory, and stays so when normalised again. |
| `KbDocuments.WrittenIsRead` | src/tandem_agents/kb/indexer.py:1646-1665 | The file of a written document holds the stored characters and is one a sync reads into that document. |
| `KbDocuments.WriteThenGet` | src/tandem_agents/kb/indexer.py:1646-1665 | A written document is found with its text as read back, which is the stored text iff that has no carriage return; the next sync keeps it iff the last listed file of its id reads the same, as when no sibling file shares the id. |
| `KbDocuments.CarriageReturnLost` | src/tandem_agents/kb/indexer.py:1657-1665 | Below any front matter, a document written with the body a, CR, LF, b is found with the body a, LF, b. |
| `KbDocuments.CutWriteIsSynced` | src/tandem_agents/kb/indexer.py:1664 | After a write that raised part way the next sync gives the document what reached the disk, when no sibling file shares its id. |
| `KbDocuments.KeysAreNormalised` | src/tandem_agents/kb/indexer.py:1332-1334 | Documents in the index with the same id text are the same document. |
| `ArtifactStore.MirroredIs` | src/tandem_agents/runtime/artifact_store.py:98-100 | Mirroring replaces exactly the entry of its path and keeps the manifest strictly ascending. |
| `ArtifactStore.BelowIs` | src/tandem_agents/runtime/artifact_store.py:100 | Paths are ordered by their first differing character, a proper prefix first. |
| `ArtifactStore.LastDataIs` | src/tandem_agents/runtime/artifact_store.py:97-100 | The last mirror of a path without an error counts. |
| `ArtifactStore.SortedKeeps` | src/tandem_agents/runtime/artifact_store.py:100 | Sorting keeps the entries. |
| `ArtifactStore.MirrorOrdered` | src/tandem_agents/runtime/artifact_store.py:71-106 | Every mirror, also one that ends in an OSError, keeps manifests sorted without repeated paths, their entries naming stored objects. |
| `ArtifactStore.AddressedSizes` | src/tandem_agents/runtime/artifact_store.py:87-94 | When every object hashes to its address, every entry gives its object's size. |
| `ArtifactStore.HistoryOrdered` | src/tandem_agents/runtime/artifact_store.py:71-106 | The same after any sequence of mirrors. |
| `ArtifactStore.ObjectIs` | src/tandem_agents/runtime/artifact_store.py:83-84 | What stands at an address is what the first write of its bytes left there, for good. |
| `ArtifactStore.AddressedIff` | src/tandem_agents/runtime/artifact_store.py:81-86 | After any mirrors every object hashes to its address iff no write of bytes not stored before was cut short. |
| `ArtifactStore.CutShortStays` | src/tandem_agents/runtime/artifact_store.py:81-86 | A write cut after one byte, then a successful mirror of the same bytes: the entry gives two bytes, the object holds one. |
| `ArtifactStore.HistoryKept` | src/tandem_agents/runtime/artifact_store.py:71-106 | A run's manifest has an entry for a path iff the path was mirrored without an error; it gives address and size of the bytes mirrored so last, and its object holds these bytes iff their first write was not cut short. |
| `ArtifactStore.RestoreGoesThrough` | src/tandem_agents/runtime/artifact_store.py:126-139 | Restoring into an empty destination goes through iff no restored path is a directory of another, and then writes exactly those paths and reports them in manifest order. |
| `ArtifactStore.RestoreOneIs` | src/tandem_agents/runtime/artifact_store.py:130-138 | One entry: skipped without a name or an object, refused where a file and a directory meet, cut short, or written and reported. |
| `ArtifactStore.PlaceOfIs` | src/tandem_agents/runtime/artifact_store.py:131-135 | A leading slash leads out of the destination; empty components and single dots make no difference. |
| `ArtifactStore.RestoreHolds` | src/tandem_agents/runtime/artifact_store.py:126-139 | Each restored file holds the bytes of the last entry for its place. |
| `ArtifactStore.RestoreStopsAt` | src/tandem_agents/runtime/artifact_store.py:126-139 | A restore that raises, into any destination, has restored exactly the entries before the first that clashes or is cut short. |
| `ArtifactStore.RestoreGivesLast` | src/tandem_agents/runtime/artifact_store.py:71-139 | Mirror then restore, for every path of a run without one place inside another: the path's place holds the object of the bytes last mirrored under the path that comes last in the manifest among those with this place, and these bytes themselves iff their first write was not cut short. |
| `ArtifactStore.PlainWins` | src/tandem_agents/runtime/artifact_store.py:131-137 | When the paths of a run are plain, every path has its place to itself. |
| `ArtifactStore.Artifacts.MirrorRunFile` | src/tandem_agents/runtime/artifact_store.py:71-106 | The entry returned and the whole new store, also when storing the object fails after any number of bytes or saving the manifest fails; nothing happens without a regular file. |
| `ArtifactStore.TreePathIs` | src/tandem_agents/runtime/artifact_store.py:114-120 | A file of a tree is entered under the tree's prefix, without the slashes at its ends, and its path below the root. |
| `ArtifactStore.Artifacts.MirrorRunTree` | src/tandem_agents/runtime/artifact_store.py:109-123 | A tree is mirrored file by file in listing order; the entries returned are those of the files mirrored without an error. |
| `ArtifactStore.Artifacts.RestoreRunTree` | src/tandem_agents/runtime/artifact_store.py:126-139 | The destination, the restored paths, and whether a write raised, also one that stops part way. |
| `TaskContract.BuildLookup` | src/tandem_agents/core/task_contract.py:544-549 | The index lists, for every token, each task once for every reference that normalises to it, in order. |
| `TaskContract.DoneForIs` | src/tandem_agents/core/task_contract.py:470-474 | A task settles a dependency iff it is done or completed by its state, or its status where it has no state, and some token of it is the dependency's. |
| `TaskContract.TokensAre` | src/tandem_agents/core/task_contract.py:477-509 | What a task can be referred to by: key, key with slashes for colons, id, source and references, each also without one leading hash. |
| `TaskContract.DependencyTokenIs` | src/tandem_agents/core/task_contract.py:512-515 | A dependency's token is what is left of it in lower case without its leading hashes. |
| `TaskContract.BlockerIs` | src/tandem_agents/core/task_contract.py:566-590 | A blocker lists the keys, ids and statuses of its matches in order, without the empty ones; it is missing iff it has no match. |
| `TaskContract.MatchesComplete` | src/tandem_agents/core/task_contract.py:553-555 | The matches of a dependency are exactly the tasks that refer to it, in order. |
| `TaskContract.FirstDoneMatch` | src/tandem_agents/core/task_contract.py:555-556 | The first done match in the index, with its key, id and status, is the first done task of a full scan. |
| `TaskContract.DependencyStatus` | src/tandem_agents/core/task_contract.py:518-600 | Resolved and unresolved, with the keys, ids and statuses shown, are those of a scan of all tasks per dependency; blocked iff some declared dependency has no done task referring to it. |
| `TaskContract.BlockedIff` | src/tandem_agents/core/task_contract.py:591-597 | There is an unresolved entry iff some declared dependency has no done task referring to it. |
| `TaskContract.StatusPartitions` | src/tandem_agents/core/task_contract.py:551-590 | Resolved and unresolved share out the declared dependencies, each in declared order. |
| `TaskContract.ReportIsAbout` | src/tandem_agents/core/task_contract.py:556-590 | A resolution shows the first done task referring to the dependency; a blocker is missing iff no task refers to it and shows the keys of exactly those that do. |
| `TaskContract.MoreKnownNeverBlocks` | src/tandem_agents/core/task_contract.py:544-566 | Knowing more tasks never makes a resolved dependency unresolved. |
| `MountRoots.OverlapIsSharing` | packages/runtime-bundle/tandem_runtime_bundle/contract.py:146-150 | Two roots overlap iff some file lies under both. |
| `MountRoots.BuildBundle` | packages/runtime-bundle/tandem_runtime_bundle/contract.py:144-153 | Accepts iff security roots are apart from workloads, from each other, and the anchor from the installation tree. |
| `MountRoots.ApplyPolicy` | packages/runtime-bundle/tandem_runtime_bundle/policy_contract.py:79-107 | Accepts iff the policy root, and in version 3 the command root, is apart from every mount so far; returns the extended mounts. |
| `MountRoots.PrepareChecks` | packages/runtime-bundle/tandem_runtime_bundle/prepare.py:178-188 | The provisioning check: single leading slashes and no overlaps. |
| `MountRoots.CheckSource` | packages/runtime-bundle/tandem_runtime_bundle/backup_source.py:102-112 | The export check: single leading slashes, every two mounts apart, and the anchor apart from the exported tree. |
| `MountRoots.AcceptedMeansSeparated` | packages/runtime-bundle/tandem_runtime_bundle/prepare.py:178-188 | The provisioning check passes iff every root has a single leading slash and no file lies under two security roots, nor under a security and a workload root. |
| `MountRoots.BuiltIsPrepared` | packages/runtime-bundle/tandem_runtime_bundle/policy_contract.py:79-107 | In every version, what the bundle builders accept with single leading slashes is exactly what provisioning accepts together with an anchor outside the installation tree. |
| `MountRoots.BuiltRefusedOnlyForSlashes` | packages/runtime-bundle/tandem_runtime_bundle/prepare.py:13-17 | Provisioning refuses the roots of a built bundle iff one of them has two leading slashes. |
| `MountRoots.DoubleSlashBuilt` | packages/runtime-bundle/tandem_runtime_bundle/contract.py:28-34 | A version 3 bundle that is built although its state root and a workload mount are one directory, because one is written with two slashes; provisioning refuses it. |
| `MountRoots.BackupNeedsWorkloadsApart` | packages/runtime-bundle/tandem_runtime_bundle/backup_source.py:102-112 | A provisioned host passes the export check iff its workload mounts are independent of each other and the anchor is outside the exported tree, which is named with a single slash. |
| `MountRoots.BuiltBackupNeedsWorkloadsApart` | packages/runtime-bundle/tandem_runtime_bundle/backup_source.py:102-112 | A built bundle exported from its own installation tree passes iff its workload mounts are independent of each other and all paths have a single leading slash. |
| `MountRoots.PreparedButNotExportable` | packages/runtime-bundle/tandem_runtime_bundle/backup_source.py:98-112 | Complete version 3 hosts that are provisioned and cannot be exported, one for each condition, beside one that can. |

## Left out

- AES-GCM, SHA-256, base64, JSON, YAML, lower-casing and the tar byte layout are library code: abstract functions with the stated hypotheses.
- File descriptors, ownership, links on the way to a root and the stability of a file while it is read: a step either succeeds or fails.
- `fstat` identity of the encrypted object while it is read, and writers of an object that fail between two output bytes.
- BackupVerify.CheckEntries: a digest is the bytes its hexadecimal digits spell, so its format test is a test for 32 bytes; the types of JSON fields are not modelled.
- The later checks of a recovery candidate (`_controls`, `_replay`) and the key services, which read the captured control files.
- The documents of the outer manifest: `BackupExport` models only the digests and sizes it seals.
- Archives of exactly 2^32 chunks: the writer allows them, as the model says; the verifier's stricter limit is in its manifest check, which is not part of this model.
- ArtifactStore.RestoreGoesThrough: places with ".." components and links in the destination are not resolved, and the destination is an existing empty directory.
- ArtifactStore.HistoryKept: SHA-256 is assumed free of collisions, as for the content hash in the knowledge base.
- KbIndexer.KnowledgebaseIndex.SyncFile: one atomic step, because a crash between two of its statements is not repaired by the source; titles, tags and content types come from an abstract parser.
- KbIndexer.SyncAgrees: files do not change while a sync runs, and a file that is not valid UTF-8, which stops a sync, does not occur.
- KbIndexer.KnowledgebaseIndex.WriteDocument: merging front matter is an input, the stored text; a write that raises leaves whole characters, not part of an encoded one.
- KbPaths.SlugifyIdempotent: lower-casing is assumed to keep lower-case letters, digits, dashes and dots.
- Prepare.Host.PrepareSecurity: ownership, mode, link and path checks are one input, and making a directory with its owner is one effect.
- Keyring.Directory.Install: files of the lock and the loss of a directory entry after an unfinished `fsync` are not modelled.
- TaskContract.DependencyStatus: the answers without declared dependencies or without known tasks, and the sentence that lists the blockers.
- Full-text ranking, answer extraction, proposals, coordination, configuration and user interfaces, which have no crisp specification or would only add easy members.
