/**
 * One run of the saver: validate the settings, take the downloaded archive,
 * fingerprint it, compare with the fingerprint stored at `gtfs/hash.txt`,
 * and when they differ publish the archive under a free key and then record
 * the new fingerprint. `Effect` says what a run does; `Run` performs it step
 * by step against an ObjectStore and is proved to have exactly that effect.
 */
module Sync {
  import opened Wrappers
  import opened Text
  import opened Config
  import opened Disposition
  import opened Keys
  import opened Store

  const S3Prefix := "gtfs/"
  const LocalGtfsFile := "GTFS_Carris.zip"
  const HashKey := S3Prefix + "hash.txt"

  /**
   * What the HTTP download produced: the archive and its Content-Disposition
   * header, or a failure. A failure after `open(filename, 'wb')` succeeded
   * leaves the local file behind, possibly empty.
   */
  datatype Download =
    | Downloaded(body: seq<byte>, contentDisposition: Option<string>)
    | DownloadFailed(localFileCreated: bool)

  datatype Failure =
    | InvalidConfig(problem: Problem)
    | RetrievalFailed
    | RemoteHashUndecodable
    | UploadFailed(key: string)
    | HashSaveFailed

  /** Which of the run's two writes the store fails: the archive upload and the fingerprint write. */
  datatype WriteFaults = WriteFaults(upload: bool, hashSave: bool)

  datatype Outcome = Skipped | Published(key: string) | Failed(failure: Failure)

  /** The process exit status: `sys.exit(1)` on every failure, 0 (a normal return) otherwise. */
  function ExitCode(o: Outcome): (code: int)
    ensures code == 0 || code == 1
    ensures code == 1 <==> o.Failed?
  {
    if o.Failed? then 1 else 0
  }

  /** The fingerprint found in the store: none, a stripped text, or bytes that are not UTF-8. */
  datatype RemoteHash = NoHash | StoredHash(text: string) | Undecodable

  /** `get_remote_hash`: a missing object is no hash, not an error; stored text is decoded and stripped. */
  function ReadRemoteHash(stored: Option<seq<byte>>): (r: RemoteHash)
    ensures r.NoHash? <==> stored.None?
    ensures r.Undecodable? <==> stored.Some? && DecodeUtf8(stored.value).None?
    ensures r.StoredHash? ==> r.text == Strip(DecodeUtf8(stored.value).value)
  {
    match stored
    case None => NoHash
    case Some(data) =>
      match DecodeUtf8(data)
      case None => Undecodable
      case Some(text) => StoredHash(Strip(text))
  }

  /** The fingerprint the saver stores is read back as the same fingerprint. */
  lemma SavedHashReadsBack(raw: seq<byte>)
    ensures ReadRemoteHash(Some(EncodeUtf8(HexDigest(raw)))) == StoredHash(HexDigest(raw))
  {
    var h := HexDigest(raw);
    DecodeEncodeUtf8(h);
    HexDigestHasNoSpace(raw);
    StripUnpadded(h);
  }

  /**
   * The key the archive is first offered under: the prefix and the local file
   * name, which is never empty; without a header it is `gtfs/GTFS_Carris.zip`.
   */
  function ArtifactKey(contentDisposition: Option<string>): (key: string)
    ensures |key| > |S3Prefix| && key[..|S3Prefix|] == S3Prefix
    ensures contentDisposition.None? ==> key == S3Prefix + LocalGtfsFile
  {
    var key := S3Prefix + ChooseFilename(contentDisposition, LocalGtfsFile);
    assert key[..|S3Prefix|] == S3Prefix;
    key
  }

  function StoredAt(objects: map<string, seq<byte>>, key: string): Option<seq<byte>> {
    if key in objects then Some(objects[key]) else None
  }

  /** What one run does: its outcome, the store it leaves, the keys it wrote in order, and whether the local file remains. */
  datatype RunEffect = RunEffect(outcome: Outcome, objects: map<string, seq<byte>>, writes: seq<string>, leftover: bool)

  /** The upload stage, entered once the fingerprints differ: allocate a key, store the archive, then the fingerprint. */
  function Publish(objects: map<string, seq<byte>>, faults: WriteFaults, body: seq<byte>, localHash: string,
                   desired: string, ts: string): (e: RunEffect)
    ensures e.leftover == false
    ensures !e.outcome.Skipped?
  {
    var key := AllocateKey(objects.Keys, desired, ts);
    if faults.upload then RunEffect(Failed(UploadFailed(key)), objects, [], false)
    else if faults.hashSave then RunEffect(Failed(HashSaveFailed), objects[key := body], [key], false)
    else RunEffect(Published(key), objects[key := body][HashKey := EncodeUtf8(localHash)], [key, HashKey], false)
  }

  /** The comparison stage: an unreadable fingerprint fails the run, an equal one skips it, anything else publishes. */
  function Compare(remote: RemoteHash, objects: map<string, seq<byte>>, faults: WriteFaults, body: seq<byte>,
                   localHash: string, desired: string, ts: string): (e: RunEffect)
    ensures !e.leftover
    ensures e.outcome == Skipped <==> remote == StoredHash(localHash)
    ensures e.outcome == Failed(RemoteHashUndecodable) <==> remote.Undecodable?
  {
    if remote.Undecodable? then RunEffect(Failed(RemoteHashUndecodable), objects, [], false)
    else if remote == StoredHash(localHash) then RunEffect(Skipped, objects, [], false)
    else Publish(objects, faults, body, localHash, desired, ts)
  }

  /**
   * What `main` does with the given environment, download, bucket and write
   * failures. The bucket changes exactly when a write went through, and at
   * most two writes happen.
   */
  function Effect(env: map<string, string>, download: Download, objects: map<string, seq<byte>>,
                  faults: WriteFaults, digest: seq<byte> -> seq<byte>, ts: string): (e: RunEffect)
    ensures |e.writes| <= 2
    ensures e.writes == [] <==> e.objects == objects
    ensures e.leftover ==> e.outcome == Failed(RetrievalFailed)
  {
    match Validate(LoadConfig(env))
    case Some(problem) => RunEffect(Failed(InvalidConfig(problem)), objects, [], false)
    case None =>
      match download
      case DownloadFailed(created) => RunEffect(Failed(RetrievalFailed), objects, [], created)
      case Downloaded(body, cd) =>
        Compare(ReadRemoteHash(StoredAt(objects, HashKey)), objects, faults, body,
                HexDigest(digest(body)), ArtifactKey(cd), ts)
  }

  /**
   * `main`: the checks, then download, fingerprint, compare, allocate, upload,
   * save the fingerprint. The local file is cleaned up on every path after the
   * download returned.
   */
  method Run(env: map<string, string>, download: Download, digest: seq<byte> -> seq<byte>, ts: string,
             store: ObjectStore, faults: WriteFaults)
    returns (outcome: Outcome, leftover: bool)
    modifies store
    ensures var e := Effect(env, download, old(store.objects), faults, digest, ts);
            && outcome == e.outcome && leftover == e.leftover
            && store.objects == e.objects && store.writes == old(store.writes) + e.writes
  {
    var problem := Validate(LoadConfig(env));
    if problem.Some? {
      return Failed(InvalidConfig(problem.value)), false;
    }
    if download.DownloadFailed? {
      return Failed(RetrievalFailed), download.localFileCreated;
    }
    var localFile := ChooseFilename(download.contentDisposition, LocalGtfsFile);
    var gtfsKey := S3Prefix + localFile;
    var localHash := HexDigest(digest(download.body));
    var stored := store.Get(HashKey);
    var remote := ReadRemoteHash(stored);
    if remote.Undecodable? {
      return Failed(RemoteHashUndecodable), false;
    }
    if remote == StoredHash(localHash) {
      return Skipped, false;
    }
    var key := store.GenerateUniqueKey(gtfsKey, ts);
    var ok := store.Put(key, download.body, faults.upload);
    if !ok {
      return Failed(UploadFailed(key)), false;
    }
    ok := store.Put(HashKey, EncodeUtf8(localHash), faults.hashSave);
    if !ok {
      return Failed(HashSaveFailed), false;
    }
    return Published(key), false;
  }

  // ---------------------------------------------------------------- properties of a run

  predicate Proceeds(env: map<string, string>, download: Download) {
    Validate(LoadConfig(env)).None? && download.Downloaded?
  }

  /** A run skips exactly when the stored fingerprint equals the archive's, and a skip writes nothing. */
  lemma SkipsExactlyOnMatchingHash(env: map<string, string>, download: Download, objects: map<string, seq<byte>>,
                                   faults: WriteFaults, digest: seq<byte> -> seq<byte>, ts: string)
    ensures var e := Effect(env, download, objects, faults, digest, ts);
            e.outcome == Skipped <==>
              Proceeds(env, download)
              && ReadRemoteHash(StoredAt(objects, HashKey)) == StoredHash(HexDigest(digest(download.body)))
    ensures var e := Effect(env, download, objects, faults, digest, ts);
            e.outcome == Skipped ==> e.objects == objects && e.writes == []
  {
  }

  /** With no stored fingerprint the run always goes on to publish: the archive write is attempted. */
  lemma MissingHashPublishes(env: map<string, string>, download: Download, objects: map<string, seq<byte>>,
                             faults: WriteFaults, digest: seq<byte> -> seq<byte>, ts: string)
    requires Proceeds(env, download) && HashKey !in objects
    ensures var e := Effect(env, download, objects, faults, digest, ts);
            var key := AllocateKey(objects.Keys, ArtifactKey(download.contentDisposition), ts);
            e.outcome in {Published(key), Failed(UploadFailed(key)), Failed(HashSaveFailed)}
  {
  }

  /** A run writes nothing, the archive alone, or the archive and then the fingerprint. */
  lemma ArchiveWrittenBeforeHash(env: map<string, string>, download: Download, objects: map<string, seq<byte>>,
                                 faults: WriteFaults, digest: seq<byte> -> seq<byte>, ts: string)
    ensures var e := Effect(env, download, objects, faults, digest, ts);
            e.writes == [] || (download.Downloaded?
              && var key := AllocateKey(objects.Keys, ArtifactKey(download.contentDisposition), ts);
              (e.writes == [key] || e.writes == [key, HashKey]))
  {
  }

  /**
   * The fingerprint write is never a run's first write: the fingerprint key is
   * written first only by the archive upload itself, on a run that found no
   * fingerprint.
   */
  lemma HashWrittenLast(env: map<string, string>, download: Download, objects: map<string, seq<byte>>,
                        faults: WriteFaults, digest: seq<byte> -> seq<byte>, ts: string)
    ensures var e := Effect(env, download, objects, faults, digest, ts);
            HashKey in e.writes ==>
              (|e.writes| == 2 && e.writes[1] == HashKey)
              || (e.writes == [HashKey] && e.outcome == Failed(HashSaveFailed) && HashKey !in objects)
  {
  }

  /** A successful publish adds a fresh key holding the archive, sets the fingerprint, and changes nothing else. */
  lemma PublishChangesExactlyTwoKeys(env: map<string, string>, download: Download, objects: map<string, seq<byte>>,
                                     faults: WriteFaults, digest: seq<byte> -> seq<byte>, ts: string)
    requires Effect(env, download, objects, faults, digest, ts).outcome.Published?
    ensures download.Downloaded?
    ensures var e := Effect(env, download, objects, faults, digest, ts);
            var key := e.outcome.key;
            && key !in objects
            && e.objects.Keys == objects.Keys + {key, HashKey}
            && e.objects[HashKey] == EncodeUtf8(HexDigest(digest(download.body)))
            && (key != HashKey ==> e.objects[key] == download.body)
            && forall k :: k in objects && k != HashKey ==> e.objects[k] == objects[k]
  {
    UploadStageRun(env, download, objects, faults, digest, ts);
    PublishedStageChangesTwoKeys(objects, faults, download.body, HexDigest(digest(download.body)),
                                 ArtifactKey(download.contentDisposition), ts);
  }

  /** The upload stage's side of PublishChangesExactlyTwoKeys, over plain parameters. */
  lemma PublishedStageChangesTwoKeys(objects: map<string, seq<byte>>, faults: WriteFaults, body: seq<byte>,
                                     localHash: string, desired: string, ts: string)
    requires Publish(objects, faults, body, localHash, desired, ts).outcome.Published?
    ensures var e := Publish(objects, faults, body, localHash, desired, ts);
            var key := e.outcome.key;
            && key !in objects
            && e.objects.Keys == objects.Keys + {key, HashKey}
            && e.objects[HashKey] == EncodeUtf8(localHash)
            && (key != HashKey ==> e.objects[key] == body)
            && forall k :: k in objects && k != HashKey ==> e.objects[k] == objects[k]
  {
  }

  /** A failed archive write leaves the store, and so the stored fingerprint, as it was. */
  lemma FailedUploadKeepsHash(env: map<string, string>, download: Download, objects: map<string, seq<byte>>,
                              faults: WriteFaults, digest: seq<byte> -> seq<byte>, ts: string)
    requires Effect(env, download, objects, faults, digest, ts).outcome.Failed?
    requires Effect(env, download, objects, faults, digest, ts).outcome.failure.UploadFailed?
    ensures var e := Effect(env, download, objects, faults, digest, ts);
            e.objects == objects && e.writes == [] && StoredAt(e.objects, HashKey) == StoredAt(objects, HashKey)
  {
    UploadStageRun(env, download, objects, faults, digest, ts);
  }

  /**
   * A failed fingerprint write leaves the archive stored under a fresh key
   * but the old fingerprint in place, so the next run uploads the same
   * archive again.
   */
  lemma FailedHashSaveKeepsOldHash(env: map<string, string>, download: Download, objects: map<string, seq<byte>>,
                                   faults: WriteFaults, digest: seq<byte> -> seq<byte>, ts: string)
    requires Effect(env, download, objects, faults, digest, ts).outcome == Failed(HashSaveFailed)
    ensures download.Downloaded?
    ensures var e := Effect(env, download, objects, faults, digest, ts);
            var key := AllocateKey(objects.Keys, ArtifactKey(download.contentDisposition), ts);
            && key !in objects && e.writes == [key] && e.objects == objects[key := download.body]
            && (key != HashKey ==> StoredAt(e.objects, HashKey) == StoredAt(objects, HashKey))
  {
    UploadStageRun(env, download, objects, faults, digest, ts);
  }

  /** No run overwrites or removes an archived object: only the fingerprint key is ever replaced. */
  lemma ArchivedObjectsKept(env: map<string, string>, download: Download, objects: map<string, seq<byte>>,
                            faults: WriteFaults, digest: seq<byte> -> seq<byte>, ts: string)
    ensures var e := Effect(env, download, objects, faults, digest, ts);
            forall k :: k in objects && k != HashKey ==> k in e.objects && e.objects[k] == objects[k]
  {
    var e := Effect(env, download, objects, faults, digest, ts);
    if FromUploadStage(e.outcome) {
      UploadStageRun(env, download, objects, faults, digest, ts);
    }
  }

  /** A publish stores the fingerprint text and, under its own key, the archive. */
  lemma PublishStoresBoth(objects: map<string, seq<byte>>, faults: WriteFaults, body: seq<byte>,
                          localHash: string, desired: string, ts: string)
    requires Publish(objects, faults, body, localHash, desired, ts).outcome.Published?
    ensures var e := Publish(objects, faults, body, localHash, desired, ts);
            StoredAt(e.objects, HashKey) == Some(EncodeUtf8(localHash))
            && (e.outcome.key != HashKey ==> e.outcome.key in e.objects && e.objects[e.outcome.key] == body)
  {
  }

  /** The outcomes that only the upload stage produces. */
  predicate FromUploadStage(o: Outcome) {
    o.Published? || (o.Failed? && (o.failure.UploadFailed? || o.failure.HashSaveFailed?))
  }

  /** A run that ends in the upload stage went through every check and found a different fingerprint. */
  lemma UploadStageRun(env: map<string, string>, download: Download, objects: map<string, seq<byte>>,
                       faults: WriteFaults, digest: seq<byte> -> seq<byte>, ts: string)
    requires FromUploadStage(Effect(env, download, objects, faults, digest, ts).outcome)
    ensures Proceeds(env, download)
    ensures var remote := ReadRemoteHash(StoredAt(objects, HashKey));
            !remote.Undecodable? && remote != StoredHash(HexDigest(digest(download.body)))
    ensures Effect(env, download, objects, faults, digest, ts)
         == Publish(objects, faults, download.body, HexDigest(digest(download.body)),
                    ArtifactKey(download.contentDisposition), ts)
  {
  }

  /** After a publish the stored fingerprint is that of the object at the published key, unless the two keys coincide. */
  lemma HashDescribesPublishedArchive(env: map<string, string>, download: Download, objects: map<string, seq<byte>>,
                                      faults: WriteFaults, digest: seq<byte> -> seq<byte>, ts: string)
    requires Effect(env, download, objects, faults, digest, ts).outcome.Published?
    requires Effect(env, download, objects, faults, digest, ts).outcome.key != HashKey
    ensures var e := Effect(env, download, objects, faults, digest, ts);
            var key := e.outcome.key;
            key in e.objects
            && ReadRemoteHash(StoredAt(e.objects, HashKey)) == StoredHash(HexDigest(digest(e.objects[key])))
  {
    UploadStageRun(env, download, objects, faults, digest, ts);
    PublishStoresBoth(objects, faults, download.body, HexDigest(digest(download.body)),
                      ArtifactKey(download.contentDisposition), ts);
    SavedHashReadsBack(digest(download.body));
  }

  /** Running again on the same archive after a publish is a no-op: the fingerprint gates the upload. */
  lemma SecondRunSkips(env: map<string, string>, download: Download, objects: map<string, seq<byte>>,
                       faults: WriteFaults, digest: seq<byte> -> seq<byte>, ts: string, ts': string)
    requires Effect(env, download, objects, faults, digest, ts).outcome.Published?
    ensures var e := Effect(env, download, objects, faults, digest, ts);
            var again := Effect(env, download, e.objects, faults, digest, ts');
            again.outcome == Skipped && again.objects == e.objects && again.writes == []
  {
    UploadStageRun(env, download, objects, faults, digest, ts);
    var e := Effect(env, download, objects, faults, digest, ts);
    var localHash := HexDigest(digest(download.body));
    PublishStoresBoth(objects, faults, download.body, localHash, ArtifactKey(download.contentDisposition), ts);
    SavedHashReadsBack(digest(download.body));
    assert ReadRemoteHash(StoredAt(e.objects, HashKey)) == StoredHash(localHash);
  }

  /** The published key equals the fingerprint key only on a run that found no fingerprint. */
  lemma HashKeyClashOnlyOnFirstRun(env: map<string, string>, download: Download, objects: map<string, seq<byte>>,
                                   faults: WriteFaults, digest: seq<byte> -> seq<byte>, ts: string)
    requires Effect(env, download, objects, faults, digest, ts).outcome == Published(HashKey)
    ensures HashKey !in objects
  {
  }

  /**
   * The archive and the fingerprint share a prefix, so a server that names
   * its file `hash.txt` on a first run gets the archive stored at the
   * fingerprint key and immediately replaced by its own fingerprint.
   */
  lemma ArchiveNamedHashIsOverwritten(env: map<string, string>, body: seq<byte>, objects: map<string, seq<byte>>,
                                      digest: seq<byte> -> seq<byte>, ts: string)
    requires Validate(LoadConfig(env)).None?
    requires HashKey !in objects
    ensures var header := Attachment + Token + "\"" + "hash.txt" + "\"";
            var e := Effect(env, Downloaded(body, Some(header)), objects, WriteFaults(false, false), digest, ts);
            && e.outcome == Published(HashKey)
            && e.writes == [HashKey, HashKey]
            && e.objects == objects[HashKey := EncodeUtf8(HexDigest(digest(body)))]
  {
    HashNamedArchiveAllocatedAtHashKey(objects, ts);
    var h := EncodeUtf8(HexDigest(digest(body)));
    assert objects[HashKey := body][HashKey := h] == objects[HashKey := h];
  }

  /** The header `attachment; filename="hash.txt"` names the archive key `gtfs/hash.txt`, which is free on a first run. */
  lemma HashNamedArchiveAllocatedAtHashKey(objects: map<string, seq<byte>>, ts: string)
    requires HashKey !in objects
    ensures var header := Attachment + Token + "\"" + "hash.txt" + "\"";
            ArtifactKey(Some(header)) == HashKey && AllocateKey(objects.Keys, HashKey, ts) == HashKey
            && ReadRemoteHash(StoredAt(objects, HashKey)) == NoHash
  {
    var header := Attachment + Token + "\"" + "hash.txt" + "\"";
    QuotedFilenameRoundTrip("hash.txt");
    ChooseFilenameTakesMatch(Some(header), LocalGtfsFile);
  }

  /**
   * When the fingerprint write fails after an archive named `hash.txt` was
   * uploaded on a first run, the archive itself is left at the fingerprint
   * key.
   */
  lemma ArchiveNamedHashStranded(env: map<string, string>, body: seq<byte>, objects: map<string, seq<byte>>,
                                 digest: seq<byte> -> seq<byte>, ts: string)
    requires Validate(LoadConfig(env)).None?
    requires HashKey !in objects
    ensures var header := Attachment + Token + "\"" + "hash.txt" + "\"";
            var e := Effect(env, Downloaded(body, Some(header)), objects, WriteFaults(false, true), digest, ts);
            && e.outcome == Failed(HashSaveFailed)
            && e.writes == [HashKey]
            && e.objects == objects[HashKey := body]
  {
    HashNamedArchiveAllocatedAtHashKey(objects, ts);
  }

  // ---------------------------------------------------------------- fingerprint consistency

  /**
   * The fingerprint object, when present, reads back as the fingerprint of
   * some archived object other than itself.
   */
  ghost predicate Consistent(objects: map<string, seq<byte>>, digest: seq<byte> -> seq<byte>) {
    HashKey in objects ==>
      exists k :: k in objects && k != HashKey
                  && ReadRemoteHash(Some(objects[HashKey])) == StoredHash(HexDigest(digest(objects[k])))
  }

  /** Every candidate of a desired key other than the fingerprint key differs from it: candidates carry an `_`. */
  lemma AllocatedNeverHashKey(keys: set<string>, desired: string, ts: string)
    requires desired != HashKey
    ensures AllocateKey(keys, desired, ts) != HashKey
  {
    if AllocateKey(keys, desired, ts) != desired {
      AllocatedCandidateHasUnderscore(keys, desired, ts);
      HashKeyHasNoUnderscore();
    }
  }

  lemma HashKeyHasNoUnderscore()
    ensures '_' !in HashKey
  {
    assert HashKey == ['g', 't', 'f', 's', '/', 'h', 'a', 's', 'h', '.', 't', 'x', 't'];
  }

  /**
   * A run whose archive key is not the fingerprint key keeps the fingerprint
   * consistent, whatever it does: skip, fail, or publish.
   */
  lemma RunKeepsConsistent(env: map<string, string>, download: Download, objects: map<string, seq<byte>>,
                           faults: WriteFaults, digest: seq<byte> -> seq<byte>, ts: string)
    requires Consistent(objects, digest)
    requires download.Downloaded? ==> ArtifactKey(download.contentDisposition) != HashKey
    ensures Consistent(Effect(env, download, objects, faults, digest, ts).objects, digest)
  {
    var e := Effect(env, download, objects, faults, digest, ts);
    if FromUploadStage(e.outcome) {
      UploadStageRun(env, download, objects, faults, digest, ts);
      var key := AllocateKey(objects.Keys, ArtifactKey(download.contentDisposition), ts);
      AllocatedNeverHashKey(objects.Keys, ArtifactKey(download.contentDisposition), ts);
      if e.outcome.Published? {
        HashDescribesPublishedArchive(env, download, objects, faults, digest, ts);
        assert e.outcome.key == key;
      } else if e.outcome.failure.HashSaveFailed? {
        FailedHashSaveKeepsOldHash(env, download, objects, faults, digest, ts);
        if HashKey in e.objects {
          var k :| k in objects && k != HashKey
                   && ReadRemoteHash(Some(objects[HashKey])) == StoredHash(HexDigest(digest(objects[k])));
          assert k in e.objects && e.objects[k] == objects[k];
        }
      }
    }
  }

  /**
   * The clash breaks consistency: a first run whose archive is named
   * `hash.txt` and is unlike every stored object leaves a fingerprint that
   * describes no archived object.
   */
  lemma HashNamedArchiveBreaksConsistency(env: map<string, string>, body: seq<byte>,
                                          objects: map<string, seq<byte>>, digest: seq<byte> -> seq<byte>, ts: string)
    requires Validate(LoadConfig(env)).None?
    requires HashKey !in objects
    requires forall k :: k in objects ==> HexDigest(digest(objects[k])) != HexDigest(digest(body))
    ensures Consistent(objects, digest)
    ensures var header := Attachment + Token + "\"" + "hash.txt" + "\"";
            !Consistent(Effect(env, Downloaded(body, Some(header)), objects, WriteFaults(false, false), digest, ts).objects,
                        digest)
  {
    ArchiveNamedHashIsOverwritten(env, body, objects, digest, ts);
    FingerprintOfNoStoredObject(objects, body, digest);
  }

  /** A fingerprint stored next to objects that all have other fingerprints describes none of them. */
  lemma FingerprintOfNoStoredObject(objects: map<string, seq<byte>>, body: seq<byte>, digest: seq<byte> -> seq<byte>)
    requires HashKey !in objects
    requires forall k :: k in objects ==> HexDigest(digest(objects[k])) != HexDigest(digest(body))
    ensures !Consistent(objects[HashKey := EncodeUtf8(HexDigest(digest(body)))], digest)
  {
    SavedHashReadsBack(digest(body));
  }

  /**
   * Once the object at the fingerprint key is not UTF-8 text (an archive left
   * there), every later run that gets as far as the comparison fails with
   * exit status 1 and writes nothing.
   */
  lemma UndecodableHashBlocksRuns(env: map<string, string>, download: Download, objects: map<string, seq<byte>>,
                                  faults: WriteFaults, digest: seq<byte> -> seq<byte>, ts: string)
    requires Proceeds(env, download)
    requires HashKey in objects && DecodeUtf8(objects[HashKey]).None?
    ensures var e := Effect(env, download, objects, faults, digest, ts);
            e == RunEffect(Failed(RemoteHashUndecodable), objects, [], false) && ExitCode(e.outcome) == 1
  {
  }

  /** A failed check stops the run before the download is used or the store is touched. */
  lemma InvalidConfigTouchesNothing(env: map<string, string>, download: Download, objects: map<string, seq<byte>>,
                                    faults: WriteFaults, digest: seq<byte> -> seq<byte>, ts: string)
    requires Validate(LoadConfig(env)).Some?
    ensures var e := Effect(env, download, objects, faults, digest, ts);
            e == RunEffect(Failed(InvalidConfig(Validate(LoadConfig(env)).value)), objects, [], false)
            && ExitCode(e.outcome) == 1
  {
  }

  /** The local file remains after a run only when the download broke off after the file was created. */
  lemma LeftoverOnlyAfterBrokenDownload(env: map<string, string>, download: Download, objects: map<string, seq<byte>>,
                                        faults: WriteFaults, digest: seq<byte> -> seq<byte>, ts: string)
    ensures Effect(env, download, objects, faults, digest, ts).leftover <==>
              Validate(LoadConfig(env)).None? && download == DownloadFailed(true)
  {
  }
}
