# Carris GTFS saver — a verified model

The Carris GTFS saver downloads the Carris bus network's GTFS archive and
publishes it to an S3-compatible bucket. It publishes only when the archive
changed since the last run. A change is detected through a SHA-256
fingerprint kept next to the archives at `gtfs/hash.txt`. A new archive
is never stored over an existing object: when its key is taken, a
`_<timestamp>` suffix goes before the extension, and then
`_<timestamp>_<counter>` with the least free counter. The one exception is
the fingerprint key itself, which every publish rewrites (see below).

This project models that behaviour in Dafny and proves properties of it:

- `wrappers.dfy` — the `Option` type.
- `text.dfy` — the Python text operations the saver relies on:
  - strict UTF-8 decoding and encoding, with their round trip;
  - `str.strip()` with Python's whitespace set;
  - `hexdigest()`;
  - decimal rendering of the counter.
- `disposition.dfy` — the file name taken from a `Content-Disposition`
  header: the first match of `filename="?([^"]+)"?`, and the fallback to
  `GTFS_Carris.zip`.
- `config.dfy` — the settings read from the environment, and the three
  start-up checks in their order.
- `keys.dfy` — the key allocator's specification:
  - `rsplit` at `/` and at `.`;
  - the timestamped and counted candidate keys;
  - the key chosen for a given set of occupied keys, and why the search
    ends.
- `store.dfy` — the bucket as a class `ObjectStore`:
  - its objects are a map, and `Put` updates it in place;
  - a ghost log records the writes in order;
  - `GenerateUniqueKey` is the probing loop of `generate_unique_s3_key`,
    proved to return the allocator's key.
- `sync.dfy` — one run of `main`:
  - `Effect` is what a run does to the bucket and the local file;
  - `Run` performs the steps one at a time against an `ObjectStore` and is
    proved to have exactly that effect;
  - the exit status is `ExitCode`: 1 on every failure and 0 otherwise;
  - lemmas state the properties a run must have: skip exactly on an
    equal fingerprint, write the archive before the fingerprint, keep
    every archived object, and treat a second run on the same archive as
    a no-op.

Values the saver gets from outside are parameters of the model:

- the environment, as a map;
- the download result;
- the SHA-256 function, as `digest`;
- the formatted wall-clock time, as `ts`;
- which of the run's two writes the bucket fails, as `WriteFaults`: the
  archive upload, the fingerprint write, or both. Each write fails or
  succeeds on its own, even when both go to the same key.

Two behaviours of the code are easy to miss:

- The key prefix is the constant `gtfs/` (`carris_gtfs_saver.py:35`). It
  is not a configurable setting.
- The local file is not removed on every path. If the download fails after
  the file was opened, `main` never learns the file name, so the file
  stays, partly written or empty. `Effect` reports this as `leftover`.

The archive key and the fingerprint key share the `gtfs/` prefix. A server
that names its file `hash.txt` therefore gets its archive allocated at
`gtfs/hash.txt` on a run that finds no fingerprint:

- if the fingerprint write succeeds, it replaces the archive
  (`Sync.ArchiveNamedHashIsOverwritten`);
- if it fails, the archive stays at the fingerprint key
  (`Sync.ArchiveNamedHashStranded`). Every later run then reads the archive
  as the fingerprint. If it is not UTF-8 text, each of those runs exits
  with status 1 (`Sync.UndecodableHashBlocksRuns`). If it is, a later run
  whose fingerprint differs from the stripped text and whose two writes
  succeed publishes, and its fingerprint write replaces the archive
  (`Sync.PublishChangesExactlyTwoKeys`).

Outside this clash, the fingerprint stays consistent: when present, it
reads back as the fingerprint of some archived object
(`Sync.RunKeepsConsistent`). The clash is the one way to break that
(`Sync.HashNamedArchiveBreaksConsistency`).

## Model

| member | source | states |
|---|---|---|
| Text.DecodeFirst | carris_gtfs_saver.py:111 | one UTF-8 sequence is decoded strictly: the 1 to 4 bytes it consumes are exactly the shortest encoding of the decoded Unicode scalar value, so overlongs, surrogates and values above U+10FFFF are rejected; an ASCII byte decodes to itself |
| Text.DecodeUtf8 | carris_gtfs_saver.py:111 | `bytes.decode('utf-8')` accepts only bytes that are the encoding of the text it returns, which has at most as many characters as there are bytes |
| Text.DecodeUtf8Exact | carris_gtfs_saver.py:111 | bytes decode to a text exactly when they are its encoding, so every other byte string fails to decode |
| Text.EncodeUtf8 | carris_gtfs_saver.py:142 | `str.encode('utf-8')` yields at least one byte per character |
| Text.DecodeEncodeUtf8 | carris_gtfs_saver.py:142 | decoding what was encoded gives back the text, for every string |
| Text.Strip | carris_gtfs_saver.py:111 | `str.strip()` returns a slice of the input with no whitespace at either end, and only whitespace is removed |
| Text.IsSpace | carris_gtfs_saver.py:111 | Python's `str.isspace()` set: in ASCII it is the space, tab to carriage return, and 0x1C to 0x1F; no digit or letter is whitespace |
| Text.StripUnpadded | carris_gtfs_saver.py:111 | text with no whitespace at its ends is left unchanged by strip |
| Text.StripIdempotent | carris_gtfs_saver.py:111 | stripping twice is stripping once |
| Text.HexDigest | carris_gtfs_saver.py:46 | `hexdigest()` is two lowercase hex characters per byte, high nibble first |
| Text.HexDigestHasNoSpace | carris_gtfs_saver.py:46 | a hex digest contains no whitespace, so stripping it changes nothing |
| Text.Decimal | carris_gtfs_saver.py:207-209 | the counter in an f-string is a non-empty run of decimal digits that starts with `0` only for zero |
| Text.DecimalRoundTrip | carris_gtfs_saver.py:207-209 | reading the rendered digits back gives the counter |
| Text.DecimalInjective | carris_gtfs_saver.py:207-209 | distinct counters render differently |
| Disposition.MatchAt | carris_gtfs_saver.py:66 | there is a match at a position exactly when `filename=` starts there and the character after it and the optional quote exists and is not a quote; the capture is then the non-empty, quote-free, maximal run that starts at that character |
| Disposition.FirstMatchFrom | carris_gtfs_saver.py:66-68 | a match found from a position is non-empty and has no quote |
| Disposition.FirstMatchFromIsLeftmost | carris_gtfs_saver.py:66-68 | the search returns the match at the least position that has one, and none when no later position has one |
| Disposition.ExtractFilename | carris_gtfs_saver.py:66-68 | a name the pattern extracts is non-empty, quote-free and shorter than the header by at least the length of `filename=` |
| Disposition.HasToken | carris_gtfs_saver.py:63 | `'filename=' in header` holds exactly when `filename=` is a substring of the header |
| Disposition.ExtractFilenameIsLeftmostMatch | carris_gtfs_saver.py:66-68 | `re.findall(...)[0]` is the leftmost match; there is no result exactly when no position matches |
| Disposition.ChooseFilename | carris_gtfs_saver.py:60-68 | with no header the default name is kept; otherwise the name is the default or the header's extracted name, and never empty when the default is not |
| Disposition.ChooseFilenameTakesMatch | carris_gtfs_saver.py:63-68 | whenever the pattern finds a name, that name is used |
| Disposition.TokenTestIsShortcut | carris_gtfs_saver.py:63 | the `'filename=' in` test changes no result: without the token the pattern finds nothing |
| Disposition.QuotedFilenameRoundTrip | carris_gtfs_saver.py:64-68 | `attachment; filename="<name>"` yields `<name>` for every non-empty quote-free name |
| Disposition.BareFilenameRoundTrip | carris_gtfs_saver.py:66-68 | `attachment; filename=<name>` yields `<name>`, running to the end of the header |
| Disposition.EmptyQuotedNameIsSkipped | carris_gtfs_saver.py:66 | `filename=` followed by a quote and then another quote or the end of the header is no match at that position |
| Config.Validate | carris_gtfs_saver.py:222-232 | a missing bucket, then incomplete credentials for a custom endpoint, then a missing URL: the run is rejected exactly when one check fails, and the first failing check is the one reported |
| Config.LoadConfig | carris_gtfs_saver.py:26-34 | each setting is the environment variable's value when set, else its default: empty for the URL, endpoint and bucket, `1` for the agency, `us-east-1` for the region |
| Config.NoEndpointNeedsNoCredentials | carris_gtfs_saver.py:226 | with `S3_ENDPOINT_URL` unset or empty, the credentials are optional |
| Config.UnsetBucketRejectedFirst | carris_gtfs_saver.py:222-224 | in every environment where `S3_BUCKET_NAME` is unset or empty, the bucket check is the failure reported, whatever else is set |
| Keys.RSplit1 | carris_gtfs_saver.py:185 | `rsplit(sep, 1)` gives one piece exactly when the separator is absent; otherwise the two pieces and the separator rebuild the input, and the tail has no separator |
| Keys.SplitAtLastUnique | carris_gtfs_saver.py:185 | a split at the last separator is unique |
| Keys.FileName | carris_gtfs_saver.py:185-190 | the file name has no `/`, and with the path prefix it rebuilds the key |
| Keys.SplitName | carris_gtfs_saver.py:193 | stem and extension rebuild the file name; a `/`-free name gives well-formed parts |
| Keys.ParseKey | carris_gtfs_saver.py:185-193 | the parts of any key are well formed: no `/` in the stem or the extension, and no `.` in the extension |
| Keys.ParseKeyRecombines | carris_gtfs_saver.py:185-199 | the parts rebuild the key, with the `/` restored when the key has one |
| Keys.ParseJoin | carris_gtfs_saver.py:185-199 | taking apart a key assembled from well-formed parts gives those parts back |
| Keys.CandidateShapes | carris_gtfs_saver.py:194-210 | the candidates are `prefix/stem_ts.ext` and `prefix/stem_ts_n.ext`, without the `.ext` when there is no extension and without the `/` when there is no prefix |
| Keys.StampedKey | carris_gtfs_saver.py:185-199 | the timestamped candidate keeps the key's directory and stem, follows them with `_`, and is `1 + len(ts)` longer than the directory, stem and extension |
| Keys.CountedKey | carris_gtfs_saver.py:204-210 | a counted candidate keeps the key's directory and stem, follows them with `_`, and is never the timestamped candidate |
| Keys.CountedKeyInjective | carris_gtfs_saver.py:206-210 | distinct counters give distinct candidate keys |
| Keys.CountersBound | carris_gtfs_saver.py:204-213 | counters 1..n can all be taken only if the bucket holds at least n keys, so the counter loop ends |
| Keys.FirstFreeCounter | carris_gtfs_saver.py:204-213 | the counter the loop stops at is free, is the least free one, and is at least the start value |
| Keys.AllocateKey | carris_gtfs_saver.py:174-216 | the chosen key is free; it is the desired key if that is free, else the timestamped key if that is free, else a counted key whose lower counters are all taken |
| Keys.AllocateKeyKeepsOnlyFreeKey | carris_gtfs_saver.py:177-178 | the desired key comes back unchanged exactly when it is free |
| Keys.AllocatedCandidateHasUnderscore | carris_gtfs_saver.py:194-210 | a key the allocator returns in place of the desired one carries an `_` |
| Store.ObjectStore.Exists | carris_gtfs_saver.py:162-171 | the probe answers true exactly when the key is stored |
| Store.ObjectStore.Get | carris_gtfs_saver.py:107-110 | reading returns the stored bytes, or nothing for an absent key |
| Store.ObjectStore.Put | carris_gtfs_saver.py:123-149 | a write succeeds exactly when the bucket does not fail it; on success it stores the bytes at the key, logs the key and changes nothing else; on failure nothing changes |
| Store.ObjectStore.GenerateUniqueKey | carris_gtfs_saver.py:174-216 | the probing loop returns the allocator's key, which is free in the bucket |
| Sync.ReadRemoteHash | carris_gtfs_saver.py:107-120 | a missing fingerprint object means no fingerprint, not an error; undecodable bytes are an error; otherwise the decoded, stripped text is used |
| Sync.SavedHashReadsBack | carris_gtfs_saver.py:135-144 | a saved fingerprint is read back as exactly the same fingerprint |
| Sync.Publish | carris_gtfs_saver.py:269-275 | the upload stage never skips and never leaves the local file |
| Sync.Run | carris_gtfs_saver.py:219-287 | one run's outcome, bucket contents, write log and leftover file are exactly those `Effect` gives for the bucket it started from and the write failures it met |
| Sync.Effect | carris_gtfs_saver.py:219-287 | one run of `main`: at most two writes, and the bucket changes exactly when a write went through; a leftover local file comes only with a failed download |
| Sync.Compare | carris_gtfs_saver.py:257-266 | the run skips exactly when the stored fingerprint equals the local one, and fails on the comparison exactly when the stored object is not UTF-8 |
| Sync.ArtifactKey | carris_gtfs_saver.py:243 | the archive key is `gtfs/` followed by a non-empty name, `gtfs/GTFS_Carris.zip` without a header |
| Sync.ExitCode | carris_gtfs_saver.py:222-287 | the exit status is 0 or 1, and 1 exactly on a failure |
| Sync.UploadStageRun | carris_gtfs_saver.py:257-275 | a run that ended in the upload stage passed every check and found a different fingerprint |
| Sync.PublishStoresBoth | carris_gtfs_saver.py:272-275 | a publish stores the archive under its key and the fingerprint text at `gtfs/hash.txt` |
| Sync.SkipsExactlyOnMatchingHash | carris_gtfs_saver.py:259-264 | a run skips exactly when the checks pass and the stored fingerprint equals the archive's; a skip writes nothing |
| Sync.MissingHashPublishes | carris_gtfs_saver.py:114-117 | with no stored fingerprint, a valid run always attempts the upload under the allocated key |
| Sync.ArchiveWrittenBeforeHash | carris_gtfs_saver.py:269-275 | a run writes nothing, the archive alone, or the archive and then the fingerprint |
| Sync.HashWrittenLast | carris_gtfs_saver.py:272-275 | a write to the fingerprint key is the second and last write, or else the archive upload itself on a run that found no fingerprint and whose fingerprint write failed |
| Sync.PublishChangesExactlyTwoKeys | carris_gtfs_saver.py:268-275 | a publish adds the archive at a previously free key (unless the archive was allocated at `gtfs/hash.txt`, where the fingerprint replaces it at once), sets the fingerprint, and leaves every other object unchanged |
| Sync.FailedUploadKeepsHash | carris_gtfs_saver.py:271-272 | a failed upload leaves the bucket and its fingerprint as they were |
| Sync.FailedHashSaveKeepsOldHash | carris_gtfs_saver.py:274-275 | a failed fingerprint write leaves the new archive stored at its free key and, unless the archive was allocated at `gtfs/hash.txt`, the old fingerprint in place |
| Sync.ArchivedObjectsKept | carris_gtfs_saver.py:268-275 | no run changes or removes any object other than the fingerprint |
| Sync.HashDescribesPublishedArchive | carris_gtfs_saver.py:272-275 | after a publish, unless the archive was allocated at `gtfs/hash.txt`, the stored fingerprint reads back as the fingerprint of the object at the published key |
| Sync.SecondRunSkips | carris_gtfs_saver.py:257-264 | a second run with the same archive after a publish skips and writes nothing |
| Sync.HashKeyClashOnlyOnFirstRun | carris_gtfs_saver.py:243-244 | an archive can be published at `gtfs/hash.txt` only when no fingerprint was stored |
| Sync.ArchiveNamedHashIsOverwritten | carris_gtfs_saver.py:243-275 | for every bucket without `gtfs/hash.txt`, a server-supplied file name `hash.txt` stores the archive at the fingerprint key, and the fingerprint then replaces it |
| Sync.HashNamedArchiveAllocatedAtHashKey | carris_gtfs_saver.py:243-244 | the header `attachment; filename="hash.txt"` gives the archive key `gtfs/hash.txt`, which the allocator keeps when it is free |
| Sync.ArchiveNamedHashStranded | carris_gtfs_saver.py:243-275 | for every bucket without `gtfs/hash.txt`, a server-supplied file name `hash.txt` whose fingerprint write fails leaves the archive at the fingerprint key |
| Sync.AllocatedNeverHashKey | carris_gtfs_saver.py:174-216 | a desired key other than `gtfs/hash.txt` is never allocated as `gtfs/hash.txt` |
| Sync.RunKeepsConsistent | carris_gtfs_saver.py:243-275 | a run whose archive key is not `gtfs/hash.txt` keeps the fingerprint consistent: if present, it reads back as the fingerprint of some archived object |
| Sync.HashNamedArchiveBreaksConsistency | carris_gtfs_saver.py:243-275 | a first run with a server-supplied name `hash.txt` and an archive unlike every stored object turns a consistent bucket into an inconsistent one |
| Sync.UndecodableHashBlocksRuns | carris_gtfs_saver.py:107-120 | when the object at the fingerprint key is not UTF-8 text, every run that reaches the comparison exits with status 1 and writes nothing |
| Sync.InvalidConfigTouchesNothing | carris_gtfs_saver.py:222-232 | a failed check exits with status 1 before the bucket or the download is touched |
| Sync.LeftoverOnlyAfterBrokenDownload | carris_gtfs_saver.py:282-287 | the local file remains exactly when the checks passed and the download broke off after the file was created, even if nothing was written to it |

## Left out

- HTTP (`requests.get`, its status check and its 60-second timeout) is not modelled. The download is a parameter: a body with an optional `Content-Disposition` header, or a failure. A failure records whether the local file had been created.
- The streamed write of the local file is left out. Writing it and reading it back for hashing are taken to give the downloaded bytes unchanged.
- A failure to read the file while hashing is left out.
- `response.headers` looks the `Content-Disposition` name up case-insensitively; the model is given the header's value directly.
- The model assumes the local file can always be created under the server's name. In the source, a name `open` rejects fails the run with status 1 before the bucket is read; the model publishes instead.
- SHA-256 is a function parameter (`digest`). `hexdigest()` is modelled concretely.
- `datetime.now().strftime(...)` is a parameter (`ts`). The model uses one timestamp for all candidates, as the source does.
- `get_s3_client`, the boto3 client and its credential chain are not modelled. `AGENCY_ID` is read but not used. `S3_REGION` selects the client's region, which does not affect the modelled outcome.
- Bucket errors other than "not found" are left out: a failing `head_object`, or a `get_object` failing for a reason other than `NoSuchKey`. Reads in the model either find the key or do not.
- `cleanup_local_file` is modelled only as whether the local file remains. A failed removal is only logged by the source, so it is left out.
- Logging is not modelled.
- Concurrent runs against the same bucket are not modelled. The check-then-write race between two runs is outside the model.
- Store.ObjectStore.GenerateUniqueKey: probes of the bucket are not logged, so the model does not state how many `head_object` calls the loop makes.
