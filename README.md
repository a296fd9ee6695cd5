# autoupdater, modelled in Dafny

This project models the core of the `autoupdater` Go repository. The
repository has two sides that meet at a public storage bucket:

- **Updater** (`updater.go`). A launcher fetches the variant's version
  marker (`Meta`: a current version and the URL of its archive) from
  `https://storage.googleapis.com/<storage>/<variant>/meta.json`. It compares the
  marker with the marker stored in the local `.meta` file. When the remote
  version is newer, or when there is no local marker, it downloads the
  archive into a temporary file named after the last URL segment and
  extracts that zip into the working directory. Afterwards it writes the
  remote marker to `.meta` and starts the application.
- **Publisher** (`publisher.go`). It packs the build outputs into a zip
  archive. Entry names are the paths below the output directory, with a
  leading `.` added when the name starts with a separator. It uploads the
  archive under `<app>/app_v<version>.zip` and makes it public. It then
  points the app's `meta.json` object at the archive's public URL and makes that
  public too. It also builds the updater binary with the bucket, variant,
  version and entry point baked in through `-ldflags -X` assignments.

The model is split by concern:

| module | file | what it holds |
|---|---|---|
| `Wrappers` | wrappers.dfy | `Option` and `Result` |
| `Text` | text.dfy | `strings.Split`, last path segment, `strings.Join`, decimal digits |
| `SemVer` | semver.dfy | version parsing and `GreaterThan` (`go-version` restricted to `major.minor.patch`) |
| `MetaStore` | meta.dfy | `Meta`, `DefaultMeta`, the local marker's encoding and `GetLocalMeta`'s reading of it |
| `FileSystem` | filesystem.dfy | the working directory as a map from cleaned paths to nodes; `filepath.Join`, `filepath.Dir`, `MkdirAll`, `OpenFile(O_TRUNC)`, `Remove` |
| `Extraction` | extraction.dfy | what extracting a zip does to the directory, entry by entry |
| `Naming` | naming.dfy | object keys and public URLs |
| `UpdateProtocol` | protocol.dfy | `CheckUpdate` and `RunUpdate` as functions of the machine state and the replies received, with their properties |
| `AutoUpdater` | updater.dfy | the `Updater` as a class whose methods change the marker file, the directory and the request log step by step, each proved against the protocol functions |
| `Publisher` | publisher.dfy | archive entry names, the packing loop, the `-ldflags` string, and the `AppArchiver` and `Publiser` classes over a bucket |
| `EndToEnd` | endtoend.dfy | what a client sees of a bucket after a publish, and a publish followed by a fresh client's first and second runs |

The network and the storage service are inputs. A `RemoteReply` is what
one marker GET returned (transport error, or a status with a decoded
body). A `Download` is what the archive GET returned. A `Bucket` holds the
objects and the set of public keys. Each run records the URLs it requested,
so "no transfer" is a statement about that log.

Where the specification of the repository and its code disagree, the model
follows the code:

- A corrupt `.meta` is not treated as absent. `OpenMetaFile` discards the
  decode error and returns an empty `Meta`. Its version then fails to parse,
  and `GreaterThan` on the nil version panics (`UpdateProtocol.CorruptLocalMarkerPanics`).
- A 404 on the marker is as fatal as any other non-200 status (`UpdateProtocol.FetchMeta`).
- The status of the archive download is never checked. An error page is
  saved and then fails to open as a zip (`UpdateProtocol.DownloadStatusIgnored`,
  `UpdateProtocol.NonArchivePanics`).
- On the first run, the marker stored in `.meta` comes from a second fetch
  of the marker, while the archive applied is the one named by the first
  fetch. `.meta` equals the applied marker only when both fetches agree
  (`UpdateProtocol.BootstrapIsApply`, `UpdateProtocol.BootstrapAppliesRemote`).
- The publisher never closes its `zip.Writer`, so the uploaded archive has
  no central directory and no client can open it (see "## Findings"). The
  model keeps both the publish as written (`Publisher.Publiser.Run`) and the
  corrected one (`Publisher.Publiser.RunClosingWriter`), on which the
  end-to-end installation lemmas are stated.
- The first run stores its marker before applying it, and never stores it
  again. A marker whose version does not parse is therefore kept, and the
  next run panics (`UpdateProtocol.UnparsableRemoteVersionFailsLater`).

## Model

| member | source | states |
|---|---|---|
| MetaStore.DefaultMeta | updater.go:26-30 | the default marker has version 1.0.0 and no archive URL |
| MetaStore.DecodeEncodeMeta | updater.go:220-229 | decoding what `CreateMetaFile` encodes gives back the same marker |
| MetaStore.LoadAfterSave | updater.go:42-54 | reading the local marker right after writing `m` gives `m` |
| MetaStore.CorruptFileLoadsEmpty | updater.go:211-212 | an undecodable `.meta` loads as the empty marker, whose version does not parse |
| Naming.MetaUrl | updater.go:38-40 | the updater's marker URL is the public URL of the publisher's marker key |
| Naming.TempNameOfPublishedArchive | updater.go:130-131 | the temporary file of a published archive is `app_v<version>.zip` |
| Naming.ArchiveKeyIsNeverMetaKey | publisher.go:96 | an archive upload never overwrites any app's marker object |
| Naming.ArchiveKeysAreDistinct | publisher.go:96 | two versions of one app are stored under two different keys |
| Text.LastSegment | updater.go:130-131 | the result is the separator-free suffix that follows the last separator, or the whole string |
| Text.SplitLastIsLastSegment | updater.go:130-131 | the last element of `strings.Split` is that suffix |
| Text.SplitJoin | updater.go:104-105 | splitting a join of separator-free pieces gives back the pieces |
| Text.LastPiece | publisher.go:289-291 | the last piece of `strings.Split` exists unless both string and separator are empty |
| Text.LastPieceWithoutOccurrence | publisher.go:289-291 | a string without the separator splits into itself |
| Text.LastPieceAfterPrefix | publisher.go:289-291 | a string that is the separator followed by a separator-free rest has that rest as last piece |
| Text.DecimalRoundTrip | updater.go:104-105 | a decimal rendering parses back to its number |
| SemVer.ParseFormat | updater.go:104-105 | a version's text parses back to that version exactly when every segment fits in an `int64`; with a larger segment it is no version, as `go-version` rejects it |
| SemVer.GreaterThanIsStrictTotalOrder | updater.go:106 | `GreaterThan` is irreflexive, asymmetric, transitive and total on distinct versions |
| SemVer.EmptyIsNotAVersion | updater.go:104-105 | the empty version string does not parse |
| FileSystem.TrimTrailingSlash | updater.go:157 | the trimmed path is a prefix of the original, every removed character is a slash, and it ends in a slash only when it is a single character |
| FileSystem.ParentAncestors | updater.go:164 | the directories `MkdirAll(filepath.Dir(p))` creates are ancestors of `p`, each shorter than `p` |
| FileSystem.MkdirAll | updater.go:164-166 | fails exactly for an empty path or when an ancestor is a file; `.`, `..` and `/` are found in place; otherwise adds the missing ancestors as directories and changes nothing else |
| FileSystem.OpenTruncate | updater.go:168-171 | fails exactly for an empty path, `.`, `..`, `/` or a directory; otherwise the path is added if missing and holds an empty file, with the given mode when created and its own mode when it existed, and every other node is unchanged |
| FileSystem.Remove | updater.go:133 | removes a file at a non-empty path and nothing else |
| Extraction.Written | updater.go:178-180 | a copy writes all of an intact entry's bytes, and at most a prefix of them otherwise |
| Extraction.ExtractFileEffect | updater.go:164-180 | a file entry that extracts leaves its data at its path, only adds the path and its ancestors, and keeps every other node |
| Extraction.ExtractEntryEffect | updater.go:157-180 | a directory entry never fails; no entry removes a node, and one adds only its joined path and ancestors and keeps every other node |
| Extraction.ExtractAppend | updater.go:156-185 | extracting a list then more entries is extracting the first list and, if it succeeded, continuing from its tree |
| Extraction.ExtractFrame | updater.go:156-185 | extraction never removes a node, whether it succeeds or fails, and changes only paths the entries touch |
| Extraction.ExtractFailsAtFirstFailure | updater.go:156-185 | the first failing entry's error is the result, and later entries are not extracted |
| Extraction.NewFileStep | updater.go:164-180 | an intact file entry at a new path creates that file with the entry's data and mode |
| Extraction.BinDirectoryStep | updater.go:159-162 | a `bin/` directory entry creates the `bin` directory |
| Extraction.BinFileStep | updater.go:164-180 | a `bin/app.exe` entry after it creates the file inside it |
| Extraction.ExtractBinApp | updater.go:156-185 | extracting `bin/` and `bin/app.exe` into an empty directory gives exactly that directory and file |
| UpdateProtocol.FetchMeta | updater.go:66-79 | a marker fetch succeeds exactly on a 200 reply, with the decoded marker or the empty marker |
| UpdateProtocol.TempFileName | updater.go:130-131 | the temporary file name is a slash-free suffix of the archive URL, preceded by a slash unless it is the whole URL |
| UpdateProtocol.RunUpdateSpec | updater.go:117-146 | `.meta` is untouched unless a response is saved under the name `.meta`, which deletes it; logs the archive URL once the request is built; a transport failure panics and leaves the directory alone; a response is saved (unless the name is empty, `.`, `..` or a directory), extracted, and the temporary file removed also on panic |
| UpdateProtocol.TransferIffNewer | updater.go:104-111 | with both markers readable, the archive is requested if and only if the remote version is greater |
| UpdateProtocol.NoUpdateUnlessNewer | updater.go:104-113 | when the remote version is not greater, the run only requests the marker and stores the remote marker |
| UpdateProtocol.ReturnStoresRemoteMarker | updater.go:113 | after a run that returns, the local marker reads back as the remote marker |
| UpdateProtocol.PanicKeepsLocalMarker | updater.go:106-113 | a run that panics leaves an existing local marker untouched, unless the archive was requested and saved under the name `.meta`, which removes the marker |
| UpdateProtocol.BootstrapIsApply | updater.go:88-102 | without a local marker, the run stores the second fetch and applies the first fetch's archive |
| UpdateProtocol.BootstrapAppliesRemote | updater.go:88-102 | without a local marker, the remote archive is requested whatever the version; `.meta` then holds the second fetch, unless the archive was saved under the name `.meta`, which leaves no marker for the next run |
| UpdateProtocol.CorruptLocalMarkerPanics | updater.go:104-106 | a corrupt local marker makes the run panic after the marker fetch, changing nothing else |
| UpdateProtocol.SecondRunIsNoOp | updater.go:104-113 | after a run that returns, a run against the same marker only requests the marker and changes nothing (on a first run, when the archive is not saved as `.meta`) |
| UpdateProtocol.UnparsableRemoteVersionFailsLater | updater.go:88-106 | a first run with an unparsable remote version stores that marker, so the next run panics (when the archive is not saved as `.meta`) |
| UpdateProtocol.DownloadStatusIgnored | updater.go:125-141 | the status of the archive download does not change the run |
| UpdateProtocol.UnopenableDownloadPanics | updater.go:132-145 | whenever the saved download cannot be opened as a zip, the run panics with the open failure and leaves the directory as it was apart from the removed temporary file |
| UpdateProtocol.RemoveSaved | updater.go:132-133 | removing the temporary file after the download was saved into it leaves the same directory as removing it without saving |
| UpdateProtocol.NonArchivePanics | updater.go:141-145 | a downloaded body that is not a well-formed zip (an error page, an unterminated archive) makes the run panic, and the deferred removal takes the temporary file away |
| UpdateProtocol.UncreatableTempFilePanics | updater.go:130-145 | when the temporary name is empty, `.`, `..` or an existing directory, nothing is saved and the run panics whatever was downloaded |
| AutoUpdater.Updater.constructor | updater.go:32-36 | a fresh updater holds the given configuration, marker file and directory, and has requested nothing |
| AutoUpdater.Updater.MetaUrl | updater.go:38-40 | the marker URL is the public URL of `<variant>/meta.json` in the storage bucket |
| AutoUpdater.Updater.GetLocalMeta | updater.go:42-54 | fails exactly when `.meta` is missing; a corrupt one reads as the empty marker |
| AutoUpdater.Updater.GetRemoteMeta | updater.go:56-80 | logs the marker URL, changes nothing else, and returns what `FetchMeta` gives for the reply |
| AutoUpdater.Updater.CreateMetaFile | updater.go:220-229 | `.meta` afterwards reads back as the given marker, and nothing else changes |
| AutoUpdater.Updater.ExtractZipFile | updater.go:148-186 | the loop leaves the directory and error that `ExtractZip` gives |
| AutoUpdater.Updater.ExtractEntryInto | updater.go:157-180 | one loop iteration leaves the directory and error that `ExtractEntry` gives |
| AutoUpdater.Updater.ExtractFileInto | updater.go:164-180 | a file entry's steps leave the directory and error that `ExtractFile` gives |
| AutoUpdater.Updater.RunUpdate | updater.go:117-146 | outcome and new state are those of `RunUpdateSpec` |
| AutoUpdater.Updater.CheckUpdate | updater.go:82-115 | outcome and new state are those of `CheckUpdateSpec` |
| AutoUpdater.Updater.Bootstrap | updater.go:88-102 | outcome and new state are those of the no-local-marker branch |
| AutoUpdater.Updater.Compare | updater.go:104-114 | outcome and new state are those of the version-comparison branch |
| AutoUpdater.Updater.Run | updater.go:231-234 | runs `CheckUpdate`, and starts the entry point exactly when it returned |
| Publisher.EntryName | publisher.go:167-170 | the entry name never starts with a separator; it is the path itself, or the path behind one added `.` |
| Publisher.BuildDestination | publisher.go:289-291 | the destination is missing only for an empty path and output directory; a path without the directory inside it is kept whole |
| Publisher.DestinationUnderOutputDir | publisher.go:289-291 | a build path under the output directory gives the part after it |
| Publisher.ArchiveEntry | publisher.go:166-194 | an entry is made exactly when the destination exists and the file is on disk, with the normalised name, the file's bytes and mode 0666 |
| Publisher.HandlerStep | publisher.go:213-221 | a step succeeds exactly when the build succeeded, its destination exists and its output is on disk; the entry then has the normalised name, the output's bytes, mode 0666 and is intact; a failed build yields that build's error |
| Publisher.PackInOrder | publisher.go:213-222 | the packed entries are the successful steps' entries in order, up to the first failure |
| Publisher.PackStopsAtFirstFailure | publisher.go:213-222 | packing fails exactly when some step fails, with the first failure's error |
| Publisher.AssignmentStep | publisher.go:238-241 | appending an `-X 'name=value'` assignment adds its flag and its quoted value as pieces |
| Publisher.FirstAssignment | publisher.go:238 | a single assignment splits on quotes into the flag and `name=value` |
| Publisher.NextAssignment | publisher.go:239-241 | each further assignment adds the flag and `name=value` after a space |
| Publisher.LdFlagsAssignments | publisher.go:238-241 | the flags set `main.Variant`, `main.Storage`, `main.Version` and `main.AppEntryPoint` to the given values, in that order |
| Publisher.StripCurrentDirKeepsLastSegment | publisher.go:244 | cleaning leading `./` elements keeps a path's last segment |
| Publisher.UpdaterBinaryInOutputDir | publisher.go:244 | for any output directory, `./dist` included, the updater binary is `updater_<variant>.exe` directly inside it; the path is the directory and the name, cleaned of leading `./` |
| Publisher.AfterAcl | publisher.go:83-86 | a successful ACL call makes the object public, a failed one leaves it private, and no other object changes |
| Publisher.AppArchiver.constructor | publisher.go:129-143 | the archiver starts with no marker and the given bucket |
| Publisher.AppArchiver.UploadMeta | publisher.go:61-88 | the marker object is overwritten with the held marker, is public exactly when its ACL call succeeded, and the error reports that call |
| Publisher.AppArchiver.GetMeta | publisher.go:38-59 | a failed read installs and uploads the default marker; a successful one leaves the marker decoded from the stored object (the written marker, or the empty one for anything else) and changes nothing |
| Publisher.AppArchiver.UploadArchive | publisher.go:90-123 | the archive is written under its versioned key; on an ACL failure nothing else changes; otherwise the marker points at the archive's public URL and is uploaded, ignoring its error |
| Publisher.UploadedMarkerPointsAtArchive | publisher.go:96-121 | after a publish whose archive ACL succeeds, the stored marker names the version and the public URL of the public archive |
| Publisher.FailedArchiveAclKeepsMarker | publisher.go:111-114 | after an archive ACL failure, the marker object is as before and the archive stays private |
| Publisher.Publiser.constructor | publisher.go:198-205 | the publisher holds its configuration and an empty archive |
| Publisher.Publiser.AppendFile | publisher.go:289-292 | adds the build output's archive entry, or reports why it cannot |
| Publisher.Publiser.HandleBuild | publisher.go:214-221 | one pass of the loop: a handler error or append failure leaves the archive as it was and reports that step's error; otherwise the step's entry is appended |
| Publisher.PackAdvance | publisher.go:218-221 | a successful step moves its entry from the rest of the loop onto what has been written, keeping the final archive unchanged |
| Publisher.PackStop | publisher.go:215-221 | a failing step ends the loop with its error and only the entries written before it |
| Publisher.Publiser.Package | publisher.go:213-222 | the loop leaves the archive and error of packing the build steps in order |
| Publisher.Publiser.Run | publisher.go:207-227 | a failed updater build, packing or storage client panics before any upload; otherwise the packed entries are uploaded as an unterminated archive (the zip.Writer is never closed) and the bucket is as `Uploaded` describes |
| Publisher.Publiser.RunClosingWriter | publisher.go:207-227 | the same run with the close function closing the zip.Writer first: the packed entries are uploaded as a well-formed zip |
| Publisher.Publiser.Publish | publisher.go:207-227 | the shared steps of both: panics before any upload on a build, pack or client failure; otherwise uploads the archive closed or unterminated as asked |
| EndToEnd.ObjectAt | updater.go:38-40 | a URL that names an object is that object's public URL |
| EndToEnd.ObjectAtPublicUrl | updater.go:38-40 | a public URL names its own key |
| EndToEnd.ServeMarker | updater.go:70-75 | the reply is 200 exactly when the URL names an existing public object of the bucket |
| EndToEnd.ServeArchive | updater.go:125-141 | a zip body is served only with status 200 |
| EndToEnd.PublishedMarkerReachesUpdater | publisher.go:115-121 | after a fault-free publish, the updater's marker fetch returns the published marker |
| EndToEnd.PublishedArchiveReachesUpdater | publisher.go:111-114 | the archive URL in that marker serves the uploaded archive |
| EndToEnd.PrivateMarkerStopsUpdater | publisher.go:83-86 | when the marker's ACL fails, the updater's marker fetch fails |
| EndToEnd.PackSingleOutput | publisher.go:289-292 | packing the single output `<dir>/bin/app.exe` gives the one entry `./bin/app.exe` |
| EndToEnd.AppPaths | updater.go:157-164 | `./bin/app.exe` extracts to `bin/app.exe`, whose parent is `bin` |
| EndToEnd.FileInNewDirectoryStep | updater.go:157-180 | a file in a new top-level directory creates that directory and the file |
| EndToEnd.AppEntryStep | updater.go:157-180 | the `./bin/app.exe` entry creates `bin` and `bin/app.exe` with its data |
| EndToEnd.ExtractApp | updater.go:156-185 | extracting the one-entry archive succeeds with exactly that addition |
| EndToEnd.SuccessfulApply | updater.go:117-146 | a download into a fresh, creatable temporary file that extracts returns with the extracted tree minus the temporary file; `.meta` is kept unless that file was named `.meta` |
| EndToEnd.ApplyAppArchive | updater.go:130-145 | applying the app archive in an empty directory leaves `bin` and `bin/app.exe` |
| EndToEnd.WithoutTempFile | updater.go:133 | removing the temporary archive leaves only the extracted nodes |
| EndToEnd.PublishedArchiveKeepsMarker | publisher.go:96 | the temporary file of a published archive, `app_v<version>.zip`, is never the marker `.meta`, so applying it keeps the marker |
| EndToEnd.ApplyPublishedArchive | updater.go:117-146 | applying the published archive installs `bin/app.exe` and requests only the archive URL |
| EndToEnd.FreshClientApplies | updater.go:88-102 | a client without `.meta` stores the published marker, installs the app and requests the marker twice and the archive once |
| EndToEnd.FreshClientInstallsPublishedBuild | publisher.go:207-227 | a fault-free publish of one build that closes the zip.Writer, followed by a fresh client's run, installs that build |
| EndToEnd.PublishedBuildStaysInstalled | updater.go:104-113 | the client's next run against that bucket requests only the marker and changes nothing |
| EndToEnd.FreshClientRejectsUnterminatedArchive | updater.go:88-102 | after a publish as written, a fresh client stores the published marker, cannot open the downloaded archive and panics with nothing installed |
| EndToEnd.UnterminatedArchiveIsNeverRetried | updater.go:104-113 | every later run of that client finds the stored marker up to date, requests only the marker and never installs the build |

## Left out

- Network, storage and process I/O are inputs: marker replies, the archive
  download, the bucket, the build results and the files on disk are given,
  not performed. Timeouts, retries and HTTP client configuration are not modelled.
- The gob encoding of `.meta` and the JSON encoding of the marker object are
  replaced by a length-prefixed text encoding with the same round trip; a
  marker reply or stored object is either a decoded marker or undecodable.
  `json.Unmarshal` partially filling a marker from malformed JSON is not modelled.
- Version parsing accepts only one to three dot-separated decimal segments,
  padded to `major.minor.patch`; pre-release and metadata suffixes of
  `go-version` are not modelled (a leading `v` is accepted).
- `filepath.Join` and `filepath.Dir` clean only trailing slashes and a
  leading `./`; `..` segments and repeated slashes are not modelled.
- File modes are recorded as given; the process umask is not modelled.
- Paths use `/` only. The program targets Windows (`.exe` names, `attrib`,
  `DetachProcess`), where `filepath` also treats `\` as a separator; that
  separator is not modelled.
- `.meta` is held apart from the extracted directory, so an archive entry
  named `.meta` does not overwrite it. A temporary archive named `.meta`
  is modelled: it deletes the marker (`UpdateProtocol.RunUpdateSpec`).
- UpdateProtocol.SecondRunIsNoOp, UpdateProtocol.UnparsableRemoteVersionFailsLater:
  stated only for a first run whose archive is not saved as `.meta`. Such a
  run deletes the marker it stored, so the next run starts over without one
  (`UpdateProtocol.BootstrapAppliesRemote`).
- `attrib +h`, `DetachProcess`, the log output and progress bars are side
  effects with no bearing on the state and are left out.
- `go build` is an input: `buildUpdater` is modelled only by its `-ldflags`
  string and output path (`Publisher.LdFlagsAssignments`,
  `Publisher.UpdaterBinaryInOutputDir`). `createOutputDir`, `uploadZipFile`'s
  file handling, `GetListArchive`, `ConfigureClient`'s credentials and the
  `cmd` programs are not part of this model.
- Publisher.Publiser.Run: one `metaAclFails` fault applies to both marker
  uploads of a publish, and a write to the bucket is assumed to start out
  private (the bucket's default ACL is not modelled).
- Publisher.AppArchiver.UploadArchive: a failed `object.Attrs` call and a
  partial upload copy are not modelled; writes are whole.
- Publisher.ArchiveEntry: zip `Create` and copy errors while appending are
  not modelled; an entry is always added once the file opens.
- AutoUpdater.Updater.CheckUpdate: a failure to create `.meta` on the first
  run is not modelled; the write always succeeds.
- AutoUpdater.Updater.CreateMetaFile, AutoUpdater.Updater.GetLocalMeta:
  permission and I/O errors of the file system are not modelled. A failed
  `os.Create(".meta")` (its error is discarded) and the panic of
  `OpenMetaFile` when `os.Open` fails cannot happen in the model, whose
  directory never denies access.
- Sizes and offsets are unbounded integers. Of the source's `int64`
  limits only the one on version segments is modelled (`SemVer.Parse`).
- The goroutine and channel in `OpenMetaFile` only hand over the decoded
  value; they are modelled as a direct read.

## Findings

| source | as written | input that shows it | evidently intended | confidence | as-written member | corrected member |
|---|---|---|---|---|---|---|
| publisher.go:287-295 | the close function returned by `createdZippedFile` closes only the file; `archive.Close()` is never called, so the central directory and end record are never written and the uploaded file is no zip archive | any publish, e.g. one build output `<OutputDir>/bin/app.exe`: a fresh client stores the marker, `zip.OpenReader` fails, RunUpdate panics, and every later run sees equal versions and never retries (`EndToEnd.FreshClientRejectsUnterminatedArchive`, `EndToEnd.UnterminatedArchiveIsNeverRetried`) | close the zip.Writer, then the file, so the upload is a readable archive that a fresh client installs (`EndToEnd.FreshClientInstallsPublishedBuild`) | high; not executed | Publisher.Publiser.Run | Publisher.Publiser.RunClosingWriter |
