/** The Updater object of the client: its configuration, and the local world
    its methods change (the `.meta` file, the working directory, the requests
    sent). Each method is proved to change that state exactly as the
    UpdateProtocol functions say. A panic is returned as an Outcome. */
module AutoUpdater {

  import opened Wrappers
  import opened Text
  import opened FileSystem
  import opened MetaStore
  import opened Extraction
  import opened UpdateProtocol
  import SemVer
  import Naming

  class Updater {
    const variant: String
    const storage: String
    const appEntryPoint: String

    /** Content of `.meta`, None when the file does not exist. */
    var metaFile: Option<String>
    /** The working directory (archives are downloaded and extracted here). */
    var dir: Tree
    /** Every URL requested so far, in order. */
    var requests: seq<String>

    constructor (variant: String, storage: String, appEntryPoint: String, metaFile: Option<String>, dir: Tree)
      ensures this.variant == variant && this.storage == storage && this.appEntryPoint == appEntryPoint
      ensures State() == Machine(metaFile, dir, [])
    {
      this.variant := variant;
      this.storage := storage;
      this.appEntryPoint := appEntryPoint;
      this.metaFile := metaFile;
      this.dir := dir;
      this.requests := [];
    }

    function State(): Machine
      reads this
    {
      Machine(metaFile, dir, requests)
    }

    /** getUrlHost: the public URL of this variant's marker. */
    function MetaUrl(): (url: String)
      ensures url == Naming.PublicUrl(storage, Naming.MetaObjectKey(variant))
    {
      Naming.MetaUrl(storage, variant)
    }

    /** GetLocalMeta: an error when `.meta` does not exist; otherwise the
        decoded marker, or the zero marker when it does not decode. */
    function GetLocalMeta(): (r: Result<Meta, LocalError>)
      reads this
      ensures r.Err? <==> metaFile.None?
      ensures metaFile.Some? && DecodeMeta(metaFile.value).Some? ==> r == Ok(DecodeMeta(metaFile.value).value)
      ensures metaFile.Some? && DecodeMeta(metaFile.value).None? ==> r == Ok(EmptyMeta())
    {
      LoadLocalMeta(metaFile)
    }

    /** GetRemoteMeta: one GET of the marker URL. */
    method GetRemoteMeta(reply: RemoteReply) returns (r: Result<Meta, Failure>)
      modifies this
      ensures requests == old(requests) + [MetaUrl()]
      ensures metaFile == old(metaFile) && dir == old(dir)
      ensures r == FetchMeta(reply)
    {
      requests := requests + [MetaUrl()];
      match reply {
        case TransportError =>
          return Err(RemoteUnreachable);
        case Reply(status, body) =>
          if status == 404 {
            return Err(RemoteStatus(404));
          }
          if status != 200 {
            return Err(RemoteStatus(status));
          }
          r := Ok(body.GetOr(EmptyMeta()));
      }
    }

    /** CreateMetaFile: `.meta` is overwritten with the encoded marker, which
        GetLocalMeta then reads back. */
    method CreateMetaFile(meta: Meta)
      modifies this
      ensures metaFile == Some(EncodeMeta(meta))
      ensures dir == old(dir) && requests == old(requests)
      ensures GetLocalMeta() == Ok(meta)
    {
      metaFile := Some(EncodeMeta(meta));
      LoadAfterSave(meta);
    }

    /** ExtractZipFile(src, dest): the loop over the archive's entries. */
    method ExtractZipFile(src: String, dest: String) returns (err: Option<ExtractError>)
      modifies this
      ensures metaFile == old(metaFile) && requests == old(requests)
      ensures Extracted(err, dir) == ExtractZip(old(dir), src, dest)
    {
      if !OpensAsZip(dir, src) {
        return Some(OpenArchiveFailed);
      }
      var files := dir[src].content.entries;
      ghost var goal := Extract(dir, dest, files);
      var i := 0;
      while i < |files|
        invariant 0 <= i <= |files|
        invariant metaFile == old(metaFile) && requests == old(requests)
        invariant Extract(dir, dest, files[i..]) == goal
      {
        assert files[i..][0] == files[i] && files[i..][1..] == files[i + 1..];
        err := ExtractEntryInto(dest, files[i]);
        if err.Some? {
          return;
        }
        i := i + 1;
      }
      return None;
    }

    /** One pass of ExtractZipFile's loop body, for archive entry f. */
    method ExtractEntryInto(dest: String, f: Entry) returns (err: Option<ExtractError>)
      modifies this
      ensures metaFile == old(metaFile) && requests == old(requests)
      ensures Extracted(err, dir) == ExtractEntry(old(dir), dest, f)
    {
      var filePath := Join(dest, f.name);
      if f.isDir {
        dir := MkdirAll(dir, filePath).GetOr(dir);
        return None;
      }
      err := ExtractFileInto(filePath, ParentDir(filePath), f);
    }

    /** The rest of the loop body for a file entry f: create its directory,
        create or truncate the file, copy the entry's bytes into it. */
    method ExtractFileInto(filePath: String, parent: String, f: Entry) returns (err: Option<ExtractError>)
      modifies this
      ensures metaFile == old(metaFile) && requests == old(requests)
      ensures Extracted(err, dir) == ExtractFile(old(dir), filePath, parent, f)
    {
      var madeDirs := MkdirAll(dir, parent);
      if madeDirs.None? {
        return Some(MkdirFailed(parent));
      }
      dir := madeDirs.value;
      var file := OpenTruncate(dir, filePath, f.mode);
      if file.None? {
        return Some(OpenFileFailed(filePath));
      }
      dir := file.value;
      if f.health == Unopenable {
        return Some(EntryOpenFailed(f.name));
      }
      dir := dir[filePath := File(Raw(Written(f)), dir[filePath].mode)];
      if f.health.FailsAfter? {
        return Some(CopyFailed(f.name));
      }
      return None;
    }

    /** RunUpdate(meta): download the archive named by the marker, extract it
        into the working directory, remove the download. */
    method RunUpdate(meta: Meta, download: Download) returns (outcome: Outcome)
      modifies this
      ensures UpdateProtocol.Run(outcome, State()) == RunUpdateSpec(old(State()), meta, download)
    {
      var url := meta.lastVersionUrl;
      match download {
        case Unrequestable =>
          return Panicked(BadArtifactUrl);
        case TransportFailure =>
          requests := requests + [url];
          return Panicked(ArtifactUnreachable);
        case Response(_, body) =>
          requests := requests + [url];
          var fname := TempFileName(url);
          dir := SaveDownload(dir, fname, body);
          var err := ExtractZipFile(fname, "");
          dir := Remove(dir, fname);
          metaFile := MarkerAfterDownload(metaFile, fname);
          outcome := if err.Some? then Panicked(ApplyFailed(err.value)) else Returned;
      }
    }

    /** CheckUpdate: compare the remote marker with the local one and apply
        the remote archive when it is newer, or when there is no local marker. */
    method CheckUpdate(first: RemoteReply, second: RemoteReply, download: Download)
      returns (outcome: Outcome)
      modifies this
      ensures UpdateProtocol.Run(outcome, State()) == CheckUpdateSpec(old(State()), MetaUrl(), first, second, download)
    {
      var fetched := GetRemoteMeta(first);
      if fetched.Err? {
        return Panicked(fetched.error);
      }
      var local := GetLocalMeta();
      if local.Err? {
        outcome := Bootstrap(fetched.value, second, download);
      } else {
        outcome := Compare(fetched.value, local.value, download);
      }
    }

    /** CheckUpdate without `.meta`: fetch the marker again, store it, apply
        the first one. */
    method Bootstrap(remote: Meta, second: RemoteReply, download: Download) returns (outcome: Outcome)
      modifies this
      ensures UpdateProtocol.Run(outcome, State()) == BootstrapSpec(old(State()), MetaUrl(), remote, second, download)
    {
      var again := GetRemoteMeta(second);
      if again.Err? {
        return Panicked(again.error);
      }
      metaFile := Some(EncodeMeta(again.value));
      outcome := RunUpdate(remote, download);
    }

    /** CheckUpdate with a local marker: apply the remote archive when its
        version is newer, then store the remote marker. */
    method Compare(remote: Meta, local: Meta, download: Download) returns (outcome: Outcome)
      modifies this
      ensures UpdateProtocol.Run(outcome, State()) == CompareSpec(old(State()), remote, local, download)
    {
      var latest := SemVer.Parse(remote.currentVersion);
      var current := SemVer.Parse(local.currentVersion);
      if latest.None? || current.None? {
        return Panicked(VersionUnparsable);
      }
      if SemVer.GreaterThan(latest.value, current.value) {
        outcome := RunUpdate(remote, download);
        if outcome.Panicked? {
          return;
        }
      }
      CreateMetaFile(remote);
      outcome := Returned;
    }

    /** Run: CheckUpdate, then start the application; a panic ends the
        process before the start. */
    method Run(first: RemoteReply, second: RemoteReply, download: Download)
      returns (outcome: Outcome, started: Option<String>)
      modifies this
      ensures UpdateProtocol.Run(outcome, State()) == CheckUpdateSpec(old(State()), MetaUrl(), first, second, download)
      ensures started == (if outcome == Returned then Some(appEntryPoint) else None)
    {
      outcome := CheckUpdate(first, second, download);
      started := if outcome == Returned then Some(appEntryPoint) else None;
    }
  }
}
