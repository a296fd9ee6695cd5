/** The update decision and apply protocol of Updater.CheckUpdate and
    Updater.RunUpdate, as functions from the updater's state and what the
    network delivers to the outcome and the new state. The Updater class
    is proved to follow them step by step. */
module UpdateProtocol {

  import opened Wrappers
  import opened Text
  import opened FileSystem
  import opened MetaStore
  import opened Extraction
  import SemVer

  /** What an HTTP GET of the marker URL delivers: a transport error, or a
      status and the JSON body decoded (None when it does not decode). */
  datatype RemoteReply = TransportError | Reply(status: int, body: Option<Meta>)

  /** What the GET of the archive URL delivers: the request cannot be built
      (a malformed URL), the transport fails, or a response arrives. */
  datatype Download = Unrequestable | TransportFailure | Response(status: int, body: Content)

  /** Why the updater panics. */
  datatype Failure =
    | RemoteUnreachable
    | RemoteStatus(status: int)
    | VersionUnparsable
    | BadArtifactUrl
    | ArtifactUnreachable
    | ApplyFailed(cause: ExtractError)

  /** CheckUpdate either returns (always nil) or panics, which ends the
      process with whatever was written so far. */
  datatype Outcome = Returned | Panicked(cause: Failure)

  /** The updater's local world: the content of `.meta` (None when the file
      does not exist), the working directory, into which archives are also
      extracted, and the URLs requested so far. */
  datatype Machine = Machine(metaFile: Option<String>, dir: Tree, requests: seq<String>)

  datatype Run = Run(outcome: Outcome, after: Machine)

  /** Updater.GetRemoteMeta after the request went out: only status 200 is
      accepted (404 included, every other status panics), and a body that does
      not decode leaves the zero marker. */
  function FetchMeta(reply: RemoteReply): (r: Result<Meta, Failure>)
    ensures r.Ok? <==> reply.Reply? && reply.status == 200
    ensures r.Ok? && reply.body.Some? ==> r.value == reply.body.value
    ensures r.Ok? && reply.body.None? ==> r.value == EmptyMeta()
  {
    match reply
    case TransportError => Err(RemoteUnreachable)
    case Reply(status, body) =>
      if status == 404 then Err(RemoteStatus(404))
      else if status != 200 then Err(RemoteStatus(status))
      else Ok(body.GetOr(EmptyMeta()))
  }

  /** The temporary archive is named by the last '/'-separated segment of the
      archive URL. */
  function TempFileName(url: String): (name: String)
    ensures '/' !in name
    ensures |name| <= |url| && url[|url| - |name|..] == name
    ensures |name| < |url| ==> url[|url| - |name| - 1] == '/'
  {
    LastSegment(url, '/')
  }

  /** os.Create(fname) followed by io.Copy of the body, errors ignored: when
      the file cannot be created (empty name, ".", "..", or a directory),
      nothing is written. */
  function SaveDownload(t: Tree, fname: String, body: Content): Tree {
    if fname == [] || AlwaysDirectory(fname) || (fname in t && t[fname].Directory?) then t
    else t[fname := File(body, if fname in t then t[fname].mode else CreateMode)]
  }

  /** The archive is saved under the name of the local store itself: the
      download overwrites `.meta` and the deferred removal deletes it. */
  predicate ClobbersMarker(meta: Meta, download: Download) {
    download.Response? && TempFileName(meta.lastVersionUrl) == MetaFileName
  }

  /** `.meta` once a temporary file named `fname` was created and removed. */
  function MarkerAfterDownload(metaFile: Option<String>, fname: String): Option<String> {
    if fname == MetaFileName then None else metaFile
  }

  /** Updater.RunUpdate(meta): download the archive into the working
      directory, extract it there, and (deferred, so also on panic) remove
      the temporary file. The HTTP status is never looked at. */
  function RunUpdateSpec(m: Machine, meta: Meta, download: Download): (r: Run)
    ensures ClobbersMarker(meta, download) ==> r.after.metaFile == None
    ensures !ClobbersMarker(meta, download) ==> r.after.metaFile == m.metaFile
    ensures download.Unrequestable? ==> r == Run(Panicked(BadArtifactUrl), m)
    ensures !download.Unrequestable? ==> r.after.requests == m.requests + [meta.lastVersionUrl]
    ensures download.TransportFailure? ==> r.after.dir == m.dir && r.outcome.Panicked?
    ensures download.Response? ==>
      var f := TempFileName(meta.lastVersionUrl);
      f != [] ==> !(f in r.after.dir && r.after.dir[f].File?)
  {
    var url := meta.lastVersionUrl;
    match download
    case Unrequestable => Run(Panicked(BadArtifactUrl), m)
    case TransportFailure => Run(Panicked(ArtifactUnreachable), m.(requests := m.requests + [url]))
    case Response(_, body) =>
      var fname := TempFileName(url);
      var x := ExtractZip(SaveDownload(m.dir, fname, body), fname, "");
      var after := Machine(MarkerAfterDownload(m.metaFile, fname), Remove(x.tree, fname), m.requests + [url]);
      if x.err.Some? then Run(Panicked(ApplyFailed(x.err.value)), after) else Run(Returned, after)
  }

  /** Updater.CheckUpdate. `first` is the reply to the marker request made on
      entry; `second` the reply to the request repeated when `.meta` is
      missing; `download` what the archive request delivers. */
  function CheckUpdateSpec(m: Machine, metaUrl: String, first: RemoteReply, second: RemoteReply,
                           download: Download): Run
  {
    var m1 := m.(requests := m.requests + [metaUrl]);
    match FetchMeta(first)
    case Err(f) => Run(Panicked(f), m1)
    case Ok(remote) =>
      match LoadLocalMeta(m.metaFile)
      case Err(_) => BootstrapSpec(m1, metaUrl, remote, second, download)
      case Ok(local) => CompareSpec(m1, remote, local, download)
  }

  /** The branch of CheckUpdate taken when `.meta` is missing: fetch the
      marker again, write that marker, then apply the first one. */
  function BootstrapSpec(m: Machine, metaUrl: String, remote: Meta, second: RemoteReply, download: Download): Run {
    var m2 := m.(requests := m.requests + [metaUrl]);
    match FetchMeta(second)
    case Err(f) => Run(Panicked(f), m2)
    case Ok(again) => RunUpdateSpec(m2.(metaFile := Some(EncodeMeta(again))), remote, download)
  }

  /** The branch of CheckUpdate taken when `.meta` holds `local`: apply the
      remote archive when its version is newer, then store the remote marker
      unless the apply panicked. */
  function CompareSpec(m: Machine, remote: Meta, local: Meta, download: Download): Run {
    match (SemVer.Parse(remote.currentVersion), SemVer.Parse(local.currentVersion))
    case (Some(latest), Some(current)) =>
      if SemVer.GreaterThan(latest, current) then
        var u := RunUpdateSpec(m, remote, download);
        if u.outcome.Panicked? then u
        else Run(Returned, u.after.(metaFile := Some(EncodeMeta(remote))))
      else Run(Returned, m.(metaFile := Some(EncodeMeta(remote))))
    case _ => Run(Panicked(VersionUnparsable), m)
  }

  // ---------------------------------------------------------------------
  // Properties of the protocol.

  /** With a local marker, the archive is requested exactly when the remote
      version is strictly greater than the local one (and the request can be
      built): equal and lower remote versions cause no transfer. */
  lemma TransferIffNewer(m: Machine, metaUrl: String, first: RemoteReply, second: RemoteReply,
                         download: Download, remote: Meta, local: Meta,
                         latest: SemVer.Version, current: SemVer.Version)
    requires FetchMeta(first) == Ok(remote) && LoadLocalMeta(m.metaFile) == Ok(local)
    requires SemVer.Parse(remote.currentVersion) == Some(latest)
    requires SemVer.Parse(local.currentVersion) == Some(current)
    ensures CheckUpdateSpec(m, metaUrl, first, second, download).after.requests ==
      m.requests + [metaUrl]
        + (if SemVer.GreaterThan(latest, current) && !download.Unrequestable? then [remote.lastVersionUrl] else [])
  {
  }

  /** With a local marker and a remote version that is not newer, CheckUpdate
      returns, leaves the working directory alone and overwrites `.meta` with
      the remote marker, whatever the archive request would have delivered. */
  lemma NoUpdateUnlessNewer(m: Machine, metaUrl: String, first: RemoteReply, second: RemoteReply,
                            download: Download, remote: Meta, local: Meta,
                            latest: SemVer.Version, current: SemVer.Version)
    requires FetchMeta(first) == Ok(remote) && LoadLocalMeta(m.metaFile) == Ok(local)
    requires SemVer.Parse(remote.currentVersion) == Some(latest)
    requires SemVer.Parse(local.currentVersion) == Some(current)
    requires !SemVer.GreaterThan(latest, current)
    ensures CheckUpdateSpec(m, metaUrl, first, second, download) ==
      Run(Returned, Machine(Some(EncodeMeta(remote)), m.dir, m.requests + [metaUrl]))
  {
  }

  /** When CheckUpdate returns with a local marker present, `.meta` holds the
      remote marker afterwards, also when the remote version is lower than
      the local one (the cache is downgraded). */
  lemma ReturnStoresRemoteMarker(m: Machine, metaUrl: String, first: RemoteReply, second: RemoteReply,
                                 download: Download)
    requires m.metaFile.Some?
    requires CheckUpdateSpec(m, metaUrl, first, second, download).outcome == Returned
    ensures FetchMeta(first).Ok?
    ensures LoadLocalMeta(CheckUpdateSpec(m, metaUrl, first, second, download).after.metaFile)
      == Ok(FetchMeta(first).value)
  {
    LoadAfterSave(FetchMeta(first).value);
  }

  /** With a local marker, a failing apply (or any other panic) leaves `.meta`
      as it was, since CreateMetaFile is never reached, unless the archive
      was requested under the name `.meta`, which the apply deletes. */
  lemma PanicKeepsLocalMarker(m: Machine, metaUrl: String, first: RemoteReply, second: RemoteReply,
                              download: Download)
    requires m.metaFile.Some?
    requires CheckUpdateSpec(m, metaUrl, first, second, download).outcome.Panicked?
    ensures var r := CheckUpdateSpec(m, metaUrl, first, second, download).after;
      var applied := FetchMeta(first).Ok? && |r.requests| == |m.requests| + 2;
      && (applied && ClobbersMarker(FetchMeta(first).value, download) ==> r.metaFile == None)
      && (!(applied && ClobbersMarker(FetchMeta(first).value, download)) ==> r.metaFile == m.metaFile)
  {
    if FetchMeta(first).Ok? {
      var m1 := m.(requests := m.requests + [metaUrl]);
      var remote, local := FetchMeta(first).value, LoadLocalMeta(m.metaFile).value;
      assert CheckUpdateSpec(m, metaUrl, first, second, download) == CompareSpec(m1, remote, local, download);
      if CompareSpec(m1, remote, local, download).outcome != Panicked(VersionUnparsable) {
        var u := RunUpdateSpec(m1, remote, download);
        assert CompareSpec(m1, remote, local, download) == u;
        assert |u.after.requests| == |m.requests| + 2 <==> !download.Unrequestable?;
      }
    }
  }

  /** Without `.meta`, CheckUpdate is the apply of the first marker, started
      with the second one stored and two marker requests logged. */
  lemma BootstrapIsApply(m: Machine, metaUrl: String, first: RemoteReply, second: RemoteReply,
                         download: Download, remote: Meta, again: Meta)
    requires m.metaFile.None?
    requires FetchMeta(first) == Ok(remote) && FetchMeta(second) == Ok(again)
    ensures CheckUpdateSpec(m, metaUrl, first, second, download)
      == RunUpdateSpec(Machine(Some(EncodeMeta(again)), m.dir, m.requests + [metaUrl, metaUrl]), remote, download)
  {
    var m1 := m.(requests := m.requests + [metaUrl]);
    assert LoadLocalMeta(m.metaFile).Err?;
    assert CheckUpdateSpec(m, metaUrl, first, second, download) == BootstrapSpec(m1, metaUrl, remote, second, download);
    assert m.requests + [metaUrl] + [metaUrl] == m.requests + [metaUrl, metaUrl];
    assert m1.(requests := m1.requests + [metaUrl]).(metaFile := Some(EncodeMeta(again)))
      == Machine(Some(EncodeMeta(again)), m.dir, m.requests + [metaUrl, metaUrl]);
  }

  /** Without `.meta`, CheckUpdate fetches the marker a second time, writes
      that marker before the apply starts (so it is there even if the apply
      panics), and then requests the remote archive whatever its version,
      parsable or not. An archive saved under the name `.meta` deletes the
      marker again, so the next run starts over without one. */
  lemma BootstrapAppliesRemote(m: Machine, metaUrl: String, first: RemoteReply, second: RemoteReply,
                               download: Download, remote: Meta, again: Meta)
    requires m.metaFile.None?
    requires FetchMeta(first) == Ok(remote) && FetchMeta(second) == Ok(again)
    ensures var r := CheckUpdateSpec(m, metaUrl, first, second, download);
      && (!ClobbersMarker(remote, download) ==> r.after.metaFile == Some(EncodeMeta(again)))
      && (!ClobbersMarker(remote, download) ==> LoadLocalMeta(r.after.metaFile) == Ok(again))
      && (ClobbersMarker(remote, download) ==> LoadLocalMeta(r.after.metaFile) == Err(MetaNotExist))
      && r.after.requests == m.requests + [metaUrl, metaUrl]
           + (if download.Unrequestable? then [] else [remote.lastVersionUrl])
  {
    BootstrapIsApply(m, metaUrl, first, second, download, remote, again);
    LoadAfterSave(again);
  }

  /** A `.meta` that does not decode is not treated as missing: its zero
      marker has no version, so CheckUpdate panics before any transfer and
      leaves the working directory and `.meta` as they were. */
  lemma CorruptLocalMarkerPanics(m: Machine, metaUrl: String, first: RemoteReply, second: RemoteReply,
                                 download: Download)
    requires m.metaFile.Some? && DecodeMeta(m.metaFile.value) == None
    requires FetchMeta(first).Ok?
    ensures CheckUpdateSpec(m, metaUrl, first, second, download) ==
      Run(Panicked(VersionUnparsable), m.(requests := m.requests + [metaUrl]))
  {
    CorruptFileLoadsEmpty(m.metaFile.value);
  }

  /** Idempotence: after a CheckUpdate that returned, a second one against an
      unchanged remote marker requests nothing but the marker and changes
      nothing. In the bootstrap case this needs both fetches of the first
      run to agree and the remote version to parse. */
  lemma SecondRunIsNoOp(m: Machine, metaUrl: String, first: RemoteReply, second: RemoteReply,
                        download: Download, first': RemoteReply, second': RemoteReply, download': Download)
    requires CheckUpdateSpec(m, metaUrl, first, second, download).outcome == Returned
    requires FetchMeta(first') == FetchMeta(first)
    requires m.metaFile.None? ==> FetchMeta(second) == FetchMeta(first)
    requires m.metaFile.None? ==> SemVer.Parse(FetchMeta(first).value.currentVersion).Some?
    requires m.metaFile.None? ==> !ClobbersMarker(FetchMeta(first).value, download)
    ensures var r := CheckUpdateSpec(m, metaUrl, first, second, download).after;
      CheckUpdateSpec(r, metaUrl, first', second', download') ==
        Run(Returned, r.(requests := r.requests + [metaUrl]))
  {
    var remote := FetchMeta(first).value;
    var r := CheckUpdateSpec(m, metaUrl, first, second, download).after;
    if m.metaFile.None? {
      BootstrapAppliesRemote(m, metaUrl, first, second, download, remote, remote);
    } else {
      ReturnStoresRemoteMarker(m, metaUrl, first, second, download);
    }
    var v := SemVer.Parse(remote.currentVersion).value;
    NoUpdateUnlessNewer(r, metaUrl, first', second', download', remote, remote, v, v);
  }

  /** The bootstrap run does not parse the remote version, so a marker with
      an unparsable version is applied once and then makes every later run
      panic. */
  lemma UnparsableRemoteVersionFailsLater(m: Machine, metaUrl: String, first: RemoteReply,
                                          second: RemoteReply, download: Download)
    requires m.metaFile.None?
    requires FetchMeta(first).Ok? && FetchMeta(second) == FetchMeta(first)
    requires SemVer.Parse(FetchMeta(first).value.currentVersion) == None
    requires !ClobbersMarker(FetchMeta(first).value, download)
    ensures var r := CheckUpdateSpec(m, metaUrl, first, second, download).after;
      CheckUpdateSpec(r, metaUrl, first, second, download).outcome == Panicked(VersionUnparsable)
  {
    var remote := FetchMeta(first).value;
    BootstrapIsApply(m, metaUrl, first, second, download, remote, remote);
    var r := CheckUpdateSpec(m, metaUrl, first, second, download).after;
    assert r.metaFile == Some(EncodeMeta(remote));
    LoadAfterSave(remote);
    var r1 := r.(requests := r.requests + [metaUrl]);
    assert CheckUpdateSpec(r, metaUrl, first, second, download) == CompareSpec(r1, remote, remote, download);
  }

  /** The archive response's HTTP status makes no difference: an error page
      is saved and handed to the zip reader like an archive. */
  lemma DownloadStatusIgnored(m: Machine, meta: Meta, s1: int, s2: int, body: Content)
    ensures RunUpdateSpec(m, meta, Response(s1, body)) == RunUpdateSpec(m, meta, Response(s2, body))
  {
  }

  /** A temporary file that cannot be created receives nothing. */
  lemma NothingSaved(t: Tree, f: String, body: Content)
    requires f == [] || AlwaysDirectory(f) || (f in t && t[f].Directory?)
    ensures SaveDownload(t, f, body) == t
  {
  }

  /** The deferred removal takes away whatever SaveDownload wrote. */
  lemma RemoveSaved(t: Tree, f: String, body: Content)
    ensures Remove(SaveDownload(t, f, body), f) == Remove(t, f)
  {
    if !(f == [] || AlwaysDirectory(f) || (f in t && t[f].Directory?)) {
      assert Remove(SaveDownload(t, f, body), f) == t - {f};
      if f in t {
        assert t[f].File?;
      } else {
        assert t - {f} == t;
      }
    }
  }

  /** A response whose file the zip reader cannot open panics, and the
      deferred removal leaves the directory as Remove of the temporary name
      leaves it. */
  lemma UnopenableDownloadPanics(m: Machine, meta: Meta, status: int, body: Content)
    requires !OpensAsZip(SaveDownload(m.dir, TempFileName(meta.lastVersionUrl), body), TempFileName(meta.lastVersionUrl))
    ensures var r := RunUpdateSpec(m, meta, Response(status, body));
      && r.outcome == Panicked(ApplyFailed(OpenArchiveFailed))
      && r.after.dir == Remove(m.dir, TempFileName(meta.lastVersionUrl))
  {
    var f := TempFileName(meta.lastVersionUrl);
    var t := SaveDownload(m.dir, f, body);
    assert ExtractZip(t, f, "") == Extracted(Some(OpenArchiveFailed), t);
    RemoveSaved(m.dir, f, body);
  }

  /** A response whose body is not a well-formed zip archive (an error page,
      or an archive whose writer was never closed) panics, with the working
      directory left as it was apart from the removal of any file that had
      the temporary archive's name. */
  lemma NonArchivePanics(m: Machine, meta: Meta, status: int, body: Content)
    requires !body.Zip?
    ensures var r := RunUpdateSpec(m, meta, Response(status, body));
      && r.outcome == Panicked(ApplyFailed(OpenArchiveFailed))
      && r.after.dir == Remove(m.dir, TempFileName(meta.lastVersionUrl))
  {
    var f := TempFileName(meta.lastVersionUrl);
    var t := SaveDownload(m.dir, f, body);
    if f == [] || AlwaysDirectory(f) || (f in m.dir && m.dir[f].Directory?) {
      assert t == m.dir;
    } else {
      assert t[f].content == body;
    }
    UnopenableDownloadPanics(m, meta, status, body);
  }

  /** When the temporary file cannot be created (the URL ends in '/', ".",
      or "..", or names an existing directory), nothing is saved, the zip
      reader cannot open the name, and the run panics whatever was
      downloaded. */
  lemma UncreatableTempFilePanics(m: Machine, meta: Meta, status: int, body: Content)
    requires var f := TempFileName(meta.lastVersionUrl);
      f == [] || AlwaysDirectory(f) || (f in m.dir && m.dir[f].Directory?)
    ensures var r := RunUpdateSpec(m, meta, Response(status, body));
      && r.outcome == Panicked(ApplyFailed(OpenArchiveFailed))
      && r.after.dir == Remove(m.dir, TempFileName(meta.lastVersionUrl))
  {
    var f := TempFileName(meta.lastVersionUrl);
    NothingSaved(m.dir, f, body);
    UnopenableDownloadPanics(m, meta, status, body);
  }
}
