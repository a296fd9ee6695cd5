/** The publisher and the updater meet at the storage host: the marker the
    publisher uploads is what the updater fetches, its archive URL serves the
    uploaded archive, and an archive packed from one build output installs
    that output on a fresh client. */
module EndToEnd {

  import opened Wrappers
  import opened Text
  import opened FileSystem
  import opened MetaStore
  import opened Extraction
  import opened Naming
  import opened UpdateProtocol
  import opened Publisher
  import SemVer

  /** The key a URL names in `bucketName` on the storage host, if any. */
  function ObjectAt(bucketName: String, url: String): (key: Option<String>)
    ensures key.Some? ==> url == PublicUrl(bucketName, key.value)
  {
    var prefix := StorageHost + bucketName + "/";
    if |prefix| <= |url| && url[..|prefix|] == prefix then
      assert url == prefix + url[|prefix|..];
      Some(url[|prefix|..])
    else None
  }

  lemma ObjectAtPublicUrl(bucketName: String, key: String)
    ensures ObjectAt(bucketName, PublicUrl(bucketName, key)) == Some(key)
  {
    var prefix := StorageHost + bucketName + "/";
    var url := PublicUrl(bucketName, key);
    assert url == prefix + key;
    assert url[..|prefix|] == prefix;
    assert url[|prefix|..] == key;
  }

  /** An anonymous GET of a marker URL: 404 for a missing object, 403 for one
      that is not public, otherwise the object's JSON decoded (a nil marker
      decodes to the zero one; an archive does not decode). */
  function ServeMarker(bucketName: String, b: Bucket, url: String): (reply: RemoteReply)
    ensures reply.Reply?
    ensures reply.status == 200 <==>
      ObjectAt(bucketName, url).Some? && ObjectAt(bucketName, url).value in b.objects
      && ObjectAt(bucketName, url).value in b.public
  {
    match ObjectAt(bucketName, url)
    case None => Reply(404, None)
    case Some(key) =>
      if key !in b.objects then Reply(404, None)
      else if key !in b.public then Reply(403, None)
      else match b.objects[key]
        case MetaJson(Some(m)) => Reply(200, Some(m))
        case MetaJson(None) => Reply(200, Some(EmptyMeta()))
        case Blob(_) => Reply(200, None)
  }

  /** An anonymous GET of an archive URL. Error pages and JSON text are
      bytes that are not a zip archive. */
  function ServeArchive(bucketName: String, b: Bucket, url: String): (d: Download)
    ensures d.Response?
    ensures d.body.Zip? ==> d.status == 200
  {
    match ObjectAt(bucketName, url)
    case None => Response(404, Raw([]))
    case Some(key) =>
      if key !in b.objects then Response(404, Raw([]))
      else if key !in b.public then Response(403, Raw([]))
      else match b.objects[key]
        case Blob(content) => Response(200, content)
        case MetaJson(_) => Response(200, Raw([]))
  }

  /** The marker the publisher uploads, with the variant as application name
      and the storage as bucket, is the one the updater of that variant and
      storage fetches. */
  lemma PublishedMarkerReachesUpdater(bucket: Bucket, variant: String, storage: String, version: String,
                                      content: Content, faults: StorageFaults)
    requires !faults.archiveAclFails && !faults.metaAclFails
    ensures FetchMeta(ServeMarker(storage, Uploaded(bucket, variant, storage, version, content, faults),
                                  MetaUrl(storage, variant)))
      == Ok(Meta(version, PublicUrl(storage, ArchiveObjectKey(variant, version))))
  {
    UploadedMarkerPointsAtArchive(bucket, variant, storage, version, content, faults);
    ObjectAtPublicUrl(storage, MetaObjectKey(variant));
  }

  /** The archive URL in the published marker serves the uploaded archive. */
  lemma PublishedArchiveReachesUpdater(bucket: Bucket, variant: String, storage: String, version: String,
                                       content: Content, faults: StorageFaults)
    requires !faults.archiveAclFails
    ensures ServeArchive(storage, Uploaded(bucket, variant, storage, version, content, faults),
                         PublicUrl(storage, ArchiveObjectKey(variant, version)))
      == Response(200, content)
  {
    UploadedMarkerPointsAtArchive(bucket, variant, storage, version, content, faults);
    ObjectAtPublicUrl(storage, ArchiveObjectKey(variant, version));
  }

  /** When the new marker's ACL cannot be set, the updater is refused the
      marker and every CheckUpdate panics on its first request. */
  lemma PrivateMarkerStopsUpdater(bucket: Bucket, variant: String, storage: String, version: String,
                                  content: Content, faults: StorageFaults,
                                  m: Machine, second: RemoteReply, download: Download)
    requires faults.metaAclFails && !faults.archiveAclFails
    ensures var reply := ServeMarker(storage, Uploaded(bucket, variant, storage, version, content, faults),
                                     MetaUrl(storage, variant));
      CheckUpdateSpec(m, MetaUrl(storage, variant), reply, second, download)
        == Run(Panicked(RemoteStatus(403)), m.(requests := m.requests + [MetaUrl(storage, variant)]))
  {
    var b := Uploaded(bucket, variant, storage, version, content, faults);
    var mkey := MetaObjectKey(variant);
    ObjectAtPublicUrl(storage, mkey);
    UploadedMarkerPointsAtArchive(bucket, variant, storage, version, content, faults);
  }

  // ---------------------------------------------------------------------
  // One build output, from the publisher's disk to a fresh client.

  /** The path of the one build output, below the output directory. */
  function AppOutput(outputDir: String): String {
    outputDir + "/bin/app.exe"
  }

  /** Packing that one output gives a single entry `./bin/app.exe` with its
      data. */
  lemma PackSingleOutput(outputDir: String, data: seq<byte>)
    requires outputDir != [] && !Occurs("/bin/app.exe", outputDir)
    ensures Pack(Steps(map[AppOutput(outputDir) := data], outputDir, [Built(AppOutput(outputDir))]), 0)
      == Packed(None, [ZipEntry("./bin/app.exe", data)])
  {
    var disk := map[AppOutput(outputDir) := data];
    DestinationUnderOutputDir(outputDir, "/bin/app.exe");
    assert StartsWithSeparator("/bin/app.exe");
    assert "." + "/bin/app.exe" == "./bin/app.exe";
    assert EntryName("/bin/app.exe") == "./bin/app.exe";
    var steps := Steps(disk, outputDir, [Built(AppOutput(outputDir))]);
    assert steps[0] == Ok(ZipEntry("./bin/app.exe", data));
    assert Pack(steps, 1) == Packed(None, []);
  }

  lemma AppPaths()
    ensures Join("", "./bin/app.exe") == "bin/app.exe"
    ensures ParentDir("bin/app.exe") == "bin"
    ensures Ancestors("bin") == {"bin"}
  {
    var dotted: String := "./bin/app.exe";
    var path: String := "bin/app.exe";
    assert dotted[2..] == path;
    assert StripCurrentDir(path) == path;
    assert StripCurrentDir(dotted) == path;
    assert TrimTrailingSlash(path) == path;
    BinPaths();
    BinAppParent();
  }

  /** A file entry whose directory is a new top-level one creates the
      directory and then the file. */
  lemma FileInNewDirectoryStep(t: Tree, e: Entry, path: String, dir: String)
    requires !e.isDir && e.health == Intact
    requires Join("", e.name) == path && ParentDir(path) == dir && Ancestors(dir) == {dir}
    requires dir !in t && path !in t && path != dir
    requires !AlwaysDirectory(dir) && !AlwaysDirectory(path) && path != [] && dir != []
    ensures ExtractEntry(t, "", e) == Extracted(None, t[dir := Directory][path := File(Raw(e.data), e.mode)])
  {
    var t1 := t[dir := Directory];
    var m := MkdirAll(t, dir);
    assert m.Some? && m.value.Keys == t1.Keys;
    assert m.value == t1;
    NewFileStep(t, path, dir, e, t1);
  }

  lemma AppEntryStep(t: Tree, data: seq<byte>)
    requires "bin" !in t && "bin/app.exe" !in t
    ensures ExtractEntry(t, "", ZipEntry("./bin/app.exe", data))
      == Extracted(None, t["bin" := Directory]["bin/app.exe" := File(Raw(data), CreateMode)])
  {
    AppPaths();
    var e := ZipEntry("./bin/app.exe", data);
    assert !e.isDir;
    FileInNewDirectoryStep(t, e, "bin/app.exe", "bin");
  }

  /** Extracting that entry into a directory without `bin` creates `bin` and
      the file, with the mode the zip reader reports. */
  lemma ExtractApp(t: Tree, data: seq<byte>)
    requires "bin" !in t && "bin/app.exe" !in t
    ensures Extract(t, "", [ZipEntry("./bin/app.exe", data)])
      == Extracted(None, t["bin" := Directory]["bin/app.exe" := File(Raw(data), CreateMode)])
  {
    var es := [ZipEntry("./bin/app.exe", data)];
    AppEntryStep(t, data);
    var t2 := t["bin" := Directory]["bin/app.exe" := File(Raw(data), CreateMode)];
    assert es[1..] == [];
    assert Extract(t2, "", []) == Extracted(None, t2);
  }

  /** The published marker for one version of the variant. */
  function PublishedMarker(variant: String, storage: String, version: String): Meta {
    Meta(version, PublicUrl(storage, ArchiveObjectKey(variant, version)))
  }

  /** The working directory's side of SuccessfulApply: the archive saved
      under a fresh name opens, extracts to t2, and its removal leaves t2
      without it. */
  lemma SavedArchiveExtracts(t: Tree, f: String, content: Content, t2: Tree)
    requires f != [] && f !in t && !AlwaysDirectory(f) && content.Zip?
    requires Extract(t[f := File(content, CreateMode)], "", content.entries) == Extracted(None, t2)
    requires f in t2 && t2[f].File?
    ensures ExtractZip(SaveDownload(t, f, content), f, "") == Extracted(None, t2)
    ensures Remove(t2, f) == t2 - {f}
  {
    assert SaveDownload(t, f, content) == t[f := File(content, CreateMode)];
  }

  /** A download into a fresh temporary file whose extraction succeeds
      leaves what the extraction wrote, without the temporary file; a
      temporary file named `.meta` takes the marker with it. */
  lemma SuccessfulApply(m: Machine, meta: Meta, status: int, content: Content, t2: Tree)
    requires TempFileName(meta.lastVersionUrl) != [] && TempFileName(meta.lastVersionUrl) !in m.dir
    requires !AlwaysDirectory(TempFileName(meta.lastVersionUrl))
    requires content.Zip?
    requires var f := TempFileName(meta.lastVersionUrl);
      Extract(m.dir[f := File(content, CreateMode)], "", content.entries) == Extracted(None, t2)
      && f in t2 && t2[f].File?
    ensures RunUpdateSpec(m, meta, Response(status, content))
      == Run(Returned, Machine(MarkerAfterDownload(m.metaFile, TempFileName(meta.lastVersionUrl)),
                               t2 - {TempFileName(meta.lastVersionUrl)}, m.requests + [meta.lastVersionUrl]))
  {
    SavedArchiveExtracts(m.dir, TempFileName(meta.lastVersionUrl), content, t2);
  }

  /** Applying an archive holding `./bin/app.exe`, downloaded into a fresh
      temporary file named `fname` in an empty directory. */
  lemma ApplyAppArchive(m: Machine, fname: String, marker: Meta, data: seq<byte>)
    requires m.dir == map[] && fname == TempFileName(marker.lastVersionUrl) && fname != [] && fname[0] == 'a'
    ensures var t0 := m.dir[fname := File(Zip([ZipEntry("./bin/app.exe", data)]), CreateMode)];
      var t2 := t0["bin" := Directory]["bin/app.exe" := File(Raw(data), CreateMode)];
      RunUpdateSpec(m, marker, Response(200, Zip([ZipEntry("./bin/app.exe", data)])))
        == Run(Returned, Machine(m.metaFile, t2 - {fname}, m.requests + [marker.lastVersionUrl]))
  {
    var entries := [ZipEntry("./bin/app.exe", data)];
    var t0 := m.dir[fname := File(Zip(entries), CreateMode)];
    var t2 := t0["bin" := Directory]["bin/app.exe" := File(Raw(data), CreateMode)];
    AppArchiveExtracts(fname, data);
    assert MarkerAfterDownload(m.metaFile, fname) == m.metaFile by {
      assert fname[0] != MetaFileName[0];
    }
    SuccessfulApply(m, marker, 200, Zip(entries), t2);
  }

  /** The archive holding `./bin/app.exe`, saved as `fname` into an empty
      directory, extracts next to itself. */
  lemma AppArchiveExtracts(fname: String, data: seq<byte>)
    requires fname != [] && fname[0] == 'a'
    ensures var t0 := map[fname := File(Zip([ZipEntry("./bin/app.exe", data)]), CreateMode)];
      var t2 := t0["bin" := Directory]["bin/app.exe" := File(Raw(data), CreateMode)];
      && !AlwaysDirectory(fname)
      && Extract(t0, "", [ZipEntry("./bin/app.exe", data)]) == Extracted(None, t2)
      && fname in t2 && t2[fname].File?
  {
    var t0 := map[fname := File(Zip([ZipEntry("./bin/app.exe", data)]), CreateMode)];
    assert "bin" !in t0 && "bin/app.exe" !in t0;
    ExtractApp(t0, data);
  }

  /** The installed tree, once the temporary archive is gone. */
  lemma WithoutTempFile(fname: String, t0: Tree, data: seq<byte>)
    requires t0.Keys == {fname} && fname != [] && fname[0] == 'a'
    ensures t0["bin" := Directory]["bin/app.exe" := File(Raw(data), CreateMode)] - {fname}
      == map["bin" := Directory, "bin/app.exe" := File(Raw(data), CreateMode)]
  {
    var r := t0["bin" := Directory]["bin/app.exe" := File(Raw(data), CreateMode)] - {fname};
    assert fname != "bin" && fname != "bin/app.exe";
    assert r.Keys == {"bin", "bin/app.exe"};
  }

  /** Applying the published archive on a client with an empty directory
      installs the build output under `bin/app.exe` and leaves no temporary
      archive behind. */
  lemma ApplyPublishedArchive(m: Machine, variant: String, storage: String, version: String, data: seq<byte>)
    requires '/' !in version && m.dir == map[]
    ensures var marker := PublishedMarker(variant, storage, version);
      RunUpdateSpec(m, marker, Response(200, Zip([ZipEntry("./bin/app.exe", data)])))
        == Run(Returned, Machine(m.metaFile, map["bin" := Directory, "bin/app.exe" := File(Raw(data), CreateMode)],
                                 m.requests + [marker.lastVersionUrl]))
  {
    var marker := PublishedMarker(variant, storage, version);
    TempNameOfPublishedArchive(storage, variant, version);
    var fname := ArchiveFileName(version);
    assert fname[0] == 'a';
    ApplyAppArchive(m, fname, marker, data);
    WithoutTempFile(fname, m.dir[fname := File(Zip([ZipEntry("./bin/app.exe", data)]), CreateMode)], data);
  }

  /** A published archive is never saved under the marker's name, so
      applying it leaves `.meta` alone. */
  lemma PublishedArchiveKeepsMarker(variant: String, storage: String, version: String, download: Download)
    requires '/' !in version
    ensures !ClobbersMarker(PublishedMarker(variant, storage, version), download)
  {
    TempNameOfPublishedArchive(storage, variant, version);
    assert ArchiveFileName(version)[0] != MetaFileName[0];
  }

  /** A client with no `.meta` and an empty directory that is served the
      published marker and then the archive holding `./bin/app.exe` stores
      the marker and installs the file. */
  lemma FreshClientApplies(url: String, reply: RemoteReply, download: Download,
                           variant: String, storage: String, version: String, data: seq<byte>)
    requires '/' !in version
    requires FetchMeta(reply) == Ok(PublishedMarker(variant, storage, version))
    requires download == Response(200, Zip([ZipEntry("./bin/app.exe", data)]))
    ensures var marker := PublishedMarker(variant, storage, version);
      CheckUpdateSpec(Machine(None, map[], []), url, reply, reply, download)
        == Run(Returned, Machine(Some(EncodeMeta(marker)),
                                 map["bin" := Directory, "bin/app.exe" := File(Raw(data), CreateMode)],
                                 [url, url, marker.lastVersionUrl]))
  {
    var marker := PublishedMarker(variant, storage, version);
    var m := Machine(Some(EncodeMeta(marker)), map[], [url, url]);
    UpdateProtocol.BootstrapIsApply(Machine(None, map[], []), url, reply, reply, download, marker, marker);
    assert [] + [url, url] == [url, url];
    ApplyPublishedArchive(m, variant, storage, version, data);
  }

  /** The storage client worked throughout the publish. */
  predicate FaultFree(faults: StorageFaults) {
    !faults.clientFails && !faults.archiveAclFails && !faults.metaAclFails
  }

  /** A publish of one build output `<OutputDir>/bin/app.exe`, followed by
      the first run of the updater on a client with no `.meta` and an empty
      directory: the client fetches the marker twice, stores it, downloads
      the archive and ends up with `bin/app.exe` holding the build output's
      bytes. */
  lemma FreshClientInstallsPublishedBuild(bucket: Bucket, variant: String, storage: String, version: String,
                                          outputDir: String, data: seq<byte>, faults: StorageFaults)
    requires '/' !in version
    requires outputDir != [] && !Occurs("/bin/app.exe", outputDir)
    requires FaultFree(faults)
    ensures var p := Pack(Steps(map[AppOutput(outputDir) := data], outputDir, [Built(AppOutput(outputDir))]), 0);
      var b := Uploaded(bucket, variant, storage, version, Zip(p.entries), faults);
      var url := MetaUrl(storage, variant);
      var reply := ServeMarker(storage, b, url);
      var marker := PublishedMarker(variant, storage, version);
      && p.err.None?
      && CheckUpdateSpec(Machine(None, map[], []), url, reply, reply, ServeArchive(storage, b, marker.lastVersionUrl))
         == Run(Returned, Machine(Some(EncodeMeta(marker)),
                                  map["bin" := Directory, "bin/app.exe" := File(Raw(data), CreateMode)],
                                  [url, url, marker.lastVersionUrl]))
  {
    var entries := [ZipEntry("./bin/app.exe", data)];
    var p := Pack(Steps(map[AppOutput(outputDir) := data], outputDir, [Built(AppOutput(outputDir))]), 0);
    assert p == Packed(None, entries) by {
      PackSingleOutput(outputDir, data);
    }
    var b := Uploaded(bucket, variant, storage, version, Zip(entries), faults);
    var url := MetaUrl(storage, variant);
    var reply := ServeMarker(storage, b, url);
    var marker := PublishedMarker(variant, storage, version);
    assert FetchMeta(reply) == Ok(marker) by {
      PublishedMarkerReachesUpdater(bucket, variant, storage, version, Zip(entries), faults);
    }
    var download := ServeArchive(storage, b, marker.lastVersionUrl);
    assert download == Response(200, Zip(entries)) by {
      PublishedArchiveReachesUpdater(bucket, variant, storage, version, Zip(entries), faults);
    }
    FreshClientApplies(url, reply, download, variant, storage, version, data);
  }

  /** After that first run, a second run against the same bucket finds the
      client up to date: it requests only the marker and changes nothing,
      provided the published version is a version. */
  lemma PublishedBuildStaysInstalled(bucket: Bucket, variant: String, storage: String, version: String,
                                     outputDir: String, data: seq<byte>, faults: StorageFaults)
    requires '/' !in version && SemVer.Parse(version).Some?
    requires outputDir != [] && !Occurs("/bin/app.exe", outputDir)
    requires FaultFree(faults)
    ensures var p := Pack(Steps(map[AppOutput(outputDir) := data], outputDir, [Built(AppOutput(outputDir))]), 0);
      var b := Uploaded(bucket, variant, storage, version, Zip(p.entries), faults);
      var url := MetaUrl(storage, variant);
      var reply := ServeMarker(storage, b, url);
      var download := ServeArchive(storage, b, PublishedMarker(variant, storage, version).lastVersionUrl);
      var first := CheckUpdateSpec(Machine(None, map[], []), url, reply, reply, download).after;
      CheckUpdateSpec(first, url, reply, reply, download) == Run(Returned, first.(requests := first.requests + [url]))
  {
    FreshClientInstallsPublishedBuild(bucket, variant, storage, version, outputDir, data, faults);
    var p := Pack(Steps(map[AppOutput(outputDir) := data], outputDir, [Built(AppOutput(outputDir))]), 0);
    var b := Uploaded(bucket, variant, storage, version, Zip(p.entries), faults);
    var url := MetaUrl(storage, variant);
    var reply := ServeMarker(storage, b, url);
    var download := ServeArchive(storage, b, PublishedMarker(variant, storage, version).lastVersionUrl);
    PublishedMarkerReachesUpdater(bucket, variant, storage, version, Zip(p.entries), faults);
    SecondRunIsNoOp(Machine(None, map[], []), url, reply, reply, download, reply, reply, download);
  }

  // ---------------------------------------------------------------------
  // The publish as written: the zip.Writer is never closed.

  /** A publish as written (Publiser.Run uploads an archive without its
      central directory), followed by the first run of a client with no
      `.meta` and an empty directory: the client stores the published marker
      before applying it, the zip reader cannot open the download, and the
      run panics with nothing installed. */
  lemma FreshClientRejectsUnterminatedArchive(bucket: Bucket, variant: String, storage: String, version: String,
                                              entries: seq<Entry>, faults: StorageFaults)
    requires '/' !in version
    requires FaultFree(faults)
    ensures var b := Uploaded(bucket, variant, storage, version, Unterminated(entries), faults);
      var url := MetaUrl(storage, variant);
      var reply := ServeMarker(storage, b, url);
      var marker := PublishedMarker(variant, storage, version);
      CheckUpdateSpec(Machine(None, map[], []), url, reply, reply, ServeArchive(storage, b, marker.lastVersionUrl))
        == Run(Panicked(ApplyFailed(OpenArchiveFailed)),
               Machine(Some(EncodeMeta(marker)), map[], [url, url, marker.lastVersionUrl]))
  {
    var b := Uploaded(bucket, variant, storage, version, Unterminated(entries), faults);
    var url := MetaUrl(storage, variant);
    var reply := ServeMarker(storage, b, url);
    var marker := PublishedMarker(variant, storage, version);
    assert FetchMeta(reply) == Ok(marker) by {
      PublishedMarkerReachesUpdater(bucket, variant, storage, version, Unterminated(entries), faults);
    }
    var download := ServeArchive(storage, b, marker.lastVersionUrl);
    assert download == Response(200, Unterminated(entries)) by {
      PublishedArchiveReachesUpdater(bucket, variant, storage, version, Unterminated(entries), faults);
    }
    UpdateProtocol.BootstrapIsApply(Machine(None, map[], []), url, reply, reply, download, marker, marker);
    var m := Machine(Some(EncodeMeta(marker)), map[], [url, url]);
    assert [] + [url, url] == [url, url];
    NonArchivePanics(m, marker, 200, Unterminated(entries));
    PublishedArchiveKeepsMarker(variant, storage, version, download);
    var r := RunUpdateSpec(m, marker, download);
    assert r.after.dir == map[] by {
      var empty: Tree := map[];
      assert r.after.dir.Keys <= empty.Keys;
    }
    assert r.after == Machine(Some(EncodeMeta(marker)), map[], [url, url, marker.lastVersionUrl]);
  }

  /** After that failed first run, the stored marker equals the published
      one, so every later run finds the client up to date: it requests only
      the marker and never retries the download. The published build is
      never installed. */
  lemma UnterminatedArchiveIsNeverRetried(bucket: Bucket, variant: String, storage: String, version: String,
                                          entries: seq<Entry>, faults: StorageFaults)
    requires '/' !in version && SemVer.Parse(version).Some?
    requires FaultFree(faults)
    ensures var b := Uploaded(bucket, variant, storage, version, Unterminated(entries), faults);
      var url := MetaUrl(storage, variant);
      var reply := ServeMarker(storage, b, url);
      var download := ServeArchive(storage, b, PublishedMarker(variant, storage, version).lastVersionUrl);
      var first := CheckUpdateSpec(Machine(None, map[], []), url, reply, reply, download).after;
      && first.dir == map[]
      && CheckUpdateSpec(first, url, reply, reply, download) == Run(Returned, first.(requests := first.requests + [url]))
  {
    FreshClientRejectsUnterminatedArchive(bucket, variant, storage, version, entries, faults);
    var b := Uploaded(bucket, variant, storage, version, Unterminated(entries), faults);
    var url := MetaUrl(storage, variant);
    var reply := ServeMarker(storage, b, url);
    var marker := PublishedMarker(variant, storage, version);
    var download := ServeArchive(storage, b, marker.lastVersionUrl);
    var first := Machine(Some(EncodeMeta(marker)), map[], [url, url, marker.lastVersionUrl]);
    PublishedMarkerReachesUpdater(bucket, variant, storage, version, Unterminated(entries), faults);
    LoadAfterSave(marker);
    var v := SemVer.Parse(version).value;
    SemVer.GreaterThanIsStrictTotalOrder(v, v, v);
    NoUpdateUnlessNewer(first, url, reply, reply, download, marker, marker, v, v);
  }
}
