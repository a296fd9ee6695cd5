/** The publishing side: the build outputs are packed into a zip archive,
    the archive is uploaded under a versioned key, and the variant's marker
    is pointed at it. Builds, the local disk and the storage bucket are
    inputs; the Publiser and AppArchiver classes change what they hold in
    the order the source does. */
module Publisher {

  import opened Wrappers
  import opened Text
  import opened FileSystem
  import opened MetaStore
  import opened Naming

  // ---------------------------------------------------------------------
  // Archive entry names (appendToZipFile, createdZippedFile).

  predicate StartsWithSeparator(s: String) {
    |s| > 0 && (s[0] == '/' || s[0] == '\\')
  }

  /** appendToZipFile: the entry name is dest made relative by a leading "."
      when dest starts with a slash or a backslash; any other dest is kept. */
  function EntryName(dest: String): (name: String)
    ensures !StartsWithSeparator(name)
    ensures name == dest <==> !StartsWithSeparator(dest)
    ensures |dest| <= |name| <= |dest| + 1 && name[|name| - |dest|..] == dest
    ensures |name| > |dest| ==> name[0] == '.'
  {
    if StartsWithSeparator(dest) then "." + dest else dest
  }

  /** createdZippedFile's appendFile: the last piece of the build path split
      on the output directory. None is the index-out-of-range panic of an
      empty split (empty path and empty output directory). */
  function BuildDestination(buildPath: String, outputDir: String): (dest: Option<String>)
    ensures dest.None? <==> outputDir == [] && buildPath == []
    ensures outputDir != [] && !Occurs(buildPath, outputDir) ==> dest == Some(buildPath)
  {
    if outputDir != [] && !Occurs(buildPath, outputDir) then
      LastPieceWithoutOccurrence(buildPath, outputDir);
      LastPiece(buildPath, outputDir)
    else LastPiece(buildPath, outputDir)
  }

  /** A build output directly under the output directory becomes the path
      relative to it, with its leading separator. */
  lemma DestinationUnderOutputDir(outputDir: String, rest: String)
    requires outputDir != [] && !Occurs(rest, outputDir)
    ensures BuildDestination(outputDir + rest, outputDir) == Some(rest)
  {
    LastPieceAfterPrefix(outputDir, rest);
  }

  // ---------------------------------------------------------------------
  // Packing (Publiser.Run's loop over BuildCmd).

  /** What one BuildCmd handler returns: the path of its output, or an error. */
  datatype BuildResult = Built(path: String) | BuildError

  datatype PackError =
    | BuildFailed(index: nat)        // the handler returned an error
    | NoDestination(path: String)    // the split in appendFile panicked
    | OpenFailed(path: String)       // os.Open of the build output

  /** zip.Writer.Create(name): the header carries no mode bits, which the zip
      reader reports as 0666, and a name ending in a slash is a directory. */
  function ZipEntry(name: String, data: seq<byte>): Entry {
    Entry(name, |name| > 0 && name[|name| - 1] == '/', CreateMode, data, Intact)
  }

  /** The entry that appendFile(buildPath) adds to the archive. `disk` holds
      the build outputs that exist on the publisher's disk. */
  function ArchiveEntry(disk: map<String, seq<byte>>, outputDir: String, buildPath: String)
    : (r: Result<Entry, PackError>)
    ensures r.Ok? <==> BuildDestination(buildPath, outputDir).Some? && buildPath in disk
    ensures r.Ok? ==>
      && r.value.name == EntryName(BuildDestination(buildPath, outputDir).value)
      && r.value.data == disk[buildPath]
      && r.value.mode == CreateMode && r.value.health == Intact
  {
    match BuildDestination(buildPath, outputDir)
    case None => Err(NoDestination(buildPath))
    case Some(dest) =>
      if buildPath !in disk then Err(OpenFailed(buildPath))
      else Ok(ZipEntry(EntryName(dest), disk[buildPath]))
  }

  /** What handler k and its append contribute: the entry, or the failure. */
  function HandlerStep(disk: map<String, seq<byte>>, outputDir: String, b: BuildResult, k: nat)
    : (r: Result<Entry, PackError>)
    ensures r.Ok? <==> b.Built? && BuildDestination(b.path, outputDir).Some? && b.path in disk
    ensures b.BuildError? ==> r == Err(BuildFailed(k))
    ensures r.Ok? ==>
      && r.value.name == EntryName(BuildDestination(b.path, outputDir).value)
      && r.value.data == disk[b.path] && r.value.mode == CreateMode && r.value.health == Intact
  {
    match b
    case BuildError => Err(BuildFailed(k))
    case Built(p) => ArchiveEntry(disk, outputDir, p)
  }

  function Steps(disk: map<String, seq<byte>>, outputDir: String, builds: seq<BuildResult>)
    : (steps: seq<Result<Entry, PackError>>)
    ensures |steps| == |builds|
    ensures forall k :: 0 <= k < |builds| ==> steps[k] == HandlerStep(disk, outputDir, builds[k], k)
  {
    seq(|builds|, k requires 0 <= k < |builds| => HandlerStep(disk, outputDir, builds[k], k))
  }

  datatype Packed = Packed(err: Option<PackError>, entries: seq<Entry>)

  /** The loop from handler i on: entries in handler order, stopping at the
      first failure. */
  function Pack(steps: seq<Result<Entry, PackError>>, i: nat): Packed
    requires i <= |steps|
    decreases |steps| - i
  {
    if i == |steps| then Packed(None, [])
    else if steps[i].Err? then Packed(Some(steps[i].error), [])
    else
      var rest := Pack(steps, i + 1);
      Packed(rest.err, [steps[i].value] + rest.entries)
  }

  /** The archive as the loop leaves it: the entries already written,
      followed by what the rest of the loop produces. */
  function Continued(written: seq<Entry>, rest: Packed): (r: Packed)
    ensures r.err == rest.err && |r.entries| == |written| + |rest.entries|
  {
    Packed(rest.err, written + rest.entries)
  }

  /** One successful handler moves its entry from the rest of the loop to
      what has been written. */
  lemma PackAdvance(steps: seq<Result<Entry, PackError>>, i: nat, written: seq<Entry>)
    requires i < |steps| && steps[i].Ok?
    ensures Continued(written, Pack(steps, i)) == Continued(written + [steps[i].value], Pack(steps, i + 1))
  {
    var rest := Pack(steps, i + 1);
    assert Pack(steps, i) == Packed(rest.err, [steps[i].value] + rest.entries);
    assert written + ([steps[i].value] + rest.entries) == (written + [steps[i].value]) + rest.entries;
  }

  /** A failing handler ends the loop with its error and what has been
      written so far. */
  lemma PackStop(steps: seq<Result<Entry, PackError>>, i: nat, written: seq<Entry>)
    requires i < |steps| && steps[i].Err?
    ensures Continued(written, Pack(steps, i)) == Packed(Some(steps[i].error), written)
  {
    assert Pack(steps, i) == Packed(Some(steps[i].error), []);
    assert written + [] == written;
  }

  /** Past the last handler, what has been written is the whole archive. */
  lemma PackEnd(steps: seq<Result<Entry, PackError>>, written: seq<Entry>)
    ensures Continued(written, Pack(steps, |steps|)) == Packed(None, written)
  {
    assert written + [] == written;
  }

  /** Before the first handler nothing has been written. */
  lemma PackBegin(steps: seq<Result<Entry, PackError>>)
    ensures Continued([], Pack(steps, 0)) == Pack(steps, 0)
  {
    assert [] + Pack(steps, 0).entries == Pack(steps, 0).entries;
  }

  /** The archive holds one entry per handler, in handler order, up to the
      first handler that fails. */
  lemma {:induction false} PackInOrder(steps: seq<Result<Entry, PackError>>, i: nat)
    requires i <= |steps|
    ensures var p := Pack(steps, i);
      && i + |p.entries| <= |steps|
      && (forall k :: 0 <= k < |p.entries| ==> steps[i + k] == Ok(p.entries[k]))
    decreases |steps| - i
  {
    if i < |steps| && steps[i].Ok? {
      PackInOrder(steps, i + 1);
      var p := Pack(steps, i);
      var rest := Pack(steps, i + 1);
      forall k | 0 <= k < |p.entries| ensures steps[i + k] == Ok(p.entries[k]) {
        if k > 0 {
          assert p.entries[k] == rest.entries[k - 1];
          assert i + k == (i + 1) + (k - 1);
        }
      }
    }
  }

  /** The loop stops at the first handler that fails, with that handler's
      failure, and it succeeds exactly when no handler fails. */
  lemma {:induction false} PackStopsAtFirstFailure(steps: seq<Result<Entry, PackError>>, i: nat)
    requires i <= |steps|
    ensures var p := Pack(steps, i);
      && i + |p.entries| <= |steps|
      && (p.err.None? <==> i + |p.entries| == |steps|)
      && (p.err.Some? ==> steps[i + |p.entries|] == Err(p.err.value))
    decreases |steps| - i
  {
    if i < |steps| && steps[i].Ok? {
      PackStopsAtFirstFailure(steps, i + 1);
    }
  }

  // ---------------------------------------------------------------------
  // The updater build (buildUpdater).

  /** One linker assignment `-X 'name=value'`. */
  function Assignment(name: String, value: String): String {
    "-X '" + name + "=" + value + "'"
  }

  /** buildUpdater's -ldflags: the updater's Variant, Storage, Version and
      AppEntryPoint variables, in that order, separated by spaces. */
  function LdFlags(variant: String, storage: String, version: String, entryPoint: String): String {
    Assignment("main.Variant", variant) + " " + Assignment("main.Storage", storage) + " "
      + Assignment("main.Version", version) + " " + Assignment("main.AppEntryPoint", entryPoint)
  }

  /** Appending `lead` and one assignment to flags already split into
      `init` and a last piece adds the assignment's `name=value` as a piece of
      its own, between the quotes. */
  lemma AssignmentStep(f: String, init: seq<String>, last: String, lead: String, name: String, value: String)
    requires Split(f, '\'') == init + [last]
    requires '\'' !in lead && '\'' !in name && '\'' !in value
    ensures Split(f + lead + Assignment(name, value), '\'') == init + [last + lead + "-X ", name + "=" + value, []]
  {
    var q := '\'';
    var v := name + "=" + value;
    var w := lead + "-X ";
    assert q !in v && q !in w;
    assert Assignment(name, value) == "-X " + [q] + v + [q];
    assert f + lead + Assignment(name, value) == (f + w) + [q] + v + [q];
    ExtendLastPieceBy(f, w, q, init, last);
    assert last + w == last + lead + "-X ";
    SplitAppendPiece(f + w, v, q);
    SplitAppendPiece((f + w) + [q] + v, [], q);
    assert (f + w) + [q] + v + [q] + [] == (f + w) + [q] + v + [q];
  }

  /** The first assignment on its own splits into its lead, its
      `name=value` and an empty tail. */
  lemma FirstAssignment(name: String, value: String)
    requires '\'' !in name && '\'' !in value
    ensures Split(Assignment(name, value), '\'') == ["-X ", name + "=" + value, []]
  {
    var e: String := [];
    assert Split(e, '\'') == [] + [e];
    AssignmentStep(e, [], e, e, name, value);
    assert e + e + Assignment(name, value) == Assignment(name, value);
    assert e + e + "-X " == "-X ";
  }

  /** Each further assignment, after a space, adds " -X " and its
      `name=value` as pieces. */
  lemma NextAssignment(f: String, init: seq<String>, name: String, value: String)
    requires Split(f, '\'') == init + [[]]
    requires '\'' !in name && '\'' !in value
    ensures Split(f + " " + Assignment(name, value), '\'') == init + [" -X ", name + "=" + value, []]
  {
    var e: String := [];
    AssignmentStep(f, init, e, " ", name, value);
    assert e + " " + "-X " == " -X ";
  }

  /** Read back at its single quotes, the flags string holds exactly the four
      assignments, in the order Variant, Storage, Version, AppEntryPoint,
      provided no value holds a single quote. */
  lemma LdFlagsAssignments(variant: String, storage: String, version: String, entryPoint: String)
    requires '\'' !in variant && '\'' !in storage && '\'' !in version && '\'' !in entryPoint
    ensures Split(LdFlags(variant, storage, version, entryPoint), '\'') ==
      ["-X ", "main.Variant" + "=" + variant, " -X ", "main.Storage" + "=" + storage,
       " -X ", "main.Version" + "=" + version, " -X ", "main.AppEntryPoint" + "=" + entryPoint, ""]
  {
    var f1 := Assignment("main.Variant", variant);
    var f2 := f1 + " " + Assignment("main.Storage", storage);
    var f3 := f2 + " " + Assignment("main.Version", version);
    FirstAssignment("main.Variant", variant);
    NextAssignment(f1, ["-X ", "main.Variant" + "=" + variant], "main.Storage", storage);
    NextAssignment(f2, ["-X ", "main.Variant" + "=" + variant, " -X ", "main.Storage" + "=" + storage],
      "main.Version", version);
    NextAssignment(f3, ["-X ", "main.Variant" + "=" + variant, " -X ", "main.Storage" + "=" + storage,
      " -X ", "main.Version" + "=" + version], "main.AppEntryPoint", entryPoint);
  }

  /** buildUpdater's output file, filepath.Join(OutputDir, "./updater_<Variant>.exe"). */
  function UpdaterBinaryPath(outputDir: String, variant: String): String {
    Join(outputDir, "./updater_" + variant + ".exe")
  }

  /** Dropping leading "./" elements keeps a path's last segment. */
  lemma {:induction false} StripCurrentDirKeepsLastSegment(s: String, name: String)
    requires '/' !in name && |name| > 0
    requires s == name || (|s| > |name| && s[|s| - |name|..] == name && s[|s| - |name| - 1] == '/')
    ensures LastSegment(StripCurrentDir(s), '/') == name
    decreases |s|
  {
    if |s| > 2 && s[0] == '.' && s[1] == '/' {
      var s' := s[2..];
      assert |s'| >= |name| && s'[|s'| - |name|..] == name;
      if |s'| == |name| {
        assert s' == name;
      } else {
        assert s'[|s'| - |name| - 1] == '/';
      }
      StripCurrentDirKeepsLastSegment(s', name);
    } else if s == name {
      LastSegmentWithoutSeparator(name, '/');
    } else {
      assert s == s[..|s| - |name| - 1] + ['/'] + name;
      LastSegmentAfterSeparator(s[..|s| - |name| - 1], name, '/');
    }
  }

  /** A variant without '/' gives an updater name without '/'. */
  lemma UpdaterNameHasNoSlash(variant: String)
    requires '/' !in variant
    ensures '/' !in "updater_" + variant + ".exe"
  {
    var prefix: String := "updater_";
    var suffix: String := ".exe";
    assert '/' !in prefix && '/' !in suffix;
  }

  /** The updater binary lands directly in the output directory, named
      after the variant: its path is the output directory and the name,
      with leading "./" elements cleaned away, and exactly the directory
      and the name when the directory does not start with '.'. */
  lemma UpdaterBinaryInOutputDir(outputDir: String, variant: String)
    requires '/' !in variant
    ensures var name := "updater_" + variant + ".exe";
      var joined := if outputDir == [] then name else outputDir + "/" + name;
      && UpdaterBinaryPath(outputDir, variant) == StripCurrentDir(joined)
      && (outputDir == [] || outputDir[0] != '.' ==> UpdaterBinaryPath(outputDir, variant) == joined)
      && LastSegment(UpdaterBinaryPath(outputDir, variant), '/') == name
  {
    var name := "updater_" + variant + ".exe";
    var dotted := "./updater_" + variant + ".exe";
    assert dotted[2..] == name;
    assert StripCurrentDir(name) == name;
    assert StripCurrentDir(dotted) == name;
    var joined := if outputDir == [] then name else outputDir + "/" + name;
    assert joined[|joined| - 1] == 'e';
    assert TrimTrailingSlash(joined) == joined;
    assert Join(outputDir, dotted) == StripCurrentDir(joined);
    UpdaterNameHasNoSlash(variant);
    if outputDir != [] {
      assert joined[|joined| - |name|..] == name;
      assert joined[|joined| - |name| - 1] == '/';
    }
    StripCurrentDirKeepsLastSegment(joined, name);
  }

  // ---------------------------------------------------------------------
  // The storage bucket and AppArchiver.

  /** An object in the bucket: a marker written as JSON (None is the JSON
      `null` of a nil marker), or an uploaded file. */
  datatype StoredObject = MetaJson(marker: Option<Meta>) | Blob(content: Content)

  /** The bucket's objects by key, and the keys readable by all users. A
      newly written object is not public until its ACL is set. */
  datatype Bucket = Bucket(objects: map<String, StoredObject>, public: set<String>)

  /** json.Unmarshal of an object into a zero Meta: only a written marker
      fills it in. */
  function DecodeStored(o: StoredObject): (m: Meta)
    ensures o.MetaJson? && o.marker.Some? ==> m == o.marker.value
    ensures !(o.MetaJson? && o.marker.Some?) ==> m == EmptyMeta()
  {
    match o
    case MetaJson(Some(x)) => x
    case _ => EmptyMeta()
  }

  /** The public set after writing `key` and then setting its ACL. */
  function AfterAcl(public: set<String>, key: String, aclFails: bool): (r: set<String>)
    ensures key in r <==> !aclFails
    ensures forall k :: k != key ==> (k in r <==> k in public)
  {
    if aclFails then public - {key} else public - {key} + {key}
  }

  class AppArchiver {
    const appName: String
    const bucketName: String
    /** arcv.Meta, nil until GetMeta or UploadArchive sets it. */
    var meta: Option<Meta>
    var bucket: Bucket

    /** ConfigureClient(appName, bucketId), once the storage client exists. */
    constructor (appName: String, bucketName: String, bucket: Bucket)
      ensures this.appName == appName && this.bucketName == bucketName
      ensures this.meta == None && this.bucket == bucket
    {
      this.appName := appName;
      this.bucketName := bucketName;
      this.meta := None;
      this.bucket := bucket;
    }

    /** UploadMeta: write the current marker to `<AppName>/meta.json`, then
        make it public; an ACL failure is reported after the write. */
    method UploadMeta(aclFails: bool) returns (err: bool)
      modifies this
      ensures meta == old(meta)
      ensures bucket.objects == old(bucket.objects)[MetaObjectKey(appName) := MetaJson(meta)]
      ensures bucket.public == AfterAcl(old(bucket.public), MetaObjectKey(appName), aclFails)
      ensures err == aclFails
    {
      var key := MetaObjectKey(appName);
      bucket := Bucket(bucket.objects[key := MetaJson(meta)], bucket.public - {key});
      if aclFails {
        return true;
      }
      bucket := bucket.(public := bucket.public + {key});
      return false;
    }

    /** GetMeta: read the published marker. When it cannot be read (missing,
        or any other reader error) the default marker 1.0.0 with no archive
        is set and uploaded instead. */
    method GetMeta(readFails: bool, aclFails: bool) returns (m: Meta)
      modifies this
      ensures meta == Some(m)
      ensures var key := MetaObjectKey(appName);
        if key !in old(bucket.objects) || readFails then
          && m == DefaultMeta()
          && bucket.objects == old(bucket.objects)[key := MetaJson(Some(m))]
          && bucket.public == AfterAcl(old(bucket.public), key, aclFails)
        else
          m == DecodeStored(old(bucket.objects)[key]) && bucket == old(bucket)
    {
      var key := MetaObjectKey(appName);
      if key !in bucket.objects || readFails {
        meta := Some(Meta("1.0.0", ""));
        var _ := UploadMeta(aclFails);
        return meta.value;
      }
      m := DecodeStored(bucket.objects[key]);
      meta := Some(m);
    }

    /** UploadArchive(filename, version): store the archive under
        `<AppName>/app_v<version>.zip` and make it public; then point the
        marker at its public URL and upload the marker. A failed archive ACL
        returns before the marker is touched; a failed marker upload is
        ignored. */
    method UploadArchive(content: Content, version: String, archiveAclFails: bool, metaAclFails: bool)
      returns (err: bool)
      modifies this
      ensures err == archiveAclFails
      ensures var akey := ArchiveObjectKey(appName, version);
        var mkey := MetaObjectKey(appName);
        if archiveAclFails then
          && meta == old(meta)
          && bucket.objects == old(bucket.objects)[akey := Blob(content)]
          && bucket.public == AfterAcl(old(bucket.public), akey, true)
        else
          && meta == Some(Meta(version, PublicUrl(bucketName, akey)))
          && bucket.objects == old(bucket.objects)[akey := Blob(content)][mkey := MetaJson(meta)]
          && bucket.public == AfterAcl(AfterAcl(old(bucket.public), akey, false), mkey, metaAclFails)
    {
      var key := ArchiveObjectKey(appName, version);
      bucket := Bucket(bucket.objects[key := Blob(content)], bucket.public - {key});
      if archiveAclFails {
        return true;
      }
      bucket := bucket.(public := bucket.public + {key});
      meta := Some(Meta(version, PublicUrl(bucketName, key)));
      var _ := UploadMeta(metaAclFails);
      return false;
    }
  }

  /** The bucket after uploadZipFile: GetMeta, then UploadArchive. */
  function Uploaded(bucket: Bucket, appName: String, bucketName: String, version: String, content: Content,
                    faults: StorageFaults): Bucket
  {
    var mkey := MetaObjectKey(appName);
    var akey := ArchiveObjectKey(appName, version);
    var b1 :=
      if mkey !in bucket.objects || faults.metaReadFails then
        Bucket(bucket.objects[mkey := MetaJson(Some(DefaultMeta()))], AfterAcl(bucket.public, mkey, faults.metaAclFails))
      else bucket;
    var b2 := Bucket(b1.objects[akey := Blob(content)], AfterAcl(b1.public, akey, faults.archiveAclFails));
    if faults.archiveAclFails then b2
    else
      Bucket(b2.objects[mkey := MetaJson(Some(Meta(version, PublicUrl(bucketName, akey))))],
             AfterAcl(b2.public, mkey, faults.metaAclFails))
  }

  /** After a publish whose archive ACL was set, the archive is public under
      its versioned key, the marker names that version and the archive's
      public URL, and every other object is as it was. */
  lemma UploadedMarkerPointsAtArchive(bucket: Bucket, appName: String, bucketName: String, version: String,
                                      content: Content, faults: StorageFaults)
    requires !faults.archiveAclFails
    ensures var b := Uploaded(bucket, appName, bucketName, version, content, faults);
      var mkey := MetaObjectKey(appName);
      var akey := ArchiveObjectKey(appName, version);
      && b.objects[akey] == Blob(content) && akey in b.public
      && b.objects[mkey] == MetaJson(Some(Meta(version, PublicUrl(bucketName, akey))))
      && (mkey in b.public <==> !faults.metaAclFails)
      && b.objects.Keys == bucket.objects.Keys + {mkey, akey}
      && (forall k :: k in bucket.objects && k != mkey && k != akey ==> b.objects[k] == bucket.objects[k])
      && (forall k :: k != mkey && k != akey ==> (k in b.public <==> k in bucket.public))
  {
    ArchiveKeyIsNeverMetaKey(appName, version, appName);
  }

  /** When the archive ACL fails, the marker stays as GetMeta left it: the
      one that was there, or the default marker when it could not be read. */
  lemma FailedArchiveAclKeepsMarker(bucket: Bucket, appName: String, bucketName: String, version: String,
                                    content: Content, faults: StorageFaults)
    requires faults.archiveAclFails
    ensures var b := Uploaded(bucket, appName, bucketName, version, content, faults);
      var mkey := MetaObjectKey(appName);
      var akey := ArchiveObjectKey(appName, version);
      && b.objects[akey] == Blob(content) && akey !in b.public
      && b.objects[mkey] == (if mkey !in bucket.objects || faults.metaReadFails then MetaJson(Some(DefaultMeta()))
                             else bucket.objects[mkey])
  {
    ArchiveKeyIsNeverMetaKey(appName, version, appName);
  }

  // ---------------------------------------------------------------------
  // Publiser.

  /** What the storage client does in one run: whether the client cannot be
      created, the marker cannot be read, and the ACLs cannot be set. */
  datatype StorageFaults = StorageFaults(clientFails: bool, metaReadFails: bool, archiveAclFails: bool, metaAclFails: bool)

  datatype PublishFailure = UpdaterBuildFailed | PackFailed(cause: PackError) | ClientFailed

  datatype PublishOutcome = Published | PublishPanicked(failure: PublishFailure)

  class Publiser {
    const version: String
    const storage: String
    const variant: String
    const appEntryPoint: String
    const outputDir: String
    /** The entries written to the zip writer so far. */
    var archive: seq<Entry>

    constructor (version: String, storage: String, variant: String, appEntryPoint: String, outputDir: String)
      ensures this.version == version && this.storage == storage && this.variant == variant
      ensures this.appEntryPoint == appEntryPoint && this.outputDir == outputDir
      ensures archive == []
    {
      this.version := version;
      this.storage := storage;
      this.variant := variant;
      this.appEntryPoint := appEntryPoint;
      this.outputDir := outputDir;
      this.archive := [];
    }

    /** createdZippedFile's appendFile(buildPath): one entry more, or an error
        and no entry. */
    method AppendFile(disk: map<String, seq<byte>>, buildPath: String) returns (err: Option<PackError>)
      modifies this
      ensures var r := ArchiveEntry(disk, outputDir, buildPath);
        && (r.Ok? ==> err == None && archive == old(archive) + [r.value])
        && (r.Err? ==> err == Some(r.error) && archive == old(archive))
    {
      var dest := BuildDestination(buildPath, outputDir);
      if dest.None? {
        return Some(NoDestination(buildPath));
      }
      if buildPath !in disk {
        return Some(OpenFailed(buildPath));
      }
      archive := archive + [ZipEntry(EntryName(dest.value), disk[buildPath])];
      return None;
    }

    /** One pass of Run's loop: handler k's result, then appendFile of its
        output. */
    method HandleBuild(disk: map<String, seq<byte>>, builds: seq<BuildResult>, k: nat,
                       ghost steps: seq<Result<Entry, PackError>>) returns (err: Option<PackError>)
      requires k < |builds| && steps == Steps(disk, outputDir, builds)
      modifies this
      ensures steps[k].Ok? ==> err == None && archive == old(archive) + [steps[k].value]
      ensures steps[k].Err? ==> err == Some(steps[k].error) && archive == old(archive)
    {
      assert steps[k] == HandlerStep(disk, outputDir, builds[k], k);
      match builds[k] {
        case BuildError =>
          return Some(BuildFailed(k));
        case Built(path) =>
          err := AppendFile(disk, path);
      }
    }

    /** The loop of Run over the build handlers' results, in order, stopping
        at the first failure. */
    method Package(disk: map<String, seq<byte>>, builds: seq<BuildResult>) returns (err: Option<PackError>)
      modifies this
      ensures var p := Pack(Steps(disk, outputDir, builds), 0);
        err == p.err && archive == old(archive) + p.entries
    {
      ghost var steps := Steps(disk, outputDir, builds);
      ghost var total := Pack(steps, 0);
      ghost var written: seq<Entry> := [];
      PackBegin(steps);
      var i := 0;
      while i < |builds|
        invariant 0 <= i <= |builds|
        invariant archive == old(archive) + written
        invariant total == Continued(written, Pack(steps, i))
      {
        err := HandleBuild(disk, builds, i, steps);
        if err.Some? {
          PackStop(steps, i, written);
          return;
        }
        PackAdvance(steps, i, written);
        written := written + [steps[i].value];
        i := i + 1;
      }
      PackEnd(steps, written);
      return None;
    }

    /** Publiser.Run as written: build the updater, pack the build outputs,
        run the close function, upload the archive and point the marker at
        it. The close function closes only the file, never the zip.Writer,
        so the uploaded archive lacks its central directory. Any build or
        pack failure panics before anything is uploaded. */
    method Run(updaterBuilt: bool, builds: seq<BuildResult>, disk: map<String, seq<byte>>, bucket: Bucket,
               faults: StorageFaults) returns (outcome: PublishOutcome, after: Bucket)
      modifies this
      ensures !updaterBuilt ==> outcome == PublishPanicked(UpdaterBuildFailed) && after == bucket
      ensures var p := Pack(Steps(disk, outputDir, builds), 0);
        updaterBuilt ==>
          && archive == p.entries
          && (p.err.Some? ==> outcome == PublishPanicked(PackFailed(p.err.value)) && after == bucket)
          && (p.err.None? && faults.clientFails ==> outcome == PublishPanicked(ClientFailed) && after == bucket)
          && (p.err.None? && !faults.clientFails ==>
                outcome == Published
                && after == Uploaded(bucket, variant, storage, version, Unterminated(p.entries), faults))
    {
      outcome, after := Publish(updaterBuilt, builds, disk, bucket, faults, false);
    }

    /** Publiser.Run with the close function corrected to close the
        zip.Writer before the file: the uploaded archive is a well-formed
        zip of the packed entries. */
    method RunClosingWriter(updaterBuilt: bool, builds: seq<BuildResult>, disk: map<String, seq<byte>>,
                            bucket: Bucket, faults: StorageFaults) returns (outcome: PublishOutcome, after: Bucket)
      modifies this
      ensures !updaterBuilt ==> outcome == PublishPanicked(UpdaterBuildFailed) && after == bucket
      ensures var p := Pack(Steps(disk, outputDir, builds), 0);
        updaterBuilt ==>
          && archive == p.entries
          && (p.err.Some? ==> outcome == PublishPanicked(PackFailed(p.err.value)) && after == bucket)
          && (p.err.None? && faults.clientFails ==> outcome == PublishPanicked(ClientFailed) && after == bucket)
          && (p.err.None? && !faults.clientFails ==>
                outcome == Published && after == Uploaded(bucket, variant, storage, version, Zip(p.entries), faults))
    {
      outcome, after := Publish(updaterBuilt, builds, disk, bucket, faults, true);
    }

    /** The steps of Run; `closesWriter` says whether the close function
        closes the zip.Writer (writing the central directory) before the
        file. */
    method Publish(updaterBuilt: bool, builds: seq<BuildResult>, disk: map<String, seq<byte>>, bucket: Bucket,
                   faults: StorageFaults, closesWriter: bool) returns (outcome: PublishOutcome, after: Bucket)
      modifies this
      ensures !updaterBuilt ==> outcome == PublishPanicked(UpdaterBuildFailed) && after == bucket
      ensures var p := Pack(Steps(disk, outputDir, builds), 0);
        updaterBuilt ==>
          && archive == p.entries
          && (p.err.Some? ==> outcome == PublishPanicked(PackFailed(p.err.value)) && after == bucket)
          && (p.err.None? && faults.clientFails ==> outcome == PublishPanicked(ClientFailed) && after == bucket)
          && (p.err.None? && !faults.clientFails ==>
                outcome == Published
                && after == Uploaded(bucket, variant, storage, version,
                                     if closesWriter then Zip(p.entries) else Unterminated(p.entries), faults))
    {
      if !updaterBuilt {
        return PublishPanicked(UpdaterBuildFailed), bucket;
      }
      archive := [];
      var err := Package(disk, builds);
      if err.Some? {
        return PublishPanicked(PackFailed(err.value)), bucket;
      }
      var file := if closesWriter then Zip(archive) else Unterminated(archive);
      if faults.clientFails {
        return PublishPanicked(ClientFailed), bucket;
      }
      var archiver := new AppArchiver(variant, storage, bucket);
      var _ := archiver.GetMeta(faults.metaReadFails, faults.metaAclFails);
      var _ := archiver.UploadArchive(file, version, faults.archiveAclFails, faults.metaAclFails);
      return Published, archiver.bucket;
    }
  }
}
