/** Updater.ExtractZipFile as a function: entries are applied in archive
    order and the first failing file entry ends the extraction, with no roll
    back. The imperative loop in the Updater class is proved against it. */
module Extraction {

  import opened Wrappers
  import opened Text
  import opened FileSystem

  datatype ExtractError =
    | OpenArchiveFailed            // zip.OpenReader
    | MkdirFailed(dir: String)     // os.MkdirAll of the parent
    | OpenFileFailed(path: String) // os.OpenFile
    | EntryOpenFailed(name: String)// f.Open
    | CopyFailed(name: String)     // io.Copy

  /** The error, if any, and the directory afterwards. */
  datatype Extracted = Extracted(err: Option<ExtractError>, tree: Tree)

  /** What io.Copy leaves in the destination file. */
  function Written(e: Entry): (w: seq<byte>)
    ensures e.health != Unopenable && !e.health.FailsAfter? ==> w == e.data
    ensures |w| <= |e.data| && w == e.data[..|w|]
  {
    match e.health
    case FailsAfter(n) => if n < |e.data| then e.data[..n] else e.data
    case _ => e.data
  }

  /** One pass of the loop body for entry e. */
  function ExtractEntry(t: Tree, dest: String, e: Entry): Extracted {
    var path := Join(dest, e.name);
    if e.isDir then Extracted(None, MkdirAll(t, path).GetOr(t))
    else ExtractFile(t, path, ParentDir(path), e)
  }

  /** The loop body for a file entry e whose path is `path` and whose
      directory is `parent`. */
  function ExtractFile(t: Tree, path: String, parent: String, e: Entry): Extracted {
    match MkdirAll(t, parent)
    case None => Extracted(Some(MkdirFailed(parent)), t)
    case Some(t1) =>
      match OpenTruncate(t1, path, e.mode)
      case None => Extracted(Some(OpenFileFailed(path)), t1)
      case Some(t2) =>
        if e.health == Unopenable then Extracted(Some(EntryOpenFailed(e.name)), t2)
        else
          var t3 := t2[path := File(Raw(Written(e)), t2[path].mode)];
          if e.health.FailsAfter? then Extracted(Some(CopyFailed(e.name)), t3)
          else Extracted(None, t3)
  }

  /** A file entry that succeeds wholly replaces the content at its path; a
      newly created file gets the entry's mode while an existing one keeps
      its own; only the path and the directories above it change. */
  lemma ExtractFileEffect(t: Tree, path: String, parent: String, e: Entry)
    requires AlwaysDirectory(parent) || Ancestors(parent) <= Ancestors(path)
    requires AlwaysDirectory(parent) || path !in Ancestors(parent)
    ensures var r := ExtractFile(t, path, parent, e);
      && (r.err.None? ==>
            && path in r.tree
            && r.tree[path] == File(Raw(e.data), if path in t && t[path].File? then t[path].mode else e.mode))
      && t.Keys <= r.tree.Keys <= t.Keys + Ancestors(path)
      && (forall q :: q in t && q !in Ancestors(path) ==> q in r.tree && r.tree[q] == t[q])
  {
    var m := MkdirAll(t, parent);
    if m.Some? {
      assert path in t ==> path in m.value && m.value[path] == t[path];
    }
  }

  /** What one entry does: a directory entry never aborts the extraction; a
      file entry behaves as ExtractFileEffect says; no node disappears, and
      only the entry's path and the directories above it change. */
  lemma ExtractEntryEffect(t: Tree, dest: String, e: Entry)
    ensures var r := ExtractEntry(t, dest, e); var path := Join(dest, e.name);
      && (e.isDir ==> r.err.None?)
      && (!e.isDir && r.err.None? ==>
            && path in r.tree
            && r.tree[path] == File(Raw(e.data), if path in t && t[path].File? then t[path].mode else e.mode))
      && t.Keys <= r.tree.Keys <= t.Keys + Ancestors(path)
      && (forall q :: q in t && q !in Ancestors(path) ==> q in r.tree && r.tree[q] == t[q])
  {
    var path := Join(dest, e.name);
    if !e.isDir {
      var parent := ParentDir(path);
      ParentAncestors(path);
      assert AlwaysDirectory(parent) || path !in Ancestors(parent);
      ExtractFileEffect(t, path, parent, e);
    }
  }

  /** The loop over archive.File, stopping at the first error. */
  function Extract(t: Tree, dest: String, es: seq<Entry>): Extracted
    decreases |es|
  {
    if es == [] then Extracted(None, t)
    else
      var r := ExtractEntry(t, dest, es[0]);
      if r.err.Some? then r else Extract(r.tree, dest, es[1..])
  }

  /** zip.OpenReader(src) succeeds: src names a file holding a well-formed
      archive. */
  predicate OpensAsZip(t: Tree, src: String) {
    src != [] && !AlwaysDirectory(src) && src in t && t[src].File? && t[src].content.Zip?
  }

  /** Updater.ExtractZipFile(src, dest): the archive is read from the file src;
      an empty name, ".", "..", a directory or a file that is not a zip cannot
      be opened. */
  function ExtractZip(t: Tree, src: String, dest: String): Extracted {
    if OpensAsZip(t, src) then Extract(t, dest, t[src].content.entries)
    else Extracted(Some(OpenArchiveFailed), t)
  }

  /** Extraction is sequential: entries before a failure stay applied, and
      once a prefix of the archive has failed, the entries after it are never
      looked at. */
  lemma {:induction false} ExtractAppend(t: Tree, dest: String, es: seq<Entry>, rest: seq<Entry>)
    ensures var r := Extract(t, dest, es);
      Extract(t, dest, es + rest) == if r.err.Some? then r else Extract(r.tree, dest, rest)
    decreases |es|
  {
    if es == [] {
      assert es + rest == rest;
    } else {
      assert (es + rest)[0] == es[0];
      assert (es + rest)[1..] == es[1..] + rest;
      var r := ExtractEntry(t, dest, es[0]);
      if r.err.None? {
        ExtractAppend(r.tree, dest, es[1..], rest);
      }
    }
  }

  /** Whether path q is one that entry i of es may create or overwrite. */
  predicate Touches(dest: String, es: seq<Entry>, q: String) {
    exists i | 0 <= i < |es| :: q in Ancestors(Join(dest, es[i].name))
  }

  /** Extraction never removes a node, and changes nothing but the entries'
      paths and the directories above them, whether it succeeds or fails. */
  lemma {:induction false} ExtractFrame(t: Tree, dest: String, es: seq<Entry>)
    ensures var r := Extract(t, dest, es);
      && t.Keys <= r.tree.Keys
      && (forall q :: q in r.tree && !Touches(dest, es, q) ==> q in t)
      && (forall q :: q in t && !Touches(dest, es, q) ==> q in r.tree && r.tree[q] == t[q])
    decreases |es|
  {
    if es != [] {
      ExtractEntryEffect(t, dest, es[0]);
      var r := ExtractEntry(t, dest, es[0]);
      assert forall q :: q in Ancestors(Join(dest, es[0].name)) ==> Touches(dest, es, q);
      if r.err.None? {
        ExtractFrame(r.tree, dest, es[1..]);
        forall q | Touches(dest, es[1..], q) ensures Touches(dest, es, q) {
          var i :| 0 <= i < |es[1..]| && q in Ancestors(Join(dest, es[1..][i].name));
          assert es[1..][i] == es[i + 1];
        }
      }
    }
  }

  /** An archive's entries are those before entry k followed by the rest. */
  lemma SplitEntries(es: seq<Entry>, k: nat)
    requires k < |es|
    ensures es[..k] + es[k..] == es && es[k..][0] == es[k]
  {
  }

  /** The first entry that fails decides the outcome: an archive whose
      entries all extract leaves no error, and one entry that fails makes the
      whole extraction fail with that entry's error. */
  lemma {:induction false} ExtractFailsAtFirstFailure(t: Tree, dest: String, es: seq<Entry>, k: nat)
    requires k < |es|
    requires Extract(t, dest, es[..k]).err.None?
    requires ExtractEntry(Extract(t, dest, es[..k]).tree, dest, es[k]).err.Some?
    ensures Extract(t, dest, es) == ExtractEntry(Extract(t, dest, es[..k]).tree, dest, es[k])
  {
    ExtractAppend(t, dest, es[..k], es[k..]);
    SplitEntries(es, k);
  }

  lemma BinPaths()
    ensures Join("", "bin/") == "bin"
    ensures Join("", "bin/app.exe") == "bin/app.exe"
    ensures Ancestors("bin") == {"bin"}
  {
    var s: String := "bin/";
    var f: String := "bin/app.exe";
    assert s[..|s| - 1] == "bin";
    assert TrimTrailingSlash(s) == TrimTrailingSlash("bin") == "bin";
    assert StripCurrentDir("bin") == "bin";
    assert TrimTrailingSlash(f) == f;
    assert StripCurrentDir(f) == f;
    var a := set i | 0 < i < 3 && "bin"[i] == '/' :: "bin"[..i];
    assert a == {};
  }

  lemma BinAppParent()
    ensures ParentDir("bin/app.exe") == "bin"
  {
    var path: String := "bin/app.exe";
    LastSegmentAfterSeparator("bin", "app.exe", '/');
    assert "bin" + ['/'] + "app.exe" == path;
    var s := path[..4];
    assert s == "bin/";
    assert s[..3] == "bin";
    assert TrimTrailingSlash(s) == "bin";
  }

  lemma BinDirectoryStep()
    ensures ExtractEntry(map[], "", Entry("bin/", true, 493, [], Intact)) == Extracted(None, map["bin" := Directory])
  {
    BinPaths();
    var empty: Tree := map[];
    assert !AlwaysDirectory("bin");
    var m0 := MkdirAll(empty, "bin");
    assert m0.Some? && m0.value.Keys == {"bin"} && m0.value["bin"] == Directory;
    assert m0.value == map["bin" := Directory];
  }

  /** An intact file entry whose path is new once its directory exists is
      created there with the entry's data and mode. */
  lemma NewFileStep(t: Tree, path: String, parent: String, e: Entry, t1: Tree)
    requires !e.isDir && e.health == Intact
    requires MkdirAll(t, parent) == Some(t1)
    requires path !in t1 && !AlwaysDirectory(path) && path != []
    ensures ExtractFile(t, path, parent, e) == Extracted(None, t1[path := File(Raw(e.data), e.mode)])
  {
    var t2 := t1[path := File(Raw([]), e.mode)];
    assert OpenTruncate(t1, path, e.mode) == Some(t2);
    assert Written(e) == e.data;
  }

  /** MkdirAll finds the directory `bin` in place. */
  lemma BinDirKept()
    ensures MkdirAll(map["bin" := Directory], "bin") == Some(map["bin" := Directory])
  {
    BinPaths();
    var t1: Tree := map["bin" := Directory];
    var m1 := MkdirAll(t1, "bin");
    assert m1.Some? && m1.value.Keys == {"bin"} && m1.value["bin"] == Directory;
    assert m1.value == t1;
  }

  /** A path longer than `bin` is neither `bin` nor always a directory. */
  lemma LongerThanBin(p: String)
    requires |p| > 3
    ensures p !in map["bin" := Directory] && !AlwaysDirectory(p)
  {
  }

  lemma BinFileStep(data: seq<byte>)
    ensures var t1: Tree := map["bin" := Directory];
      ExtractEntry(t1, "", Entry("bin/app.exe", false, 493, data, Intact))
        == Extracted(None, t1["bin/app.exe" := File(Raw(data), 493)])
  {
    BinPaths();
    BinAppParent();
    BinDirKept();
    var t1: Tree := map["bin" := Directory];
    LongerThanBin("bin/app.exe");
    NewFileStep(t1, "bin/app.exe", "bin", Entry("bin/app.exe", false, 493, data, Intact), t1);
  }

  /** An archive of one entry extracts as that entry does. */
  lemma ExtractSingle(t: Tree, dest: String, e: Entry)
    ensures Extract(t, dest, [e]) == ExtractEntry(t, dest, e)
  {
    assert [e][1..] == [];
  }

  /** After a first entry that succeeds, the loop goes on with the second. */
  lemma ExtractPairFirst(t: Tree, dest: String, e0: Entry, e1: Entry)
    ensures ExtractEntry(t, dest, e0).err.None? ==>
      Extract(t, dest, [e0, e1]) == Extract(ExtractEntry(t, dest, e0).tree, dest, [e1])
  {
    assert [e0, e1][1..] == [e1];
  }

  /** An archive holding a directory `bin/` and a file `bin/app.exe` with mode
      0755, extracted into an empty working directory, leaves `bin` as a
      directory and `bin/app.exe` with the entry's content and mode. */
  lemma ExtractBinApp(data: seq<byte>)
    ensures var es := [Entry("bin/", true, 493, [], Intact), Entry("bin/app.exe", false, 493, data, Intact)];
      var r := Extract(map[], "", es);
      && r.err.None?
      && r.tree == map["bin" := Directory, "bin/app.exe" := File(Raw(data), 493)]
  {
    var e0 := Entry("bin/", true, 493, [], Intact);
    var e1 := Entry("bin/app.exe", false, 493, data, Intact);
    var t1: Tree := map["bin" := Directory];
    BinDirectoryStep();
    BinFileStep(data);
    ExtractPairFirst(map[], "", e0, e1);
    ExtractSingle(t1, "", e1);
  }
}
