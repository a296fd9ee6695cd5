/** The part of the operating system's file system that extraction touches:
    a directory as a map from path to node, and the path and file operations
    of Go's os and path/filepath packages that the updater calls. */
module FileSystem {

  import opened Wrappers
  import opened Text

  newtype byte = x: int | 0 <= x < 256

  /** How reading an archive entry goes: it reads in full, it cannot be
      opened (f.Open fails, e.g. an unsupported compression method), or
      reading fails after `count` bytes (a corrupt stream; a checksum error
      shows up after the last byte). */
  datatype EntryHealth = Intact | Unopenable | FailsAfter(count: nat)

  /** One entry of a zip archive, in archive order. */
  datatype Entry = Entry(name: String, isDir: bool, mode: nat, data: seq<byte>, health: EntryHealth)

  /** What a file holds: plain bytes, a well-formed zip archive, or the
      stream of a zip.Writer that was never closed: the entries' headers and
      data are there, the central directory and its end record are not, so
      no zip reader can open it. */
  datatype Content = Raw(bytes: seq<byte>) | Zip(entries: seq<Entry>) | Unterminated(written: seq<Entry>)

  datatype Node = Directory | File(content: Content, mode: nat)

  type Tree = map<String, Node>

  /** The permission bits os.Create gives a new file (0666). */
  const CreateMode: nat := 438

  /** ".", ".." and "/" name directories that always exist: no file can be
      created, opened or read as a file under these names, and MkdirAll
      finds them in place. */
  predicate AlwaysDirectory(p: String) {
    p == "." || p == ".." || p == "/"
  }

  /** Drops trailing slashes, keeping at least one character. */
  function TrimTrailingSlash(s: String): (r: String)
    ensures |r| <= |s| && r == s[..|r|]
    ensures |s| >= 1 ==> |r| >= 1
    ensures forall k | |r| <= k < |s| :: s[k] == '/'
    ensures |r| > 1 ==> r[|r| - 1] != '/'
    decreases |s|
  {
    if |s| > 1 && s[|s| - 1] == '/' then TrimTrailingSlash(s[..|s| - 1]) else s
  }

  /** Drops leading "./" elements, keeping at least one character. */
  function StripCurrentDir(s: String): String
    decreases |s|
  {
    if |s| > 2 && s[0] == '.' && s[1] == '/' then StripCurrentDir(s[2..]) else s
  }

  /** filepath.Join(dest, name); of filepath.Clean only the removal of
      trailing slashes and of "./" elements at the start of either part is
      modelled. */
  function Join(dest: String, name: String): String {
    var n := StripCurrentDir(name);
    var joined := if dest == [] then n else if n == [] then dest else dest + "/" + n;
    StripCurrentDir(TrimTrailingSlash(joined))
  }

  /** filepath.Dir: what precedes the last slash, "." when there is none. */
  function ParentDir(p: String): String {
    var i := LastIndex(p, '/');
    if i < 0 then "." else TrimTrailingSlash(p[..i + 1])
  }

  /** The directories os.MkdirAll(p) must find or create: every proper prefix
      that ends before a slash, and p itself. */
  function Ancestors(p: String): set<String> {
    (set i | 0 < i < |p| && p[i] == '/' :: p[..i]) + {p}
  }

  /** The parent of p is "." or "/", or one of the directories MkdirAll(p)
      creates, and a shorter one. */
  lemma ParentAncestors(p: String)
    ensures AlwaysDirectory(ParentDir(p)) || Ancestors(ParentDir(p)) <= Ancestors(p)
    ensures forall q :: q in Ancestors(ParentDir(p)) && !AlwaysDirectory(ParentDir(p)) ==> |q| < |p|
  {
    var d := ParentDir(p);
    var i := LastIndex(p, '/');
    if !AlwaysDirectory(d) {
      var s := p[..i + 1];
      assert d == TrimTrailingSlash(s);
      var j := |d|;
      assert 0 < j < |s| && p[j] == '/' && d == p[..j];
      forall q | q in Ancestors(d) ensures q in Ancestors(p) && |q| < |p| {
        if q != d {
          var k :| 0 < k < |d| && d[k] == '/' && q == d[..k];
          assert p[k] == '/' && q == p[..k];
        }
      }
    }
  }

  /** os.MkdirAll(p, os.ModePerm): fails, changing nothing, when p is empty or
      some directory on the way is an existing file; otherwise every
      directory on the way exists afterwards and nothing else changes. */
  function MkdirAll(t: Tree, p: String): (r: Option<Tree>)
    ensures r.None? <==> p == [] || (!AlwaysDirectory(p) && exists q | q in Ancestors(p) :: q in t && t[q].File?)
    ensures r.Some? && AlwaysDirectory(p) ==> r.value == t
    ensures r.Some? && !AlwaysDirectory(p) ==>
      && r.value.Keys == t.Keys + Ancestors(p)
      && (forall q :: q in Ancestors(p) ==> r.value[q] == Directory)
      && (forall q :: q in t && q !in Ancestors(p) ==> r.value[q] == t[q])
  {
    if p == [] then None
    else if AlwaysDirectory(p) then Some(t)
    else if exists q | q in Ancestors(p) :: q in t && t[q].File? then None
    else Some(t + map q | q in Ancestors(p) :: Directory)
  }

  /** os.OpenFile(p, O_WRONLY|O_CREATE|O_TRUNC, mode): fails on an empty path
      or a directory; otherwise the file exists and is empty. The mode is
      applied only when the file is created. */
  function OpenTruncate(t: Tree, p: String, mode: nat): (r: Option<Tree>)
    ensures r.None? <==> p == [] || AlwaysDirectory(p) || (p in t && t[p].Directory?)
    ensures r.Some? ==>
      && r.value.Keys == t.Keys + {p}
      && r.value[p].File? && r.value[p].content == Raw([])
      && r.value[p].mode == (if p in t then t[p].mode else mode)
      && (forall q :: q in t && q != p ==> r.value[q] == t[q])
  {
    if p == [] || AlwaysDirectory(p) || (p in t && t[p].Directory?) then None
    else Some(t[p := File(Raw([]), if p in t then t[p].mode else mode)])
  }

  predicate HasChildren(t: Tree, p: String) {
    exists q | q in t :: |q| > |p| && q[..|p| + 1] == p + "/"
  }

  /** os.Remove(p), error ignored: a file, or an empty directory, disappears;
      anything else (an empty name included) stays. */
  function Remove(t: Tree, p: String): (r: Tree)
    ensures p != [] && p in t && t[p].File? ==> p !in r
    ensures r.Keys <= t.Keys
    ensures forall q :: q in t && q != p ==> q in r && r[q] == t[q]
  {
    if p != [] && p in t && (t[p].File? || !HasChildren(t, p)) then t - {p} else t
  }
}
