/** The names both sides agree on: where the publisher stores a variant's
    marker and archives, and the URLs under which the storage host serves
    them to the updater. */
module Naming {

  import opened Text

  const StorageHost: String := "https://storage.googleapis.com/"

  /** The marker's object key, "<AppName>/meta.json". */
  function MetaObjectKey(appName: String): String {
    appName + "/meta.json"
  }

  /** The archive's file name within a variant, "app_v<version>.zip". */
  function ArchiveFileName(version: String): String {
    "app_v" + version + ".zip"
  }

  /** The archive's object key, "<AppName>/app_v<version>.zip". */
  function ArchiveObjectKey(appName: String, version: String): (key: String)
    ensures key == appName + "/" + ArchiveFileName(version)
  {
    appName + "/app_v" + version + ".zip"
  }

  /** The public URL of object `name` in `bucket`. */
  function PublicUrl(bucket: String, name: String): String {
    StorageHost + bucket + "/" + name
  }

  /** Updater.getUrlHost: the URL the updater reads its marker from is the
      public URL of the marker object the publisher writes for the same
      storage bucket and variant. */
  function MetaUrl(storage: String, variant: String): (url: String)
    ensures url == PublicUrl(storage, MetaObjectKey(variant))
  {
    StorageHost + storage + "/" + variant + "/meta.json"
  }

  /** The updater names its temporary archive after the last path segment of
      the URL; for a published archive that is "app_v<version>.zip". */
  lemma TempNameOfPublishedArchive(bucket: String, appName: String, version: String)
    requires '/' !in version
    ensures LastSegment(PublicUrl(bucket, ArchiveObjectKey(appName, version)), '/') == ArchiveFileName(version)
  {
    var q := ArchiveFileName(version);
    assert '/' !in q by {
      assert q == "app_v" + version + ".zip";
      assert forall i :: 0 <= i < |q| ==> q[i] != '/' by {
        forall i | 0 <= i < |q| ensures q[i] != '/' {
          if 5 <= i < 5 + |version| {
            assert q[i] == version[i - 5];
          }
        }
      }
    }
    var x := StorageHost + bucket + "/" + appName;
    assert PublicUrl(bucket, ArchiveObjectKey(appName, version)) == x + ['/'] + q;
    LastSegmentAfterSeparator(x, q, '/');
  }

  /** An archive upload never overwrites a marker object. */
  lemma ArchiveKeyIsNeverMetaKey(appName: String, version: String, other: String)
    ensures ArchiveObjectKey(appName, version) != MetaObjectKey(other)
  {
    var a := ArchiveObjectKey(appName, version);
    var m := MetaObjectKey(other);
    assert a[|a| - 1] == 'p';
    assert m[|m| - 1] == 'n';
  }

  /** Different versions of one variant are stored under different keys. */
  lemma ArchiveKeysAreDistinct(appName: String, v1: String, v2: String)
    requires ArchiveObjectKey(appName, v1) == ArchiveObjectKey(appName, v2)
    ensures v1 == v2
  {
    var k1, k2 := ArchiveObjectKey(appName, v1), ArchiveObjectKey(appName, v2);
    var n := |appName| + 6;
    assert |v1| == |v2|;
    assert v1 == k1[n..n + |v1|];
    assert v2 == k2[n..n + |v2|];
  }
}
