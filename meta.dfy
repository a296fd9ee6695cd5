/** The version marker and the local store that keeps the last one applied:
    the `.meta` file in the updater's working directory. */
module MetaStore {

  import opened Wrappers
  import opened Text
  import SemVer

  /** The version marker: the current version and the URL of its archive
      (`current_version`, `last_version_url` in its JSON form). */
  datatype Meta = Meta(currentVersion: String, lastVersionUrl: String)

  /** Meta.DefaultMeta: version 1.0.0 and no archive yet. */
  function DefaultMeta(): (m: Meta)
    ensures SemVer.Parse(m.currentVersion) == Some(SemVer.Version(1, 0, 0))
    ensures m.lastVersionUrl == []
  {
    var one := SemVer.Version(1, 0, 0);
    SemVer.ParseFormat(one);
    assert SemVer.Format(one) == "1.0.0" by {
      var parts := [Decimal(1), Decimal(0), Decimal(0)];
      assert JoinWith(parts, '.') == JoinWith(parts[..2], '.') + ['.'] + parts[2];
      assert JoinWith(parts[..2], '.') == JoinWith(parts[..2][..1], '.') + ['.'] + parts[1];
      assert JoinWith(parts[..2][..1], '.') == parts[0];
    }
    Meta("1.0.0", "")
  }

  /** The zero value of Meta, which is what a failed decode leaves behind. */
  function EmptyMeta(): Meta {
    Meta([], [])
  }

  // ---------------------------------------------------------------------
  // Encoding of the `.meta` file. The source writes it with encoding/gob;
  // the model uses a length-prefixed stand-in ("<decimal length>:<text>" per
  // field) whose round trip is proved below.

  function EncodeField(s: String): String {
    Decimal(|s|) + [':'] + s
  }

  function EncodeMeta(m: Meta): String {
    EncodeField(m.currentVersion) + EncodeField(m.lastVersionUrl)
  }

  /** The first index of c in b, if any. */
  function IndexOf(b: String, c: char): (r: Option<nat>)
    ensures r.Some? ==> r.value < |b| && b[r.value] == c && c !in b[..r.value]
    ensures r.None? ==> c !in b
    decreases |b|
  {
    if b == [] then None
    else if b[0] == c then Some(0)
    else match IndexOf(b[1..], c)
      case None => None
      case Some(k) => assert b[..k + 1] == [b[0]] + b[1..][..k]; Some(k + 1)
  }

  /** Reads one field; the remaining text follows it. */
  function DecodeField(b: String): Option<(String, String)> {
    match IndexOf(b, ':')
    case None => None
    case Some(i) =>
      var digits := b[..i];
      if digits == [] || !AllDigits(digits) then None
      else
        var n := DecimalValue(digits);
        var rest := b[i + 1..];
        if n > |rest| then None else Some((rest[..n], rest[n..]))
  }

  /** gob's Decode: None when the bytes do not hold a marker. */
  function DecodeMeta(b: String): Option<Meta> {
    match DecodeField(b)
    case None => None
    case Some((version, more)) =>
      match DecodeField(more)
      case None => None
      case Some((url, _)) => Some(Meta(version, url))
  }

  lemma DecodeEncodeField(s: String, rest: String)
    ensures DecodeField(EncodeField(s) + rest) == Some((s, rest))
  {
    var d := Decimal(|s|);
    var b := EncodeField(s) + rest;
    assert b == d + [':'] + (s + rest);
    assert b[|d|] == ':';
    var i := IndexOf(b, ':').value;
    assert i == |d|;
    assert b[..i] == d;
    DecimalRoundTrip(|s|);
    assert b[i + 1..] == s + rest;
    assert (s + rest)[..|s|] == s && (s + rest)[|s|..] == rest;
  }

  /** Decoding inverts encoding. */
  lemma DecodeEncodeMeta(m: Meta)
    ensures DecodeMeta(EncodeMeta(m)) == Some(m)
  {
    DecodeEncodeField(m.currentVersion, EncodeField(m.lastVersionUrl));
    DecodeEncodeField(m.lastVersionUrl, []);
    assert EncodeField(m.lastVersionUrl) + [] == EncodeField(m.lastVersionUrl);
  }

  // ---------------------------------------------------------------------
  // The local store.

  datatype LocalError = MetaNotExist

  /** The name of the local store in the working directory. */
  const MetaFileName: String := ".meta"

  /** Updater.GetLocalMeta with OpenMetaFile: a missing `.meta` is an error;
      an existing one is decoded, and a decode error is discarded, leaving
      the zero Meta. `file` is the content of `.meta`, None when it does not
      exist. */
  function LoadLocalMeta(file: Option<String>): Result<Meta, LocalError> {
    match file
    case None => Err(MetaNotExist)
    case Some(b) => Ok(DecodeMeta(b).GetOr(EmptyMeta()))
  }

  /** CreateMetaFile followed by GetLocalMeta yields the marker written. */
  lemma LoadAfterSave(m: Meta)
    ensures LoadLocalMeta(Some(EncodeMeta(m))) == Ok(m)
  {
    DecodeEncodeMeta(m);
  }

  /** A `.meta` that does not decode loads as the zero marker, not as
      "absent", and its version is not a version at all. */
  lemma CorruptFileLoadsEmpty(b: String)
    requires DecodeMeta(b) == None
    ensures LoadLocalMeta(Some(b)) == Ok(EmptyMeta())
    ensures SemVer.Parse(LoadLocalMeta(Some(b)).value.currentVersion) == None
  {
    SemVer.EmptyIsNotAVersion();
  }
}
