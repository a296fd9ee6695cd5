/** Semantic versions as hashicorp/go-version reads and orders them, for
    versions made of numeric segments only. */
module SemVer {

  import opened Wrappers
  import opened Text

  /** The numeric segments of a version; go-version pads a version with fewer
      than three segments with zeros. */
  datatype Version = Version(major: nat, minor: nat, patch: nat)

  /** version.GreaterThan: segment by segment, the first difference decides. */
  predicate GreaterThan(a: Version, b: Version) {
    || a.major > b.major
    || (a.major == b.major && a.minor > b.minor)
    || (a.major == b.major && a.minor == b.minor && a.patch > b.patch)
  }

  predicate IsSegment(s: String) {
    s != [] && AllDigits(s)
  }

  predicate AllSegments(parts: seq<String>) {
    forall k | 0 <= k < |parts| :: IsSegment(parts[k])
  }

  function SegmentValue(parts: seq<String>, i: nat): nat
    requires AllSegments(parts)
  {
    if i < |parts| then assert IsSegment(parts[i]); DecimalValue(parts[i]) else 0
  }

  /** The largest segment strconv.ParseInt(segment, 10, 64) accepts. */
  const MaxSegment: nat := 0x7FFF_FFFF_FFFF_FFFF

  /** Every segment fits in an int64. */
  predicate SegmentsFit(parts: seq<String>)
    requires AllSegments(parts)
  {
    forall k | 0 <= k < |parts| :: DecimalValue(parts[k]) <= MaxSegment
  }

  /** A version whose segments all fit in an int64. */
  predicate InRange(v: Version) {
    v.major <= MaxSegment && v.minor <= MaxSegment && v.patch <= MaxSegment
  }

  /** version.NewVersion: an optional leading 'v', then one to three
      dot-separated runs of decimal digits, each at most MaxSegment. Anything
      else is a parse error, which the updater receives as a nil version
      (None here). */
  function Parse(s: String): (r: Option<Version>)
    ensures r.Some? ==> InRange(r.value)
  {
    var body := if |s| > 0 && s[0] == 'v' then s[1..] else s;
    var parts := Split(body, '.');
    if |parts| > 3 || !AllSegments(parts) || !SegmentsFit(parts) then None
    else Some(Version(SegmentValue(parts, 0), SegmentValue(parts, 1), SegmentValue(parts, 2)))
  }

  /** The canonical text of a version, "major.minor.patch". */
  function Format(v: Version): String {
    JoinWith([Decimal(v.major), Decimal(v.minor), Decimal(v.patch)], '.')
  }

  lemma DigitsHaveNoDot(d: String)
    requires AllDigits(d)
    ensures '.' !in d
  {
  }

  lemma FormatSplits(v: Version)
    ensures Split(Format(v), '.') == [Decimal(v.major), Decimal(v.minor), Decimal(v.patch)]
  {
    var parts := [Decimal(v.major), Decimal(v.minor), Decimal(v.patch)];
    DigitsHaveNoDot(parts[0]);
    DigitsHaveNoDot(parts[1]);
    DigitsHaveNoDot(parts[2]);
    SplitJoin(parts, '.');
  }

  lemma FormatStartsWithDigit(v: Version)
    ensures |Format(v)| > 0 && IsDigit(Format(v)[0])
  {
    var parts := [Decimal(v.major), Decimal(v.minor), Decimal(v.patch)];
    assert JoinWith(parts, '.') == JoinWith(parts[..2], '.') + ['.'] + parts[2];
    assert JoinWith(parts[..2], '.') == JoinWith(parts[..2][..1], '.') + ['.'] + parts[1];
    assert JoinWith(parts[..2][..1], '.') == parts[0];
    assert Format(v)[0] == parts[0][0];
  }

  /** A version reads back from its canonical text exactly when its segments
      fit in an int64; otherwise the text is no version. */
  lemma ParseFormat(v: Version)
    ensures InRange(v) ==> Parse(Format(v)) == Some(v)
    ensures !InRange(v) ==> Parse(Format(v)) == None
  {
    var s := Format(v);
    FormatStartsWithDigit(v);
    FormatSplits(v);
    var parts := Split(s, '.');
    assert AllSegments(parts);
    DecimalRoundTrip(v.major);
    DecimalRoundTrip(v.minor);
    DecimalRoundTrip(v.patch);
    assert SegmentsFit(parts) <==> InRange(v) by {
      assert DecimalValue(parts[0]) == v.major;
      assert DecimalValue(parts[1]) == v.minor;
      assert DecimalValue(parts[2]) == v.patch;
    }
  }

  /** GreaterThan is a strict total order: the update decision is never
      ambiguous and never holds both ways. */
  lemma GreaterThanIsStrictTotalOrder(a: Version, b: Version, c: Version)
    ensures !GreaterThan(a, a)
    ensures GreaterThan(a, b) ==> !GreaterThan(b, a)
    ensures GreaterThan(a, b) && GreaterThan(b, c) ==> GreaterThan(a, c)
    ensures a != b ==> GreaterThan(a, b) || GreaterThan(b, a)
  {
  }

  /** The empty string is not a version. */
  lemma EmptyIsNotAVersion()
    ensures Parse([]) == None
  {
    var empty: String := [];
    var parts := Split(empty, '.');
    assert parts == [[]];
    assert !IsSegment(parts[0]);
    assert Parse(empty) == None;
  }
}
