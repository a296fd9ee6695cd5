/** The string operations of Go's standard library that the updater and the
    publisher rely on: strings.Split on a one-character separator, the last
    piece of a split on an arbitrary separator, and decimal digits. */
module Text {

  import opened Wrappers

  type String = seq<char>

  /** strings.Split(s, string(sep)): the pieces of s between occurrences of sep.
      There is always at least one piece, and no piece holds the separator. */
  function Split(s: String, sep: char): (parts: seq<String>)
    ensures |parts| >= 1
    ensures forall i :: 0 <= i < |parts| ==> sep !in parts[i]
    decreases |s|
  {
    if s == [] then [[]]
    else
      var init := Split(s[..|s| - 1], sep);
      var c := s[|s| - 1];
      if c == sep then init + [[]]
      else init[..|init| - 1] + [init[|init| - 1] + [c]]
  }

  /** strings.Join(parts, string(sep)). */
  function JoinWith(parts: seq<String>, sep: char): String
    requires |parts| >= 1
    decreases |parts|
  {
    if |parts| == 1 then parts[0]
    else JoinWith(parts[..|parts| - 1], sep) + [sep] + parts[|parts| - 1]
  }

  /** The index of the last occurrence of sep in s, -1 when there is none. */
  function LastIndex(s: String, sep: char): (i: int)
    ensures -1 <= i < |s|
    ensures 0 <= i ==> s[i] == sep
    decreases |s|
  {
    if s == [] then -1
    else if s[|s| - 1] == sep then |s| - 1
    else LastIndex(s[..|s| - 1], sep)
  }

  /** No separator follows the one LastIndex finds. */
  lemma {:induction false} LastIndexIsLast(s: String, sep: char)
    ensures forall k | LastIndex(s, sep) < k < |s| :: s[k] != sep
    decreases |s|
  {
    if s != [] && s[|s| - 1] != sep {
      LastIndexIsLast(s[..|s| - 1], sep);
    }
  }

  /** The last element of strings.Split(s, string(sep)): the longest
      suffix free of the separator. */
  function LastSegment(s: String, sep: char): (r: String)
    ensures sep !in r
    ensures |r| <= |s| && s[|s| - |r|..] == r
    ensures |r| < |s| ==> s[|s| - |r| - 1] == sep
  {
    LastIndexIsLast(s, sep);
    s[LastIndex(s, sep) + 1..]
  }

  /** LastSegment is indeed the last piece of the split. */
  lemma {:induction false} SplitLastIsLastSegment(s: String, sep: char)
    ensures Split(s, sep)[|Split(s, sep)| - 1] == LastSegment(s, sep)
    decreases |s|
  {
    if s == [] {
      assert LastIndex(s, sep) == -1;
    } else {
      var s', c := s[..|s| - 1], s[|s| - 1];
      assert s' + [c] == s;
      SplitLastIsLastSegment(s', sep);
      SplitSnoc(s', c, sep);
      LastSegmentSnoc(s', c, sep);
    }
  }

  /** One step of LastSegment, read from the end. */
  lemma LastSegmentSnoc(s: String, c: char, sep: char)
    ensures LastSegment(s + [c], sep) == if c == sep then [] else LastSegment(s, sep) + [c]
  {
    var t := s + [c];
    assert t[..|t| - 1] == s;
    if c != sep {
      var i := LastIndex(s, sep) + 1;
      assert LastIndex(t, sep) + 1 == i;
      assert t[i..] == s[i..] + [c];
    }
  }

  lemma {:induction false} SplitNoSeparator(s: String, sep: char)
    requires sep !in s
    ensures Split(s, sep) == [s]
    decreases |s|
  {
    if s != [] {
      assert sep !in s[..|s| - 1];
      SplitNoSeparator(s[..|s| - 1], sep);
      assert s[..|s| - 1] + [s[|s| - 1]] == s;
    }
  }

  /** One step of Split, read from the end. */
  lemma SplitSnoc(s: String, c: char, sep: char)
    ensures Split(s + [c], sep) ==
      if c == sep then Split(s, sep) + [[]]
      else Split(s, sep)[..|Split(s, sep)| - 1] + [Split(s, sep)[|Split(s, sep)| - 1] + [c]]
  {
    assert (s + [c])[..|s|] == s;
  }

  /** Appending a separator and a separator-free piece adds exactly one piece. */
  lemma {:induction false} SplitAppendPiece(x: String, q: String, sep: char)
    requires sep !in q
    ensures Split(x + [sep] + q, sep) == Split(x, sep) + [q]
    decreases |q|
  {
    if q == [] {
      assert x + [sep] + q == x + [sep];
      SplitSnoc(x, sep, sep);
    } else {
      var q', c := q[..|q| - 1], q[|q| - 1];
      assert sep !in q';
      SplitAppendPiece(x, q', sep);
      assert x + [sep] + q == (x + [sep] + q') + [c];
      assert q' + [c] == q;
      ExtendLastPiece(x + [sep] + q', c, sep, Split(x, sep), q');
    }
  }

  /** A character other than the separator extends the last piece. */
  lemma ExtendLastPiece(y: String, c: char, sep: char, init: seq<String>, last: String)
    requires c != sep && Split(y, sep) == init + [last]
    ensures Split(y + [c], sep) == init + [last + [c]]
  {
    SplitSnoc(y, c, sep);
    var p := init + [last];
    assert p[..|p| - 1] == init;
  }

  /** Characters other than the separator extend the last piece. */
  lemma {:induction false} ExtendLastPieceBy(y: String, w: String, sep: char, init: seq<String>, last: String)
    requires sep !in w && Split(y, sep) == init + [last]
    ensures Split(y + w, sep) == init + [last + w]
    decreases |w|
  {
    if w == [] {
      assert y + w == y && last + w == last;
    } else {
      var w', c := w[..|w| - 1], w[|w| - 1];
      assert sep !in w';
      ExtendLastPieceBy(y, w', sep, init, last);
      assert y + w == (y + w') + [c];
      assert (last + w') + [c] == last + w;
      ExtendLastPiece(y + w', c, sep, init, last + w');
    }
  }

  /** Splitting undoes joining when no piece holds the separator. */
  lemma {:induction false} SplitJoin(parts: seq<String>, sep: char)
    requires |parts| >= 1
    requires forall i :: 0 <= i < |parts| ==> sep !in parts[i]
    ensures Split(JoinWith(parts, sep), sep) == parts
    decreases |parts|
  {
    if |parts| == 1 {
      SplitNoSeparator(parts[0], sep);
    } else {
      var init := parts[..|parts| - 1];
      SplitJoin(init, sep);
      SplitAppendPiece(JoinWith(init, sep), parts[|parts| - 1], sep);
      assert init + [parts[|parts| - 1]] == parts;
    }
  }

  /** The last segment of `x + [sep] + q`, when q is free of the separator,
      is q. */
  lemma LastSegmentAfterSeparator(x: String, q: String, sep: char)
    requires sep !in q
    ensures LastSegment(x + [sep] + q, sep) == q
  {
    SplitAppendPiece(x, q, sep);
    SplitLastIsLastSegment(x + [sep] + q, sep);
  }

  /** A string free of the separator is its own last segment. */
  lemma LastSegmentWithoutSeparator(s: String, sep: char)
    requires sep !in s
    ensures LastSegment(s, sep) == s
  {
    SplitNoSeparator(s, sep);
    SplitLastIsLastSegment(s, sep);
  }

  // ---------------------------------------------------------------------
  // Arbitrary separators: the last element of strings.Split(s, sep).

  /** Whether sep occurs in s starting at index i. */
  predicate OccursAt(s: String, sep: String, i: nat) {
    i + |sep| <= |s| && s[i..i + |sep|] == sep
  }

  predicate Occurs(s: String, sep: String) {
    exists i: nat | i <= |s| :: OccursAt(s, sep, i)
  }

  /** Go's genSplit scans left to right for non-overlapping occurrences of a
      non-empty separator; `piece` is the text since the last one. */
  function ScanLastPiece(s: String, sep: String, piece: String): (r: String)
    requires sep != []
    decreases |s|
  {
    if |sep| <= |s| && s[..|sep|] == sep then ScanLastPiece(s[|sep|..], sep, [])
    else if s == [] then piece
    else ScanLastPiece(s[1..], sep, piece + [s[0]])
  }

  /** strings.Split(s, sep)[len-1]. With an empty separator Go splits into
      characters, and an empty s then yields an empty slice whose last-element
      index panics: None. */
  function LastPiece(s: String, sep: String): (r: Option<String>)
    ensures r.None? <==> sep == [] && s == []
  {
    if sep == [] then (if s == [] then None else Some([s[|s| - 1]]))
    else Some(ScanLastPiece(s, sep, []))
  }

  lemma {:induction false} ScanWithoutOccurrence(s: String, sep: String, piece: String)
    requires sep != []
    requires !Occurs(s, sep)
    ensures ScanLastPiece(s, sep, piece) == piece + s
    decreases |s|
  {
    assert !OccursAt(s, sep, 0);
    if s != [] {
      forall i: nat ensures !OccursAt(s[1..], sep, i) {
        if OccursAt(s[1..], sep, i) {
          assert s[1..][i..i + |sep|] == s[i + 1..i + 1 + |sep|];
          assert OccursAt(s, sep, i + 1);
        }
      }
      ScanWithoutOccurrence(s[1..], sep, piece + [s[0]]);
      assert [s[0]] + s[1..] == s;
    }
  }

  /** A string in which the separator does not occur is its own last piece. */
  lemma LastPieceWithoutOccurrence(s: String, sep: String)
    requires sep != [] && !Occurs(s, sep)
    ensures LastPiece(s, sep) == Some(s)
  {
    ScanWithoutOccurrence(s, sep, []);
    assert [] + s == s;
  }

  /** A path that starts with the separator and has no further occurrence of it
      splits into what follows the separator. */
  lemma LastPieceAfterPrefix(sep: String, rest: String)
    requires sep != [] && !Occurs(rest, sep)
    ensures LastPiece(sep + rest, sep) == Some(rest)
  {
    var s := sep + rest;
    assert s[..|sep|] == sep;
    assert s[|sep|..] == rest;
    ScanWithoutOccurrence(rest, sep, []);
    assert [] + rest == rest;
  }

  // ---------------------------------------------------------------------
  // Decimal digits.

  predicate IsDigit(c: char) {
    '0' <= c <= '9'
  }

  predicate AllDigits(s: String) {
    forall i :: 0 <= i < |s| ==> IsDigit(s[i])
  }

  /** The value of a string of decimal digits (leading zeros allowed). */
  function DecimalValue(s: String): nat
    requires AllDigits(s)
    decreases |s|
  {
    if s == [] then 0
    else DecimalValue(s[..|s| - 1]) * 10 + (s[|s| - 1] as int - '0' as int)
  }

  /** The shortest decimal representation of n, as fmt's %d writes it. */
  function Decimal(n: nat): (s: String)
    ensures |s| >= 1 && AllDigits(s)
    decreases n
  {
    if n < 10 then [('0' as int + n) as char]
    else Decimal(n / 10) + [('0' as int + n % 10) as char]
  }

  lemma {:induction false} DecimalRoundTrip(n: nat)
    ensures DecimalValue(Decimal(n)) == n
    decreases n
  {
    var s := Decimal(n);
    if n >= 10 {
      DecimalRoundTrip(n / 10);
      assert s[..|s| - 1] == Decimal(n / 10);
    }
  }
}
