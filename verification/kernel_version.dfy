/** The kernel-version comparator: parsing a dotted release string into a
    (major, minor, patch) triple, and ordering a given release against a base
    release. */
module KernelVersion {

  import opened Wrappers
  import opened Text
  import opened Errors

  /** Outcome of a comparison, read as "the given release is ... than the base". */
  datatype KernelVersionComparison =
    | KernelVersionInvalid
    | KernelVersionOlder
    | KernelVersionEqual
    | KernelVersionNewer

  datatype Version = Version(major: nat, minor: nat, patch: nat)

  /** A release has at most this many dot-separated components. */
  const MaxComponents := 3

  function Components(v: Version): (c: seq<nat>)
    ensures |c| == MaxComponents
  {
    [v.major, v.minor, v.patch]
  }

  /** Every piece is a decimal numeral. */
  predicate AllDecimal(parts: seq<string>) {
    forall i :: 0 <= i < |parts| ==> IsDecimal(parts[i])
  }

  /** `k` is the position of the first piece that is not a decimal numeral. */
  predicate IsFirstNonDecimal(parts: seq<string>, k: int) {
    && 0 <= k < |parts|
    && !IsDecimal(parts[k])
    && forall i :: 0 <= i < k ==> IsDecimal(parts[i])
  }

  /** Index of the first non-numeric piece, or `|parts|` when all are numeric. */
  function FirstNonDecimal(parts: seq<string>): (k: nat)
    ensures k <= |parts|
    ensures forall i :: 0 <= i < k ==> IsDecimal(parts[i])
    ensures k < |parts| ==> !IsDecimal(parts[k])
  {
    if |parts| == 0 || !IsDecimal(parts[0]) then 0
    else 1 + FirstNonDecimal(parts[1..])
  }

  /** The value of the `n`-th piece, zero when the release stops short of it. */
  function PaddedValue(parts: seq<string>, n: nat): nat
    requires forall i :: 0 <= i < |parts| ==> IsDecimal(parts[i])
  {
    if n < |parts| then
      assert IsDecimal(parts[n]);
      DecimalValue(parts[n])
    else 0
  }

  /** Parses a release string for the comparator. A string with more than three
      dot-separated components is a format error; otherwise the first component
      that is not a decimal numeral is a value error; otherwise the components
      are read as numbers and missing trailing ones count as zero. */
  function ParseRelease(role: Role, release: string): (r: Result<Version, Error>)
    ensures r.Failure? ==>
      && (r.error.VersionFormatError? || r.error.VersionValueError?)
      && r.error.role == role && r.error.release == release
    ensures r.Failure? && r.error.VersionFormatError? <==> Count(release, '.') >= MaxComponents
    ensures r.Failure? && r.error.VersionValueError? ==>
      && (exists k :: IsFirstNonDecimal(Split(release, '.'), k)
                      && r.error.component == Split(release, '.')[k])
      && '.' !in r.error.component
    ensures r.Success? <==> Count(release, '.') < MaxComponents && AllDecimal(Split(release, '.'))
    ensures r.Success? ==>
      forall n :: 0 <= n < MaxComponents ==>
        Components(r.value)[n] ==
          if n < |Split(release, '.')| then DecimalValue(Split(release, '.')[n]) else 0
  {
    var parts := Split(release, '.');
    SplitCount(release, '.');
    SplitPiecesFree(release, '.');
    if |parts| > MaxComponents then
      Failure(VersionFormatError(role, release))
    else
      var k := FirstNonDecimal(parts);
      if k < |parts| then
        assert IsFirstNonDecimal(parts, k);
        assert !AllDecimal(parts);
        Failure(VersionValueError(role, release, parts[k]))
      else
        Success(Version(PaddedValue(parts, 0), PaddedValue(parts, 1), PaddedValue(parts, 2)))
  }

  /** Which argument is being parsed changes only the wording of an error,
      never whether a release parses or what it parses to. */
  lemma ParseIgnoresRole(release: string)
    ensures ParseRelease(Base, release).Success? <==> ParseRelease(Given, release).Success?
    ensures ParseRelease(Base, release).Success? ==>
      ParseRelease(Base, release).value == ParseRelease(Given, release).value
  {
  }

  /** Numerals joined by dots, one to three of them, parse to their values,
      padded with zeros. */
  lemma ParseJoin(role: Role, parts: seq<string>)
    requires 1 <= |parts| <= MaxComponents
    requires AllDecimal(parts)
    ensures ParseRelease(role, Join(parts, '.'))
         == Success(Version(PaddedValue(parts, 0), PaddedValue(parts, 1), PaddedValue(parts, 2)))
  {
    forall i | 0 <= i < |parts|
      ensures '.' !in parts[i]
    {
      DecimalExcludes(parts[i], '.');
    }
    SplitJoin(parts, '.');
    var r := ParseRelease(role, Join(parts, '.'));
    assert Components(r.value)[0] == PaddedValue(parts, 0);
    assert Components(r.value)[1] == PaddedValue(parts, 1);
    assert Components(r.value)[2] == PaddedValue(parts, 2);
  }

  /** Dot-free pieces joined by dots are rejected: as a format error when there
      are more than three, else naming the first piece that is not a numeral. */
  lemma RejectJoin(role: Role, parts: seq<string>)
    requires 1 <= |parts|
    requires forall i :: 0 <= i < |parts| ==> '.' !in parts[i]
    ensures |parts| > MaxComponents ==>
      ParseRelease(role, Join(parts, '.')) == Failure(VersionFormatError(role, Join(parts, '.')))
    ensures |parts| <= MaxComponents && FirstNonDecimal(parts) < |parts| ==>
      ParseRelease(role, Join(parts, '.'))
        == Failure(VersionValueError(role, Join(parts, '.'), parts[FirstNonDecimal(parts)]))
  {
    SplitJoin(parts, '.');
  }

  /** The canonical spelling of a version: three numerals joined by dots. */
  function FormatRelease(v: Version): string {
    Join([Decimal(v.major), Decimal(v.minor), Decimal(v.patch)], '.')
  }

  /** Every version triple is reachable: its canonical spelling parses back to it. */
  lemma ParseFormatRelease(role: Role, v: Version)
    ensures ParseRelease(role, FormatRelease(v)) == Success(v)
  {
    var parts := [Decimal(v.major), Decimal(v.minor), Decimal(v.patch)];
    DecimalValueOfDecimal(v.major);
    DecimalValueOfDecimal(v.minor);
    DecimalValueOfDecimal(v.patch);
    ParseJoin(role, parts);
  }

  /** Appending a zero component to a release with fewer than three components
      does not change what it parses to: `3` reads as `3.0`, and `3.1` as `3.1.0`. */
  lemma PadWithZero(role: Role, release: string)
    requires ParseRelease(role, release).Success?
    requires Count(release, '.') < MaxComponents - 1
    ensures ParseRelease(role, release + ".0") == ParseRelease(role, release)
  {
    var parts := Split(release, '.');
    SplitCount(release, '.');
    SplitCount(release + ".0", '.');
    SplitWithZero(release);
    var padded := Split(release + ".0", '.');
    assert IsDecimal(padded[|parts|]);
    assert DecimalValue("0") == 0 by {
      assert "0"[..0] == "";
    }
    var r, q := ParseRelease(role, release + ".0"), ParseRelease(role, release);
    assert Components(r.value)[0] == Components(q.value)[0];
    assert Components(r.value)[1] == Components(q.value)[1];
    assert Components(r.value)[2] == Components(q.value)[2];
  }

  /** A trailing `.0` adds one piece, `0`, to the split. */
  lemma SplitWithZero(release: string)
    ensures Split(release + ".0", '.') == Split(release, '.') + ["0"]
  {
    assert release + ".0" == release + ['.'] + "0";
    SplitAround(release, "0", '.');
    SplitNoSeparator("0", '.');
  }

  /** Lexicographic order on equal-length sequences: the first position where
      they differ decides. */
  ghost predicate LexLess(a: seq<nat>, b: seq<nat>)
    requires |a| == |b|
  {
    exists k :: 0 <= k < |a| && a[..k] == b[..k] && a[k] < b[k]
  }

  /** Component-by-component scan, most significant first: the first component
      where `given` exceeds `base` makes it newer, the first where it falls short
      makes it older, and no difference makes it equal. */
  function CompareComponents(base: seq<nat>, given: seq<nat>): (c: KernelVersionComparison)
    requires |base| == |given|
    ensures c != KernelVersionInvalid
    ensures c == KernelVersionEqual <==> given == base
    ensures c == KernelVersionNewer <==> LexLess(base, given)
    ensures c == KernelVersionOlder <==> LexLess(given, base)
    decreases |base|
  {
    if |base| == 0 then KernelVersionEqual
    else if given[0] > base[0] then
      assert base[..0] == given[..0];
      KernelVersionNewer
    else if given[0] < base[0] then
      assert base[..0] == given[..0];
      KernelVersionOlder
    else
      var c := CompareComponents(base[1..], given[1..]);
      LexLessTail(base, given);
      LexLessTail(given, base);
      assert given == base <==> given[1..] == base[1..] by {
        if given[1..] == base[1..] {
          assert given == [given[0]] + given[1..] && base == [base[0]] + base[1..];
        }
      }
      c
  }

  /** Sequences with equal heads are ordered as their tails are. */
  lemma LexLessTail(a: seq<nat>, b: seq<nat>)
    requires |a| == |b| > 0 && a[0] == b[0]
    ensures LexLess(a, b) <==> LexLess(a[1..], b[1..])
  {
    if LexLess(a, b) {
      LexLessDropHead(a, b);
    }
    if LexLess(a[1..], b[1..]) {
      LexLessAddHead(a, b);
    }
  }

  lemma LexLessDropHead(a: seq<nat>, b: seq<nat>)
    requires |a| == |b| > 0 && a[0] == b[0]
    requires LexLess(a, b)
    ensures LexLess(a[1..], b[1..])
  {
    var k :| 0 <= k < |a| && a[..k] == b[..k] && a[k] < b[k];
    assert k > 0;
    assert a[1..][..k - 1] == a[..k][1..] == b[..k][1..] == b[1..][..k - 1];
    assert a[1..][k - 1] < b[1..][k - 1];
  }

  lemma LexLessAddHead(a: seq<nat>, b: seq<nat>)
    requires |a| == |b| > 0 && a[0] == b[0]
    requires LexLess(a[1..], b[1..])
    ensures LexLess(a, b)
  {
    var k :| 0 <= k < |a| - 1 && a[1..][..k] == b[1..][..k] && a[1..][k] < b[1..][k];
    assert a[..k + 1] == [a[0]] + a[1..][..k];
    assert b[..k + 1] == [b[0]] + b[1..][..k];
    assert a[k + 1] < b[k + 1];
  }

  /** The ordering of (major, minor, patch) triples: major decides, then minor,
      then patch. */
  predicate VersionLess(a: Version, b: Version) {
    || a.major < b.major
    || (a.major == b.major && a.minor < b.minor)
    || (a.major == b.major && a.minor == b.minor && a.patch < b.patch)
  }

  /** Compares two parsed releases: newer when `given` comes after `base` in the
      triple ordering, older when it comes before, equal otherwise. */
  function CompareVersions(base: Version, given: Version): (c: KernelVersionComparison)
    ensures c != KernelVersionInvalid
    ensures c == KernelVersionEqual <==> given == base
    ensures c == KernelVersionNewer <==> VersionLess(base, given)
    ensures c == KernelVersionOlder <==> VersionLess(given, base)
  {
    LexLessIsVersionLess(base, given);
    LexLessIsVersionLess(given, base);
    CompareComponents(Components(base), Components(given))
  }

  /** The lexicographic order of component sequences is the triple ordering. */
  lemma LexLessIsVersionLess(a: Version, b: Version)
    ensures LexLess(Components(a), Components(b)) <==> VersionLess(a, b)
  {
    var ca, cb := Components(a), Components(b);
    if VersionLess(a, b) {
      if a.major < b.major {
        assert ca[..0] == cb[..0];
      } else if a.minor < b.minor {
        assert ca[..1] == cb[..1];
      } else {
        assert ca[..2] == cb[..2];
      }
    }
    if LexLess(ca, cb) {
      var k :| 0 <= k < 3 && ca[..k] == cb[..k] && ca[k] < cb[k];
      if k >= 1 {
        assert ca[0] == ca[..k][0] == cb[..k][0] == cb[0];
      }
      if k == 2 {
        assert ca[1] == ca[..k][1] == cb[..k][1] == cb[1];
      }
    }
  }

  /** The comparator proper. The base release is parsed first, so when both
      strings are malformed the error names the base; a parse error always makes
      the result `KernelVersionInvalid`, and a result that is not invalid always
      comes with no error. */
  function CompareKernelRelease(base: string, given: string)
    : (r: (KernelVersionComparison, Option<Error>))
    ensures r.0 == KernelVersionInvalid <==> r.1.Some?
    ensures ParseRelease(Base, base).Failure? ==>
      r.1 == Some(ParseRelease(Base, base).error)
    ensures ParseRelease(Base, base).Success? && ParseRelease(Given, given).Failure? ==>
      r.1 == Some(ParseRelease(Given, given).error)
    ensures ParseRelease(Base, base).Success? && ParseRelease(Given, given).Success? ==>
      var b, g := ParseRelease(Base, base).value, ParseRelease(Given, given).value;
      && (r.0 == KernelVersionNewer <==> VersionLess(b, g))
      && (r.0 == KernelVersionOlder <==> VersionLess(g, b))
      && (r.0 == KernelVersionEqual <==> g == b)
  {
    match ParseRelease(Base, base)
    case Failure(e) => (KernelVersionInvalid, Some(e))
    case Success(b) =>
      match ParseRelease(Given, given)
      case Failure(e) => (KernelVersionInvalid, Some(e))
      case Success(g) => (CompareVersions(b, g), None)
  }

  /** A well-formed release compares equal to itself. */
  lemma CompareReflexive(release: string)
    requires ParseRelease(Base, release).Success?
    ensures CompareKernelRelease(release, release) == (KernelVersionEqual, None)
  {
    ParseIgnoresRole(release);
  }

  /** Swapping the two well-formed arguments swaps newer and older. */
  lemma CompareAntisymmetric(a: string, b: string)
    requires ParseRelease(Base, a).Success? && ParseRelease(Base, b).Success?
    ensures CompareKernelRelease(a, b).0 == KernelVersionNewer
        <==> CompareKernelRelease(b, a).0 == KernelVersionOlder
    ensures CompareKernelRelease(a, b).0 == KernelVersionEqual
        <==> CompareKernelRelease(b, a).0 == KernelVersionEqual
  {
    ParseIgnoresRole(a);
    ParseIgnoresRole(b);
  }

  /** The comparison is a total order on well-formed releases: whenever `b` is
      newer than `a` and `c` newer than `b`, `c` is newer than `a`. */
  lemma CompareTransitive(a: string, b: string, c: string)
    requires CompareKernelRelease(a, b).0 == KernelVersionNewer
    requires CompareKernelRelease(b, c).0 == KernelVersionNewer
    ensures CompareKernelRelease(a, c).0 == KernelVersionNewer
  {
    ParseIgnoresRole(b);
    ParseIgnoresRole(c);
  }

  /** Zero padding is invisible on either side of the comparison. */
  lemma PaddingInvisible(release: string, other: string)
    requires ParseRelease(Base, release).Success?
    requires Count(release, '.') < MaxComponents - 1
    ensures CompareKernelRelease(release + ".0", other) == CompareKernelRelease(release, other)
    ensures CompareKernelRelease(other, release + ".0") == CompareKernelRelease(other, release)
  {
    ParseIgnoresRole(release);
    PadWithZero(Base, release);
    PadWithZero(Given, release);
  }
}
