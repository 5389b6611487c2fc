/** The OSReleaseID registry: a closed table of recognised distributions, each
    with a small non-zero code and a canonical lower-case name. Code 0 means
    "unknown". */
module ReleaseID {

  import opened Text

  /** Go declares the code as a 32-bit unsigned integer. */
  newtype OSReleaseID = x: int | 0 <= x < 0x1_0000_0000

  const UNKNOWN: OSReleaseID := 0
  const UBUNTU: OSReleaseID := 1
  const FEDORA: OSReleaseID := 2
  const ARCH: OSReleaseID := 3
  const DEBIAN: OSReleaseID := 4
  const CENTOS: OSReleaseID := 5
  const STREAM: OSReleaseID := 6
  const ALMA: OSReleaseID := 7
  const RHEL: OSReleaseID := 8

  /** The canonical names; code `k` (from 1) names `Names[k - 1]`. */
  const Names: seq<string> := ["ubuntu", "fedora", "arch", "debian", "centos", "stream", "alma", "rhel"]

  predicate InRegistry(id: OSReleaseID) {
    1 <= id as int <= |Names|
  }

  /** A canonical name: non-empty, lower case, free of white space. */
  predicate Canonical(name: string) {
    |name| > 0 && forall i :: 0 <= i < |name| ==> !IsUpper(name[i]) && !IsSpace(name[i])
  }

  /** The table is well formed: every name canonical, no name twice. */
  lemma NamesWellFormed()
    ensures forall k :: 0 <= k < |Names| ==> Canonical(Names[k])
    ensures forall k, l :: 0 <= k < l < |Names| ==> Names[k] != Names[l]
  {
  }

  /** `id.String()`: the canonical name of a registered code, and the empty string
      for any other code; the lookup never fails. */
  function String(id: OSReleaseID): (name: string)
    ensures InRegistry(id) <==> name != ""
    ensures name != "" ==> name in Names && Canonical(name)
  {
    NamesWellFormed();
    if InRegistry(id) then Names[id - 1] else ""
  }

  /** The form a name is compared in: surrounding white space dropped, ASCII
      letters lower-cased. */
  function Normalize(name: string): string {
    ToLower(TrimSpace(name))
  }

  lemma NormalizeCanonical(name: string)
    requires Canonical(name)
    ensures Normalize(name) == name
  {
    TrimSpaceIdle(name);
  }

  /** Position of `name` in `names`, or `|names|` when it is absent. */
  function IndexOf(names: seq<string>, name: string): (k: nat)
    ensures k <= |names|
    ensures k < |names| ==> names[k] == name
    ensures forall i :: 0 <= i < k ==> names[i] != name
    ensures k == |names| <==> name !in names
  {
    if |names| == 0 then 0
    else if names[0] == name then 0
    else 1 + IndexOf(names[1..], name)
  }

  /** The reverse lookup, found by scanning the table: the code whose name
      matches the normalised input, or 0 when none does (not an error). */
  function ParseID(name: string): (id: OSReleaseID)
    ensures id == UNKNOWN <==> Normalize(name) !in Names
    ensures id != UNKNOWN ==> InRegistry(id) && String(id) == Normalize(name)
  {
    var k := IndexOf(Names, Normalize(name));
    if k < |Names| then
      var id := (k + 1) as OSReleaseID;
      assert InRegistry(id) && String(id) == Names[k];
      id
    else UNKNOWN
  }

  /** Every registered code survives a round trip through its name. */
  lemma ParseIDOfString(id: OSReleaseID)
    requires InRegistry(id)
    ensures ParseID(String(id)) == id
  {
    NamesWellFormed();
    NormalizeCanonical(String(id));
  }

  /** Every recognised name survives a round trip through its code, once
      normalised. */
  lemma StringOfParseID(name: string)
    requires ParseID(name) != UNKNOWN
    ensures String(ParseID(name)) == Normalize(name)
    ensures ParseID(String(ParseID(name))) == ParseID(name)
  {
    ParseIDOfString(ParseID(name));
  }

  /** Code 1 is `ubuntu`; code 10 is not registered, so it names nothing. */
  lemma StringExamples()
    ensures String(1) == "ubuntu"
    ensures String(10) == ""
  {
  }

  /** `debian` is the registered name of `DEBIAN`. */
  lemma DebianExample()
    ensures ParseID("debian") == DEBIAN && String(DEBIAN) == "debian"
  {
    NamesWellFormed();
    assert Names[3] == "debian";
    NormalizeCanonical("debian");
    var id := ParseID("debian");
    assert Names[id - 1] == Names[3];
  }

  /** The lookup sees a name only through its normalised form. */
  lemma ParseIDOfNormalize(a: string, b: string)
    requires Normalize(a) == Normalize(b)
    ensures ParseID(a) == ParseID(b)
  {
  }

  /** The lookup ignores ASCII case: a name and its lower-cased spelling
      (`Debian` and `debian`, say) find the same code. */
  lemma ParseIDIgnoresCase(name: string)
    ensures ParseID(ToLower(name)) == ParseID(name)
  {
    TrimSpaceLower(name);
    ToLowerIdempotent(TrimSpace(name));
    ParseIDOfNormalize(ToLower(name), name);
  }

  /** The lookup ignores white space around the name, however much there is
      on either side. */
  lemma ParseIDIgnoresPadding(l: string, name: string, r: string)
    requires AllSpace(l) && AllSpace(r)
    ensures ParseID(l + name + r) == ParseID(name)
  {
    TrimSpacePadded(l, name, r);
    ParseIDOfNormalize(l + name + r, name);
  }
}
