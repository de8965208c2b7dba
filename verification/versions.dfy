/** Version arithmetic and the per-module "latest released version" table
    of `VersionHandler`. The artifact registry is an input function from a
    module key and a version-range string to its answer. */
module Versions {
  import opened Wrappers
  import opened Text
  import opened JavaInt
  import opened Poms

  const SnapshotMarker: string := "-SNAPSHOT"

  /** What a module without a released version reports. */
  const NotReleasedSentinel: string := "- not released -"

  /** The major line: the root version cut before the first "-SNAPSHOT",
      or the whole root version when it has none. */
  function MajorLine(rootVersion: string): (r: string)
    ensures !IsInfix(SnapshotMarker, r)
    ensures IsInfix(SnapshotMarker, rootVersion) ==>
      r <= rootVersion && OccursAt(SnapshotMarker, rootVersion, |r|)
    ensures !IsInfix(SnapshotMarker, rootVersion) ==> r == rootVersion
  {
    match IndexOf(rootVersion, SnapshotMarker)
    case None => rootVersion
    case Some(i) =>
      PrefixBeforeFirst(SnapshotMarker, rootVersion, i);
      rootVersion[..i]
  }

  /** The text before the first occurrence of `pat` does not contain it. */
  lemma PrefixBeforeFirst(pat: string, s: string, i: nat)
    requires 0 < |pat| && i <= |s|
    requires forall j :: 0 <= j < i ==> !OccursAt(pat, s, j)
    ensures !IsInfix(pat, s[..i])
  {
    var r := s[..i];
    if IsInfix(pat, r) {
      var j :| 0 <= j <= |r| && OccursAt(pat, r, j);
      assert s[j..j + |pat|] == r[j..j + |pat|];
      assert j < i && OccursAt(pat, s, j);
    }
  }

  // ---------------------------------------------------------------------
  // getNextVersion
  // ---------------------------------------------------------------------

  /** Everything up to and including the last dot ("" without a dot). */
  function VersionHead(v: string): string {
    v[..LastIndexOf(v, '.') + 1]
  }

  /** Everything after the last dot (the whole string without a dot). */
  function VersionTail(v: string): string {
    v[LastIndexOf(v, '.') + 1..]
  }

  /** `Integer.valueOf` rejected the last segment. */
  datatype VersionError = NotANumber(segment: string)

  /** `getNextVersion`: the last dot segment, read as a Java integer, plus
      one; the text up to the last dot is kept. */
  function NextVersion(v: string): (r: Result<string, VersionError>)
    ensures r.Success? <==> ParseInt(VersionTail(v)).Some?
    ensures r.Failure? ==> r.error == NotANumber(VersionTail(v))
    ensures r.Success? ==> VersionHead(r.value) == VersionHead(v)
    ensures r.Success? ==> ParseInt(VersionTail(r.value)) == Some(ParseInt(VersionTail(v)).value + 1)
  {
    var head := VersionHead(v);
    match ParseInt(VersionTail(v))
    case None => Failure(NotANumber(VersionTail(v)))
    case Some(n) =>
      var digits := IntToString(n + 1);
      HeadEndsAtDot(v);
      IntToStringHasNoDot(n + 1);
      Reassemble(head, digits);
      ParseIntToString(n + 1);
      Success(head + digits)
  }

  /** The head of a version is empty or ends at its own last dot. */
  lemma HeadEndsAtDot(v: string)
    ensures LastIndexOf(VersionHead(v), '.') == |VersionHead(v)| - 1
  {
    var head := VersionHead(v);
    if |head| > 0 {
      assert head[|head| - 1] == '.';
    }
  }

  /** A head that ends at its last dot, followed by dot-free text, splits
      back into the two. */
  lemma Reassemble(head: string, tail: string)
    requires LastIndexOf(head, '.') == |head| - 1 && '.' !in tail
    ensures VersionHead(head + tail) == head && VersionTail(head + tail) == tail
  {
    LastIndexOfAppend(head, tail, '.');
    assert (head + tail)[..|head|] == head;
    assert (head + tail)[|head|..] == tail;
  }

  /** Bumping twice adds two to the last segment and keeps the rest. */
  lemma NextVersionTwice(v: string)
    requires NextVersion(v).Success?
    ensures NextVersion(NextVersion(v).value).Success?
    ensures VersionHead(NextVersion(NextVersion(v).value).value) == VersionHead(v)
    ensures ParseInt(VersionTail(NextVersion(NextVersion(v).value).value))
         == Some(ParseInt(VersionTail(v)).value + 2)
  {
  }

  /** A version whose last segment is the plain decimal form of `n` bumps
      to the same text with the decimal form of `n + 1`. */
  lemma NextVersionBumps(head: string, n: nat)
    requires head == "" || head[|head| - 1] == '.'
    ensures NextVersion(head + NatToString(n)) == Success(head + NatToString(n + 1))
  {
    var digits := NatToString(n);
    assert '.' !in digits by {
      IntToStringHasNoDot(n);
    }
    if |head| > 0 {
      assert head[|head| - 1] == '.';
    }
    Reassemble(head, digits);
    ParseIntToString(n);
    assert IntToString(n + 1) == NatToString(n + 1);
  }

  /** "1.4.2" bumps to "1.4.3". */
  lemma NextVersionOfPatch()
    ensures NextVersion("1.4.2") == Success("1.4.3")
  {
    assert NatToString(2) == "2" && NatToString(3) == "3";
    NextVersionBumps("1.4.", 2);
    assert "1.4." + NatToString(2) == "1.4.2";
    assert "1.4." + NatToString(3) == "1.4.3";
  }

  /** "2.0" bumps to "2.1". */
  lemma NextVersionOfMinor()
    ensures NextVersion("2.0") == Success("2.1")
  {
    assert NatToString(0) == "0" && NatToString(1) == "1";
    NextVersionBumps("2.", 0);
    assert "2." + NatToString(0) == "2.0";
    assert "2." + NatToString(1) == "2.1";
  }

  /** Without a dot the whole string is the number: "5" bumps to "6". */
  lemma NextVersionWithoutDot()
    ensures NextVersion("5") == Success("6")
  {
    assert LastIndexOf("5", '.') == -1 by {}
    assert VersionTail("5") == "5" && VersionHead("5") == "" by {}
    assert ParseInt("5") == Some(5) by {
      assert "5"[..0] == "";
    }
    assert IntToString(6) == "6" by {}
    var r := NextVersion("5");
    assert r.Success?;
    assert r.value == "" + IntToString(6);
  }

  /** "1.4.9" bumps to "1.4.10": the segment grows a digit. */
  lemma NextVersionAddsDigit()
    ensures NextVersion("1.4.9") == Success("1.4.10")
  {
    assert NatToString(9) == "9" && NatToString(1) == "1";
    assert NatToString(10) == NatToString(1) + [DigitChar(0)];
    assert NatToString(10) == "10";
    NextVersionBumps("1.4.", 9);
    assert "1.4." + NatToString(9) == "1.4.9";
    assert "1.4." + NatToString(10) == "1.4.10";
  }

  /** A last segment that is not a number is an error. */
  lemma NextVersionRejectsText()
    ensures NextVersion("abc") == Failure(NotANumber("abc"))
  {
    assert LastIndexOf("abc", '.') == -1;
    assert VersionTail("abc") == "abc";
    assert !IsDigit("abc"[0]);
    assert ParseInt("abc") == None;
  }

  /** A qualifier after the last dot is an error too. */
  lemma NextVersionRejectsQualifier()
    ensures NextVersion("1.0-beta") == Failure(NotANumber("0-beta"))
  {
    assert LastIndexOf("1.0-beta", '.') == 1;
    assert VersionTail("1.0-beta") == "0-beta";
    assert !IsDigit("0-beta"[1]);
    assert ParseInt("0-beta") == None;
  }

  /** Leading zeros are lost: "1.09" bumps to "1.10". */
  lemma NextVersionDropsLeadingZeros()
    ensures NextVersion("1.09") == Success("1.10")
  {
    assert LastIndexOf("1.09", '.') == 1;
    assert VersionTail("1.09") == "09" && VersionHead("1.09") == "1.";
    assert DigitsValue("09") == 9 by {
      assert "09"[..1] == "0";
      assert "0"[..0] == "";
    }
    assert ParseInt("09") == Some(9);
    assert NatToString(1) == "1";
    assert NatToString(10) == NatToString(1) + [DigitChar(0)];
    assert IntToString(10) == "10";
    assert NextVersion("1.09") == Success(VersionHead("1.09") + IntToString(9 + 1));
    assert "1." + "10" == "1.10";
  }

  /** The version range sent to the registry: from the major line
      (inclusive) to the next major line (exclusive). */
  function QueryRange(major: string): (r: Result<string, VersionError>)
    ensures r.Success? <==> NextVersion(major).Success?
    ensures r.Failure? ==> r == Failure(NextVersion(major).error)
    ensures r.Success? ==>
      && |r.value| >= 2 && r.value[0] == '[' && r.value[|r.value| - 1] == ')'
      && r.value[1..|r.value| - 1] == Join([major, NextVersion(major).value], ',')
      && (',' !in major ==>
            Split(r.value[1..|r.value| - 1], ',') == [major, NextVersion(major).value])
  {
    match NextVersion(major)
    case Failure(e) => Failure(e)
    case Success(next) =>
      var r := "[" + major + "," + next + ")";
      RangeBounds(major, next);
      assert ',' !in major ==> Split(r[1..|r| - 1], ',') == [major, next] by {
        if ',' !in major {
          NextVersionCharacters(major);
          RangeSplit(major, next);
        }
      }
      Success(r)
  }

  /** The range text is bracketed and holds the two bounds joined by a comma. */
  lemma RangeBounds(lower: string, upper: string)
    ensures var r := "[" + lower + "," + upper + ")";
      |r| >= 2 && r[0] == '[' && r[|r| - 1] == ')' && r[1..|r| - 1] == Join([lower, upper], ',')
  {
    var r := "[" + lower + "," + upper + ")";
    assert r == ['['] + (lower + [','] + upper) + [')'];
  }

  lemma RangeSplit(lower: string, upper: string)
    requires ',' !in lower && ',' !in upper
    ensures Split(("[" + lower + "," + upper + ")")[1..|"[" + lower + "," + upper + ")"| - 1], ',') == [lower, upper]
  {
    RangeBounds(lower, upper);
    assert SeparatorFree([lower, upper], ',');
    SplitJoin([lower, upper], ',');
  }

  /** The next version adds no comma that its input did not have. */
  lemma NextVersionCharacters(v: string)
    requires NextVersion(v).Success?
    ensures ',' in NextVersion(v).value ==> ',' in v
  {
    var head := VersionHead(v);
    var n := ParseInt(VersionTail(v)).value;
    var r := NextVersion(v).value;
    assert r == head + IntToString(n + 1);
    if ',' in r {
      var k :| 0 <= k < |r| && r[k] == ',';
      NoCommaInIntToString(n + 1);
      if k < |head| {
        assert v[k] == ',';
      }
    }
  }

  lemma NoCommaInIntToString(i: int)
    ensures ',' !in IntToString(i)
  {
  }

  // ---------------------------------------------------------------------
  // The table of latest released versions
  // ---------------------------------------------------------------------

  /** A Jenkins Maven module with its child modules. */
  datatype JobModule = JobModule(key: Key, children: seq<JobModule>)

  /** The keys of the tree in the order the population recursion visits
      them: a module, then its children's subtrees in order. */
  function Preorder(t: JobModule): (r: seq<Key>)
    ensures |r| > 0 && r[0] == t.key
    decreases t, 1
  {
    [t.key] + PreorderFrom(t, 0)
  }

  function PreorderFrom(t: JobModule, i: nat): seq<Key>
    decreases t, 0, |t.children| - i
  {
    if i >= |t.children| then []
    else Preorder(t.children[i]) + PreorderFrom(t, i + 1)
  }

  /** Reference: `k` is the key of the module or of a module below it. */
  predicate InTree(t: JobModule, k: Key)
    decreases t
  {
    k == t.key || exists j :: 0 <= j < |t.children| && InTree(t.children[j], k)
  }

  /** The traversal visits exactly the modules of the tree. */
  lemma {:induction false} PreorderInTree(t: JobModule, k: Key)
    ensures k in Preorder(t) <==> InTree(t, k)
    decreases t, 1
  {
    PreorderFromInTree(t, 0, k);
  }

  lemma {:induction false} PreorderFromInTree(t: JobModule, i: nat, k: Key)
    ensures k in PreorderFrom(t, i) <==> exists j :: i <= j < |t.children| && InTree(t.children[j], k)
    decreases t, 0, |t.children| - i
  {
    if i < |t.children| {
      PreorderInTree(t.children[i], k);
      PreorderFromInTree(t, i + 1, k);
    }
  }

  /** The registry's answer to "highest version of this module in this
      range": a version, nothing, or a failed request (network, credentials,
      bad coordinates: the source catches all of them). */
  datatype RegistryAnswer = Found(version: string) | NothingFound | RequestFailed

  type Registry = (Key, string) -> RegistryAnswer

  /** What the population step stores for module `k`: the highest version
      the registry reports in the major line's range, if any. */
  function Latest(major: string, k: Key, registry: Registry): (r: Option<string>)
    ensures r.Some? <==> QueryRange(major).Success? && registry(k, QueryRange(major).value).Found?
    ensures r.Some? ==> r.value == registry(k, QueryRange(major).value).version
  {
    match QueryRange(major)
    case Failure(_) => None
    case Success(range) =>
      match registry(k, range)
      case Found(v) => Some(v)
      case _ => None
  }

  /** `populateLatestVersionForMajorReleaseMap` over the modules `keys`, in
      visiting order, with `latest` the registry lookup of one module: a
      module is stored only when the lookup found a version; any failure
      leaves it out. */
  function Populate(keys: seq<Key>, latest: Key -> Option<string>, versions: map<Key, string>)
    : (r: map<Key, string>)
    ensures forall k :: k in r <==> k in versions || (k in keys && latest(k).Some?)
    ensures forall k :: k in r ==>
      r[k] == if k in keys && latest(k).Some? then latest(k).value else versions[k]
  {
    if |keys| == 0 then versions
    else
      var k := keys[0];
      var stored := if latest(k).Some? then versions[k := latest(k).value] else versions;
      assert forall j :: j in keys <==> j == k || j in keys[1..];
      Populate(keys[1..], latest, stored)
  }

  /** The state of a `VersionHandler` after its constructor. */
  datatype VersionHandler = VersionHandler(majorLine: string, moduleVersions: map<Key, string>)

  /** The constructor: the major line from the root module's version, then
      the table filled from the root module's tree. */
  function NewVersionHandler(rootVersion: string, root: JobModule, registry: Registry): (h: VersionHandler)
    ensures h.majorLine == MajorLine(rootVersion)
    ensures forall k :: k in h.moduleVersions <==>
      k in Preorder(root) && Latest(MajorLine(rootVersion), k, registry).Some?
    ensures forall k :: k in h.moduleVersions ==>
      h.moduleVersions[k] == Latest(MajorLine(rootVersion), k, registry).value
  {
    var major := MajorLine(rootVersion);
    var latest := k => Latest(major, k, registry);
    var versions := Populate(Preorder(root), latest, map[]);
    assert forall k :: k in versions <==> k in Preorder(root) && latest(k).Some?;
    assert forall k :: k in versions ==> versions[k] == latest(k).value;
    VersionHandler(major, versions)
  }

  /** `getMajorVersion`: the first version of the major line. */
  function MajorVersion(h: VersionHandler): (r: string)
    ensures VersionHead(r) == h.majorLine + "."
    ensures VersionTail(r) == "0"
  {
    var r := h.majorLine + ".0";
    assert LastIndexOf(r, '.') == |h.majorLine|;
    r
  }

  /** `getCurrentReleaseVersion`. */
  function CurrentReleaseVersion(h: VersionHandler, k: Key): (r: string)
    ensures k !in h.moduleVersions ==> r == NotReleasedSentinel
    ensures k in h.moduleVersions ==> r == h.moduleVersions[k]
  {
    if k in h.moduleVersions then h.moduleVersions[k] else NotReleasedSentinel
  }

  /** `getNextReleaseVersion`: the stored version bumped, or the major
      version for a module never released; bumping fails on a stored
      version whose last segment is not a number. */
  function NextReleaseVersion(h: VersionHandler, k: Key): (r: Result<string, VersionError>)
    ensures k !in h.moduleVersions ==> r == Success(MajorVersion(h))
    ensures k in h.moduleVersions ==> r == NextVersion(h.moduleVersions[k])
  {
    if k in h.moduleVersions then NextVersion(h.moduleVersions[k]) else Success(MajorVersion(h))
  }

  /** `isNotReleased`: it decides which branch the two version getters
      take, the sentinel and the major version, or the stored version and
      its bump. */
  function IsNotReleased(h: VersionHandler, k: Key): (r: bool)
    ensures r ==>
      && CurrentReleaseVersion(h, k) == NotReleasedSentinel
      && NextReleaseVersion(h, k) == Success(MajorVersion(h))
    ensures !r ==>
      && k in h.moduleVersions
      && CurrentReleaseVersion(h, k) == h.moduleVersions[k]
      && NextReleaseVersion(h, k) == NextVersion(h.moduleVersions[k])
  {
    k !in h.moduleVersions
  }

  /** For a handler built from a registry, the three lookups report what the
      registry answered for the module in the major line's range. */
  lemma HandlerReportsRegistry(rootVersion: string, root: JobModule, registry: Registry, k: Key)
    ensures var h := NewVersionHandler(rootVersion, root, registry);
      var latest := Latest(MajorLine(rootVersion), k, registry);
      && (IsNotReleased(h, k) <==> !InTree(root, k) || latest.None?)
      && (!IsNotReleased(h, k) ==>
            CurrentReleaseVersion(h, k) == latest.value
            && NextReleaseVersion(h, k) == NextVersion(latest.value))
      && (IsNotReleased(h, k) ==>
            CurrentReleaseVersion(h, k) == NotReleasedSentinel
            && NextReleaseVersion(h, k) == Success(MajorLine(rootVersion) + ".0"))
  {
    PreorderInTree(root, k);
  }

  lemma NextVersionOfMajorLine()
    ensures NextVersion("3.2") == Success("3.3")
  {
    assert NatToString(2) == "2" && NatToString(3) == "3";
    NextVersionBumps("3.", 2);
    assert "3." + NatToString(2) == "3.2";
    assert "3." + NatToString(3) == "3.3";
  }

  lemma NextVersionOfReference()
    ensures NextVersion("3.2.5") == Success("3.2.6")
  {
    assert NatToString(5) == "5" && NatToString(6) == "6";
    NextVersionBumps("3.2.", 5);
    assert "3.2." + NatToString(5) == "3.2.5";
    assert "3.2." + NatToString(6) == "3.2.6";
  }

  /** The major line of "3.2-SNAPSHOT" is "3.2". */
  lemma MajorLineOfSnapshot()
    ensures MajorLine("3.2-SNAPSHOT") == "3.2"
  {
    var v := "3.2-SNAPSHOT";
    assert v[3..3 + |SnapshotMarker|] == SnapshotMarker;
    forall j | 0 <= j < 3
      ensures !OccursAt(SnapshotMarker, v, j)
    {
      assert v[j] != '-';
    }
    assert IndexOf("3.2-SNAPSHOT", SnapshotMarker) == Some(3);
  }

  /** The major line "3.2" is looked up in the range "[3.2,3.3)". */
  lemma RangeOfMajorLine()
    ensures QueryRange("3.2") == Success("[3.2,3.3)")
  {
    NextVersionOfMajorLine();
    assert "[" + "3.2" + "," + "3.3" + ")" == "[3.2,3.3)";
  }

  /** A module the registry reports `v` for in its major line's range is
      at `v` and is released next as `v` bumped. */
  lemma HandlerFound(rootVersion: string, root: JobModule, registry: Registry, k: Key, range: string, v: string)
    requires InTree(root, k)
    requires QueryRange(MajorLine(rootVersion)) == Success(range) && registry(k, range) == Found(v)
    ensures var h := NewVersionHandler(rootVersion, root, registry);
      CurrentReleaseVersion(h, k) == v && NextReleaseVersion(h, k) == NextVersion(v)
  {
    HandlerReportsRegistry(rootVersion, root, registry, k);
  }

  /** A module the registry never reports a version for is not released,
      and its next release is the major version. */
  lemma HandlerNothingFound(rootVersion: string, root: JobModule, registry: Registry, k: Key)
    requires forall range :: !registry(k, range).Found?
    ensures var h := NewVersionHandler(rootVersion, root, registry);
      && CurrentReleaseVersion(h, k) == NotReleasedSentinel
      && NextReleaseVersion(h, k) == Success(MajorLine(rootVersion) + ".0")
  {
    HandlerReportsRegistry(rootVersion, root, registry, k);
    var latest := Latest(MajorLine(rootVersion), k, registry);
    if QueryRange(MajorLine(rootVersion)).Success? {
      assert !registry(k, QueryRange(MajorLine(rootVersion)).value).Found?;
    }
    assert latest.None?;
  }

  /** Module D of a "3.2-SNAPSHOT" project, for which the registry reports
      "3.2.5" in the range "[3.2,3.3)": that is its reference version, and
      its next release is "3.2.6". */
  lemma ReferenceVersionFound(registry: Registry)
    requires forall k, range :: registry(k, range) == if range == "[3.2,3.3)" then Found("3.2.5") else NothingFound
    ensures var h := NewVersionHandler("3.2-SNAPSHOT", JobModule("g:d", []), registry);
      && CurrentReleaseVersion(h, "g:d") == "3.2.5"
      && NextReleaseVersion(h, "g:d") == Success("3.2.6")
  {
    var d := JobModule("g:d", []);
    MajorLineOfSnapshot();
    RangeOfMajorLine();
    NextVersionOfReference();
    assert Preorder(d) == ["g:d"] by {
      assert PreorderFrom(d, 0) == [];
    }
    HandlerFound("3.2-SNAPSHOT", d, registry, "g:d", "[3.2,3.3)", "3.2.5");
  }

  /** The same module when the registry reports nothing: the sentinel, and
      the major version "3.2.0" as its next release. */
  lemma ReferenceVersionMissing(registry: Registry)
    requires forall k, range :: registry(k, range) == NothingFound
    ensures var h := NewVersionHandler("3.2-SNAPSHOT", JobModule("g:d", []), registry);
      && CurrentReleaseVersion(h, "g:d") == NotReleasedSentinel
      && NextReleaseVersion(h, "g:d") == Success("3.2.0")
  {
    MajorLineOfSnapshot();
    HandlerNothingFound("3.2-SNAPSHOT", JobModule("g:d", []), registry, "g:d");
    assert MajorLine("3.2-SNAPSHOT") + ".0" == "3.2.0";
  }
}
