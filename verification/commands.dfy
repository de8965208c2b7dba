/** The Maven goals the two release interceptors hand to the build
    (`getGoalsAndOptions` of `MinorReleaseInterceptorAction` and of
    `MajorReleaseInterceptorAction`): string building from the version maps,
    the root module's current version and the job's optional extra Maven
    arguments. The maps are keyed by `groupId:artifactId`, which is the
    module name the source writes into each option. */
module Commands {
  import opened Wrappers
  import opened Text
  import opened Poms

  /** One `cmd.append(" " + token)`. */
  function Arg(token: string): string {
    " " + token
  }

  /** The two goals appended last in every case. */
  const GoalTokens: seq<string> := ["release:prepare", "release:perform"]

  /** " release:prepare release:perform" */
  function ReleaseGoals(): string {
    Arg(GoalTokens[0]) + Arg(GoalTokens[1])
  }

  /** Makes the tag name just the version. */
  const TagNameFormat := "-DtagNameFormat=@{project.version}"

  /** `StringBuilder.append` of `releaseVersions.get(root)`: an absent
      root module is written as "null". */
  function Tag(releaseVersions: map<Key, string>, rootKey: Key): (r: string)
    ensures rootKey in releaseVersions ==> r == releaseVersions[rootKey]
    ensures rootKey !in releaseVersions ==> r == "null"
  {
    if rootKey in releaseVersions then releaseVersions[rootKey] else "null"
  }

  /** The job's extra arguments, trimmed, after one space; nothing when the
      job has none. */
  function ExtraArgs(mavenArgs: Option<string>): (r: string)
    ensures mavenArgs.None? ==> r == ""
    ensures mavenArgs.Some? ==>
      && |r| > 0 && r[0] == ' '
      && Trim(r[1..]) == r[1..]
      && IsInfix(r[1..], mavenArgs.value)
  {
    match mavenArgs
    case None => ""
    case Some(a) =>
      var t := Trim(a);
      TrimInfix(a);
      assert Arg(t)[1..] == t;
      Arg(t)
  }

  /** The extra arguments split at spaces. */
  function ArgTokens(mavenArgs: Option<string>): seq<string> {
    match mavenArgs
    case None => []
    case Some(a) => Split(Trim(a), ' ')
  }

  function ReleaseToken(k: Key, version: string): string {
    "-Dproject.rel." + k + "=" + version
  }

  function DevelopmentToken(k: Key, dev: string): string {
    "-Dproject.dev." + k + "=" + dev
  }

  /** The two options one module contributes: the version it is released
      as (or left at), and the development version afterwards. */
  function VersionPair(k: Key, version: string, dev: string): string {
    Arg(ReleaseToken(k, version)) + Arg(DevelopmentToken(k, dev))
  }

  /** One of the two fragment loops, over `keys` in map iteration order. */
  function VersionOptions(keys: seq<Key>, versions: map<Key, string>, dev: string): (r: string)
    requires forall k :: k in keys ==> k in versions
    ensures forall k :: k in keys ==> IsInfix(VersionPair(k, versions[k], dev), r)
  {
    if |keys| == 0 then ""
    else
      var k := keys[|keys| - 1];
      var init := keys[..|keys| - 1];
      var prev := VersionOptions(init, versions, dev);
      var pair := VersionPair(k, versions[k], dev);
      assert forall j :: j in keys ==> j in init || j == k;
      assert IsInfix(pair, prev + pair) by {
        InfixSelf(pair);
        InfixOfConcat(pair, prev, pair, "");
        assert prev + pair + "" == prev + pair;
      }
      assert forall j :: j in init ==> IsInfix(VersionPair(j, versions[j], dev), prev + pair) by {
        forall j | j in init ensures IsInfix(VersionPair(j, versions[j], dev), prev + pair) {
          InfixOfConcat(VersionPair(j, versions[j], dev), "", prev, pair);
          assert "" + prev + pair == prev + pair;
        }
      }
      prev + pair
  }

  /** The `--projects` value: the released keys, comma-joined. */
  function ProjectList(releaseOrder: seq<Key>): string {
    BuilderJoin(releaseOrder, ',')
  }

  /** The options after the version fragment. */
  function ProjectOptions(releaseOrder: seq<Key>): (r: string)
    ensures (forall k :: k in releaseOrder ==> SpaceFree(k)) ==>
      Split(r, ' ') == ["", "-DignoreSnapshots=true", "--projects", ProjectList(releaseOrder)]
  {
    var p := ["-DignoreSnapshots=true", "--projects", ProjectList(releaseOrder)];
    var r := Arg(p[0]) + Arg(p[1]) + Arg(p[2]);
    assert (forall k :: k in releaseOrder ==> SpaceFree(k)) ==> Split(r, ' ') == [""] + p by {
      SpacedThree(p[0], p[1], p[2]);
      if forall k :: k in releaseOrder ==> SpaceFree(k) {
        ProjectTokensSpaceFree(releaseOrder);
        SplitLead(p);
      }
    }
    r
  }

  /** `MinorReleaseInterceptorAction.getGoalsAndOptions`. `releaseVersions`
      is `None` when the field is null; `releaseOrder` and `latestOrder`
      are the iteration orders of the two maps. */
  function MinorGoals(releaseVersions: Option<map<Key, string>>, releaseOrder: seq<Key>,
                      latestVersions: map<Key, string>, latestOrder: seq<Key>,
                      rootKey: Key, rootVersion: string, mavenArgs: Option<string>): (r: string)
    requires releaseVersions.Some? ==> Enumerates(releaseOrder, releaseVersions.value.Keys)
    requires Enumerates(latestOrder, latestVersions.Keys)
    ensures IsSuffix(ReleaseGoals(), r)
    ensures releaseVersions.None? || |releaseVersions.value| == 0 ==> r == ReleaseGoals()
    ensures releaseVersions.Some? && |releaseVersions.value| > 0 ==>
      var rv := releaseVersions.value;
      && Arg("-Dtag=" + Tag(rv, rootKey)) + Arg(TagNameFormat) <= r
      && (forall k :: k in rv ==> IsInfix(VersionPair(k, rv[k], rootVersion), r))
      && (forall k :: k in latestVersions ==> IsInfix(VersionPair(k, latestVersions[k], rootVersion), r))
      && IsSuffix(ProjectOptions(releaseOrder) + ExtraArgs(mavenArgs) + ReleaseGoals(), r)
  {
    if releaseVersions.None? || |releaseVersions.value| == 0 then ReleaseGoals()
    else
      var rv := releaseVersions.value;
      EnumeratedKeys(releaseOrder, rv);
      EnumeratedKeys(latestOrder, latestVersions);
      MinorOptions(rv, releaseOrder, latestVersions, latestOrder, rootKey, rootVersion, mavenArgs)
  }

  lemma EnumeratedKeys(order: seq<Key>, m: map<Key, string>)
    requires Enumerates(order, m.Keys)
    ensures forall k :: k in order <==> k in m
  {
    assert forall k :: k in order <==> k in (set x | x in order);
  }

  /** The branch with at least one module to release. */
  function MinorOptions(rv: map<Key, string>, releaseOrder: seq<Key>,
                        latestVersions: map<Key, string>, latestOrder: seq<Key>,
                        rootKey: Key, rootVersion: string, mavenArgs: Option<string>): (r: string)
    requires forall k :: k in releaseOrder <==> k in rv
    requires forall k :: k in latestOrder <==> k in latestVersions
    ensures IsSuffix(ReleaseGoals(), r)
    ensures Arg("-Dtag=" + Tag(rv, rootKey)) + Arg(TagNameFormat) <= r
    ensures forall k :: k in rv ==> IsInfix(VersionPair(k, rv[k], rootVersion), r)
    ensures forall k :: k in latestVersions ==> IsInfix(VersionPair(k, latestVersions[k], rootVersion), r)
    ensures IsSuffix(ProjectOptions(releaseOrder) + ExtraArgs(mavenArgs) + ReleaseGoals(), r)
  {
    var head := Arg("-Dtag=" + Tag(rv, rootKey)) + Arg(TagNameFormat);
    var released := VersionOptions(releaseOrder, rv, rootVersion);
    var latest := VersionOptions(latestOrder, latestVersions, rootVersion);
    var flags := ProjectOptions(releaseOrder) + ExtraArgs(mavenArgs);
    Layout(head, released, latest, flags, ReleaseGoals());
    head + released + latest + (flags + ReleaseGoals())
  }

  /** Where the pieces of a command line sit in it. */
  lemma Layout(head: string, released: string, latest: string, flags: string, goals: string)
    ensures var r := head + released + latest + (flags + goals);
      && head <= r && IsSuffix(goals, r) && IsSuffix(flags + goals, r)
      && (forall x :: IsInfix(x, released) ==> IsInfix(x, r))
      && (forall x :: IsInfix(x, latest) ==> IsInfix(x, r))
  {
    Quarters(head, released, latest, flags + goals);
    SuffixOfAppend(flags, goals);
    SuffixOfSuffix(goals, flags + goals, head + released + latest + (flags + goals));
  }

  /** Where each of four consecutive pieces sits in their concatenation. */
  lemma Quarters(a: string, b: string, c: string, d: string)
    ensures var r := a + b + c + d;
      && a <= r && IsSuffix(d, r)
      && (forall x :: IsInfix(x, b) ==> IsInfix(x, r))
      && (forall x :: IsInfix(x, c) ==> IsInfix(x, r))
  {
    var r := a + b + c + d;
    LayoutEnds(a, b + c, d);
    assert a + (b + c) + d == r;
    InfixesOf(a, b, c + d);
    assert a + b + (c + d) == r;
    InfixesOf(a + b, c, d);
  }

  /** Whatever occurs in `mid` occurs in `pre + mid + post`. */
  lemma InfixesOf(pre: string, mid: string, post: string)
    ensures forall x :: IsInfix(x, mid) ==> IsInfix(x, pre + mid + post)
  {
    forall x | IsInfix(x, mid) ensures IsInfix(x, pre + mid + post) {
      InfixOfConcat(x, pre, mid, post);
    }
  }

  lemma LayoutEnds(head: string, mid: string, tail: string)
    ensures head <= head + mid + tail && IsSuffix(tail, head + mid + tail)
  {
    PrefixOfAppend(head, mid + tail);
    assert head + (mid + tail) == head + mid + tail;
    SuffixOfAppend(head + mid, tail);
  }

  /** The options of a major release, in order. */
  function MajorTokens(version: string, rootVersion: string): seq<string> {
    ["--batch-mode", "-Dtag=" + version, TagNameFormat,
     "-DreleaseVersion=" + version, "-DdevelopmentVersion=" + rootVersion]
  }

  /** `MajorReleaseInterceptorAction.getGoalsAndOptions`. `version` is
      `None` when the major release version is null. */
  function MajorGoals(version: Option<string>, rootVersion: string, mavenArgs: Option<string>): (r: string)
    ensures IsSuffix(ReleaseGoals(), r)
    ensures version.None? ==> r == ReleaseGoals()
    ensures version.Some? ==> Arg("--batch-mode") + Arg("-Dtag=" + version.value) <= r
    ensures version.Some? ==> IsSuffix(ExtraArgs(mavenArgs) + ReleaseGoals(), r)
  {
    match version
    case None => ReleaseGoals()
    case Some(v) =>
      var head := Arg("--batch-mode") + Arg("-Dtag=" + v);
      var mid := Arg(TagNameFormat) + Arg("-DreleaseVersion=" + v) + Arg("-DdevelopmentVersion=" + rootVersion);
      var tail := ExtraArgs(mavenArgs) + ReleaseGoals();
      LayoutEnds(head, mid, tail);
      SuffixOfAppend(ExtraArgs(mavenArgs), ReleaseGoals());
      SuffixOfSuffix(ReleaseGoals(), tail, head + mid + tail);
      head + mid + tail
  }

  // ---------------------------------------------------------------------
  // The command lines split at spaces
  // ---------------------------------------------------------------------

  predicate SpaceFree(s: string) {
    ' ' !in s
  }

  lemma SpacedSnoc(init: seq<string>, t: string)
    ensures Spaced(init + [t]) == Spaced(init) + Arg(t)
  {
    assert (init + [t])[..|init|] == init;
  }

  lemma SpacedTwo(a: string, b: string)
    ensures Spaced([a, b]) == Arg(a) + Arg(b)
  {
    SpacedSnoc([], a);
    assert [a, b] == [a] + [b];
    SpacedSnoc([a], b);
  }

  lemma SpacedThree(a: string, b: string, c: string)
    ensures Spaced([a, b, c]) == Arg(a) + Arg(b) + Arg(c)
  {
    SpacedTwo(a, b);
    assert [a, b, c] == [a, b] + [c];
    SpacedSnoc([a, b], c);
  }

  /** The tokens of one fragment loop, two per module. */
  function VersionTokens(keys: seq<Key>, versions: map<Key, string>, dev: string): seq<string>
    requires forall k :: k in keys ==> k in versions
  {
    if |keys| == 0 then []
    else
      var k := keys[|keys| - 1];
      VersionTokens(keys[..|keys| - 1], versions, dev) + [ReleaseToken(k, versions[k]), DevelopmentToken(k, dev)]
  }

  lemma {:induction false} VersionOptionsSpaced(keys: seq<Key>, versions: map<Key, string>, dev: string)
    requires forall k :: k in keys ==> k in versions
    ensures VersionOptions(keys, versions, dev) == Spaced(VersionTokens(keys, versions, dev))
  {
    if |keys| > 0 {
      var k := keys[|keys| - 1];
      var init := keys[..|keys| - 1];
      VersionOptionsSpaced(init, versions, dev);
      var pair := [ReleaseToken(k, versions[k]), DevelopmentToken(k, dev)];
      SpacedAppend(VersionTokens(init, versions, dev), pair);
      SpacedTwo(pair[0], pair[1]);
    }
  }

  /** A module key and its versions without spaces give tokens without
      spaces. */
  lemma {:induction false} VersionTokensSpaceFree(keys: seq<Key>, versions: map<Key, string>, dev: string)
    requires forall k :: k in keys ==> k in versions && SpaceFree(k) && SpaceFree(versions[k])
    requires SpaceFree(dev)
    ensures SeparatorFree(VersionTokens(keys, versions, dev), ' ')
  {
    if |keys| > 0 {
      var k := keys[|keys| - 1];
      var prev := VersionTokens(keys[..|keys| - 1], versions, dev);
      VersionTokensSpaceFree(keys[..|keys| - 1], versions, dev);
      TokenSpaceFree("-Dproject.rel.", k, versions[k]);
      TokenSpaceFree("-Dproject.dev.", k, dev);
      var pair := [ReleaseToken(k, versions[k]), DevelopmentToken(k, dev)];
      assert SeparatorFree(pair, ' ');
      assert forall i :: 0 <= i < |prev + pair| ==> (prev + pair)[i] in prev || (prev + pair)[i] in pair;
    }
  }

  lemma TokenSpaceFree(option: string, k: Key, value: string)
    requires SpaceFree(option) && SpaceFree(k) && SpaceFree(value)
    ensures SpaceFree(option + k + "=" + value)
  {
    assert SpaceFree("=");
  }

  /** Tokens followed by goals, with nothing in between. */
  lemma SplitPlain(tokens: seq<string>, goals: seq<string>)
    requires SeparatorFree(tokens + goals, ' ')
    ensures Split(Spaced(tokens) + Spaced(goals), ' ') == [""] + tokens + goals
  {
    SpacedAppend(tokens, goals);
    SplitLead(tokens + goals);
  }

  /** A line of space-free tokens splits into an empty lead and the tokens. */
  lemma SplitLead(tokens: seq<string>)
    requires SeparatorFree(tokens, ' ')
    ensures Split(Spaced(tokens), ' ') == [""] + tokens
  {
    assert "" + Spaced(tokens) == Spaced(tokens);
    SplitSpaced("", tokens);
    assert Split("", ' ') == [""];
  }

  lemma Regroup(x: string, t: string, y: string)
    ensures x + Arg(t) + y == x + [' '] + (t + y)
  {
  }

  /** Tokens, then extra text, then goals. */
  lemma SplitWithExtra(tokens: seq<string>, t: string, goals: seq<string>)
    requires SeparatorFree(tokens, ' ') && SeparatorFree(goals, ' ')
    ensures Split(Spaced(tokens) + Arg(t) + Spaced(goals), ' ') == [""] + tokens + Split(t, ' ') + goals
  {
    var x := Spaced(tokens);
    var y := Spaced(goals);
    calc {
      Split(x + Arg(t) + y, ' ');
      { Regroup(x, t, y); }
      Split(x + [' '] + (t + y), ' ');
      { SplitConcat(x, t + y, ' '); }
      Split(x, ' ') + Split(t + y, ' ');
      { SplitLead(tokens); SplitSpaced(t, goals); }
      [""] + tokens + (Split(t, ' ') + goals);
    }
  }

  /** Tokens, then the extra arguments, then the goals: splitting at spaces
      gives back each token, the split extra arguments, and the goals. */
  lemma CommandTokens(tokens: seq<string>, mavenArgs: Option<string>)
    requires SeparatorFree(tokens, ' ')
    ensures Split(Spaced(tokens) + ExtraArgs(mavenArgs) + ReleaseGoals(), ' ')
         == [""] + tokens + ArgTokens(mavenArgs) + GoalTokens
  {
    GoalsSpaced();
    CommandTokensWith(tokens, mavenArgs, GoalTokens);
  }

  /** The two goals, each after one space. */
  lemma GoalsSpaced()
    ensures ReleaseGoals() == Spaced(GoalTokens)
    ensures SeparatorFree(GoalTokens, ' ')
  {
    SpacedTwo(GoalTokens[0], GoalTokens[1]);
    assert GoalTokens == [GoalTokens[0], GoalTokens[1]];
  }

  lemma CommandTokensWith(tokens: seq<string>, mavenArgs: Option<string>, goals: seq<string>)
    requires SeparatorFree(tokens, ' ') && SeparatorFree(goals, ' ')
    ensures Split(Spaced(tokens) + ExtraArgs(mavenArgs) + Spaced(goals), ' ')
         == [""] + tokens + ArgTokens(mavenArgs) + goals
  {
    match mavenArgs
    case None =>
      SeparatorFreeAppend(tokens, goals);
      SplitPlain(tokens, goals);
      assert Spaced(tokens) + ExtraArgs(mavenArgs) == Spaced(tokens);
    case Some(a) =>
      SplitWithExtra(tokens, Trim(a), goals);
  }

  /** The goals alone split into an empty lead and the two goals. */
  lemma NoReleaseTokens()
    ensures Split(ReleaseGoals(), ' ') == [""] + GoalTokens
  {
    GoalsSpaced();
    SplitLead(GoalTokens);
  }

  /** Split at spaces, the major-release command holds exactly one tag
      option and one release-version option, both naming the major release
      version, then the development version, the extra arguments and the
      two release goals; without a version it is the two goals alone. */
  lemma MajorGoalsTokens(version: Option<string>, rootVersion: string, mavenArgs: Option<string>)
    requires version.Some? ==> SpaceFree(version.value) && SpaceFree(rootVersion)
    ensures version.None? ==> Split(MajorGoals(version, rootVersion, mavenArgs), ' ') == [""] + GoalTokens
    ensures version.Some? ==>
      Split(MajorGoals(version, rootVersion, mavenArgs), ' ')
        == [""] + MajorTokens(version.value, rootVersion) + ArgTokens(mavenArgs) + GoalTokens
  {
    match version
    case None =>
      NoReleaseTokens();
    case Some(v) =>
      MajorVersionTokens(v, rootVersion, mavenArgs);
  }

  lemma MajorVersionTokens(v: string, rootVersion: string, mavenArgs: Option<string>)
    requires SpaceFree(v) && SpaceFree(rootVersion)
    ensures Split(MajorGoals(Some(v), rootVersion, mavenArgs), ' ')
         == [""] + MajorTokens(v, rootVersion) + ArgTokens(mavenArgs) + GoalTokens
  {
    MajorSpaced(v, rootVersion, mavenArgs);
    MajorTokensSpaceFree(v, rootVersion);
    CommandTokens(MajorTokens(v, rootVersion), mavenArgs);
  }

  lemma MajorSpaced(v: string, rootVersion: string, mavenArgs: Option<string>)
    ensures MajorGoals(Some(v), rootVersion, mavenArgs)
         == Spaced(MajorTokens(v, rootVersion)) + ExtraArgs(mavenArgs) + ReleaseGoals()
  {
    var m := MajorTokens(v, rootVersion);
    SpacedTwo(m[0], m[1]);
    SpacedThree(m[2], m[3], m[4]);
    assert m == [m[0], m[1]] + [m[2], m[3], m[4]];
    SpacedAppend([m[0], m[1]], [m[2], m[3], m[4]]);
  }

  lemma MajorTokensSpaceFree(v: string, rootVersion: string)
    requires SpaceFree(v) && SpaceFree(rootVersion)
    ensures SeparatorFree(MajorTokens(v, rootVersion), ' ')
  {
    assert SpaceFree("--batch-mode") && SpaceFree("-Dtag=") && SpaceFree(TagNameFormat);
    assert SpaceFree("-DreleaseVersion=") && SpaceFree("-DdevelopmentVersion=");
  }

  /** The options of a minor release, in order. */
  function MinorTokens(rv: map<Key, string>, releaseOrder: seq<Key>,
                       latestVersions: map<Key, string>, latestOrder: seq<Key>,
                       rootKey: Key, rootVersion: string): seq<string>
    requires forall k :: k in releaseOrder ==> k in rv
    requires forall k :: k in latestOrder ==> k in latestVersions
  {
    ["-Dtag=" + Tag(rv, rootKey), TagNameFormat]
    + VersionTokens(releaseOrder, rv, rootVersion)
    + VersionTokens(latestOrder, latestVersions, rootVersion)
    + ["-DignoreSnapshots=true", "--projects", ProjectList(releaseOrder)]
  }

  /** Split at spaces, a minor-release command with modules to release
      holds the tag (the root module's release version, or "null"), the
      tag format, a release/development pair for every released module and
      then for every other module, the snapshot switch, the project list,
      the extra arguments and the two goals. */
  lemma MinorGoalsTokens(releaseVersions: Option<map<Key, string>>, releaseOrder: seq<Key>,
                         latestVersions: map<Key, string>, latestOrder: seq<Key>,
                         rootKey: Key, rootVersion: string, mavenArgs: Option<string>)
    requires releaseVersions.Some? ==> Enumerates(releaseOrder, releaseVersions.value.Keys)
    requires Enumerates(latestOrder, latestVersions.Keys)
    requires releaseVersions.Some? ==>
      forall k :: k in releaseVersions.value ==> SpaceFree(k) && SpaceFree(releaseVersions.value[k])
    requires forall k :: k in latestVersions ==> SpaceFree(k) && SpaceFree(latestVersions[k])
    requires SpaceFree(rootVersion)
    ensures releaseVersions.None? || |releaseVersions.value| == 0 ==>
      Split(MinorGoals(releaseVersions, releaseOrder, latestVersions, latestOrder, rootKey, rootVersion, mavenArgs), ' ')
        == [""] + GoalTokens
    ensures releaseVersions.Some? && |releaseVersions.value| > 0 ==>
      && (forall k :: k in releaseOrder ==> k in releaseVersions.value)
      && (forall k :: k in latestOrder ==> k in latestVersions)
      && Split(MinorGoals(releaseVersions, releaseOrder, latestVersions, latestOrder, rootKey, rootVersion, mavenArgs), ' ')
        == [""] + MinorTokens(releaseVersions.value, releaseOrder, latestVersions, latestOrder, rootKey, rootVersion)
           + ArgTokens(mavenArgs) + GoalTokens
  {
    if releaseVersions.None? || |releaseVersions.value| == 0 {
      NoReleaseTokens();
    } else {
      var rv := releaseVersions.value;
      EnumeratedKeys(releaseOrder, rv);
      EnumeratedKeys(latestOrder, latestVersions);
      var line := MinorGoals(releaseVersions, releaseOrder, latestVersions, latestOrder, rootKey, rootVersion, mavenArgs);
      assert line == MinorOptions(rv, releaseOrder, latestVersions, latestOrder, rootKey, rootVersion, mavenArgs);
      MinorOptionsTokens(rv, releaseOrder, latestVersions, latestOrder, rootKey, rootVersion, mavenArgs);
    }
  }

  lemma MinorOptionsTokens(rv: map<Key, string>, releaseOrder: seq<Key>,
                           latestVersions: map<Key, string>, latestOrder: seq<Key>,
                           rootKey: Key, rootVersion: string, mavenArgs: Option<string>)
    requires forall k :: k in releaseOrder <==> k in rv
    requires forall k :: k in latestOrder <==> k in latestVersions
    requires forall k :: k in rv ==> SpaceFree(k) && SpaceFree(rv[k])
    requires forall k :: k in latestVersions ==> SpaceFree(k) && SpaceFree(latestVersions[k])
    requires SpaceFree(rootVersion)
    ensures Split(MinorOptions(rv, releaseOrder, latestVersions, latestOrder, rootKey, rootVersion, mavenArgs), ' ')
        == [""] + MinorTokens(rv, releaseOrder, latestVersions, latestOrder, rootKey, rootVersion)
           + ArgTokens(mavenArgs) + GoalTokens
  {
    var tokens := MinorTokens(rv, releaseOrder, latestVersions, latestOrder, rootKey, rootVersion);
    MinorSpaced(rv, releaseOrder, latestVersions, latestOrder, rootKey, rootVersion, mavenArgs);
    MinorTokensSpaceFree(rv, releaseOrder, latestVersions, latestOrder, rootKey, rootVersion);
    CommandTokens(tokens, mavenArgs);
  }

  lemma MinorSpaced(rv: map<Key, string>, releaseOrder: seq<Key>,
                    latestVersions: map<Key, string>, latestOrder: seq<Key>,
                    rootKey: Key, rootVersion: string, mavenArgs: Option<string>)
    requires forall k :: k in releaseOrder <==> k in rv
    requires forall k :: k in latestOrder <==> k in latestVersions
    ensures MinorOptions(rv, releaseOrder, latestVersions, latestOrder, rootKey, rootVersion, mavenArgs)
         == Spaced(MinorTokens(rv, releaseOrder, latestVersions, latestOrder, rootKey, rootVersion))
            + ExtraArgs(mavenArgs) + ReleaseGoals()
  {
    var h := ["-Dtag=" + Tag(rv, rootKey), TagNameFormat];
    var v1 := VersionTokens(releaseOrder, rv, rootVersion);
    var v2 := VersionTokens(latestOrder, latestVersions, rootVersion);
    var p := ["-DignoreSnapshots=true", "--projects", ProjectList(releaseOrder)];
    SpacedTwo(h[0], h[1]);
    VersionOptionsSpaced(releaseOrder, rv, rootVersion);
    VersionOptionsSpaced(latestOrder, latestVersions, rootVersion);
    SpacedThree(p[0], p[1], p[2]);
    SpacedFour(h, v1, v2, p);
    Regroup6(Spaced(h), Spaced(v1), Spaced(v2), Spaced(p), ExtraArgs(mavenArgs), ReleaseGoals());
  }

  lemma SpacedFour(a: seq<string>, b: seq<string>, c: seq<string>, d: seq<string>)
    ensures Spaced(a + b + c + d) == Spaced(a) + Spaced(b) + Spaced(c) + Spaced(d)
  {
    SpacedAppend(a, b);
    SpacedAppend(a + b, c);
    SpacedAppend(a + b + c, d);
  }

  lemma Regroup6(a: string, b: string, c: string, d: string, e: string, f: string)
    ensures a + b + c + (d + e + f) == (a + b + c + d) + e + f
  {
  }

  lemma MinorTokensSpaceFree(rv: map<Key, string>, releaseOrder: seq<Key>,
                             latestVersions: map<Key, string>, latestOrder: seq<Key>,
                             rootKey: Key, rootVersion: string)
    requires forall k :: k in releaseOrder <==> k in rv
    requires forall k :: k in latestOrder <==> k in latestVersions
    requires forall k :: k in rv ==> SpaceFree(k) && SpaceFree(rv[k])
    requires forall k :: k in latestVersions ==> SpaceFree(k) && SpaceFree(latestVersions[k])
    requires SpaceFree(rootVersion)
    ensures SeparatorFree(MinorTokens(rv, releaseOrder, latestVersions, latestOrder, rootKey, rootVersion), ' ')
  {
    var h := ["-Dtag=" + Tag(rv, rootKey), TagNameFormat];
    var v1 := VersionTokens(releaseOrder, rv, rootVersion);
    var v2 := VersionTokens(latestOrder, latestVersions, rootVersion);
    var p := ["-DignoreSnapshots=true", "--projects", ProjectList(releaseOrder)];
    HeadSpaceFree(rv, rootKey);
    VersionTokensSpaceFree(releaseOrder, rv, rootVersion);
    VersionTokensSpaceFree(latestOrder, latestVersions, rootVersion);
    ProjectTokensSpaceFree(releaseOrder);
    SeparatorFreeAppend(h, v1);
    SeparatorFreeAppend(h + v1, v2);
    SeparatorFreeAppend(h + v1 + v2, p);
  }

  lemma HeadSpaceFree(rv: map<Key, string>, rootKey: Key)
    requires forall k :: k in rv ==> SpaceFree(rv[k])
    ensures SeparatorFree(["-Dtag=" + Tag(rv, rootKey), TagNameFormat], ' ')
  {
    assert SpaceFree("-Dtag=") && SpaceFree("null") && SpaceFree(TagNameFormat);
    var t := Tag(rv, rootKey);
    assert SpaceFree(t);
    assert SpaceFree("-Dtag=" + t);
  }

  lemma ProjectTokensSpaceFree(releaseOrder: seq<Key>)
    requires forall k :: k in releaseOrder ==> SpaceFree(k)
    ensures SeparatorFree(["-DignoreSnapshots=true", "--projects", ProjectList(releaseOrder)], ' ')
  {
    assert SeparatorFree(releaseOrder, ' ') by {
      forall i | 0 <= i < |releaseOrder| ensures ' ' !in releaseOrder[i] {
        assert releaseOrder[i] in releaseOrder;
      }
    }
    BuilderJoinFree(releaseOrder, ',', ' ');
    assert SpaceFree("-DignoreSnapshots=true") && SpaceFree("--projects");
  }

  lemma SeparatorFreeAppend(a: seq<string>, b: seq<string>)
    requires SeparatorFree(a, ' ') && SeparatorFree(b, ' ')
    ensures SeparatorFree(a + b, ' ')
  {
    assert forall i :: 0 <= i < |a + b| ==> (a + b)[i] == (if i < |a| then a[i] else b[i - |a|]);
  }

  /** The `--projects` value names every released module exactly once, with
      no stray comma, when module keys are non-empty and comma-free. */
  lemma ProjectListRoundTrip(releaseOrder: seq<Key>, rv: map<Key, string>)
    requires Enumerates(releaseOrder, rv.Keys) && |rv| > 0
    requires forall k :: k in rv ==> |k| > 0 && ',' !in k
    ensures Split(ProjectList(releaseOrder), ',') == releaseOrder
    ensures NoDups(Split(ProjectList(releaseOrder), ','))
    ensures forall k :: k in Split(ProjectList(releaseOrder), ',') <==> k in rv
  {
    EnumeratedKeys(releaseOrder, rv);
    var k :| k in rv;
    assert k in releaseOrder;
    assert NonEmptyParts(releaseOrder) && SeparatorFree(releaseOrder, ',');
    BuilderJoinRoundTrip(releaseOrder, ',');
  }
}
