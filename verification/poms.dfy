/** The Maven side of a minor release: module descriptors (POM models) read
    from the checkout, each module's de-duplicated dependency keys, and the
    reverse-dependency index built from them
    (`ReleaseBuildAction.parseMavenModel`, `prepareDependenciesMap` and the
    first loop of `doPerformMinorRelease`). */
module Poms {
  import opened Wrappers
  import opened Text

  /** A module key, `groupId:artifactId`. */
  type Key = string

  datatype Coord = Coord(groupId: string, artifactId: string)

  function KeyOf(c: Coord): Key {
    c.groupId + ":" + c.artifactId
  }

  /** The parts of a parsed `pom.xml` the release logic reads. */
  datatype Model = Model(
    coord: Coord,
    parent: Option<Coord>,
    dependencies: seq<Coord>,
    modules: seq<string>)

  type Models = map<Key, Model>

  /** Every model is stored under its own key. */
  predicate WellKeyed(models: Models) {
    forall k :: k in models ==> KeyOf(models[k].coord) == k
  }

  // ---------------------------------------------------------------------
  // parseMavenModel: merging the descriptor tree
  // ---------------------------------------------------------------------

  type Path = string

  /** What reading a `pom.xml` that exists gives: a model, or a parse error. */
  datatype PomFile = Parsed(model: Model) | Malformed

  /** The checkout: the descriptors that exist, and how a `<module>` entry of
      one descriptor names the descriptor of the child module. */
  datatype PomSource = PomSource(files: map<Path, PomFile>, childPom: (Path, string) -> Path)

  /** `MalformedPom`: the XML reader throws, aborting the whole parse.
      `NestingCycle`: a descriptor lists itself as a (transitive) child
      module; the recursive source never returns. */
  datatype ParseError = MalformedPom(path: Path) | NestingCycle(path: Path)

  /** Every stored model is the content of some descriptor of the checkout. */
  predicate FromSource(src: PomSource, models: Models) {
    forall k :: k in models ==> exists p :: p in src.files && src.files[p] == Parsed(models[k])
  }

  /** Parses the descriptor at `path` and, depth first, every declared child
      module whose descriptor exists; a child's entries overwrite earlier
      ones with the same key. `onStack` holds the descriptors whose parse is
      still in progress. */
  function ParseModels(src: PomSource, path: Path, onStack: set<Path>): (r: Result<Models, ParseError>)
    requires path in src.files
    ensures r.Success? ==> WellKeyed(r.value) && FromSource(src, r.value)
    ensures r.Success? ==> src.files[path].Parsed? && KeyOf(src.files[path].model.coord) in r.value
    ensures src.files[path] == Malformed && path !in onStack ==> r == Failure(MalformedPom(path))
    ensures path in onStack ==> r == Failure(NestingCycle(path))
    ensures r.Failure? && r.error.MalformedPom? ==>
      r.error.path in src.files && src.files[r.error.path] == Malformed
    decreases src.files.Keys - onStack, 0
  {
    if path in onStack then Failure(NestingCycle(path))
    else
      match src.files[path]
      case Malformed => Failure(MalformedPom(path))
      case Parsed(m) =>
        var own := map[KeyOf(m.coord) := m];
        assert FromSource(src, own) by {
          assert src.files[path] == Parsed(own[KeyOf(m.coord)]);
        }
        MergeChildren(src, path, m.modules, onStack + {path}, own)
  }

  /** The loop over the `<modules>` entries of the descriptor at `path`. */
  function MergeChildren(src: PomSource, path: Path, modulePaths: seq<string>, onStack: set<Path>, acc: Models)
    : (r: Result<Models, ParseError>)
    requires WellKeyed(acc) && FromSource(src, acc)
    ensures r.Success? ==> WellKeyed(r.value) && FromSource(src, r.value)
    ensures r.Success? ==> acc.Keys <= r.value.Keys
    ensures r.Failure? && r.error.MalformedPom? ==>
      r.error.path in src.files && src.files[r.error.path] == Malformed
    decreases src.files.Keys - onStack, 1, |modulePaths|
  {
    if |modulePaths| == 0 then Success(acc)
    else
      var child := src.childPom(path, modulePaths[0]);
      if child !in src.files then
        MergeChildren(src, path, modulePaths[1..], onStack, acc)
      else
        match ParseModels(src, child, onStack)
        case Failure(e) => Failure(e)
        case Success(sub) =>
          MergeFromSource(src, acc, sub);
          MergeChildren(src, path, modulePaths[1..], onStack, acc + sub)
  }

  /** `parseMavenModel(rootPom)`: the models of the root and of every module
      reachable through existing child descriptors. */
  function ParseProject(src: PomSource, rootPom: Path): (r: Result<Models, ParseError>)
    requires rootPom in src.files
    ensures r.Success? ==> WellKeyed(r.value) && FromSource(src, r.value)
    ensures r.Success? ==> src.files[rootPom].Parsed? && KeyOf(src.files[rootPom].model.coord) in r.value
    ensures src.files[rootPom] == Malformed ==> r == Failure(MalformedPom(rootPom))
  {
    ParseModels(src, rootPom, {})
  }

  /** `q` exists and is the descriptor of a `<module>` entry of the parsed
      descriptor `p`: the step the recursion takes. */
  predicate ChildStep(src: PomSource, p: Path, q: Path) {
    && p in src.files && src.files[p].Parsed? && q in src.files
    && exists i :: 0 <= i < |src.files[p].model.modules| && src.childPom(p, src.files[p].model.modules[i]) == q
  }

  /** Existing descriptors, each a declared child module of the one before. */
  predicate NestingChain(src: PomSource, chain: seq<Path>) {
    && |chain| > 0 && (forall i :: 0 <= i < |chain| ==> chain[i] in src.files)
    && forall i :: 0 <= i < |chain| - 1 ==> ChildStep(src, chain[i], chain[i + 1])
  }

  /** Reference: the descriptor `q` is reached from `root` through child
      modules whose descriptors exist. */
  ghost predicate Reachable(src: PomSource, root: Path, q: Path) {
    exists chain :: NestingChain(src, chain) && chain[0] == root && chain[|chain| - 1] == q
  }

  /** Reference: some descriptor reachable from `root` parses to `m`. */
  ghost predicate ReachableModel(src: PomSource, root: Path, m: Model) {
    exists chain :: NestingChain(src, chain) && chain[0] == root && src.files[chain[|chain| - 1]] == Parsed(m)
  }

  /** Every model of `models` is the content of a descriptor reachable
      from `root`. */
  ghost predicate AllReachable(src: PomSource, root: Path, models: Models) {
    forall k :: k in models ==> ReachableModel(src, root, models[k])
  }

  /** Merging two maps of well-keyed models from the checkout gives one. */
  lemma MergeFromSource(src: PomSource, acc: Models, sub: Models)
    requires WellKeyed(acc) && FromSource(src, acc) && WellKeyed(sub) && FromSource(src, sub)
    ensures WellKeyed(acc + sub) && FromSource(src, acc + sub)
  {
    forall k | k in acc + sub
      ensures KeyOf((acc + sub)[k].coord) == k
      ensures exists p :: p in src.files && src.files[p] == Parsed((acc + sub)[k])
    {
      if k in sub {
        assert (acc + sub)[k] == sub[k];
      } else {
        assert (acc + sub)[k] == acc[k];
      }
    }
  }

  /** The loop includes the models of every listed child whose descriptor
      exists, and succeeds only if each of them parses. */
  lemma {:induction false} MergeChildrenCovers(src: PomSource, path: Path, modulePaths: seq<string>,
                                              onStack: set<Path>, acc: Models, i: nat)
    requires WellKeyed(acc) && FromSource(src, acc)
    requires i < |modulePaths| && src.childPom(path, modulePaths[i]) in src.files
    requires MergeChildren(src, path, modulePaths, onStack, acc).Success?
    ensures ParseModels(src, src.childPom(path, modulePaths[i]), onStack).Success?
    ensures ParseModels(src, src.childPom(path, modulePaths[i]), onStack).value.Keys
         <= MergeChildren(src, path, modulePaths, onStack, acc).value.Keys
    decreases i
  {
    var r := MergeChildren(src, path, modulePaths, onStack, acc);
    var child := src.childPom(path, modulePaths[0]);
    if child in src.files {
      var sub := ParseModels(src, child, onStack);
      assert sub.Success?;
      var merged := acc + sub.value;
      MergeFromSource(src, acc, sub.value);
      assert r == MergeChildren(src, path, modulePaths[1..], onStack, merged);
      if i > 0 {
        assert modulePaths[1..][i - 1] == modulePaths[i];
        MergeChildrenCovers(src, path, modulePaths[1..], onStack, merged, i - 1);
      } else {
        assert sub.value.Keys <= merged.Keys <= r.value.Keys;
      }
    } else {
      assert r == MergeChildren(src, path, modulePaths[1..], onStack, acc);
      assert modulePaths[1..][i - 1] == modulePaths[i];
      MergeChildrenCovers(src, path, modulePaths[1..], onStack, acc, i - 1);
    }
  }

  /** A successful parse holds the key of every descriptor reachable from
      its start; so a reachable malformed descriptor fails the parse. */
  lemma {:induction false} ParseModelsComplete(src: PomSource, path: Path, onStack: set<Path>, chain: seq<Path>)
    requires NestingChain(src, chain) && chain[0] == path
    requires ParseModels(src, path, onStack).Success?
    ensures var q := chain[|chain| - 1];
      src.files[q].Parsed? && KeyOf(src.files[q].model.coord) in ParseModels(src, path, onStack).value
    ensures var q := chain[|chain| - 1];
      q !in onStack && q !in chain[..|chain| - 1]
    decreases |chain|
  {
    if |chain| > 1 {
      var m := src.files[path].model;
      var own := map[KeyOf(m.coord) := m];
      assert FromSource(src, own) by {
        assert src.files[path] == Parsed(own[KeyOf(m.coord)]);
      }
      assert path !in onStack;
      assert ParseModels(src, path, onStack) == MergeChildren(src, path, m.modules, onStack + {path}, own);
      assert ChildStep(src, chain[0], chain[1]);
      var i :| 0 <= i < |m.modules| && src.childPom(path, m.modules[i]) == chain[1];
      MergeChildrenCovers(src, path, m.modules, onStack + {path}, own, i);
      ParseModelsComplete(src, chain[1], onStack + {path}, chain[1..]);
      NotInPrefix(chain, chain[|chain| - 1]);
    }
  }

  /** A key that is neither the head nor before the end of the tail is not
      before the end of the whole chain. */
  lemma NotInPrefix(chain: seq<Path>, q: Path)
    requires |chain| > 1 && q != chain[0] && q !in chain[1..][..|chain| - 2]
    ensures q !in chain[..|chain| - 1]
  {
    forall j | 0 < j < |chain| - 1 ensures chain[j] != q {
      assert chain[1..][..|chain| - 2][j - 1] == chain[j];
    }
  }

  lemma ReachableExtend(src: PomSource, p: Path, q: Path, m: Model)
    requires ChildStep(src, p, q) && ReachableModel(src, q, m)
    ensures ReachableModel(src, p, m)
  {
    var chain :| NestingChain(src, chain) && chain[0] == q && src.files[chain[|chain| - 1]] == Parsed(m);
    var longer := [p] + chain;
    assert forall i :: 1 <= i < |longer| ==> longer[i] == chain[i - 1];
    assert NestingChain(src, longer);
  }

  /** Models reachable from a child are reachable from its parent, so the
      merged map stays reachable from the parent. */
  lemma MergeReachable(src: PomSource, path: Path, child: Path, acc: Models, sub: Models)
    requires ChildStep(src, path, child)
    requires WellKeyed(acc) && FromSource(src, acc) && WellKeyed(sub) && FromSource(src, sub)
    requires AllReachable(src, path, acc) && AllReachable(src, child, sub)
    ensures WellKeyed(acc + sub) && FromSource(src, acc + sub)
    ensures AllReachable(src, path, acc + sub)
  {
    MergeFromSource(src, acc, sub);
    forall k | k in acc + sub ensures ReachableModel(src, path, (acc + sub)[k]) {
      if k in sub {
        ReachableExtend(src, path, child, sub[k]);
      }
    }
  }

  /** Every model of a successful parse is the content of a descriptor
      reachable from its start. */
  lemma {:induction false} ParseModelsSound(src: PomSource, path: Path, onStack: set<Path>)
    requires path in src.files
    requires ParseModels(src, path, onStack).Success?
    ensures AllReachable(src, path, ParseModels(src, path, onStack).value)
    decreases src.files.Keys - onStack, 0
  {
    var m := src.files[path].model;
    var own := map[KeyOf(m.coord) := m];
    assert FromSource(src, own) by {
      assert src.files[path] == Parsed(own[KeyOf(m.coord)]);
    }
    assert NestingChain(src, [path]);
    assert ReachableModel(src, path, m);
    MergeChildrenSound(src, path, m.modules, onStack + {path}, own);
  }

  lemma {:induction false} MergeChildrenSound(src: PomSource, path: Path, modulePaths: seq<string>,
                                             onStack: set<Path>, acc: Models)
    requires WellKeyed(acc) && FromSource(src, acc)
    requires path in src.files && src.files[path].Parsed?
    requires forall j :: 0 <= j < |modulePaths| ==> modulePaths[j] in src.files[path].model.modules
    requires AllReachable(src, path, acc)
    requires MergeChildren(src, path, modulePaths, onStack, acc).Success?
    ensures AllReachable(src, path, MergeChildren(src, path, modulePaths, onStack, acc).value)
    decreases src.files.Keys - onStack, 1, |modulePaths|
  {
    if |modulePaths| > 0 {
      var child := src.childPom(path, modulePaths[0]);
      if child !in src.files {
        assert MergeChildren(src, path, modulePaths, onStack, acc)
            == MergeChildren(src, path, modulePaths[1..], onStack, acc);
        MergeChildrenSound(src, path, modulePaths[1..], onStack, acc);
      } else {
        var sub := ParseModels(src, child, onStack).value;
        ParseModelsSound(src, child, onStack);
        assert ChildStep(src, path, child) by {
          assert modulePaths[0] in src.files[path].model.modules;
        }
        var merged := acc + sub;
        MergeReachable(src, path, child, acc, sub);
        assert MergeChildren(src, path, modulePaths, onStack, acc)
            == MergeChildren(src, path, modulePaths[1..], onStack, merged);
        MergeChildrenSound(src, path, modulePaths[1..], onStack, merged);
      }
    }
  }

  /** The descriptor at the end of `chain` is where a parse fails with
      `e`: it is malformed, or its parse is already in progress, in `stack`
      or earlier on the chain. */
  predicate FailsAt(src: PomSource, chain: seq<Path>, stack: set<Path>, e: ParseError)
    requires NestingChain(src, chain)
  {
    var q := chain[|chain| - 1];
    || (e == MalformedPom(q) && src.files[q] == Malformed)
    || (e == NestingCycle(q) && (q in stack || q in chain[..|chain| - 1]))
  }

  /** Reference: some descriptor reachable from `root` lists itself as a
      (transitive) child module. */
  ghost predicate NestingCycleReachable(src: PomSource, root: Path) {
    exists chain :: NestingChain(src, chain) && chain[0] == root && chain[|chain| - 1] in chain[..|chain| - 1]
  }

  /** A failed parse names a descriptor reached from its start, and the
      reason is true of it. */
  lemma {:induction false} ParseModelsFailure(src: PomSource, path: Path, onStack: set<Path>)
    requires path in src.files
    requires ParseModels(src, path, onStack).Failure?
    ensures exists chain ::
      && NestingChain(src, chain) && chain[0] == path
      && FailsAt(src, chain, onStack, ParseModels(src, path, onStack).error)
    decreases src.files.Keys - onStack, 0
  {
    var e := ParseModels(src, path, onStack).error;
    assert NestingChain(src, [path]);
    if path in onStack || src.files[path] == Malformed {
      assert FailsAt(src, [path], onStack, e);
    } else {
      var m := src.files[path].model;
      var own := map[KeyOf(m.coord) := m];
      assert FromSource(src, own) by {
        assert src.files[path] == Parsed(own[KeyOf(m.coord)]);
      }
      MergeChildrenFailure(src, path, m.modules, onStack + {path}, own);
      var c :| NestingChain(src, c) && ChildStep(src, path, c[0]) && FailsAt(src, c, onStack + {path}, e);
      var chain := [path] + c;
      assert forall i :: 1 <= i < |chain| ==> chain[i] == c[i - 1];
      assert NestingChain(src, chain);
      assert chain[..|chain| - 1] == [path] + c[..|c| - 1];
      assert FailsAt(src, chain, onStack, e);
    }
  }

  lemma {:induction false} MergeChildrenFailure(src: PomSource, path: Path, modulePaths: seq<string>,
                                               onStack: set<Path>, acc: Models)
    requires WellKeyed(acc) && FromSource(src, acc)
    requires path in src.files && src.files[path].Parsed?
    requires forall j :: 0 <= j < |modulePaths| ==> modulePaths[j] in src.files[path].model.modules
    requires MergeChildren(src, path, modulePaths, onStack, acc).Failure?
    ensures exists c ::
      && NestingChain(src, c) && ChildStep(src, path, c[0])
      && FailsAt(src, c, onStack, MergeChildren(src, path, modulePaths, onStack, acc).error)
    decreases src.files.Keys - onStack, 1, |modulePaths|
  {
    var r := MergeChildren(src, path, modulePaths, onStack, acc);
    var child := src.childPom(path, modulePaths[0]);
    if child !in src.files {
      assert r == MergeChildren(src, path, modulePaths[1..], onStack, acc);
      MergeChildrenFailure(src, path, modulePaths[1..], onStack, acc);
    } else {
      assert ChildStep(src, path, child) by {
        assert modulePaths[0] in src.files[path].model.modules;
      }
      match ParseModels(src, child, onStack)
      case Failure(e) =>
        ParseModelsFailure(src, child, onStack);
      case Success(sub) =>
        MergeFromSource(src, acc, sub);
        assert r == MergeChildren(src, path, modulePaths[1..], onStack, acc + sub);
        MergeChildrenFailure(src, path, modulePaths[1..], onStack, acc + sub);
    }
  }

  /** `parseMavenModel(rootPom)` returns exactly when every descriptor
      reachable from the root is well formed and none of them lists itself
      as a (transitive) child module; a failure names a reachable
      descriptor that is malformed or nests back onto itself. */
  lemma ParseProjectSucceeds(src: PomSource, rootPom: Path)
    requires rootPom in src.files
    ensures ParseProject(src, rootPom).Success? <==>
      && (forall q :: q in src.files && Reachable(src, rootPom, q) ==> src.files[q].Parsed?)
      && !NestingCycleReachable(src, rootPom)
    ensures ParseProject(src, rootPom).Failure? ==>
      exists chain ::
        && NestingChain(src, chain) && chain[0] == rootPom
        && FailsAt(src, chain, {}, ParseProject(src, rootPom).error)
  {
    if ParseProject(src, rootPom).Success? {
      forall q | q in src.files && Reachable(src, rootPom, q) ensures src.files[q].Parsed? {
        var chain :| NestingChain(src, chain) && chain[0] == rootPom && chain[|chain| - 1] == q;
        ParseModelsComplete(src, rootPom, {}, chain);
      }
      forall chain | NestingChain(src, chain) && chain[0] == rootPom
        ensures chain[|chain| - 1] !in chain[..|chain| - 1]
      {
        ParseModelsComplete(src, rootPom, {}, chain);
      }
    } else {
      ParseModelsFailure(src, rootPom, {});
      var chain :| NestingChain(src, chain) && chain[0] == rootPom
        && FailsAt(src, chain, {}, ParseProject(src, rootPom).error);
      var q := chain[|chain| - 1];
      assert Reachable(src, rootPom, q);
    }
  }

  /** `parseMavenModel(rootPom)` against the reference: a successful result
      holds exactly the keys of the descriptors reachable from the root,
      each with the content of one of them, and a reachable malformed
      descriptor makes the parse fail. */
  lemma ParseProjectReachable(src: PomSource, rootPom: Path)
    requires rootPom in src.files
    ensures ParseProject(src, rootPom).Success? ==>
      forall q :: q in src.files && Reachable(src, rootPom, q) ==>
        src.files[q].Parsed? && KeyOf(src.files[q].model.coord) in ParseProject(src, rootPom).value
    ensures ParseProject(src, rootPom).Success? ==>
      forall k :: k in ParseProject(src, rootPom).value ==>
        ReachableModel(src, rootPom, ParseProject(src, rootPom).value[k])
    ensures (exists q :: q in src.files && Reachable(src, rootPom, q) && src.files[q] == Malformed) ==>
      ParseProject(src, rootPom).Failure?
  {
    if ParseProject(src, rootPom).Success? {
      forall q | q in src.files && Reachable(src, rootPom, q)
        ensures src.files[q].Parsed? && KeyOf(src.files[q].model.coord) in ParseProject(src, rootPom).value
      {
        var chain :| NestingChain(src, chain) && chain[0] == rootPom && chain[|chain| - 1] == q;
        ParseModelsComplete(src, rootPom, {}, chain);
      }
      ParseModelsSound(src, rootPom, {});
    }
  }

  // ---------------------------------------------------------------------
  // prepareDependenciesMap
  // ---------------------------------------------------------------------

  /** The dependency keys of a model, in declaration order, repeats included. */
  function DependencyKeyList(m: Model): seq<Key> {
    seq(|m.dependencies|, i requires 0 <= i < |m.dependencies| => KeyOf(m.dependencies[i]))
  }

  /** Reference definition: the elements of `s` that do not occur earlier in
      `s`, in their order in `s`. */
  function FirstOccurrences(s: seq<Key>): (r: seq<Key>)
    ensures NoDups(r)
    ensures forall x :: x in r <==> x in s
  {
    if |s| == 0 then []
    else
      var init := s[..|s| - 1];
      var last := s[|s| - 1];
      assert s == init + [last];
      if last in init then FirstOccurrences(init) else FirstOccurrences(init) + [last]
  }

  /** The dependency keys of the module `key`, each once, in order of first
      declaration; no keys for a module the map does not hold. */
  function DependencyKeys(models: Models, key: Key): seq<Key> {
    if key in models then FirstOccurrences(DependencyKeyList(models[key])) else []
  }

  /** `prepareDependenciesMap`: the list is grown by appending each
      dependency key the list does not contain yet. */
  method PrepareDependencies(key: Key, models: Models) returns (r: seq<Key>)
    ensures r == DependencyKeys(models, key)
    ensures NoDups(r)
    ensures key !in models ==> r == []
    ensures key in models ==> forall d :: d in r <==> d in DependencyKeyList(models[key])
  {
    r := [];
    if key in models {
      var deps := models[key].dependencies;
      var keys := DependencyKeyList(models[key]);
      var i := 0;
      while i < |deps|
        invariant 0 <= i <= |deps|
        invariant r == FirstOccurrences(keys[..i])
        invariant forall x :: x in r <==> x in keys[..i]
      {
        var dependencyId := KeyOf(deps[i]);
        assert keys[..i + 1] == keys[..i] + [dependencyId];
        if dependencyId !in r {
          r := r + [dependencyId];
        }
        i := i + 1;
      }
      assert keys[..i] == keys;
    }
  }

  // ---------------------------------------------------------------------
  // The reverse-dependency index
  // ---------------------------------------------------------------------

  /** Dependency key -> the modules of the project that depend on it. */
  type Index = map<Key, seq<Key>>

  /** `references.get(d)`, with an absent entry read as no referrers. */
  function Referrers(idx: Index, d: Key): seq<Key> {
    if d in idx then idx[d] else []
  }

  /** The index lists are duplicate-free and never empty. */
  predicate IndexShape(idx: Index) {
    forall d :: d in idx ==> |idx[d]| > 0 && NoDups(idx[d])
  }

  /** The inner loop: record module `m` as a referrer of each of its
      dependency keys that is a key of the project. */
  function AddReferences(idx: Index, m: Key, deps: seq<Key>, models: Models): (r: Index)
    requires IndexShape(idx) && NoDups(deps)
    requires forall d :: d in deps ==> m !in Referrers(idx, d)
    ensures IndexShape(r)
    ensures forall d :: d in r ==> d in idx || d in models
    ensures forall d, x :: x in Referrers(r, d) <==> x in Referrers(idx, d) || (x == m && d in deps && d in models)
  {
    if |deps| == 0 then idx
    else
      var init := deps[..|deps| - 1];
      var d := deps[|deps| - 1];
      assert deps == init + [d];
      assert NoDups(init) by {
        forall i, j | 0 <= i < j < |init| ensures init[i] != init[j] {
          assert init[i] == deps[i] && init[j] == deps[j];
        }
      }
      var prev := AddReferences(idx, m, init, models);
      if d in models then
        assert m !in Referrers(prev, d) by {
          assert d !in init;
        }
        prev[d := Referrers(prev, d) + [m]]
      else prev
  }

  /** The map `references` of `doPerformMinorRelease`, built by visiting the
      module keys in the map's iteration order `order`. */
  function ReverseIndex(models: Models, order: seq<Key>): (r: Index)
    requires NoDups(order)
    ensures IndexShape(r)
    ensures forall d :: d in r ==> d in models
    ensures forall d, x :: x in Referrers(r, d) <==> x in order && d in models && d in DependencyKeys(models, x)
  {
    if |order| == 0 then map[]
    else
      var init := order[..|order| - 1];
      var m := order[|order| - 1];
      assert order == init + [m];
      assert NoDups(init) by {
        forall i, j | 0 <= i < j < |init| ensures init[i] != init[j] {
          assert init[i] == order[i] && init[j] == order[j];
        }
      }
      var prev := ReverseIndex(models, init);
      assert m !in init;
      AddReferences(prev, m, DependencyKeys(models, m), models)
  }

  /** Module `y` of the project declares module `x` of the project as a
      dependency. */
  predicate DependsOn(models: Models, y: Key, x: Key) {
    y in models && x in models && x in DependencyKeyList(models[y])
  }

  /** Built over an enumeration of the project's keys, the index holds
      exactly the project-internal "depends on" edges, reversed. */
  lemma ReverseIndexIsDependsOn(models: Models, order: seq<Key>, x: Key, y: Key)
    requires Enumerates(order, models.Keys)
    ensures y in Referrers(ReverseIndex(models, order), x) <==> DependsOn(models, y, x)
  {
    var idx := ReverseIndex(models, order);
    assert y in Referrers(idx, x) <==> y in order && x in models && x in DependencyKeys(models, y);
    assert y in order <==> y in models;
    if y in models {
      assert x in DependencyKeys(models, y) <==> x in DependencyKeyList(models[y]);
    }
  }
}
