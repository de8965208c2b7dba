/** Resolution of a minor release in `ReleaseBuildAction.doPerformMinorRelease`:
    the modules a selection is missing (dependents and in-project parents),
    the auto-select-or-refuse decision, and the split of every module into
    released and not released versions. The selected keys, the auto-select
    flag and the requested release versions are plain inputs. */
module Resolver {
  import opened Wrappers
  import opened Text
  import opened Poms
  import opened Closure
  import opened Versions

  /** `UnknownSelection`: a selected key has no model (the source fails with
      a `NullPointerException`). `ParentCycle`: the parent chain of a
      selected module returns to a module already visited (the source's
      parent loop never ends). */
  datatype ResolveError = UnknownSelection(key: Key) | ParentCycle(key: Key)

  /** Appends each candidate that is neither selected nor already listed. */
  function AddMissing(missing: seq<Key>, selected: seq<Key>, candidates: seq<Key>): (r: seq<Key>)
    ensures missing <= r
    ensures Members(r) == Members(missing) + (Members(candidates) - Members(selected))
    ensures NoDups(missing) ==> NoDups(r)
    ensures Members(missing) !! Members(selected) ==> Members(r) !! Members(selected)
  {
    if |candidates| == 0 then missing
    else
      var init := candidates[..|candidates| - 1];
      var c := candidates[|candidates| - 1];
      assert candidates == init + [c];
      assert Members(candidates) == Members(init) + {c};
      var prev := AddMissing(missing, selected, init);
      assert Members(prev + [c]) == Members(prev) + {c};
      if c in selected || c in prev then prev else prev + [c]
  }

  // ---------------------------------------------------------------------
  // The parent walk
  // ---------------------------------------------------------------------

  /** `chain` is the walk up from `parent`: each entry is a module of the
      project and the parent of the one before, and the walk stops at the
      first parent that is absent or outside the project. */
  predicate ParentChain(models: Models, parent: Option<Coord>, chain: seq<Key>) {
    && (forall i :: 0 <= i < |chain| ==> chain[i] in models)
    && (|chain| == 0 ==> parent.None? || KeyOf(parent.value) !in models)
    && (|chain| > 0 ==> parent.Some? && KeyOf(parent.value) == chain[0])
    && (forall i :: 0 <= i < |chain| - 1 ==>
          models[chain[i]].parent.Some? && KeyOf(models[chain[i]].parent.value) == chain[i + 1])
    && (|chain| > 0 ==>
          var top := models[chain[|chain| - 1]];
          top.parent.None? || KeyOf(top.parent.value) !in models)
  }

  /** The loop at the end of the resolution, with the keys it has seen; a
      key seen twice means the source loops forever (`None`). */
  function AncestorWalk(models: Models, parent: Option<Coord>, seen: set<Key>): (r: Option<seq<Key>>)
    requires seen <= models.Keys
    ensures r.Some? ==> ParentChain(models, parent, r.value)
    ensures r.Some? ==> NoDups(r.value) && Members(r.value) !! seen
    decreases models.Keys - seen
  {
    match parent
    case None => Some([])
    case Some(c) =>
      var pk := KeyOf(c);
      if pk !in models then Some([])
      else if pk in seen then None
      else
        match AncestorWalk(models, models[pk].parent, seen + {pk})
        case None => None
        case Some(rest) =>
          var chain := [pk] + rest;
          assert forall i :: 1 <= i < |chain| ==> chain[i] == rest[i - 1];
          Some(chain)
  }

  /** The in-project ancestors of `s`, nearest first. */
  function Ancestors(models: Models, s: Key): (r: Option<seq<Key>>)
    requires s in models
    ensures r.Some? ==> ParentChain(models, models[s].parent, r.value)
    ensures r.Some? ==> NoDups(r.value) && s !in r.value
  {
    AncestorWalk(models, models[s].parent, {s})
  }

  /** Reference: `s` is a module of the project whose in-project parent
      chain ends without repeating a module and without returning to `s`. */
  ghost predicate FiniteParentChain(models: Models, s: Key) {
    s in models &&
    exists chain :: ParentChain(models, models[s].parent, chain) && NoDups(chain) && s !in chain
  }

  /** The walk answers every acyclic chain that avoids `seen`, and the
      answer is that chain. */
  lemma {:induction false} AncestorWalkComplete(models: Models, parent: Option<Coord>, seen: set<Key>, chain: seq<Key>)
    requires seen <= models.Keys
    requires ParentChain(models, parent, chain) && NoDups(chain) && Members(chain) !! seen
    ensures AncestorWalk(models, parent, seen) == Some(chain)
    decreases models.Keys - seen
  {
    if |chain| > 0 {
      var pk := chain[0];
      var rest := chain[1..];
      assert pk in models && pk !in seen;
      assert ParentChain(models, models[pk].parent, rest);
      assert NoDups(rest);
      assert Members(rest) !! seen + {pk} by {
        forall x | x in rest ensures x !in seen && x != pk {
          var j :| 0 <= j < |rest| && rest[j] == x;
          assert chain[j + 1] == x;
        }
      }
      AncestorWalkComplete(models, models[pk].parent, seen + {pk}, rest);
      assert chain == [pk] + rest;
    }
  }

  /** `Ancestors` answers exactly when the parent chain of `s` is finite, and
      then with that chain. */
  lemma AncestorsComplete(models: Models, s: Key)
    requires s in models
    ensures Ancestors(models, s).Some? <==> FiniteParentChain(models, s)
    ensures forall chain :: ParentChain(models, models[s].parent, chain) && NoDups(chain) && s !in chain ==>
      Ancestors(models, s) == Some(chain)
  {
    forall chain | ParentChain(models, models[s].parent, chain) && NoDups(chain) && s !in chain
      ensures Ancestors(models, s) == Some(chain)
    {
      AncestorWalkComplete(models, models[s].parent, {s}, chain);
    }
    if Ancestors(models, s).Some? {
      var chain := Ancestors(models, s).value;
      assert ParentChain(models, models[s].parent, chain) && NoDups(chain) && s !in chain;
    }
  }

  // ---------------------------------------------------------------------
  // The missing modules
  // ---------------------------------------------------------------------

  /** Reference: the dependents of every selected module of the project. */
  function DependentsOf(models: Models, idx: Index, ss: seq<Key>): set<Key> {
    set s, x | s in ss && s in models && x in DependentsClosure(idx, s) :: x
  }

  /** Reference: the in-project ancestors of every selected module. */
  function AncestorsOf(models: Models, ss: seq<Key>): set<Key> {
    set s, a | s in ss && s in models && Ancestors(models, s).Some? && a in Ancestors(models, s).value :: a
  }

  /** What a selection must release besides itself. */
  function Required(models: Models, idx: Index, selected: seq<Key>): set<Key> {
    DependentsOf(models, idx, selected) + AncestorsOf(models, selected)
  }

  /** The first loop: the dependents of the first `n` selected modules. */
  function DependentsMissing(models: Models, idx: Index, selected: seq<Key>, n: nat): (r: seq<Key>)
    requires n <= |selected|
    ensures NoDups(r) && Members(r) !! Members(selected)
    ensures Members(r) == DependentsOf(models, idx, selected[..n]) - Members(selected)
  {
    if n == 0 then []
    else
      var prev := DependentsMissing(models, idx, selected, n - 1);
      var s := selected[n - 1];
      assert selected[..n] == selected[..n - 1] + [s];
      if s in models then
        assert DependentsOf(models, idx, selected[..n])
            == DependentsOf(models, idx, selected[..n - 1]) + Members(DependentsClosure(idx, s));
        AddMissing(prev, selected, DependentsClosure(idx, s))
      else
        assert DependentsOf(models, idx, selected[..n]) == DependentsOf(models, idx, selected[..n - 1]);
        prev
  }

  /** Every key is a module of the project for which `Ancestors` answers
      (by `WalkableIff`, one whose parent chain is finite). */
  predicate Walkable(models: Models, ss: seq<Key>) {
    forall s :: s in ss ==> s in models && Ancestors(models, s).Some?
  }

  /** `Walkable` is the reference condition: every key names a module whose
      parent chain is finite. */
  lemma WalkableIff(models: Models, ss: seq<Key>)
    ensures Walkable(models, ss) <==> forall s :: s in ss ==> FiniteParentChain(models, s)
  {
    forall s | s in ss && s in models
      ensures Ancestors(models, s).Some? <==> FiniteParentChain(models, s)
    {
      AncestorsComplete(models, s);
    }
  }

  /** The second loop: the in-project ancestors of the first `n` selected
      modules, appended to `base`. */
  function AncestryMissing(models: Models, selected: seq<Key>, n: nat, base: seq<Key>)
    : (r: Result<seq<Key>, ResolveError>)
    requires n <= |selected|
    requires NoDups(base) && Members(base) !! Members(selected)
    ensures r.Success? <==> Walkable(models, selected[..n])
    ensures r.Success? ==> NoDups(r.value) && Members(r.value) !! Members(selected)
    ensures r.Success? ==>
      Members(r.value) == Members(base) + (AncestorsOf(models, selected[..n]) - Members(selected))
    ensures r.Failure? ==> r.error.key in selected
    ensures r.Failure? && r.error.UnknownSelection? ==> r.error.key !in models
    ensures r.Failure? && r.error.ParentCycle? ==>
      r.error.key in models && Ancestors(models, r.error.key).None?
  {
    if n == 0 then Success(base)
    else
      var s := selected[n - 1];
      assert selected[..n] == selected[..n - 1] + [s];
      match AncestryMissing(models, selected, n - 1, base)
      case Failure(e) => Failure(e)
      case Success(prev) =>
        if s !in models then Failure(UnknownSelection(s))
        else
          match Ancestors(models, s)
          case None => Failure(ParentCycle(s))
          case Some(chain) =>
            assert AncestorsOf(models, selected[..n])
                == AncestorsOf(models, selected[..n - 1]) + Members(chain);
            Success(AddMissing(prev, selected, chain))
  }

  /** The missing list: dependents of the selection first, then ancestors,
      each key once, none of them selected. */
  function ComputeMissing(models: Models, idx: Index, selected: seq<Key>): (r: Result<seq<Key>, ResolveError>)
    ensures r.Success? <==> Walkable(models, selected)
    ensures r.Success? ==> NoDups(r.value) && Members(r.value) !! Members(selected)
    ensures r.Success? ==> Members(r.value) == Required(models, idx, selected) - Members(selected)
    ensures r.Failure? ==> r.error.key in selected
  {
    var dependents := DependentsMissing(models, idx, selected, |selected|);
    assert selected[..|selected|] == selected;
    AncestryMissing(models, selected, |selected|, dependents)
  }

  // ---------------------------------------------------------------------
  // Auto-select or refuse
  // ---------------------------------------------------------------------

  /** `Release`: go on with this selection. `MissingModules`: redirect to
      the failure page with this comma-joined list. */
  datatype Decision = Release(finalSelection: seq<Key>) | MissingModules(moduleList: string)

  function Decide(selected: seq<Key>, missing: seq<Key>, autoSelect: bool): (d: Decision)
    ensures |missing| == 0 ==> d == Release(selected)
    ensures |missing| > 0 && autoSelect ==> d == Release(selected + missing)
    ensures |missing| > 0 && !autoSelect ==> d.MissingModules?
    ensures d.MissingModules? && NonEmptyParts(missing) && SeparatorFree(missing, ',') ==>
      Split(d.moduleList, ',') == missing
  {
    if |missing| == 0 then Release(selected)
    else if autoSelect then Release(selected + missing)
    else
      assert NonEmptyParts(missing) && SeparatorFree(missing, ',') ==>
        Split(BuilderJoin(missing, ','), ',') == missing by {
        if NonEmptyParts(missing) && SeparatorFree(missing, ',') {
          BuilderJoinRoundTrip(missing, ',');
        }
      }
      MissingModules(BuilderJoin(missing, ','))
  }

  // ---------------------------------------------------------------------
  // Released and not released versions
  // ---------------------------------------------------------------------

  datatype VersionMaps = VersionMaps(releaseVersions: map<Key, string>, latestVersions: map<Key, string>)

  /** The keys the last loop cannot handle: a model without a Jenkins
      module, or a selected module without a requested version. */
  function Unassignable(models: Models, final: seq<Key>, requested: map<Key, string>, jobModules: set<Key>)
    : set<Key>
  {
    set k | k in models && (k !in jobModules || (k in final && k !in requested))
  }

  /** The last loop: every module of the project goes to exactly one of the
      two maps, by membership in the final selection; released modules get
      their requested version, the others their current release version. */
  function SplitVersions(models: Models, final: seq<Key>, requested: map<Key, string>, jobModules: set<Key>,
                         h: VersionHandler)
    : (r: Result<VersionMaps, set<Key>>)
    ensures r.Success? <==> forall k :: k in models ==> k in jobModules && (k in final ==> k in requested)
    ensures r.Failure? ==> r.error != {} && r.error <= models.Keys
    ensures r.Success? ==> r.value.releaseVersions.Keys !! r.value.latestVersions.Keys
    ensures r.Success? ==> r.value.releaseVersions.Keys + r.value.latestVersions.Keys == models.Keys
    ensures r.Success? ==> forall k :: k in r.value.releaseVersions <==> k in models && k in final
    ensures r.Success? ==> forall k :: k in r.value.releaseVersions ==> r.value.releaseVersions[k] == requested[k]
    ensures r.Success? ==> forall k :: k in r.value.latestVersions ==>
      r.value.latestVersions[k] == CurrentReleaseVersion(h, k)
  {
    var bad := Unassignable(models, final, requested, jobModules);
    if bad != {} then
      var k :| k in bad;
      assert !(k in jobModules && (k in final ==> k in requested));
      Failure(bad)
    else
      assert forall k :: k in models ==> k in jobModules && (k in final ==> k in requested) by {
        forall k | k in models ensures k in jobModules && (k in final ==> k in requested) {
          assert k !in bad;
        }
      }
      Success(VersionMaps(
        map k | k in models && k in final :: requested[k],
        map k | k in models && k !in final :: CurrentReleaseVersion(h, k)))
  }

  // ---------------------------------------------------------------------
  // The whole request
  // ---------------------------------------------------------------------

  /** What the request ends in: a scheduled release with its version maps,
      a refusal listing the missing modules, or no result at all (an
      exception the source only logs, or a parent loop that never ends). */
  datatype MinorOutcome =
    | Scheduled(versions: VersionMaps)
    | Refused(moduleList: string)
    | Aborted(cause: AbortCause)

  datatype AbortCause = Unresolvable(error: ResolveError) | Unassigned(keys: set<Key>)

  /** The request once the reverse index `idx` is built. */
  function Resolve(models: Models, idx: Index, selected: seq<Key>, autoSelect: bool,
                   requested: map<Key, string>, jobModules: set<Key>, h: VersionHandler)
    : (o: MinorOutcome)
    ensures o.Refused? ==> !autoSelect
    ensures o.Scheduled? ==> forall s :: s in selected ==> s in o.versions.releaseVersions
  {
    match ComputeMissing(models, idx, selected)
    case Failure(e) => Aborted(Unresolvable(e))
    case Success(missing) =>
      match Decide(selected, missing, autoSelect)
      case MissingModules(list) => Refused(list)
      case Release(final) =>
        match SplitVersions(models, final, requested, jobModules, h)
        case Failure(keys) => Aborted(Unassigned(keys))
        case Success(maps) => Scheduled(maps)
  }

  /** `doPerformMinorRelease` from the parsed models on: `order` is the
      iteration order of the model map, `selected` the ticked modules. */
  function MinorRelease(models: Models, order: seq<Key>, selected: seq<Key>, autoSelect: bool,
                        requested: map<Key, string>, jobModules: set<Key>, h: VersionHandler)
    : (o: MinorOutcome)
    requires Enumerates(order, models.Keys)
    ensures o.Refused? ==> !autoSelect
    ensures o.Scheduled? ==> forall s :: s in selected ==> s in o.versions.releaseVersions
  {
    Resolve(models, ReverseIndex(models, order), selected, autoSelect, requested, jobModules, h)
  }

  // ---------------------------------------------------------------------
  // Properties of the whole request
  // ---------------------------------------------------------------------

  /** Every referrer the index lists is a module of the project. */
  ghost predicate IndexWithin(idx: Index, models: Models) {
    forall d, x :: x in Referrers(idx, d) ==> x in models
  }

  lemma ReverseIndexWithin(models: Models, order: seq<Key>)
    requires Enumerates(order, models.Keys)
    ensures IndexWithin(ReverseIndex(models, order), models)
  {
    var idx := ReverseIndex(models, order);
    forall d, x | x in Referrers(idx, d) ensures x in models {
      ReverseIndexIsDependsOn(models, order, d, x);
    }
  }

  /** Dependents and ancestors of a selection are modules of the project. */
  lemma RequiredInProject(models: Models, idx: Index, selected: seq<Key>)
    requires IndexWithin(idx, models)
    ensures Required(models, idx, selected) <= models.Keys
  {
    assert Closed(idx, models.Keys);
    forall s | s in selected && s in models
      ensures Members(DependentsClosure(idx, s)) <= models.Keys
    {
      ClosureIsLeast(idx, s, models.Keys);
    }
  }

  /** The modules a selection would release: itself, then whatever it
      requires. */
  function Wanted(models: Models, idx: Index, selected: seq<Key>): set<Key> {
    Members(selected) + Required(models, idx, selected)
  }

  /** Every module has a Jenkins module and every wanted module a requested
      version. */
  predicate Assignable(models: Models, wanted: set<Key>, requested: map<Key, string>, jobModules: set<Key>) {
    forall k :: k in models ==> k in jobModules && (k in wanted ==> k in requested)
  }

  /** The request is refused exactly when auto-select is off, the selection
      resolves, and it leaves out a dependent or ancestor. */
  lemma ResolveRefuses(models: Models, idx: Index, selected: seq<Key>, autoSelect: bool,
                       requested: map<Key, string>, jobModules: set<Key>, h: VersionHandler)
    ensures Resolve(models, idx, selected, autoSelect, requested, jobModules, h).Refused?
        <==> Walkable(models, selected) && !autoSelect && !(Required(models, idx, selected) <= Members(selected))
  {
    var cm := ComputeMissing(models, idx, selected);
    if cm.Failure? {
      ResolveFails(models, idx, selected, autoSelect, requested, jobModules, h);
    } else {
      NothingMissing(cm.value, Required(models, idx, selected), Members(selected));
      if |cm.value| == 0 || autoSelect {
        ResolveGoesOn(models, idx, selected, autoSelect, requested, jobModules, h);
      } else {
        ResolveStops(models, idx, selected, autoSelect, requested, jobModules, h);
      }
    }
  }

  lemma ResolveFails(models: Models, idx: Index, selected: seq<Key>, autoSelect: bool,
                     requested: map<Key, string>, jobModules: set<Key>, h: VersionHandler)
    requires ComputeMissing(models, idx, selected).Failure?
    ensures Resolve(models, idx, selected, autoSelect, requested, jobModules, h)
         == Aborted(Unresolvable(ComputeMissing(models, idx, selected).error))
  {
  }

  /** A missing list with exactly the required keys outside the selection
      is empty exactly when the selection holds them all. */
  lemma NothingMissing(missing: seq<Key>, required: set<Key>, selection: set<Key>)
    requires Members(missing) == required - selection
    ensures |missing| == 0 <==> required <= selection
  {
    MembersEmpty(missing);
    if required <= selection {
      assert required - selection == {};
    } else {
      var x :| x in required && x !in selection;
      assert x in Members(missing);
    }
  }

  lemma ResolveStops(models: Models, idx: Index, selected: seq<Key>, autoSelect: bool,
                     requested: map<Key, string>, jobModules: set<Key>, h: VersionHandler)
    requires ComputeMissing(models, idx, selected).Success?
    requires |ComputeMissing(models, idx, selected).value| > 0 && !autoSelect
    ensures Resolve(models, idx, selected, autoSelect, requested, jobModules, h).Refused?
  {
  }

  lemma ResolveGoesOn(models: Models, idx: Index, selected: seq<Key>, autoSelect: bool,
                      requested: map<Key, string>, jobModules: set<Key>, h: VersionHandler)
    requires ComputeMissing(models, idx, selected).Success?
    requires |ComputeMissing(models, idx, selected).value| == 0 || autoSelect
    ensures !Resolve(models, idx, selected, autoSelect, requested, jobModules, h).Refused?
  {
  }

  lemma MembersEmpty(s: seq<Key>)
    ensures |s| == 0 <==> Members(s) == {}
  {
    if |s| > 0 {
      assert s[0] in Members(s);
    }
  }

  /** A refusal lists every missing module, once each, and nothing else. */
  lemma ResolveRefusalLists(models: Models, idx: Index, selected: seq<Key>, autoSelect: bool,
                            requested: map<Key, string>, jobModules: set<Key>, h: VersionHandler)
    requires IndexWithin(idx, models)
    requires forall k :: k in models ==> |k| > 0 && ',' !in k
    ensures var o := Resolve(models, idx, selected, autoSelect, requested, jobModules, h);
            o.Refused? ==>
              var parts := Split(o.moduleList, ',');
              NoDups(parts) && Members(parts) == Required(models, idx, selected) - Members(selected)
  {
    var cm := ComputeMissing(models, idx, selected);
    if cm.Success? {
      var missing := cm.value;
      RequiredInProject(models, idx, selected);
      assert NonEmptyParts(missing) && SeparatorFree(missing, ',') by {
        forall i | 0 <= i < |missing| ensures |missing[i]| > 0 && ',' !in missing[i] {
          assert missing[i] in Members(missing);
        }
      }
    }
  }

  /** A release is scheduled exactly when the selection resolves, nothing
      is missing or auto-select is on, and every module can be given a
      version; it then releases exactly the wanted modules and leaves every
      other module at its current release version. */
  lemma ResolveSchedules(models: Models, idx: Index, selected: seq<Key>, autoSelect: bool,
                         requested: map<Key, string>, jobModules: set<Key>, h: VersionHandler)
    requires IndexWithin(idx, models)
    ensures var o := Resolve(models, idx, selected, autoSelect, requested, jobModules, h);
            o.Scheduled?
            <==> Walkable(models, selected)
                 && (autoSelect || Required(models, idx, selected) <= Members(selected))
                 && Assignable(models, Wanted(models, idx, selected), requested, jobModules)
    ensures var o := Resolve(models, idx, selected, autoSelect, requested, jobModules, h);
            o.Scheduled? ==>
              && o.versions.releaseVersions.Keys == Wanted(models, idx, selected)
              && o.versions.latestVersions.Keys == models.Keys - Wanted(models, idx, selected)
  {
    var cm := ComputeMissing(models, idx, selected);
    if cm.Failure? {
      assert !Walkable(models, selected);
    } else if Decide(selected, cm.value, autoSelect).MissingModules? {
      MembersEmpty(cm.value);
      ResolveStops(models, idx, selected, autoSelect, requested, jobModules, h);
    } else {
      ResolveSchedulesWanted(models, idx, selected, autoSelect, requested, jobModules, h);
    }
  }

  /** Scheduling when the decision releases. */
  lemma ResolveSchedulesWanted(models: Models, idx: Index, selected: seq<Key>, autoSelect: bool,
                               requested: map<Key, string>, jobModules: set<Key>, h: VersionHandler)
    requires IndexWithin(idx, models)
    requires ComputeMissing(models, idx, selected).Success?
    requires Decide(selected, ComputeMissing(models, idx, selected).value, autoSelect).Release?
    ensures var o := Resolve(models, idx, selected, autoSelect, requested, jobModules, h);
            o.Scheduled?
            <==> Walkable(models, selected)
                 && (autoSelect || Required(models, idx, selected) <= Members(selected))
                 && Assignable(models, Wanted(models, idx, selected), requested, jobModules)
    ensures var o := Resolve(models, idx, selected, autoSelect, requested, jobModules, h);
            o.Scheduled? ==>
              && o.versions.releaseVersions.Keys == Wanted(models, idx, selected)
              && o.versions.latestVersions.Keys == models.Keys - Wanted(models, idx, selected)
  {
    var missing := ComputeMissing(models, idx, selected).value;
    var wanted := Wanted(models, idx, selected);
    NothingMissing(missing, Required(models, idx, selected), Members(selected));
    var final := Decide(selected, missing, autoSelect).finalSelection;
    assert Members(final) == wanted by {
      assert Members(selected + missing) == Members(selected) + Members(missing);
    }
    assert wanted <= models.Keys by {
      RequiredInProject(models, idx, selected);
    }
    ResolveReleases(models, idx, selected, autoSelect, requested, jobModules, h, final);
    SplitVersionsKeys(models, final, requested, jobModules, h, wanted);
  }

  /** The version split by a final selection whose members are `wanted`. */
  lemma SplitVersionsKeys(models: Models, final: seq<Key>, requested: map<Key, string>, jobModules: set<Key>,
                          h: VersionHandler, wanted: set<Key>)
    requires Members(final) == wanted && wanted <= models.Keys
    ensures var sv := SplitVersions(models, final, requested, jobModules, h);
            && (sv.Success? <==> Assignable(models, wanted, requested, jobModules))
            && (sv.Success? ==> sv.value.releaseVersions.Keys == wanted)
            && (sv.Success? ==> sv.value.latestVersions.Keys == models.Keys - wanted)
  {
    var sv := SplitVersions(models, final, requested, jobModules, h);
    assert forall k :: k in final <==> k in wanted;
    if sv.Success? {
      assert sv.value.releaseVersions.Keys == wanted;
    }
  }

  /** The branch of `Resolve` that reaches the version split. */
  lemma ResolveReleases(models: Models, idx: Index, selected: seq<Key>, autoSelect: bool,
                        requested: map<Key, string>, jobModules: set<Key>, h: VersionHandler, final: seq<Key>)
    requires ComputeMissing(models, idx, selected).Success?
    requires Decide(selected, ComputeMissing(models, idx, selected).value, autoSelect) == Release(final)
    ensures var o := Resolve(models, idx, selected, autoSelect, requested, jobModules, h);
            var sv := SplitVersions(models, final, requested, jobModules, h);
            (o.Scheduled? <==> sv.Success?) && (o.Scheduled? ==> o.versions == sv.value)
  {
  }

  /** A release is scheduled exactly when the selection resolves, nothing
      is missing or auto-select is on, and every module can be given a
      version; it releases exactly the selection and what it requires, and
      keeps every other module of the project at its current release. */
  lemma MinorReleaseSchedules(models: Models, order: seq<Key>, selected: seq<Key>, autoSelect: bool,
                              requested: map<Key, string>, jobModules: set<Key>, h: VersionHandler)
    requires Enumerates(order, models.Keys)
    ensures var idx := ReverseIndex(models, order);
            var o := MinorRelease(models, order, selected, autoSelect, requested, jobModules, h);
            o.Scheduled?
            <==> Walkable(models, selected)
                 && (autoSelect || Required(models, idx, selected) <= Members(selected))
                 && Assignable(models, Wanted(models, idx, selected), requested, jobModules)
    ensures var idx := ReverseIndex(models, order);
            var o := MinorRelease(models, order, selected, autoSelect, requested, jobModules, h);
            o.Scheduled? ==>
              && o.versions.releaseVersions.Keys == Wanted(models, idx, selected)
              && o.versions.latestVersions.Keys == models.Keys - Wanted(models, idx, selected)
  {
    ReverseIndexWithin(models, order);
    ResolveSchedules(models, ReverseIndex(models, order), selected, autoSelect, requested, jobModules, h);
  }

  /** The request is refused exactly when the selection resolves,
      auto-select is off and a required module is not selected; the refusal
      then lists each missing module once. */
  lemma MinorReleaseRefuses(models: Models, order: seq<Key>, selected: seq<Key>, autoSelect: bool,
                            requested: map<Key, string>, jobModules: set<Key>, h: VersionHandler)
    requires Enumerates(order, models.Keys)
    ensures var o := MinorRelease(models, order, selected, autoSelect, requested, jobModules, h);
            o.Refused?
            <==> Walkable(models, selected) && !autoSelect
                 && !(Required(models, ReverseIndex(models, order), selected) <= Members(selected))
    ensures var o := MinorRelease(models, order, selected, autoSelect, requested, jobModules, h);
            o.Refused? && (forall k :: k in models ==> |k| > 0 && ',' !in k) ==>
              var parts := Split(o.moduleList, ',');
              NoDups(parts)
              && Members(parts) == Required(models, ReverseIndex(models, order), selected) - Members(selected)
  {
    var idx := ReverseIndex(models, order);
    ReverseIndexWithin(models, order);
    ResolveRefuses(models, idx, selected, autoSelect, requested, jobModules, h);
    if forall k :: k in models ==> |k| > 0 && ',' !in k {
      ResolveRefusalLists(models, idx, selected, autoSelect, requested, jobModules, h);
    }
  }

  /** Every dependent of a selected module is released. */
  lemma ResolveReleasesDependents(models: Models, idx: Index, selected: seq<Key>, autoSelect: bool,
                                  requested: map<Key, string>, jobModules: set<Key>, h: VersionHandler,
                                  s: Key, y: Key)
    requires IndexWithin(idx, models)
    requires s in selected && y in DependentsClosure(idx, s)
    ensures var o := Resolve(models, idx, selected, autoSelect, requested, jobModules, h);
            o.Scheduled? ==> y in o.versions.releaseVersions
  {
    var o := Resolve(models, idx, selected, autoSelect, requested, jobModules, h);
    if o.Scheduled? {
      ResolveSchedules(models, idx, selected, autoSelect, requested, jobModules, h);
      assert s in models;
      assert y in DependentsOf(models, idx, selected);
    }
  }

  /** In a scheduled release, whatever depends on a selected module, or on
      one of its dependents, is released too. */
  lemma ScheduledReleasesDependents(models: Models, order: seq<Key>, selected: seq<Key>, autoSelect: bool,
                                    requested: map<Key, string>, jobModules: set<Key>, h: VersionHandler,
                                    s: Key, x: Key, y: Key)
    requires Enumerates(order, models.Keys)
    requires s in selected
    requires x == s || x in DependentsClosure(ReverseIndex(models, order), s)
    requires DependsOn(models, y, x)
    ensures var o := MinorRelease(models, order, selected, autoSelect, requested, jobModules, h);
            o.Scheduled? ==> y in o.versions.releaseVersions
  {
    var idx := ReverseIndex(models, order);
    ReverseIndexWithin(models, order);
    ReverseIndexIsDependsOn(models, order, x, y);
    ClosureStep(idx, s, x, y);
    ResolveReleasesDependents(models, idx, selected, autoSelect, requested, jobModules, h, s, y);
  }

  /** A referrer of the start or of a member of its closure is a member. */
  lemma ClosureStep(idx: Index, s: Key, x: Key, y: Key)
    requires x == s || x in DependentsClosure(idx, s)
    requires y in Referrers(idx, x)
    ensures y in DependentsClosure(idx, s)
  {
    if x != s {
      var c := DependentsClosure(idx, s);
      assert x in Members(c);
      assert y in Members(c);
    }
  }

  /** In a scheduled release, every in-project ancestor of a selected
      module is released too. */
  lemma ScheduledReleasesAncestors(models: Models, order: seq<Key>, selected: seq<Key>, autoSelect: bool,
                                   requested: map<Key, string>, jobModules: set<Key>, h: VersionHandler,
                                   s: Key, a: Key)
    requires Enumerates(order, models.Keys)
    requires s in selected && s in models
    requires Ancestors(models, s).Some? && a in Ancestors(models, s).value
    ensures var o := MinorRelease(models, order, selected, autoSelect, requested, jobModules, h);
            o.Scheduled? ==> a in o.versions.releaseVersions
  {
    MinorReleaseSchedules(models, order, selected, autoSelect, requested, jobModules, h);
    assert a in AncestorsOf(models, selected);
  }

  // ---------------------------------------------------------------------
  // A worked project
  // ---------------------------------------------------------------------

  /** Four modules of group `g`: `b` and `c` have parent `a`; `b` depends
      on `a`, `c` on `b`, and `d` (no parent) on `a`. */
  function Sample(): Models {
    map["g:a" := ModuleA(), "g:b" := ModuleB(), "g:c" := ModuleC(), "g:d" := ModuleD()]
  }

  function ModuleA(): Model { Model(Coord("g", "a"), None, [], []) }
  function ModuleB(): Model { Model(Coord("g", "b"), Some(Coord("g", "a")), [Coord("g", "a")], []) }
  function ModuleC(): Model { Model(Coord("g", "c"), Some(Coord("g", "a")), [Coord("g", "b")], []) }
  function ModuleD(): Model { Model(Coord("g", "d"), None, [Coord("g", "a")], []) }

  function SampleOrder(): seq<Key> {
    ["g:a", "g:b", "g:c", "g:d"]
  }

  lemma SampleEnumerated()
    ensures Enumerates(SampleOrder(), Sample().Keys)
    ensures forall k :: k in Sample() ==> |k| > 0 && ',' !in k
  {
    assert Members(SampleOrder()) == {"g:a", "g:b", "g:c", "g:d"};
  }

  lemma SingleDependency(m: Model)
    requires |m.dependencies| == 1
    ensures DependencyKeyList(m) == [KeyOf(m.dependencies[0])]
  {
  }

  lemma SampleDependencies()
    ensures DependencyKeyList(Sample()["g:a"]) == []
    ensures DependencyKeyList(Sample()["g:b"]) == ["g:a"]
    ensures DependencyKeyList(Sample()["g:c"]) == ["g:b"]
    ensures DependencyKeyList(Sample()["g:d"]) == ["g:a"]
  {
    assert KeyOf(Coord("g", "a")) == "g:a";
    assert KeyOf(Coord("g", "b")) == "g:b";
    SingleDependency(ModuleB());
    SingleDependency(ModuleC());
    SingleDependency(ModuleD());
  }

  /** Only `c` depends on `b`, and nothing on `c`. */
  lemma SampleDependsOn(models: Models, y: Key)
    requires models == Sample()
    ensures DependsOn(models, y, "g:b") <==> y == "g:c"
    ensures !DependsOn(models, y, "g:c")
  {
    SampleDependencies();
    if y == "g:a" {
    } else if y == "g:b" {
    } else if y == "g:c" {
    } else if y == "g:d" {
    } else {
      assert y !in models;
    }
  }

  /** In the reverse index, only `c` refers to `b` and nothing to `c`. */
  lemma SampleReferrers(models: Models, order: seq<Key>, y: Key)
    requires models == Sample() && order == SampleOrder()
    ensures Enumerates(order, models.Keys)
    ensures var idx := ReverseIndex(models, order);
            (y in Referrers(idx, "g:b") <==> y == "g:c") && y !in Referrers(idx, "g:c")
  {
    SampleEnumerated();
    SampleDependsOn(models, y);
    ReverseIndexIsDependsOn(models, order, "g:b", y);
    ReverseIndexIsDependsOn(models, order, "g:c", y);
  }

  /** The sample's reverse index, as far as `b` and `c` are concerned. */
  ghost predicate SampleShaped(idx: Index) {
    forall y :: (y in Referrers(idx, "g:b") <==> y == "g:c") && y !in Referrers(idx, "g:c")
  }

  lemma SampleIndex(models: Models, order: seq<Key>)
    requires models == Sample() && order == SampleOrder()
    ensures Enumerates(order, models.Keys)
    ensures SampleShaped(ReverseIndex(models, order))
  {
    SampleEnumerated();
    forall y {
      SampleReferrers(models, order, y);
    }
  }

  lemma SampleClosure(idx: Index)
    requires SampleShaped(idx)
    ensures Members(DependentsClosure(idx, "g:b")) == {"g:c"}
  {
    assert Closed(idx, {"g:c"});
    ClosureIsLeast(idx, "g:b", {"g:c"});
    assert "g:c" in Referrers(idx, "g:b");
  }

  lemma SampleAncestors(models: Models)
    requires models == Sample()
    ensures Ancestors(models, "g:b") == Some(["g:a"])
  {
    var a := Coord("g", "a");
    assert KeyOf(a) == "g:a";
    assert models["g:b"].parent == Some(a);
    assert models["g:a"].parent == None;
    assert "g:a" in models && "g:a" !in {"g:b"};
    assert AncestorWalk(models, None, {"g:b"} + {"g:a"}) == Some([]);
    assert AncestorWalk(models, Some(a), {"g:b"}) == Some(["g:a"] + []);
    assert ["g:a"] + [] == ["g:a"];
    assert Ancestors(models, "g:b") == AncestorWalk(models, Some(a), {"g:b"});
  }

  /** Selecting `b` requires its dependent `c` and its parent `a`, and not
      `d`, which depends on `a` only. */
  lemma SampleRequired(models: Models, idx: Index)
    requires models == Sample() && SampleShaped(idx)
    ensures Required(models, idx, ["g:b"]) == {"g:a", "g:c"}
  {
    SampleClosure(idx);
    SampleAncestors(models);
    RequiredOfOne(models, idx, "g:b");
  }

  /** What one selected module requires. */
  lemma RequiredOfOne(models: Models, idx: Index, s: Key)
    requires s in models && Ancestors(models, s).Some?
    ensures Required(models, idx, [s])
         == Members(DependentsClosure(idx, s)) + Members(Ancestors(models, s).value)
  {
  }

  lemma SampleWalkable(models: Models, selected: seq<Key>)
    requires models == Sample() && selected == ["g:b"]
    ensures Walkable(models, selected)
  {
    SampleAncestors(models);
  }

  lemma SampleIncomplete(models: Models, order: seq<Key>, selected: seq<Key>)
    requires models == Sample() && order == SampleOrder() && selected == ["g:b"]
    ensures Enumerates(order, models.Keys)
    ensures Required(models, ReverseIndex(models, order), selected) - Members(selected) == {"g:a", "g:c"}
    ensures Wanted(models, ReverseIndex(models, order), selected) == {"g:a", "g:b", "g:c"}
  {
    SampleIndex(models, order);
    SampleIncompleteAt(models, ReverseIndex(models, order), selected);
  }

  lemma SampleIncompleteAt(models: Models, idx: Index, selected: seq<Key>)
    requires models == Sample() && SampleShaped(idx) && selected == ["g:b"]
    ensures Required(models, idx, selected) - Members(selected) == {"g:a", "g:c"}
    ensures Wanted(models, idx, selected) == {"g:a", "g:b", "g:c"}
  {
    SampleRequired(models, idx);
    assert Members(selected) == {"g:b"};
    SampleSets(Required(models, idx, selected));
  }

  lemma SampleSets(required: set<Key>)
    requires required == {"g:a", "g:c"}
    ensures required - {"g:b"} == {"g:a", "g:c"}
    ensures {"g:b"} + required == {"g:a", "g:b", "g:c"}
  {
    assert "g:a" != "g:b" && "g:c" != "g:b";
  }

  /** Without auto-select, selecting `b` alone is refused, listing `a` and
      `c`. */
  lemma SampleRefused(models: Models, order: seq<Key>, selected: seq<Key>, requested: map<Key, string>,
                      jobModules: set<Key>, h: VersionHandler)
    requires models == Sample() && order == SampleOrder() && selected == ["g:b"]
    ensures Enumerates(order, models.Keys)
    ensures var o := MinorRelease(models, order, selected, false, requested, jobModules, h);
            o.Refused? && Members(Split(o.moduleList, ',')) == {"g:a", "g:c"}
  {
    SampleEnumerated();
    SampleWalkable(models, selected);
    SampleIncomplete(models, order, selected);
    MinorReleaseRefuses(models, order, selected, false, requested, jobModules, h);
  }

  /** With auto-select, selecting `b` releases `a`, `b` and `c`; `d` stays
      at its current version although it depends on the released `a`. */
  lemma SampleAutoSelected(models: Models, order: seq<Key>, selected: seq<Key>, requested: map<Key, string>,
                           jobModules: set<Key>, h: VersionHandler)
    requires models == Sample() && order == SampleOrder() && selected == ["g:b"]
    requires jobModules == models.Keys
    requires "g:a" in requested && "g:b" in requested && "g:c" in requested
    ensures Enumerates(order, models.Keys)
    ensures var o := MinorRelease(models, order, selected, true, requested, jobModules, h);
            && o.Scheduled?
            && o.versions.releaseVersions.Keys == {"g:a", "g:b", "g:c"}
            && o.versions.latestVersions.Keys == {"g:d"}
    ensures DependsOn(models, "g:d", "g:a")
  {
    SampleEnumerated();
    SampleWalkable(models, selected);
    SampleIncomplete(models, order, selected);
    var wanted := Wanted(models, ReverseIndex(models, order), selected);
    SampleKeys(models, wanted);
    SampleAssignable(models, wanted, requested, jobModules);
    MinorReleaseSchedules(models, order, selected, true, requested, jobModules, h);
    SampleDependencies();
  }

  lemma SampleAssignable(models: Models, wanted: set<Key>, requested: map<Key, string>, jobModules: set<Key>)
    requires wanted == {"g:a", "g:b", "g:c"} && jobModules == models.Keys
    requires "g:a" in requested && "g:b" in requested && "g:c" in requested
    ensures Assignable(models, wanted, requested, jobModules)
  {
  }

  lemma SampleKeys(models: Models, wanted: set<Key>)
    requires models == Sample() && wanted == {"g:a", "g:b", "g:c"}
    ensures models.Keys == {"g:a", "g:b", "g:c", "g:d"}
    ensures models.Keys - wanted == {"g:d"}
  {
    assert "g:d" != "g:a" && "g:d" != "g:b" && "g:d" != "g:c";
  }
}
