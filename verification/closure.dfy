/** The transitive dependents of a module over the reverse-dependency index
    (`ReleaseBuildAction.calculateDependencyClosure`). The source's
    recursion is modelled as written, and next to it a version with a
    visited list that terminates on every index and never repeats a key. */
module Closure {
  import opened Wrappers
  import opened Text
  import opened Poms

  function Members(s: seq<Key>): set<Key> {
    set x | x in s
  }

  /** Every key the index mentions. */
  function Nodes(idx: Index): set<Key> {
    idx.Keys + (set d, x | d in idx && x in idx[d] :: x)
  }

  /** `S` contains the referrers of each of its members. */
  predicate Closed(idx: Index, S: set<Key>) {
    forall x, y :: x in S && y in Referrers(idx, x) ==> y in S
  }

  /** Every referrer of a visited key is visited or still to do. */
  predicate ClosedUpTo(idx: Index, visited: seq<Key>, todo: seq<Key>) {
    forall x, y :: x in visited && y in Referrers(idx, x) ==> y in visited || y in todo
  }

  /** Depth-first search over the index: `todo` is the stack of keys still
      to visit, `visited` the keys found so far in order of first visit. */
  function Explore(idx: Index, todo: seq<Key>, visited: seq<Key>): (r: seq<Key>)
    requires forall y :: y in todo ==> y in Nodes(idx)
    requires NoDups(visited)
    requires ClosedUpTo(idx, visited, todo)
    ensures NoDups(r)
    ensures visited <= r
    ensures forall y :: y in todo ==> y in r
    ensures Closed(idx, Members(r))
    decreases Nodes(idx) - Members(visited), |todo|
  {
    if |todo| == 0 then visited
    else
      var x := todo[0];
      if x in visited then Explore(idx, todo[1..], visited)
      else
        var next := Referrers(idx, x) + todo[1..];
        assert forall y :: y in Referrers(idx, x) ==> y in Nodes(idx);
        assert Members(visited + [x]) == Members(visited) + {x};
        Explore(idx, next, visited + [x])
  }

  /** The keys that depend on `start` directly or through other modules;
      `start` itself only when a dependency cycle leads back to it. */
  function DependentsClosure(idx: Index, start: Key): (r: seq<Key>)
    ensures NoDups(r)
    ensures forall y :: y in Referrers(idx, start) ==> y in r
    ensures Closed(idx, Members(r))
    ensures start !in idx ==> r == []
  {
    assert forall y :: y in Referrers(idx, start) ==> y in Nodes(idx);
    Explore(idx, Referrers(idx, start), [])
  }

  lemma {:induction false} ExploreLeast(idx: Index, todo: seq<Key>, visited: seq<Key>, S: set<Key>)
    requires forall y :: y in todo ==> y in Nodes(idx)
    requires NoDups(visited)
    requires ClosedUpTo(idx, visited, todo)
    requires Members(visited) <= S && Members(todo) <= S && Closed(idx, S)
    ensures Members(Explore(idx, todo, visited)) <= S
    decreases Nodes(idx) - Members(visited), |todo|
  {
    if |todo| > 0 {
      var x := todo[0];
      assert x in Members(todo);
      if x in visited {
        ExploreLeast(idx, todo[1..], visited, S);
      } else {
        var next := Referrers(idx, x) + todo[1..];
        assert forall y :: y in Referrers(idx, x) ==> y in Nodes(idx);
        assert Members(visited + [x]) == Members(visited) + {x};
        assert Members(next) <= S;
        ExploreLeast(idx, next, visited + [x], S);
      }
    }
  }

  /** The closure is the least set that holds the direct dependents of
      `start` and is closed under the index. */
  lemma ClosureIsLeast(idx: Index, start: Key, S: set<Key>)
    requires Members(Referrers(idx, start)) <= S && Closed(idx, S)
    ensures Members(DependentsClosure(idx, start)) <= S
  {
    assert forall y :: y in Referrers(idx, start) ==> y in Nodes(idx);
    ExploreLeast(idx, Referrers(idx, start), [], S);
  }

  /** The dependents of a dependent are dependents. */
  lemma ClosureTransitive(idx: Index, x: Key, y: Key)
    requires y in DependentsClosure(idx, x)
    ensures Members(DependentsClosure(idx, y)) <= Members(DependentsClosure(idx, x))
  {
    var S := Members(DependentsClosure(idx, x));
    assert Members(Referrers(idx, y)) <= S;
    ClosureIsLeast(idx, y, S);
  }

  // ---------------------------------------------------------------------
  // calculateDependencyClosure as written
  // ---------------------------------------------------------------------

  /** Appends each element of `xs` that the list does not contain yet. */
  function AppendAbsent(acc: seq<Key>, xs: seq<Key>): (r: seq<Key>)
    ensures acc <= r
    ensures Members(r) == Members(acc) + Members(xs)
  {
    if |xs| == 0 then acc
    else
      var init := xs[..|xs| - 1];
      var x := xs[|xs| - 1];
      assert xs == init + [x];
      var prev := AppendAbsent(acc, init);
      assert Members(prev + [x]) == Members(prev) + {x};
      if x in prev then prev else prev + [x]
  }

  /** The source's recursion: for each referrer `c` of `cur`, add `c`
      unconditionally, then add the not yet listed keys of `c`'s own
      closure. `None` when the recursion reaches a key whose call is still
      in progress (`onStack`): the source then recurses without bound. */
  function AsWrittenClosure(idx: Index, cur: Key, onStack: set<Key>): (r: Option<seq<Key>>)
    ensures cur in idx && cur in onStack ==> r.None?
    ensures r.Some? ==> |r.value| >= |Referrers(idx, cur)|
    ensures r.Some? && |Referrers(idx, cur)| > 0 ==> r.value[0] == Referrers(idx, cur)[0]
    decreases idx.Keys - onStack, 0
  {
    if cur !in idx then Some([])
    else if cur in onStack then None
    else AsWrittenExpand(idx, idx[cur], onStack + {cur}, [])
  }

  /** The loop over the referrers: each one is appended whether or not it
      is already listed, so the result keeps `acc` and grows by at least one
      key per referrer. */
  function AsWrittenExpand(idx: Index, children: seq<Key>, onStack: set<Key>, acc: seq<Key>)
    : (r: Option<seq<Key>>)
    ensures r.Some? ==> acc <= r.value && |r.value| >= |acc| + |children|
    ensures r.Some? && |children| > 0 ==> acc + [children[0]] <= r.value
    decreases idx.Keys - onStack, 1, |children|
  {
    if |children| == 0 then Some(acc)
    else
      var c := children[0];
      match AsWrittenClosure(idx, c, onStack)
      case None => None
      case Some(sub) =>
        var next := AppendAbsent(acc + [c], sub);
        assert acc <= acc + [c] <= next;
        AsWrittenExpand(idx, children[1..], onStack, next)
  }

  lemma {:induction false} AsWrittenWithin(idx: Index, cur: Key, onStack: set<Key>, S: set<Key>)
    requires Members(Referrers(idx, cur)) <= S && Closed(idx, S)
    ensures AsWrittenClosure(idx, cur, onStack).Some? ==> Members(AsWrittenClosure(idx, cur, onStack).value) <= S
    decreases idx.Keys - onStack, 0
  {
    if cur in idx && cur !in onStack {
      AsWrittenExpandWithin(idx, idx[cur], onStack + {cur}, [], S);
    }
  }

  lemma {:induction false} AsWrittenExpandWithin(idx: Index, children: seq<Key>, onStack: set<Key>, acc: seq<Key>, S: set<Key>)
    requires Members(children) <= S && Members(acc) <= S && Closed(idx, S)
    ensures AsWrittenExpand(idx, children, onStack, acc).Some? ==>
      Members(AsWrittenExpand(idx, children, onStack, acc).value) <= S
    decreases idx.Keys - onStack, 1, |children|
  {
    if |children| > 0 {
      var c := children[0];
      assert c in Members(children);
      AsWrittenWithin(idx, c, onStack, S);
      match AsWrittenClosure(idx, c, onStack)
      case None =>
      case Some(sub) =>
        var acc' := AppendAbsent(acc + [c], sub);
        assert Members(acc + [c]) == Members(acc) + {c};
        assert Members(children[1..]) <= Members(children);
        AsWrittenExpandWithin(idx, children[1..], onStack, acc', S);
    }
  }

  lemma {:induction false} AsWrittenCovers(idx: Index, cur: Key, onStack: set<Key>)
    ensures var r := AsWrittenClosure(idx, cur, onStack);
      r.Some? ==> Members(Referrers(idx, cur)) <= Members(r.value) && Closed(idx, Members(r.value))
    decreases idx.Keys - onStack, 0
  {
    if cur in idx && cur !in onStack {
      AsWrittenExpandCovers(idx, idx[cur], onStack + {cur}, []);
    }
  }

  lemma {:induction false} AsWrittenExpandCovers(idx: Index, children: seq<Key>, onStack: set<Key>, acc: seq<Key>)
    ensures var r := AsWrittenExpand(idx, children, onStack, acc);
      r.Some? ==>
        && Members(acc) + Members(children) <= Members(r.value)
        && forall x, y :: x in r.value && x !in acc && y in Referrers(idx, x) ==> y in r.value
    decreases idx.Keys - onStack, 1, |children|
  {
    if |children| > 0 {
      var c := children[0];
      AsWrittenCovers(idx, c, onStack);
      match AsWrittenClosure(idx, c, onStack)
      case None =>
      case Some(sub) =>
        var acc' := AppendAbsent(acc + [c], sub);
        assert Members(acc + [c]) == Members(acc) + {c};
        AsWrittenExpandCovers(idx, children[1..], onStack, acc');
        assert children == [c] + children[1..];
        var res := AsWrittenExpand(idx, children[1..], onStack, acc');
        if res.Some? {
          var r := res.value;
          forall x, y | x in r && x !in acc && y in Referrers(idx, x)
            ensures y in r
          {
            if x in acc' {
              assert x in Members(acc');
              assert x == c || x in Members(sub);
              assert y in Members(sub);
            }
          }
        }
    }
  }

  /** When the source's recursion returns, it lists the same keys as the
      closure with a visited list. */
  lemma AsWrittenAgrees(idx: Index, cur: Key)
    requires AsWrittenClosure(idx, cur, {}).Some?
    ensures Members(AsWrittenClosure(idx, cur, {}).value) == Members(DependentsClosure(idx, cur))
  {
    var w := AsWrittenClosure(idx, cur, {}).value;
    var d := DependentsClosure(idx, cur);
    AsWrittenWithin(idx, cur, {}, Members(d));
    AsWrittenCovers(idx, cur, {});
    ClosureIsLeast(idx, cur, Members(w));
  }

  /** A diamond: B and C depend on A, C also depends on B. */
  function Diamond(): Index {
    map["A" := ["B", "C"], "B" := ["C"]]
  }

  /** The source lists C twice in the closure of A; the visited list
      lists it once. */
  lemma AsWrittenRepeatsKeys()
    ensures && AsWrittenClosure(Diamond(), "A", {}) == Some(["B", "C", "C"])
            && !NoDups(AsWrittenClosure(Diamond(), "A", {}).value)
            && DependentsClosure(Diamond(), "A") == ["B", "C"]
  {
    DiamondAsWritten(Diamond());
    var idx := Diamond();
    assert idx["A"] == ["B", "C"] && idx["B"] == ["C"] && "C" !in idx;
    assert "C" in idx["B"];
    DiamondVisited(idx);
    var r := ["B", "C", "C"];
    assert r[1] == r[2];
  }

  lemma DiamondAsWritten(idx: Index)
    requires idx == Diamond()
    ensures AsWrittenClosure(idx, "A", {}) == Some(["B", "C", "C"])
  {
    var c: seq<Key> := ["C"];
    var bc: seq<Key> := ["B", "C"];
    var none: seq<Key> := [];
    assert c[1..] == [] && bc[1..] == c;
    assert none + c == c && none + ["B"] == ["B"];
    assert AppendAbsent(c, []) == c;
    assert AsWrittenClosure(idx, "C", {"A", "B"}) == Some([]);
    assert AsWrittenExpand(idx, [], {"A", "B"}, c) == Some(c);
    assert AsWrittenExpand(idx, c, {"A", "B"}, []) == Some(c);
    assert AsWrittenClosure(idx, "B", {"A"}) == Some(c);
    assert AppendAbsent(["B"], c) == bc;
    assert AsWrittenClosure(idx, "C", {"A"}) == Some([]);
    assert AppendAbsent(bc + c, []) == ["B", "C", "C"];
    assert AsWrittenExpand(idx, [], {"A"}, ["B", "C", "C"]) == Some(["B", "C", "C"]);
    assert AsWrittenExpand(idx, c, {"A"}, bc) == Some(["B", "C", "C"]);
    assert AsWrittenExpand(idx, bc, {"A"}, []) == Some(["B", "C", "C"]);
    var empty: set<Key> := {};
    assert empty + {"A"} == {"A"} && idx["A"] == bc;
  }

  /** The visited-list search over any index shaped like the diamond. */
  lemma DiamondVisited(idx: Index)
    requires Referrers(idx, "A") == ["B", "C"] && Referrers(idx, "B") == ["C"] && Referrers(idx, "C") == []
    requires "B" in Nodes(idx) && "C" in Nodes(idx)
    ensures DependentsClosure(idx, "A") == ["B", "C"]
  {
    var c: seq<Key> := ["C"];
    var bc: seq<Key> := ["B", "C"];
    var none: seq<Key> := [];
    assert bc[1..] == c && (c + c)[1..] == c && c[1..] == [];
    assert none + ["B"] == ["B"] && ["B"] + c == bc && none + c == c;
    ExploreVisit(idx, bc, []);
    ExploreVisit(idx, c + c, ["B"]);
    ExploreSkip(idx, c, bc);
  }

  /** One step of the search that visits a new key. */
  lemma ExploreVisit(idx: Index, todo: seq<Key>, visited: seq<Key>)
    requires forall y :: y in todo ==> y in Nodes(idx)
    requires NoDups(visited) && ClosedUpTo(idx, visited, todo)
    requires |todo| > 0 && todo[0] !in visited
    ensures var x := todo[0];
      Explore(idx, todo, visited) == Explore(idx, Referrers(idx, x) + todo[1..], visited + [x])
  {
  }

  /** One step of the search that skips a visited key. */
  lemma ExploreSkip(idx: Index, todo: seq<Key>, visited: seq<Key>)
    requires forall y :: y in todo ==> y in Nodes(idx)
    requires NoDups(visited) && ClosedUpTo(idx, visited, todo)
    requires |todo| > 0 && todo[0] in visited
    ensures Explore(idx, todo, visited) == Explore(idx, todo[1..], visited)
  {
  }

  /** A module that depends on itself: the source never returns, the
      visited list stops after one step. */
  lemma AsWrittenDivergesOnSelfDependency()
    ensures var idx := map["A" := ["A"]];
      && AsWrittenClosure(idx, "A", {}).None?
      && DependentsClosure(idx, "A") == ["A"]
  {
    var idx := map["A" := ["A"]];
    var a: seq<Key> := ["A"];
    assert AsWrittenClosure(idx, "A", {"A"}) == None;
    assert a[1..] == [];
    assert Explore(idx, [], a) == a;
    assert Explore(idx, a, a) == a;
    assert Explore(idx, a, []) == a;
  }
}
