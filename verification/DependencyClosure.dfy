/** Merging candidate libraries and resolving the runtime dependency closure. */
module DependencyClosure {
  import opened Common

  datatype Name = Name(text: string)

  datatype Library = Library(name: Name, origin: string, sha256: string)

  datatype Error = Conflict(name: Name) | MissingRoot(name: Name) | Unpackaged(name: Name)

  // ----- merging -----------------------------------------------------------

  ghost predicate Conflicting(libraries: seq<Library>) {
    exists i, j | 0 <= i < j < |libraries| ::
      libraries[i].name == libraries[j].name && libraries[i].sha256 != libraries[j].sha256
  }

  /** Every name maps to its first candidate. */
  ghost predicate FirstByName(libraries: seq<Library>, result: map<Name, Library>) {
    && (forall i | 0 <= i < |libraries| :: libraries[i].name in result)
    && (forall name | name in result ::
          exists i :: 0 <= i < |libraries| && libraries[i] == result[name] && libraries[i].name == name
                      && forall j | 0 <= j < i :: libraries[j].name != name)
  }

  /** Merging fails exactly when two candidates of one name differ. */
  method MergeCandidates(groups: seq<seq<Library>>) returns (r: Result<map<Name, Library>, Error>)
    ensures r.Err? <==> Conflicting(Flatten(groups))
    ensures r.Ok? ==> FirstByName(Flatten(groups), r.value)
  {
    hide FirstByName, Conflicting;
    var result: map<Name, Library> := map[];
    NothingMerged();
    for g := 0 to |groups|
      invariant FirstByName(Flatten(groups[..g]), result) && !Conflicting(Flatten(groups[..g]))
    {
      FlattenSplit(groups, g);
      var merged := MergeGroup(groups[g], result, Flatten(groups[..g]));
      if merged.Err? {
        ConflictSpreads(Flatten(groups[..g]) + groups[g], Flatten(groups[g + 1..]));
        return Err(merged.error);
      }
      result := merged.value;
    }
    assert groups[..|groups|] == groups;
    return Ok(result);
  }

  lemma NothingMerged()
    ensures FirstByName([], map[]) && !Conflicting([])
  {
  }

  method MergeGroup(group: seq<Library>, merged: map<Name, Library>, ghost before: seq<Library>)
    returns (r: Result<map<Name, Library>, Error>)
    requires FirstByName(before, merged) && !Conflicting(before)
    ensures r.Ok? ==> FirstByName(before + group, r.value) && !Conflicting(before + group)
    ensures r.Err? ==> Conflicting(before + group)
  {
    hide FirstByName, Conflicting;
    var result := merged;
    assert before + group[..0] == before;
    for k := 0 to |group|
      invariant FirstByName(before + group[..k], result) && !Conflicting(before + group[..k])
    {
      var candidate := group[k];
      ghost var seen := before + group[..k];
      assert before + group[..k + 1] == seen + [candidate];
      if candidate.name in result {
        var existing := result[candidate.name];
        if existing.sha256 != candidate.sha256 {
          ConflictFound(seen, result, candidate);
          ConflictSpreads(seen + [candidate], group[k + 1..]);
          assert seen + [candidate] + group[k + 1..] == before + group;
          return Err(Conflict(candidate.name));
        }
        RepeatedCandidate(seen, result, candidate);
      } else {
        NewCandidate(seen, result, candidate);
        result := result[candidate.name := candidate];
      }
    }
    assert group[..|group|] == group;
    return Ok(result);
  }

  lemma FlattenTake(groups: seq<seq<Library>>, g: nat)
    requires g < |groups|
    ensures Flatten(groups[..g + 1]) == Flatten(groups[..g]) + groups[g]
  {
    assert groups[..g + 1] == groups[..g] + [groups[g]];
    FlattenSnoc(groups[..g], groups[g]);
  }

  lemma FlattenSplit(groups: seq<seq<Library>>, g: nat)
    requires g < |groups|
    ensures Flatten(groups[..g + 1]) == Flatten(groups[..g]) + groups[g]
    ensures Flatten(groups) == Flatten(groups[..g]) + groups[g] + Flatten(groups[g + 1..])
  {
    hide Flatten;
    FlattenTake(groups, g);
    var front, back := groups[..g + 1], groups[g + 1..];
    assert groups == front + back;
    FlattenAppend(front, back);
  }

  lemma ConflictFound(seen: seq<Library>, result: map<Name, Library>, candidate: Library)
    requires FirstByName(seen, result) && candidate.name in result && result[candidate.name].sha256 != candidate.sha256
    ensures Conflicting(seen + [candidate])
  {
    var all := seen + [candidate];
    var i :| 0 <= i < |seen| && seen[i] == result[candidate.name] && seen[i].name == candidate.name;
    assert all[i].name == all[|seen|].name && all[i].sha256 != all[|seen|].sha256;
  }

  lemma ConflictSpreads(a: seq<Library>, b: seq<Library>)
    requires Conflicting(a)
    ensures Conflicting(a + b)
  {
    var i, j :| 0 <= i < j < |a| && a[i].name == a[j].name && a[i].sha256 != a[j].sha256;
    assert (a + b)[i] == a[i] && (a + b)[j] == a[j];
  }

  lemma RepeatedCandidate(seen: seq<Library>, result: map<Name, Library>, candidate: Library)
    requires FirstByName(seen, result) && !Conflicting(seen)
    requires candidate.name in result && result[candidate.name].sha256 == candidate.sha256
    ensures FirstByName(seen + [candidate], result) && !Conflicting(seen + [candidate])
  {
    var all := seen + [candidate];
    FirstSurvives(seen, result, candidate);
    forall i, j | 0 <= i < j < |all| && all[i].name == all[j].name
      ensures all[i].sha256 == all[j].sha256
    {
      if j == |seen| {
        SameAsFirst(seen, result, i);
      }
    }
  }

  lemma SameAsFirst(seen: seq<Library>, result: map<Name, Library>, i: nat)
    requires FirstByName(seen, result) && !Conflicting(seen) && i < |seen|
    ensures seen[i].name in result && result[seen[i].name].sha256 == seen[i].sha256
  {
    var name := seen[i].name;
    var k :| 0 <= k < |seen| && seen[k] == result[name] && seen[k].name == name && forall j | 0 <= j < k :: seen[j].name != name;
  }

  lemma FirstSurvives(seen: seq<Library>, result: map<Name, Library>, candidate: Library)
    requires FirstByName(seen, result) && candidate.name in result
    ensures FirstByName(seen + [candidate], result)
  {
    var all := seen + [candidate];
    forall name | name in result
      ensures exists i :: 0 <= i < |all| && all[i] == result[name] && all[i].name == name && forall j | 0 <= j < i :: all[j].name != name
    {
      var i :| 0 <= i < |seen| && seen[i] == result[name] && seen[i].name == name && forall j | 0 <= j < i :: seen[j].name != name;
      assert all[i] == seen[i];
    }
  }

  lemma NewCandidate(seen: seq<Library>, result: map<Name, Library>, candidate: Library)
    requires FirstByName(seen, result) && !Conflicting(seen) && candidate.name !in result
    ensures FirstByName(seen + [candidate], result[candidate.name := candidate]) && !Conflicting(seen + [candidate])
  {
    var all, next := seen + [candidate], result[candidate.name := candidate];
    forall name | name in next
      ensures exists i :: 0 <= i < |all| && all[i] == next[name] && all[i].name == name && forall j | 0 <= j < i :: all[j].name != name
    {
      if name == candidate.name {
        assert all[|seen|] == next[name];
      } else {
        var i :| 0 <= i < |seen| && seen[i] == result[name] && seen[i].name == name && forall j | 0 <= j < i :: seen[j].name != name;
        assert all[i] == seen[i];
      }
    }
  }

  // ----- closure -----------------------------------------------------------

  /** The packaging inputs: what is available, what each library needs, and what
      the host provides. */
  datatype World = World(
    candidates: map<Name, Library>,
    needed: Library -> set<Name>,
    isHost: Name -> bool)
  {
    function Dependencies(name: Name): set<Name>
      requires name in candidates
    {
      set d | d in needed(candidates[name]) && !isHost(d)
    }
  }

  /** A chain of non-host dependencies from a root. */
  ghost predicate Chain(w: World, roots: set<Name>, path: seq<Name>) {
    path != [] &&
    var last := |path| - 1;
    if last == 0 then path[0] in roots
    else
      && path[last - 1] in w.candidates
      && path[last] in w.Dependencies(path[last - 1])
      && Chain(w, roots, path[..last])
  }

  ghost predicate Reachable(w: World, roots: set<Name>, name: Name) {
    exists path: seq<Name> :: Chain(w, roots, path) && path[|path| - 1] == name
  }

  lemma RootIsReachable(w: World, roots: set<Name>, name: Name)
    requires name in roots
    ensures Reachable(w, roots, name)
  {
    assert Chain(w, roots, [name]);
  }

  lemma DependencyIsReachable(w: World, roots: set<Name>, name: Name, dependency: Name)
    requires Reachable(w, roots, name) && name in w.candidates && dependency in w.Dependencies(name)
    ensures Reachable(w, roots, dependency)
  {
    var path :| Chain(w, roots, path) && path[|path| - 1] == name;
    var longer := path + [dependency];
    assert longer[..|path|] == path && longer[|path|] == dependency && longer[|path| - 1] == name;
    assert Chain(w, roots, longer);
  }

  /** Holds the roots and the dependencies of its members. */
  ghost predicate Closed(w: World, roots: set<Name>, s: set<Name>) {
    && roots <= s
    && forall name | name in s :: name in w.candidates && w.Dependencies(name) <= s
  }

  /** A closed set holds everything reachable. */
  lemma {:induction false} ClosedHoldsChain(w: World, roots: set<Name>, s: set<Name>, path: seq<Name>)
    requires Closed(w, roots, s) && Chain(w, roots, path)
    ensures path[|path| - 1] in s
  {
    if |path| > 1 {
      ClosedHoldsChain(w, roots, s, path[..|path| - 1]);
    }
  }

  lemma ClosedHoldsReachable(w: World, roots: set<Name>, s: set<Name>)
    requires Closed(w, roots, s)
    ensures forall name | Reachable(w, roots, name) :: name in s
  {
    forall name | Reachable(w, roots, name) ensures name in s {
      var path :| Chain(w, roots, path) && path[|path| - 1] == name;
      ClosedHoldsChain(w, roots, s, path);
    }
  }

  /** The names of a set in some order: the visiting order is arbitrary. */
  method InSomeOrder(names: set<Name>) returns (order: seq<Name>)
    ensures forall name :: name in order <==> name in names
  {
    order := [];
    var rest := names;
    while rest != {}
      invariant rest <= names
      invariant forall name :: name in order <==> name in names && name !in rest
    {
      var name :| name in rest;
      order := order + [name];
      rest := rest - {name};
    }
  }

  function ToSet(names: seq<Name>): set<Name> {
    set name | name in names
  }

  /** What is selected or pending is reachable; the roots and the dependencies of
      what is selected are selected or pending. */
  ghost predicate Progress(w: World, roots: set<Name>, selected: set<Name>, pending: set<Name>) {
    && (forall name | name in selected + pending :: Reachable(w, roots, name))
    && roots <= selected + pending
    && (forall name | name in selected :: name in w.candidates && w.Dependencies(name) <= selected + pending)
  }

  function Wanted(w: World, names: seq<Name>, selected: set<Name>): set<Name> {
    set d | d in names && !w.isHost(d) && d !in selected
  }

  lemma WantedSnoc(w: World, names: seq<Name>, d: Name, selected: set<Name>)
    ensures Wanted(w, names + [d], selected) ==
            Wanted(w, names, selected) + (if w.isHost(d) || d in selected then {} else {d})
  {
  }

  /** Pushes the non-host dependencies that are not yet selected. */
  method PushDependencies(w: World, name: Name, selected: set<Name>, pending: seq<Name>) returns (r: Result<seq<Name>, Error>)
    requires name in w.candidates
    ensures r.Ok? ==> ToSet(r.value) == ToSet(pending) + (w.Dependencies(name) - selected)
    ensures r.Err? ==> exists d :: d in w.Dependencies(name) && d !in w.candidates
  {
    var pushed := pending;
    var dependencies := InSomeOrder(w.needed(w.candidates[name]));
    for k := 0 to |dependencies|
      invariant ToSet(pushed) == ToSet(pending) + Wanted(w, dependencies[..k], selected)
    {
      var dependency := dependencies[k];
      assert dependencies[..k + 1] == dependencies[..k] + [dependency];
      WantedSnoc(w, dependencies[..k], dependency, selected);
      if w.isHost(dependency) || dependency in selected {
        continue;
      }
      if dependency !in w.candidates {
        assert dependency in w.Dependencies(name);
        return Err(Unpackaged(dependency));
      }
      assert ToSet(pushed + [dependency]) == ToSet(pushed) + {dependency};
      pushed := pushed + [dependency];
    }
    assert dependencies[..|dependencies|] == dependencies;
    assert Wanted(w, dependencies, selected) == w.Dependencies(name) - selected;
    return Ok(pushed);
  }

  /** On success exactly the reachable names; failure exactly when some reachable
      name has no candidate. Cycles and repeated pushes terminate. */
  method ResolveDependencyClosure(w: World, roots: set<Name>) returns (r: Result<set<Name>, Error>)
    ensures r.Ok? ==> forall name :: name in r.value <==> Reachable(w, roots, name)
    ensures r.Err? <==> exists name :: Reachable(w, roots, name) && name !in w.candidates
  {
    hide Progress, Reachable, Closed;
    var selected: set<Name> := {};
    var pending := InSomeOrder(roots);
    assert ToSet(pending) == roots;
    StartProgress(w, roots);
    while pending != []
      invariant Progress(w, roots, selected, ToSet(pending))
      decreases w.candidates.Keys - selected, |pending|
    {
      var last := |pending| - 1;
      var name := pending[last];
      ghost var before := ToSet(pending);
      pending := pending[..last];
      assert before == ToSet(pending) + {name};
      if name in selected {
        SkipSelected(w, roots, selected, ToSet(pending), name);
        continue;
      }
      PendingIsReachable(w, roots, selected, before, name);
      if name !in w.candidates {
        return Err(MissingRoot(name));
      }
      var pushed := PushDependencies(w, name, selected + {name}, pending);
      if pushed.Err? {
        var d :| d in w.Dependencies(name) && d !in w.candidates;
        DependencyIsReachable(w, roots, name, d);
        return Err(pushed.error);
      }
      SelectName(w, roots, selected, ToSet(pending), name);
      selected := selected + {name};
      pending := pushed.value;
    }
    assert ToSet(pending) == {};
    NothingPending(w, roots, selected);
    ClosedHoldsReachable(w, roots, selected);
    return Ok(selected);
  }

  lemma StartProgress(w: World, roots: set<Name>)
    ensures Progress(w, roots, {}, roots)
  {
    forall name | name in roots ensures Reachable(w, roots, name) {
      RootIsReachable(w, roots, name);
    }
  }

  lemma SkipSelected(w: World, roots: set<Name>, selected: set<Name>, pending: set<Name>, name: Name)
    requires name in selected && Progress(w, roots, selected, pending + {name})
    ensures Progress(w, roots, selected, pending)
  {
    hide Reachable;
    assert selected + (pending + {name}) == selected + pending;
  }

  lemma PendingIsReachable(w: World, roots: set<Name>, selected: set<Name>, pending: set<Name>, name: Name)
    requires name in pending && Progress(w, roots, selected, pending)
    ensures Reachable(w, roots, name)
  {
    assert name in selected + pending;
  }

  lemma SelectName(w: World, roots: set<Name>, selected: set<Name>, rest: set<Name>, name: Name)
    requires Progress(w, roots, selected, rest + {name}) && name in w.candidates
    ensures Progress(w, roots, selected + {name}, rest + (w.Dependencies(name) - (selected + {name})))
  {
    hide Reachable;
    var chosen, pending := selected + {name}, rest + (w.Dependencies(name) - (selected + {name}));
    assert selected + (rest + {name}) <= chosen + pending;
    PendingIsReachable(w, roots, selected, rest + {name}, name);
    forall p | p in chosen + pending ensures Reachable(w, roots, p) {
      if p in w.Dependencies(name) {
        DependencyIsReachable(w, roots, name, p);
      } else {
        assert p in selected + (rest + {name});
      }
    }
  }

  /** When nothing is pending the selection is closed, reachable and packaged. */
  lemma NothingPending(w: World, roots: set<Name>, selected: set<Name>)
    requires Progress(w, roots, selected, {})
    ensures Closed(w, roots, selected)
    ensures forall name | name in selected :: Reachable(w, roots, name) && name in w.candidates
  {
    hide Reachable;
    assert selected + {} == selected;
  }
}
