/** `find_test_scenarios` (scenarios/scenario.py): walk the modules of the
    scenarios package, depth first, each module at most once, and list
    every TestScenario subclass found, once each, sorted by full name.

    Python reflection becomes data: a module graph maps a module's name to
    its members in `inspect.getmembers` order, and a class is identified by
    its full name. The shared `already_checked` set the recursion mutates is
    passed in and handed back. */
module Discovery {
  import opened Common

  /** One member of a module, as `inspect` classifies it. */
  datatype Member =
    | ModuleMember(name: string)
    | ClassMember(fullName: string, subclassesTestScenario: bool)
    | OtherMember

  type ModuleGraph = map<string, seq<Member>>

  /** Modules outside this package are never entered. */
  const ScenariosPackage: string := "monitoring.uss_qualifier.scenarios"

  /** The base class itself is not a scenario to run. */
  const TestScenarioName: string := "monitoring.uss_qualifier.scenarios.scenario.TestScenario"

  /** `getmembers` of a module the graph does not list finds nothing. */
  function MembersOf(graph: ModuleGraph, moduleName: string): seq<Member>
  {
    if moduleName in graph then graph[moduleName] else []
  }

  /** A member the traversal descends into. */
  predicate Enters(m: Member)
  {
    m.ModuleMember? && ScenariosPackage <= m.name
  }

  /** A member the traversal reports. */
  predicate IsScenarioClass(m: Member)
  {
    m.ClassMember? && m.fullName != TestScenarioName && m.subclassesTestScenario
  }

  /** The scenario classes among `members`. */
  function ClassesOf(members: seq<Member>): (names: set<string>)
    ensures forall name :: name in names <==>
      exists k :: 0 <= k < |members| && IsScenarioClass(members[k]) && members[k].fullName == name
  {
    if |members| == 0 then {}
    else
      var last := members[|members| - 1];
      var before := ClassesOf(members[..|members| - 1]);
      assert forall k :: 0 <= k < |members| - 1 ==> members[..|members| - 1][k] == members[k];
      if IsScenarioClass(last) then before + {last.fullName} else before
  }

  lemma ClassesOfSnoc(members: seq<Member>, m: Member)
    ensures ClassesOf(members + [m]) == ClassesOf(members) + (if IsScenarioClass(m) then {m.fullName} else {})
  {
    assert (members + [m])[..|members|] == members;
  }

  /** The scenario classes of the modules named in `modules`. */
  ghost function ClassesIn(graph: ModuleGraph, modules: set<string>): set<string>
  {
    set moduleName, name | moduleName in modules && name in ClassesOf(MembersOf(graph, moduleName)) :: name
  }

  lemma ClassesInUnion(graph: ModuleGraph, a: set<string>, b: set<string>)
    ensures ClassesIn(graph, a + b) == ClassesIn(graph, a) + ClassesIn(graph, b)
  {
  }

  lemma ClassesInSingle(graph: ModuleGraph, moduleName: string)
    ensures ClassesIn(graph, {moduleName}) == ClassesOf(MembersOf(graph, moduleName))
  {
  }

  /** Every module entered from a module in `from` is in `visited`. */
  ghost predicate EdgesInside(graph: ModuleGraph, from: set<string>, visited: set<string>)
  {
    forall moduleName, k :: moduleName in from && 0 <= k < |MembersOf(graph, moduleName)| && Enters(MembersOf(graph, moduleName)[k]) ==>
      MembersOf(graph, moduleName)[k].name in visited
  }

  /** `s` is closed under entering modules that are not in `avoid`. */
  ghost predicate ClosedAvoiding(graph: ModuleGraph, s: set<string>, avoid: set<string>)
  {
    forall moduleName, k ::
      (moduleName in s && 0 <= k < |MembersOf(graph, moduleName)| && Enters(MembersOf(graph, moduleName)[k])
       && MembersOf(graph, moduleName)[k].name !in avoid) ==> MembersOf(graph, moduleName)[k].name in s
  }

  /** Every module visited outside `avoid` lies in every set that contains
      `moduleName` and is closed under entering modules outside `avoid`. */
  ghost predicate LeastVisit(graph: ModuleGraph, moduleName: string, avoid: set<string>, visited: set<string>)
  {
    forall s :: moduleName in s && ClosedAvoiding(graph, s, avoid) ==> visited - avoid <= s
  }

  /** What holds after the walk of `moduleName` has looked at its first `i`
      members: the modules visited below it are among those it must visit,
      their edges stay inside `checked`, every module entered so far has
      been visited, and `found` holds the classes of the modules visited
      below and of the members looked at. */
  ghost predicate Walked(graph: ModuleGraph, moduleName: string, alreadyChecked: set<string>, i: nat,
                         checked: set<string>, found: set<string>)
  {
    var members := MembersOf(graph, moduleName);
    && i <= |members|
    && alreadyChecked + {moduleName} <= checked
    && found == ClassesIn(graph, checked - alreadyChecked - {moduleName}) + ClassesOf(members[..i])
    && EdgesInside(graph, checked - alreadyChecked - {moduleName}, checked)
    && (forall k :: 0 <= k < i && Enters(members[k]) ==> members[k].name in checked)
    && LeastVisit(graph, moduleName, alreadyChecked, checked)
  }

  /** Descending into member `i`, a module not yet visited, whose walk
      visited `after - before` and found `below`. */
  lemma WalkedAfterDescent(graph: ModuleGraph, moduleName: string, alreadyChecked: set<string>, i: nat,
                           before: set<string>, found: set<string>, after: set<string>, below: set<string>)
    requires Walked(graph, moduleName, alreadyChecked, i, before, found)
    requires i < |MembersOf(graph, moduleName)|
    requires var child := MembersOf(graph, moduleName)[i];
      && Enters(child) && child.name !in before
      && before + {child.name} <= after
      && below == ClassesIn(graph, after - before + {child.name})
      && EdgesInside(graph, after - before + {child.name}, after)
      && LeastVisit(graph, child.name, before, after)
    ensures Walked(graph, moduleName, alreadyChecked, i + 1, after, found + below)
  {
    var members := MembersOf(graph, moduleName);
    var child := members[i];
    DescentSplits(alreadyChecked, moduleName, child.name, before, after);
    LeastAfterDescent(graph, alreadyChecked, moduleName, i, before, after);
    EdgesAfterDescent(graph, before - alreadyChecked - {moduleName}, before, after - before + {child.name}, after);
    FoundAfterDescent(graph, alreadyChecked, moduleName, members, i, before, after, found, below);
    EnteredAfterStep(members, i, before, after);
  }

  /** Looking at member `i` without descending into it. */
  lemma WalkedAfterMember(graph: ModuleGraph, moduleName: string, alreadyChecked: set<string>, i: nat,
                          checked: set<string>, found: set<string>)
    requires Walked(graph, moduleName, alreadyChecked, i, checked, found)
    requires i < |MembersOf(graph, moduleName)|
    requires var m := MembersOf(graph, moduleName)[i]; !Enters(m) || m.name in checked
    ensures var m := MembersOf(graph, moduleName)[i];
      Walked(graph, moduleName, alreadyChecked, i + 1, checked, if IsScenarioClass(m) then found + {m.fullName} else found)
  {
    var members := MembersOf(graph, moduleName);
    FoundAfterMember(graph, checked - alreadyChecked - {moduleName}, members, i, found);
    EnteredAfterStep(members, i, checked, checked);
  }

  /** Once every member has been looked at, the walk of `moduleName` is complete. */
  lemma WalkedAll(graph: ModuleGraph, moduleName: string, alreadyChecked: set<string>, checked: set<string>, found: set<string>)
    requires Walked(graph, moduleName, alreadyChecked, |MembersOf(graph, moduleName)|, checked, found)
    ensures found == ClassesIn(graph, checked - alreadyChecked + {moduleName})
    ensures EdgesInside(graph, checked - alreadyChecked + {moduleName}, checked)
  {
    var members := MembersOf(graph, moduleName);
    assert members[..|members|] == members;
    ClassesInSingle(graph, moduleName);
    ClassesInUnion(graph, checked - alreadyChecked - {moduleName}, {moduleName});
    assert checked - alreadyChecked + {moduleName} == (checked - alreadyChecked - {moduleName}) + {moduleName};
  }

  /** After a descent from `moduleName` into its member `k`, which visited
      `after - before`, the modules visited so far still lie in every closed
      set containing `moduleName`. */
  lemma LeastAfterDescent(graph: ModuleGraph, alreadyChecked: set<string>, moduleName: string, k: nat,
                          before: set<string>, after: set<string>)
    requires alreadyChecked <= before <= after
    requires k < |MembersOf(graph, moduleName)| && Enters(MembersOf(graph, moduleName)[k])
    requires MembersOf(graph, moduleName)[k].name !in before
    requires LeastVisit(graph, moduleName, alreadyChecked, before)
    requires LeastVisit(graph, MembersOf(graph, moduleName)[k].name, before, after)
    ensures LeastVisit(graph, moduleName, alreadyChecked, after)
  {
    forall s | moduleName in s && ClosedAvoiding(graph, s, alreadyChecked)
      ensures after - alreadyChecked <= s
    {
      assert MembersOf(graph, moduleName)[k].name in s;
      assert ClosedAvoiding(graph, s, before);
    }
  }

  /** After a descent, the classes found are still those of the modules
      visited below `moduleName` and of the members looked at so far. */
  lemma FoundAfterDescent(graph: ModuleGraph, alreadyChecked: set<string>, moduleName: string, members: seq<Member>,
                          i: nat, before: set<string>, after: set<string>, found: set<string>, below: set<string>)
    requires i < |members| && Enters(members[i])
    requires alreadyChecked + {moduleName} <= before <= after
    requires members[i].name !in before && members[i].name in after
    requires found == ClassesIn(graph, before - alreadyChecked - {moduleName}) + ClassesOf(members[..i])
    requires below == ClassesIn(graph, after - before + {members[i].name})
    ensures found + below == ClassesIn(graph, after - alreadyChecked - {moduleName}) + ClassesOf(members[..i + 1])
  {
    assert members[..i + 1] == members[..i] + [members[i]];
    ClassesOfSnoc(members[..i], members[i]);
    ClassesInUnion(graph, before - alreadyChecked - {moduleName}, after - before + {members[i].name});
    DescentSplits(alreadyChecked, moduleName, members[i].name, before, after);
  }

  /** Looking at a member the walk does not descend into adds it if it is a
      scenario class, and nothing otherwise. */
  lemma FoundAfterMember(graph: ModuleGraph, visitedBelow: set<string>, members: seq<Member>, i: nat, found: set<string>)
    requires i < |members|
    requires found == ClassesIn(graph, visitedBelow) + ClassesOf(members[..i])
    ensures IsScenarioClass(members[i]) ==>
      found + {members[i].fullName} == ClassesIn(graph, visitedBelow) + ClassesOf(members[..i + 1])
    ensures !IsScenarioClass(members[i]) ==> found == ClassesIn(graph, visitedBelow) + ClassesOf(members[..i + 1])
  {
    assert members[..i + 1] == members[..i] + [members[i]];
    ClassesOfSnoc(members[..i], members[i]);
  }

  /** After looking at member `i`, every module entered among the first
      `i + 1` members has been visited. */
  lemma EnteredAfterStep(members: seq<Member>, i: nat, before: set<string>, after: set<string>)
    requires i < |members| && before <= after
    requires forall k :: 0 <= k < i && Enters(members[k]) ==> members[k].name in before
    requires Enters(members[i]) ==> members[i].name in after
    ensures forall k :: 0 <= k < i + 1 && Enters(members[k]) ==> members[k].name in after
  {
  }

  /** The modules visited below `moduleName` after a descent: those before
      it and those the descent visited. */
  lemma DescentSplits(alreadyChecked: set<string>, moduleName: string, child: string, before: set<string>, after: set<string>)
    requires alreadyChecked + {moduleName} <= before <= after
    requires child !in before && child in after
    ensures (before - alreadyChecked - {moduleName}) + (after - before + {child}) == after - alreadyChecked - {moduleName}
  {
  }

  /** Visiting more modules keeps every earlier edge inside. */
  lemma EdgesAfterDescent(graph: ModuleGraph, done: set<string>, before: set<string>, entered: set<string>, after: set<string>)
    requires before <= after
    requires EdgesInside(graph, done, before) && EdgesInside(graph, entered, after)
    ensures EdgesInside(graph, done + entered, after)
  {
  }

  /** The recursive walk. It enters exactly the modules reachable from
      `moduleName` without passing through `alreadyChecked`: every module it
      enters is in every closed set that contains `moduleName`, and the
      modules it enters have all their edges inside `checked`. It reports the
      scenario classes of `moduleName` and of those modules, sorted and
      without repetition. */
  method FindTestScenarios(graph: ModuleGraph, moduleName: string, alreadyChecked: set<string>)
    returns (result: seq<string>, checked: set<string>)
    ensures alreadyChecked + {moduleName} <= checked
    ensures forall name :: name in result <==> name in ClassesIn(graph, checked - alreadyChecked + {moduleName})
    ensures Sorted(result) && Distinct(result)
    ensures EdgesInside(graph, checked - alreadyChecked + {moduleName}, checked)
    ensures LeastVisit(graph, moduleName, alreadyChecked, checked)
    decreases graph.Keys - alreadyChecked, if moduleName in alreadyChecked then 1 else 0
  {
    checked := alreadyChecked + {moduleName};
    var found: set<string> := {};
    var members := MembersOf(graph, moduleName);
    var i := 0;
    while i < |members|
      invariant i <= |members|
      invariant Walked(graph, moduleName, alreadyChecked, i, checked, found)
    {
      var member := members[i];
      if Enters(member) && member.name !in checked {
        var before := checked;
        assert moduleName in graph.Keys && moduleName in before;
        var descendants, after := FindTestScenarios(graph, member.name, before);
        var below := set name | name in descendants;
        WalkedAfterDescent(graph, moduleName, alreadyChecked, i, before, found, after, below);
        checked := after;
        found := found + below;
      } else {
        WalkedAfterMember(graph, moduleName, alreadyChecked, i, checked, found);
        if IsScenarioClass(member) {
          found := found + {member.fullName};
        }
      }
      i := i + 1;
    }
    assert i == |members|;
    WalkedAll(graph, moduleName, alreadyChecked, checked, found);
    result := SortedList(found);
  }

  /** What one call of the walk promises about its two results. */
  ghost predicate WalkResult(graph: ModuleGraph, moduleName: string, alreadyChecked: set<string>,
                             result: seq<string>, checked: set<string>)
  {
    && alreadyChecked + {moduleName} <= checked
    && (forall name :: name in result <==> name in ClassesIn(graph, checked - alreadyChecked + {moduleName}))
    && Sorted(result) && Distinct(result)
    && EdgesInside(graph, checked - alreadyChecked + {moduleName}, checked)
    && LeastVisit(graph, moduleName, alreadyChecked, checked)
  }

  /** The modules a walk visited form a set closed under entering modules
      outside those already checked. */
  lemma VisitedClosed(graph: ModuleGraph, moduleName: string, alreadyChecked: set<string>, checked: set<string>)
    requires alreadyChecked + {moduleName} <= checked
    requires EdgesInside(graph, checked - alreadyChecked + {moduleName}, checked)
    ensures ClosedAvoiding(graph, checked - alreadyChecked + {moduleName}, alreadyChecked)
  {
  }

  /** The contract of the walk pins down its results: any two pairs of
      results it allows for the same module graph, module and set of
      already-checked modules are equal, so the discovered list and the
      modules checked depend on nothing but the inputs. */
  lemma FindTestScenariosDeterministic(graph: ModuleGraph, moduleName: string, alreadyChecked: set<string>,
                                        result1: seq<string>, checked1: set<string>,
                                        result2: seq<string>, checked2: set<string>)
    requires WalkResult(graph, moduleName, alreadyChecked, result1, checked1)
    requires WalkResult(graph, moduleName, alreadyChecked, result2, checked2)
    ensures checked1 == checked2 && result1 == result2
  {
    var visited1 := checked1 - alreadyChecked + {moduleName};
    var visited2 := checked2 - alreadyChecked + {moduleName};
    VisitedClosed(graph, moduleName, alreadyChecked, checked1);
    VisitedClosed(graph, moduleName, alreadyChecked, checked2);
    assert checked2 - alreadyChecked <= visited1;
    assert checked1 - alreadyChecked <= visited2;
    // `moduleName` is either already checked or visited by both walks
    assert checked2 - alreadyChecked <= checked1 - alreadyChecked;
    assert checked1 - alreadyChecked <= checked2 - alreadyChecked;
    assert checked1 == alreadyChecked + (checked1 - alreadyChecked);
    assert checked2 == alreadyChecked + (checked2 - alreadyChecked);
    SortedUnique(result1, result2);
  }

  // ----- The final `list(...)` and `sort(key=fullname)` ---------------------

  predicate Sorted(s: seq<string>)
  {
    forall i, j :: 0 <= i < j < |s| ==> LessEq(s[i], s[j])
  }

  predicate Distinct(s: seq<string>)
  {
    forall i, j :: 0 <= i < j < |s| ==> s[i] != s[j]
  }

  /** `result = list(test_scenarios)` followed by the sort: the set's
      elements, each once, in order. */
  method SortedList(found: set<string>) returns (result: seq<string>)
    ensures Sorted(result) && Distinct(result)
    ensures forall name :: name in result <==> name in found
  {
    var listed: seq<string> := [];
    var rest := found;
    while rest != {}
      invariant forall name :: name in found <==> name in listed || name in rest
      invariant forall name :: name in listed ==> name !in rest
      invariant Distinct(listed)
      decreases rest
    {
      var name :| name in rest;
      listed := listed + [name];
      rest := rest - {name};
    }
    result := SortNames(listed);
    DistinctPermutation(listed, result);
  }

  /** A name no greater than every element of a sorted list can go in front. */
  lemma ConsSorted(h: string, t: seq<string>)
    requires Sorted(t) && forall y :: y in t ==> LessEq(h, y)
    ensures Sorted([h] + t)
  {
    forall i, j | 0 <= i < j < |[h] + t| ensures LessEq(([h] + t)[i], ([h] + t)[j]) {
      assert ([h] + t)[j] == t[j - 1];
      if i > 0 {
        assert ([h] + t)[i] == t[i - 1];
      }
    }
  }

  /** Insert `x` into the sorted list `s`, before the first element not below it. */
  function Insert(x: string, s: seq<string>): (r: seq<string>)
    requires Sorted(s)
    ensures Sorted(r) && multiset(r) == multiset(s) + multiset{x}
  {
    if |s| == 0 then [x]
    else if LessEq(x, s[0]) then
      SortedHeadBound(x, s);
      ConsSorted(x, s);
      [x] + s
    else
      LessEqTotal(x, s[0]);
      SortedTailBound(s);
      var tail := Insert(x, s[1..]);
      BoundAfterInsert(s[0], x, s[1..], tail);
      ConsSorted(s[0], tail);
      assert s == [s[0]] + s[1..];
      [s[0]] + tail
  }

  /** A name no greater than the head of a sorted list is no greater than any of it. */
  lemma SortedHeadBound(x: string, s: seq<string>)
    requires Sorted(s) && |s| > 0 && LessEq(x, s[0])
    ensures forall y :: y in s ==> LessEq(x, y)
  {
    forall y | y in s ensures LessEq(x, y) {
      var j :| 0 <= j < |s| && s[j] == y;
      if j > 0 {
        LessEqTransitive(x, s[0], s[j]);
      }
    }
  }

  /** The head of a sorted list is no greater than anything in its tail. */
  lemma SortedTailBound(s: seq<string>)
    requires Sorted(s) && |s| > 0
    ensures Sorted(s[1..]) && forall y :: y in s[1..] ==> LessEq(s[0], y)
  {
    forall y | y in s[1..] ensures LessEq(s[0], y) {
      var j :| 0 <= j < |s[1..]| && s[1..][j] == y;
      assert s[j + 1] == y;
    }
  }

  /** A lower bound of `t` and of `x` bounds `t` with `x` inserted. */
  lemma BoundAfterInsert(h: string, x: string, t: seq<string>, tail: seq<string>)
    requires LessEq(h, x) && forall y :: y in t ==> LessEq(h, y)
    requires multiset(tail) == multiset(t) + multiset{x}
    ensures forall y :: y in tail ==> LessEq(h, y)
  {
    forall y | y in tail ensures LessEq(h, y) {
      assert y in multiset(tail);
      if y != x {
        assert y in multiset(t);
      }
    }
  }

  /** Insertion sort of a list of names. */
  function SortNames(s: seq<string>): (r: seq<string>)
    ensures Sorted(r) && multiset(r) == multiset(s)
  {
    if |s| == 0 then []
    else
      assert s == s[..|s| - 1] + [s[|s| - 1]];
      Insert(s[|s| - 1], SortNames(s[..|s| - 1]))
  }

  /** A reordering of a list without repetitions has none, and keeps its elements. */
  lemma DistinctPermutation(a: seq<string>, b: seq<string>)
    requires Distinct(a) && multiset(a) == multiset(b)
    ensures Distinct(b) && forall x :: x in a <==> x in b
  {
    forall x ensures x in a <==> x in b {
      assert x in a <==> x in multiset(a);
      assert x in b <==> x in multiset(b);
    }
    forall i, j | 0 <= i < j < |b| ensures b[i] != b[j] {
      if b[i] == b[j] {
        assert multiset(b)[b[i]] >= 2 by {
          assert b == b[..i] + [b[i]] + b[i + 1..j] + [b[j]] + b[j + 1..];
        }
        DistinctCountsOne(a, b[i]);
      }
    }
  }

  lemma {:induction false} DistinctCountsOne(a: seq<string>, x: string)
    requires Distinct(a)
    ensures multiset(a)[x] <= 1
  {
    if |a| > 0 {
      var init := a[..|a| - 1];
      assert a == init + [a[|a| - 1]];
      assert Distinct(init);
      DistinctCountsOne(init, x);
      if x == a[|a| - 1] {
        assert x !in init;
      }
    }
  }

  /** The order of `list(test_scenarios)` does not matter: two sorted lists
      without repetitions that hold the same names are the same list. */
  lemma {:induction false} SortedUnique(a: seq<string>, b: seq<string>)
    requires Sorted(a) && Distinct(a) && Sorted(b) && Distinct(b)
    requires forall x :: x in a <==> x in b
    ensures a == b
  {
    SameLength(a, b);
    if |a| > 0 {
      assert a[0] in b && b[0] in a;
      LessEqReflexive(a[0]);
      LessEqReflexive(b[0]);
      assert LessEq(a[0], b[0]) by {
        var k :| 0 <= k < |a| && a[k] == b[0];
      }
      assert LessEq(b[0], a[0]) by {
        var k :| 0 <= k < |b| && b[k] == a[0];
      }
      LessEqAntisymmetric(a[0], b[0]);
      forall x ensures x in a[1..] <==> x in b[1..] {
        if x in a[1..] {
          var k :| 0 <= k < |a[1..]| && a[1..][k] == x;
          assert a[k + 1] == x && x != a[0];
          assert x in a;
          assert x in b;
          var m :| 0 <= m < |b| && b[m] == x;
          assert m != 0 && b[1..][m - 1] == x;
        }
        if x in b[1..] {
          var k :| 0 <= k < |b[1..]| && b[1..][k] == x;
          assert b[k + 1] == x && x != b[0];
          assert x in b;
          assert x in a;
          var m :| 0 <= m < |a| && a[m] == x;
          assert m != 0 && a[1..][m - 1] == x;
        }
      }
      SortedUnique(a[1..], b[1..]);
      assert a == [a[0]] + a[1..] && b == [b[0]] + b[1..];
    }
  }

  /** Two lists without repetitions that hold the same names are equally long. */
  lemma SameLength(a: seq<string>, b: seq<string>)
    requires Distinct(a) && Distinct(b)
    requires forall x :: x in a <==> x in b
    ensures |a| == |b|
  {
    forall x ensures multiset(a)[x] == multiset(b)[x] {
      DistinctCountsOne(a, x);
      DistinctCountsOne(b, x);
      assert x in a <==> x in multiset(a);
      assert x in b <==> x in multiset(b);
    }
    assert multiset(a) == multiset(b);
    assert |multiset(a)| == |a| && |multiset(b)| == |b|;
  }
}
