// What every sequence of AddNode calls keeps, and what GetDependentsTree returns.
module SprocketLaws {
  import opened DependencyGraphs
  import opened SprocketGraphs

  function DependenciesIn(g: View, n: string): set<string> {
    if n in g then g[n].dependencies else {}
  }

  function DependentsIn(g: View, n: string): set<string> {
    if n in g then g[n].dependents else {}
  }

  /** The dependents of a key are the keys that list it. */
  ghost predicate DependentsInverse(g: View) {
    forall n, k | n in g :: k in g[n].dependents <==> n in DependenciesIn(g, k)
  }

  /** Every dependency that can have a node has one. */
  ghost predicate DependenciesPresent(g: View) {
    forall k, d | k in g && d in g[k].dependencies && WellFormed(d) :: d in g
  }

  lemma LinkedAt(g: View, key: string, d: string, n: string)
    requires key in g
    ensures n in Linked(g, key, d) <==> n in g || (n == d && WellFormed(n))
    ensures n in Linked(g, key, d) ==>
              && Linked(g, key, d)[n].dependencies == DependenciesIn(g, n) + (if n == key then {d} else {})
              && Linked(g, key, d)[n].dependents == DependentsIn(g, n) + (if n == d then {key} else {})
  {
    hide ParseDependencyKey;
  }

  lemma {:induction false} LinkedAllAt(g: View, key: string, deps: seq<string>, n: string)
    requires key in g
    ensures n in LinkedAll(g, key, deps) <==> n in g || (n in deps && WellFormed(n))
    ensures n in LinkedAll(g, key, deps) ==>
              && LinkedAll(g, key, deps)[n].dependencies
                 == DependenciesIn(g, n) + (if n == key then set d | d in deps else {})
              && LinkedAll(g, key, deps)[n].dependents == DependentsIn(g, n) + (if n in deps then {key} else {})
  {
    hide WellFormed, Linked;
    if deps != [] {
      var rest, d := deps[..|deps| - 1], deps[|deps| - 1];
      assert deps == rest + [d];
      LinkedAllAt(g, key, rest, n);
      LinkedAt(LinkedAll(g, key, rest), key, d, n);
    }
  }

  /** What AddNode leaves at a key: dependencies replaced for the added key and kept for all others,
      the added key withdrawn from the dependents of its former dependencies and entered for the new. */
  lemma AddedNodeAt(g: View, m: string, v: string, deps: seq<string>, n: string)
    ensures n in AddedNode(g, m, v, deps) <==> n in g || n == ModuleVersionKey(m, v) || (n in deps && WellFormed(n))
    ensures n in AddedNode(g, m, v, deps) ==>
              && AddedNode(g, m, v, deps)[n].dependencies
                 == (if n == ModuleVersionKey(m, v) then set d | d in deps else DependenciesIn(g, n))
              && AddedNode(g, m, v, deps)[n].dependents
                 == DependentsIn(g, n)
                    - (if n in DependenciesIn(g, ModuleVersionKey(m, v)) then {ModuleVersionKey(m, v)} else {})
                    + (if n in deps then {ModuleVersionKey(m, v)} else {})
  {
    hide WellFormed, ModuleVersionKey, LinkedAll;
    var key := ModuleVersionKey(m, v);
    LinkedAllAt(WithoutDependencies(Created(g, key, m, v), key), key, deps, n);
  }

  lemma AddedNodeIs(g: View, m: string, v: string, deps: seq<string>)
    ensures forall n :: n in AddedNode(g, m, v, deps)
                        <==> n in g || n == ModuleVersionKey(m, v) || (n in deps && WellFormed(n))
    ensures forall n | n in AddedNode(g, m, v, deps) ::
              && AddedNode(g, m, v, deps)[n].dependencies
                 == (if n == ModuleVersionKey(m, v) then set d | d in deps else DependenciesIn(g, n))
              && AddedNode(g, m, v, deps)[n].dependents
                 == DependentsIn(g, n)
                    - (if n in DependenciesIn(g, ModuleVersionKey(m, v)) then {ModuleVersionKey(m, v)} else {})
                    + (if n in deps then {ModuleVersionKey(m, v)} else {})
  {
    hide WellFormed, ModuleVersionKey, AddedNode;
    forall n {
      AddedNodeAt(g, m, v, deps, n);
    }
  }

  /** AddNode keeps the two indexes inverse to each other exactly when it does not create the node of
      a key that is listed as a dependency already. */
  lemma AddNodeKeepsInverseIff(g: View, m: string, v: string, deps: seq<string>)
    requires DependentsInverse(g) && DependenciesPresent(g)
    ensures DependenciesPresent(AddedNode(g, m, v, deps))
    ensures DependentsInverse(AddedNode(g, m, v, deps))
       <==> ModuleVersionKey(m, v) in g || forall k | k in g :: ModuleVersionKey(m, v) !in g[k].dependencies
  {
    hide WellFormed, AddedNode, ModuleVersionKey;
    var key := ModuleVersionKey(m, v);
    var r := AddedNode(g, m, v, deps);
    AddedNodeIs(g, m, v, deps);
    if key in g || forall k | k in g :: key !in g[k].dependencies {
      forall n, k | n in r ensures k in r[n].dependents <==> n in DependenciesIn(r, k) {
        if n in g {
          assert k in g[n].dependents <==> n in DependenciesIn(g, k);
        } else if k in g && k != key {
          assert n in g[k].dependencies ==> n == key;
        }
      }
    }
    if k :| key !in g && k in g && key in g[k].dependencies {
      assert k !in r[key].dependents && key in DependenciesIn(r, k);
    }
  }

  datatype Addition = Addition(moduleName: string, version: string, dependencies: seq<string>)

  /** The graph after a series of AddNode calls. */
  function AddedAll(g: View, adds: seq<Addition>): View {
    if adds == [] then g
    else
      var a := adds[|adds| - 1];
      AddedNode(AddedAll(g, adds[..|adds| - 1]), a.moduleName, a.version, a.dependencies)
  }

  function BuiltBy(adds: seq<Addition>): View {
    AddedAll(map[], adds)
  }

  lemma AddedAllMore(g: View, adds: seq<Addition>, a: Addition)
    ensures AddedAll(g, adds + [a]) == AddedNode(AddedAll(g, adds), a.moduleName, a.version, a.dependencies)
    ensures AddedAll(g, []) == g
  {
    hide AddedNode;
    assert (adds + [a])[..|adds|] == adds;
  }

  ghost predicate PlainNames(adds: seq<Addition>) {
    forall a | a in adds :: '@' !in a.moduleName && '@' !in a.version
  }

  /** After any AddNode calls with names free of '@', re-adding included, Dependents is the inverse of Dependencies. */
  lemma {:induction false} BuiltIsInverse(adds: seq<Addition>)
    requires PlainNames(adds)
    ensures DependentsInverse(BuiltBy(adds)) && DependenciesPresent(BuiltBy(adds))
    ensures forall k | k in BuiltBy(adds) :: WellFormed(k)
  {
    hide AddedNode, WellFormed, ModuleVersionKey;
    if adds != [] {
      var n := |adds| - 1;
      var a := adds[n];
      assert a in adds && forall x | x in adds[..n] :: x in adds;
      BuiltIsInverse(adds[..n]);
      AddNodeKeepsInverseIff(BuiltBy(adds[..n]), a.moduleName, a.version, a.dependencies);
      AddedNodeIs(BuiltBy(adds[..n]), a.moduleName, a.version, a.dependencies);
      PlainKeyWellFormed(a.moduleName, a.version);
    }
  }

  lemma PlainKeyWellFormed(m: string, v: string)
    requires '@' !in m && '@' !in v
    ensures WellFormed(ModuleVersionKey(m, v))
  {
    PlainNamesParse(m, v);
  }

  /** Repeating an AddNode call changes nothing. */
  lemma AddNodeIdempotent(g: View, m: string, v: string, deps: seq<string>)
    ensures AddedNode(AddedNode(g, m, v, deps), m, v, deps) == AddedNode(g, m, v, deps)
  {
    var key := ModuleVersionKey(m, v);
    var r := AddedNode(g, m, v, deps);
    hide WellFormed, ModuleVersionKey;
    AddedNodeIs(g, m, v, deps);
    AddedNodeIs(r, m, v, deps);
    AddedNodeNames(r, m, v, deps);
    hide AddedNode;
    var r2 := AddedNode(r, m, v, deps);
    assert r2.Keys == r.Keys;
    forall n | n in r ensures r2[n] == r[n] {
      assert r2[n].dependents == r[n].dependents;
    }
  }

  /** AddNode never renames an existing node. */
  lemma AddedNodeNames(g: View, m: string, v: string, deps: seq<string>)
    ensures forall n | n in g :: n in AddedNode(g, m, v, deps)
                                 && AddedNode(g, m, v, deps)[n].moduleName == g[n].moduleName
                                 && AddedNode(g, m, v, deps)[n].version == g[n].version
  {
    var key := ModuleVersionKey(m, v);
    LinkedAllNames(WithoutDependencies(Created(g, key, m, v), key), key, deps);
  }

  lemma {:induction false} LinkedAllNames(g: View, key: string, deps: seq<string>)
    requires key in g
    ensures forall n | n in g :: n in LinkedAll(g, key, deps)
                                 && LinkedAll(g, key, deps)[n].moduleName == g[n].moduleName
                                 && LinkedAll(g, key, deps)[n].version == g[n].version
  {
    hide ParseDependencyKey;
    if deps != [] {
      LinkedAllNames(g, key, deps[..|deps| - 1]);
    }
  }

  /** Each node is filed under the key of its names. */
  ghost predicate NamedByKey(g: View) {
    forall n | n in g :: ModuleVersionKey(g[n].moduleName, g[n].version) == n
  }

  lemma {:induction false} LinkedAllNamed(g: View, key: string, deps: seq<string>)
    requires key in g && NamedByKey(g)
    ensures NamedByKey(LinkedAll(g, key, deps))
  {
    hide ParseDependencyKey, ModuleVersionKey;
    if deps != [] {
      var d := deps[|deps| - 1];
      LinkedAllNamed(g, key, deps[..|deps| - 1]);
      if |ParseDependencyKey(d)| == 2 {
        ParsedKeyRebuilds(d);
      }
    }
  }

  /** So it is after any AddNode calls, whatever the names. */
  lemma {:induction false} BuiltIsNamed(adds: seq<Addition>)
    ensures NamedByKey(BuiltBy(adds))
  {
    if adds != [] {
      var a := adds[|adds| - 1];
      var g, key := BuiltBy(adds[..|adds| - 1]), ModuleVersionKey(a.moduleName, a.version);
      BuiltIsNamed(adds[..|adds| - 1]);
      hide ModuleVersionKey;
      LinkedAllNamed(WithoutDependencies(Created(g, key, a.moduleName, a.version), key), key, a.dependencies);
    }
  }

  // ---- a key that has no node when it is listed

  const LISTING := Addition("x", "1", ["a@b@1"])

  const CREATING := Addition("a@b", "1", [])

  lemma ThreePieces()
    ensures !WellFormed("a@b@1") && ModuleVersionKey("a@b", "1") == "a@b@1" && ModuleVersionKey("x", "1") == "x@1"
    ensures "x@1" != "a@b@1"
  {
    hide Pieces;
    assert "a@b@1" == "a" + ['@'] + "b@1";
    PiecesAround("a", "b@1");
    assert "b@1"[1] == '@';
    PieceCount("b@1");
    assert |"x@1"| != |"a@b@1"|;
  }

  /** A dependency whose key has three pieces gets no node; adding the module it names creates one
      that does not know its dependent. */
  lemma LateNodeBreaksInverse()
    ensures BuiltBy([LISTING]) == AddedNode(map[], "x", "1", ["a@b@1"]) && DependentsInverse(BuiltBy([LISTING]))
    ensures !DependentsInverse(BuiltBy([LISTING, CREATING]))
  {
    ThreePieces();
    hide AddedNode, WellFormed, ModuleVersionKey;
    var one, both := [LISTING], [LISTING, CREATING];
    assert [] + [LISTING] == one && one + [CREATING] == both;
    AddedAllMore(map[], [], LISTING);
    AddedAllMore(map[], one, CREATING);
    hide AddedAll;
    assert ["a@b@1"][0] == "a@b@1";
    AddNodeKeepsInverseIff(map[], "x", "1", ["a@b@1"]);
    AddedNodeIs(map[], "x", "1", ["a@b@1"]);
    assert "a@b@1" !in BuiltBy(one) && "x@1" in BuiltBy(one) && "a@b@1" in BuiltBy(one)["x@1"].dependencies;
    AddNodeKeepsInverseIff(BuiltBy(one), "a@b", "1", []);
  }
}
