// The dependency graph of cmd/sprocket/compiler.go: a heap of node objects, each with its
// dependencies and its dependents, edited in place.
module SprocketGraphs {
  import opened ByteStrings
  import opened DependencyGraphs

  /** The pieces between '@' characters, empty ones included. */
  function Pieces(s: string): (parts: seq<string>)
    ensures parts != []
    decreases |s|
  {
    var i := FirstIndex(s, '@');
    if i == -1 then [s] else [s[..i]] + Pieces(s[i + 1..])
  }

  function ParseDependencyKey(key: string): seq<string> {
    if key == "latest" then []
    else if |Pieces(key)| != 2 then [] else Pieces(key)
  }

  /** Keys of the form module@version with no further '@'. */
  predicate WellFormed(key: string) {
    |ParseDependencyKey(key)| == 2
  }

  lemma {:induction false} PieceCount(s: string)
    ensures |Pieces(s)| == 1 <==> '@' !in s
    ensures '@' !in s ==> Pieces(s) == [s]
  {
  }

  lemma PiecesAround(m: string, rest: string)
    requires '@' !in m
    ensures Pieces(m + ['@'] + rest) == [m] + Pieces(rest)
  {
    SplitAt(m, '@', rest);
  }

  lemma {:induction false} TwoPieces(s: string)
    requires |Pieces(s)| == 2
    ensures '@' !in Pieces(s)[0] && '@' !in Pieces(s)[1] && s == Pieces(s)[0] + ['@'] + Pieces(s)[1]
  {
    PieceCount(s);
    hide Pieces;
    var i := FirstIndex(s, '@');
    hide FirstIndex;
    var m, rest := s[..i], s[i + 1..];
    assert s == m + ['@'] + rest;
    PiecesAround(m, rest);
    PieceCount(rest);
  }

  lemma ParsedKeyRebuilds(key: string)
    requires WellFormed(key)
    ensures ModuleVersionKey(ParseDependencyKey(key)[0], ParseDependencyKey(key)[1]) == key
    ensures '@' !in ParseDependencyKey(key)[0] && '@' !in ParseDependencyKey(key)[1]
  {
    hide Pieces;
    TwoPieces(key);
  }

  lemma PlainNamesParse(m: string, v: string)
    requires '@' !in m && '@' !in v
    ensures ParseDependencyKey(ModuleVersionKey(m, v)) == [m, v]
  {
    hide Pieces;
    assert ModuleVersionKey(m, v) == m + ['@'] + v;
    PiecesAround(m, v);
    PieceCount(v);
    assert ModuleVersionKey(m, v)[|m|] == '@' && '@' !in "latest";
  }

  datatype Entry = Entry(moduleName: string, version: string, dependencies: set<string>, dependents: set<string>)

  type View = map<string, Entry>

  class DependencyNode {
    const moduleName: string
    const version: string
    var dependencies: set<string>
    var dependents: set<string>

    constructor (moduleName: string, version: string)
      ensures View() == Entry(moduleName, version, {}, {})
    {
      this.moduleName, this.version := moduleName, version;
      dependencies, dependents := {}, {};
    }

    ghost function View(): Entry
      reads this
    {
      Entry(moduleName, version, dependencies, dependents)
    }
  }

  function Created(g: View, key: string, m: string, v: string): View {
    if key in g then g else g[key := Entry(m, v, {}, {})]
  }

  /** key no longer stands among the dependents of the given keys. */
  function Unlinked(g: View, key: string, from: set<string>): View {
    map n | n in g :: if n in from then g[n].(dependents := g[n].dependents - {key}) else g[n]
  }

  /** One more dependency for key; the node of a well-formed dependency is created when missing. */
  function Linked(g: View, key: string, dep: string): View
    requires key in g
  {
    var g1 := g[key := g[key].(dependencies := g[key].dependencies + {dep})];
    var parts := ParseDependencyKey(dep);
    var g2 := if |parts| == 2 then Created(g1, dep, parts[0], parts[1]) else g1;
    if dep in g2 then g2[dep := g2[dep].(dependents := g2[dep].dependents + {key})] else g2
  }

  function LinkedAll(g: View, key: string, deps: seq<string>): (r: View)
    requires key in g
    ensures key in r
  {
    if deps == [] then g else Linked(LinkedAll(g, key, deps[..|deps| - 1]), key, deps[|deps| - 1])
  }

  function WithoutDependencies(g: View, key: string): View
    requires key in g
  {
    var cleared := Unlinked(g, key, g[key].dependencies);
    cleared[key := cleared[key].(dependencies := {})]
  }

  function AddedNode(g: View, m: string, v: string, deps: seq<string>): View {
    var key := ModuleVersionKey(m, v);
    LinkedAll(WithoutDependencies(Created(g, key, m, v), key), key, deps)
  }

  /** key no longer stands among the dependents of n. */
  function Withdrawn(g: View, key: string, n: string): View {
    if n in g then g[n := g[n].(dependents := g[n].dependents - {key})] else g
  }

  lemma UnlinkedNothing(g: View, key: string)
    ensures Unlinked(g, key, {}) == g
  {
  }

  lemma UnlinkedOneMore(g: View, key: string, from: set<string>, n: string)
    requires n in from
    ensures Unlinked(g, key, from) == Withdrawn(Unlinked(g, key, from - {n}), key, n)
  {
  }

  class SprocketGraph {
    var nodes: map<string, DependencyNode>

    ghost predicate Valid()
      reads this
    {
      forall j, k | j in nodes && k in nodes && j != k :: nodes[j] != nodes[k]
    }

    ghost function View(): View
      reads this, nodes.Values
    {
      map k | k in nodes :: nodes[k].View()
    }

    constructor ()
      ensures Valid() && View() == map[] && nodes == map[]
    {
      nodes := map[];
    }

    /** Creates the node of a key unless there is one. */
    method Create(key: string, moduleName: string, version: string)
      requires Valid()
      modifies this
      ensures Valid() && fresh(nodes.Values - old(nodes.Values)) && old(nodes.Values) <= nodes.Values
      ensures key in nodes && forall k | k in old(nodes) :: k in nodes && nodes[k] == old(nodes[k])
      ensures View() == Created(old(View()), key, moduleName, version)
    {
      if key !in nodes {
        var node := new DependencyNode(moduleName, version);
        nodes := nodes[key := node];
        assert forall n | n in old(nodes) :: nodes[n] == old(nodes[n]) && nodes[n] in nodes.Values;
      }
    }

    method SetDependencies(n: string, dependencies: set<string>)
      requires Valid() && n in nodes
      modifies nodes[n]
      ensures View() == old(View())[n := old(View())[n].(dependencies := dependencies)]
    {
      nodes[n].dependencies := dependencies;
    }

    method SetDependents(n: string, dependents: set<string>)
      requires Valid() && n in nodes
      modifies nodes[n]
      ensures View() == old(View())[n := old(View())[n].(dependents := dependents)]
    {
      nodes[n].dependents := dependents;
    }

    method Withdraw(key: string, n: string)
      requires Valid()
      modifies nodes.Values
      ensures View() == Withdrawn(old(View()), key, n)
    {
      if n in nodes {
        SetDependents(n, nodes[n].dependents - {key});
      }
    }

    /** Removes the key from the dependents of its dependencies, and its dependencies. */
    method Unlink(key: string)
      requires Valid() && key in nodes
      modifies nodes.Values
      ensures View() == WithoutDependencies(old(View()), key)
    {
      hide Unlinked, Withdrawn;
      var dependencies := nodes[key].dependencies;
      var todo := dependencies;
      assert old(View())[key].dependencies == dependencies;
      UnlinkedNothing(View(), key);
      assert dependencies - todo == {};
      while todo != {}
        invariant todo <= dependencies
        invariant View() == Unlinked(old(View()), key, dependencies - todo)
      {
        ghost var before := todo;
        var depKey :| depKey in todo;
        todo := todo - {depKey};
        UnlinkedOneMore(old(View()), key, dependencies - todo, depKey);
        assert dependencies - todo - {depKey} == dependencies - before;
        Withdraw(key, depKey);
      }
      assert dependencies - todo == dependencies;
      SetDependencies(key, {});
    }

    /** Adds one dependency to the key, creating its node where that is possible. */
    method Link(key: string, dep: string)
      requires Valid() && key in nodes
      modifies this, nodes.Values
      ensures Valid() && fresh(nodes.Values - old(nodes.Values)) && old(nodes.Values) <= nodes.Values
      ensures key in nodes && View() == Linked(old(View()), key, dep)
    {
      hide ParseDependencyKey;
      SetDependencies(key, nodes[key].dependencies + {dep});
      var parts := ParseDependencyKey(dep);
      if |parts| == 2 {
        Create(dep, parts[0], parts[1]);
      }
      if dep in nodes {
        SetDependents(dep, nodes[dep].dependents + {key});
      }
    }

    method AddNode(moduleName: string, version: string, dependencies: seq<string>)
      requires Valid()
      modifies this, nodes.Values
      ensures Valid() && fresh(nodes.Values - old(nodes.Values)) && old(nodes.Values) <= nodes.Values
      ensures View() == AddedNode(old(View()), moduleName, version, dependencies)
    {
      hide Linked, WithoutDependencies;
      var key := ModuleVersionKey(moduleName, version);
      Create(key, moduleName, version);
      Unlink(key);
      ghost var cleared := View();
      for i := 0 to |dependencies|
        invariant Valid() && fresh(nodes.Values - old(nodes.Values)) && old(nodes.Values) <= nodes.Values
        invariant key in nodes && View() == LinkedAll(cleared, key, dependencies[..i])
      {
        assert dependencies[..i + 1][..i] == dependencies[..i];
        Link(key, dependencies[i]);
      }
      assert dependencies[..|dependencies|] == dependencies;
    }
  }
}
