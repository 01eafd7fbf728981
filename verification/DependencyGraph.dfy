// The dependency graph of pkg/dependencies/graph.go: nodes keyed by "module@version" and an
// edge list per node, updated in place by AddNode.
module DependencyGraphs {
  import opened Wrappers
  import opened Reachability

  datatype Kind = Direct | Transitive

  datatype Dependency = Dependency(moduleName: string, version: string, kind: Kind)

  datatype Node = Node(moduleName: string, version: string, dependencies: seq<Dependency>)

  function ModuleVersionKey(moduleName: string, version: string): string {
    moduleName + "@" + version
  }

  function KeyOf(d: Dependency): string {
    ModuleVersionKey(d.moduleName, d.version)
  }

  function KeysOf(ds: seq<Dependency>): (ks: seq<string>)
    ensures |ks| == |ds|
    ensures forall i | 0 <= i < |ds| :: ks[i] == KeyOf(ds[i])
  {
    seq(|ds|, i requires 0 <= i < |ds| => KeyOf(ds[i]))
  }

  lemma KeyMembership(ds: seq<Dependency>, d: Dependency)
    requires d in ds
    ensures KeyOf(d) in KeysOf(ds)
  {
    var i :| 0 <= i < |ds| && ds[i] == d;
    assert KeysOf(ds)[i] == KeyOf(d);
  }

  lemma NoKeys()
    ensures KeysOf([]) == []
  {
  }

  lemma KeysAppend(ds: seq<Dependency>, d: Dependency)
    ensures KeysOf(ds + [d]) == KeysOf(ds) + [ModuleVersionKey(d.moduleName, d.version)]
  {
  }

  /** Keys are unambiguous as long as module names do not contain '@'. */
  lemma KeyInjective(m: string, v: string, m': string, v': string)
    requires ModuleVersionKey(m, v) == ModuleVersionKey(m', v')
    requires '@' !in m && '@' !in m'
    ensures m == m' && v == v'
  {
    var k := ModuleVersionKey(m, v);
    assert k[|m|] == '@' && k[|m'|] == '@';
    assert forall i | 0 <= i < |m| :: k[i] == m[i];
    assert forall i | 0 <= i < |m'| :: k[i] == m'[i];
    assert m == k[..|m|] && m' == k[..|m'|];
    assert v == k[|m| + 1..] && v' == k[|m'| + 1..];
  }

  /** The edge lists as a relation between keys. */
  ghost function AdjOf(edges: map<string, seq<string>>): Digraph<string> {
    map k | k in edges :: set d | d in edges[k]
  }

  /** The loop of AddNode over the dependencies. */
  method TargetsOf(deps: seq<Dependency>) returns (targets: seq<string>)
    ensures targets == KeysOf(deps)
  {
    hide ModuleVersionKey;
    targets := [];
    for i := 0 to |deps|
      invariant targets == KeysOf(deps)[..i]
    {
      targets := targets + [KeyOf(deps[i])];
    }
  }

  /** Nodes are filed under their own keys, and the edges are the keys of their dependencies. */
  ghost predicate EdgesMatch(nodes: map<string, Node>, edges: map<string, seq<string>>) {
    && nodes.Keys == edges.Keys
    && (forall k | k in nodes :: ModuleVersionKey(nodes[k].moduleName, nodes[k].version) == k)
    && (forall k | k in nodes :: edges[k] == KeysOf(nodes[k].dependencies))
  }

  class DependencyGraph {
    var nodes: map<string, Node>
    var edges: map<string, seq<string>>

    ghost predicate Valid()
      reads this
    {
      EdgesMatch(nodes, edges)
    }

    ghost function Adj(): Digraph<string>
      reads this
    {
      AdjOf(edges)
    }

    constructor ()
      ensures Valid() && nodes == map[] && edges == map[]
    {
      nodes := map[];
      edges := map[];
    }

    method AddNode(moduleName: string, version: string, deps: seq<Dependency>)
      requires Valid()
      modifies this
      ensures Valid()
      ensures nodes == old(nodes)[ModuleVersionKey(moduleName, version) := Node(moduleName, version, deps)]
      ensures edges == old(edges)[ModuleVersionKey(moduleName, version) := KeysOf(deps)]
    {
      hide ModuleVersionKey, KeysOf;
      var key := ModuleVersionKey(moduleName, version);
      nodes := nodes[key := Node(moduleName, version, deps)];
      var targets := TargetsOf(deps);
      edges := edges[key := targets];
    }

    function GetNode(moduleName: string, version: string): Option<Node>
      reads this
    {
      var key := ModuleVersionKey(moduleName, version);
      if key in nodes then Some(nodes[key]) else None
    }

    function GetDependencies(moduleName: string, version: string): seq<Dependency>
      reads this
    {
      match GetNode(moduleName, version)
      case Some(node) => node.dependencies
      case None => []
    }

    /** The nodes with an edge to the target, each once, in the arbitrary order of a map traversal. */
    method GetDependents(moduleName: string, version: string) returns (dependents: seq<Dependency>)
      requires Valid()
      ensures Distinct(KeysOf(dependents))
      ensures forall k :: k in KeysOf(dependents) <==> Edge(Adj(), k, ModuleVersionKey(moduleName, version))
      ensures forall d | d in dependents :: d.kind == Direct && KeyOf(d) in nodes
                                            && d.moduleName == nodes[KeyOf(d)].moduleName
                                            && d.version == nodes[KeyOf(d)].version
    {
      var target := ModuleVersionKey(moduleName, version);
      dependents := [];
      var todo := edges.Keys;
      ghost var listed: seq<string> := [];
      while todo != {}
        invariant todo <= edges.Keys
        invariant listed == KeysOf(dependents) && Distinct(listed)
        invariant forall k :: k in listed <==> k in edges.Keys - todo && Edge(Adj(), k, target)
        invariant forall d | d in dependents :: d.kind == Direct && KeyOf(d) in nodes
                                                && d.moduleName == nodes[KeyOf(d)].moduleName
                                                && d.version == nodes[KeyOf(d)].version
      {
        var nodeKey :| nodeKey in todo;
        todo := todo - {nodeKey};
        if target in edges[nodeKey] {
          var node := nodes[nodeKey];
          assert nodeKey !in listed;
          dependents := dependents + [Dependency(node.moduleName, node.version, Direct)];
          listed := listed + [nodeKey];
        }
      }
    }
  }
}
