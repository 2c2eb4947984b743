/**
 * The component-level dependency graph (cmd/depGraph.go).
 *
 * Every package is labelled with the first component the policy places it
 * in, or "UNDEFINED". Walking each package's dependency tree, the walker
 * records an edge `"from" -> "to"` between the labels of a package and of
 * each direct dependency, unless the two labels are equal or one of them is
 * skipped; it only descends into a dependency whose edge it kept.
 */
module DepGraph {
  import TextUtil

  /** A node of a resolved dependency tree: a package name and its direct dependencies. */
  datatype Node = Node(name: string, deps: seq<Node>)

  /** What the policy's component lookup returns for a package name: the components and whether any was found. */
  datatype Components = Components(comps: seq<string>, ok: bool)

  /** Outcome of resolving the dependency tree of one selected package. */
  datatype NodeResolution = Resolved(root: Node) | Unresolved(cause: string)

  const Undefined := "UNDEFINED"

  /** The lookup never reports a package as found with an empty component list (the walker reads the first one). */
  ghost predicate LookupValid(lookup: string -> Components)
  {
    forall name :: lookup(name).ok ==> |lookup(name).comps| > 0
  }

  /** Reading a Go `map[string]bool`: a missing key reads as false. */
  predicate Skipped(toSkip: map<string, bool>, key: string)
  {
    key in toSkip && toSkip[key]
  }

  /** The labels a skip map marks as skipped: exactly the keys `Skipped` reads as true. */
  function SkipSet(toSkip: map<string, bool>): (s: set<string>)
    ensures forall k :: k in s <==> Skipped(toSkip, k)
  {
    set k | k in toSkip && toSkip[k]
  }

  /** `getNodeLabel`: the first component of the package, or "UNDEFINED" when it belongs to none. */
  function GetNodeLabel(name: string, lookup: string -> Components): (nodeLabel: string)
    requires LookupValid(lookup)
    ensures !lookup(name).ok ==> nodeLabel == Undefined
    ensures lookup(name).ok ==> nodeLabel == lookup(name).comps[0] && nodeLabel in lookup(name).comps
  {
    var c := lookup(name);
    if !c.ok then Undefined else c.comps[0]
  }

  /** `mustSkip`: an edge is dropped when it would be a self-loop or touches a skipped label. */
  function MustSkip(from: string, to: string, toSkip: map<string, bool>): (r: bool)
    ensures r <==> from == to || from in SkipSet(toSkip) || to in SkipSet(toSkip)
  {
    from == to || Skipped(toSkip, from) || Skipped(toSkip, to)
  }

  /** The text of an edge in the DOT output. */
  function EdgeString(from: string, to: string): string
  {
    "\"" + from + "\" -> \"" + to + "\""
  }

  /** The skip map built from the `--skip` flag: every comma-separated piece maps to true. */
  method BuildSkipSet(skip: string) returns (toSkip: map<string, bool>)
    ensures SkipSet(toSkip) == set piece | piece in TextUtil.Split(skip, ',')
    ensures forall k :: k in toSkip ==> toSkip[k]
    ensures skip == "" ==> SkipSet(toSkip) == {""}
  {
    toSkip := map[];
    var pieces := TextUtil.Split(skip, ',');
    for i := 0 to |pieces|
      invariant toSkip.Keys == set piece | piece in pieces[..i]
      invariant forall k :: k in toSkip ==> toSkip[k]
    {
      assert pieces[..i + 1] == pieces[..i] + [pieces[i]];
      toSkip := toSkip[pieces[i] := true];
    }
    assert pieces[..|pieces|] == pieces;
  }

  // ---------------------------------------------------------------------
  // The edges a walk adds
  // ---------------------------------------------------------------------

  /** The edges the walk from `p` adds. */
  function GraphEdges(p: Node, lookup: string -> Components, toSkip: map<string, bool>): set<string>
    requires LookupValid(lookup)
    decreases p, |p.deps| + 1
  {
    if Skipped(toSkip, GetNodeLabel(p.name, lookup)) then {}
    else DepsEdges(p, |p.deps|, lookup, toSkip)
  }

  /** The edges the walk from `p` adds while handling its first `k` dependencies. */
  function DepsEdges(p: Node, k: nat, lookup: string -> Components, toSkip: map<string, bool>): set<string>
    requires LookupValid(lookup)
    requires k <= |p.deps|
    decreases p, k
  {
    if k == 0 then {}
    else
      var d := p.deps[k - 1];
      var from, to := GetNodeLabel(p.name, lookup), GetNodeLabel(d.name, lookup);
      DepsEdges(p, k - 1, lookup, toSkip)
      + (if MustSkip(from, to, toSkip) then {} else {EdgeString(from, to)} + GraphEdges(d, lookup, toSkip))
  }

  /** An edge between two distinct labels, neither of them skipped. */
  ghost predicate CleanEdge(e: string, toSkip: map<string, bool>)
  {
    exists from, to :: e == EdgeString(from, to) && from != to && from !in SkipSet(toSkip) && to !in SkipSet(toSkip)
  }

  /** No edge of the set is a self-loop or touches a skipped label. */
  ghost predicate CleanEdges(edges: set<string>, toSkip: map<string, bool>)
  {
    forall e :: e in edges ==> CleanEdge(e, toSkip)
  }

  /** The edge set shared by all walks (`edges` in the source, a set of strings). */
  class EdgeSet {
    var edges: set<string>

    constructor ()
      ensures edges == {}
    {
      edges := {};
    }
  }

  /**
   * `writeDepsGraphRec`: adds the edges of the walk from `p` to `g`. Nothing
   * is removed; when the label of `p` is skipped nothing changes.
   */
  method WriteDepsGraphRec(p: Node, g: EdgeSet, lookup: string -> Components, toSkip: map<string, bool>)
    requires LookupValid(lookup)
    modifies g
    ensures g.edges == old(g.edges) + GraphEdges(p, lookup, toSkip)
    ensures Skipped(toSkip, GetNodeLabel(p.name, lookup)) ==> g.edges == old(g.edges)
    ensures CleanEdges(old(g.edges), toSkip) ==> CleanEdges(g.edges, toSkip)
    decreases p
  {
    forall e | e in GraphEdges(p, lookup, toSkip)
      ensures CleanEdge(e, toSkip)
    {
      GraphEdgesClean(p, lookup, toSkip, e);
    }
    var from := GetNodeLabel(p.name, lookup);
    if Skipped(toSkip, from) {
      return;
    }
    for i := 0 to |p.deps|
      invariant g.edges == old(g.edges) + DepsEdges(p, i, lookup, toSkip)
    {
      var d := p.deps[i];
      var to := GetNodeLabel(d.name, lookup);
      if !MustSkip(from, to, toSkip) {
        g.edges := g.edges + {EdgeString(from, to)};
        assert d in p.deps;
        WriteDepsGraphRec(d, g, lookup, toSkip);
      }
    }
  }

  /**
   * The loop of the `graph` command over the selected packages: each package
   * whose tree resolved is walked into one shared edge set; a package that
   * failed to resolve is passed over.
   */
  method WriteDepsGraph(trees: seq<NodeResolution>, lookup: string -> Components, toSkip: map<string, bool>)
    returns (edges: set<string>)
    requires LookupValid(lookup)
    ensures edges == AllEdges(trees, lookup, toSkip)
    ensures CleanEdges(edges, toSkip)
  {
    var g := new EdgeSet();
    for i := 0 to |trees|
      invariant g.edges == AllEdges(trees[..i], lookup, toSkip)
    {
      assert trees[..i + 1][..i] == trees[..i];
      match trees[i] {
        case Resolved(root) => WriteDepsGraphRec(root, g, lookup, toSkip);
        case Unresolved(_) =>
      }
    }
    assert trees[..|trees|] == trees;
    edges := g.edges;
    forall e | e in edges
      ensures CleanEdge(e, toSkip)
    {
      AllEdgesClean(trees, lookup, toSkip, e);
    }
  }

  /** The edges of all walks over the resolved trees. */
  function AllEdges(trees: seq<NodeResolution>, lookup: string -> Components, toSkip: map<string, bool>): set<string>
    requires LookupValid(lookup)
  {
    if trees == [] then {}
    else AllEdges(trees[..|trees| - 1], lookup, toSkip)
         + match trees[|trees| - 1] {
             case Resolved(root) => GraphEdges(root, lookup, toSkip)
             case Unresolved(_) => {}
           }
  }

  // ---------------------------------------------------------------------
  // Which nodes the walk expands, and what it records
  // ---------------------------------------------------------------------

  /** The nodes whose dependencies the walk from `p` goes through: it enters a dependency only over a kept edge. */
  ghost function Expanded(p: Node, lookup: string -> Components, toSkip: map<string, bool>): set<Node>
    requires LookupValid(lookup)
    decreases p, |p.deps| + 1
  {
    if Skipped(toSkip, GetNodeLabel(p.name, lookup)) then {}
    else {p} + ExpandedDeps(p, |p.deps|, lookup, toSkip)
  }

  ghost function ExpandedDeps(p: Node, k: nat, lookup: string -> Components, toSkip: map<string, bool>): set<Node>
    requires LookupValid(lookup)
    requires k <= |p.deps|
    decreases p, k
  {
    if k == 0 then {}
    else
      var d := p.deps[k - 1];
      ExpandedDeps(p, k - 1, lookup, toSkip)
      + (if MustSkip(GetNodeLabel(p.name, lookup), GetNodeLabel(d.name, lookup), toSkip) then {} else Expanded(d, lookup, toSkip))
  }

  /** A kept edge out of an expanded node. */
  ghost predicate KeptEdge(u: Node, v: Node, lookup: string -> Components, toSkip: map<string, bool>)
    requires LookupValid(lookup)
  {
    v in u.deps && !MustSkip(GetNodeLabel(u.name, lookup), GetNodeLabel(v.name, lookup), toSkip)
  }

  /**
   * Every recorded edge is `"<from>" -> "<to>"` for an expanded node `u` and
   * one of its direct dependencies `v`, over a kept edge.
   */
  lemma {:induction false} GraphEdgesSound(p: Node, lookup: string -> Components, toSkip: map<string, bool>, e: string)
    requires LookupValid(lookup)
    requires e in GraphEdges(p, lookup, toSkip)
    ensures exists u, v :: u in Expanded(p, lookup, toSkip) && KeptEdge(u, v, lookup, toSkip)
                           && e == EdgeString(GetNodeLabel(u.name, lookup), GetNodeLabel(v.name, lookup))
    decreases p, |p.deps| + 1
  {
    DepsEdgesSound(p, |p.deps|, lookup, toSkip, e);
  }

  lemma {:induction false} DepsEdgesSound(p: Node, k: nat, lookup: string -> Components, toSkip: map<string, bool>, e: string)
    requires LookupValid(lookup)
    requires k <= |p.deps|
    requires !Skipped(toSkip, GetNodeLabel(p.name, lookup))
    requires e in DepsEdges(p, k, lookup, toSkip)
    ensures exists u, v :: u in Expanded(p, lookup, toSkip) && KeptEdge(u, v, lookup, toSkip)
                           && e == EdgeString(GetNodeLabel(u.name, lookup), GetNodeLabel(v.name, lookup))
    decreases p, k
  {
    var d := p.deps[k - 1];
    var from, to := GetNodeLabel(p.name, lookup), GetNodeLabel(d.name, lookup);
    ExpandedDepsGrow(p, k, lookup, toSkip);
    if e in DepsEdges(p, k - 1, lookup, toSkip) {
      DepsEdgesSound(p, k - 1, lookup, toSkip, e);
    } else if e == EdgeString(from, to) {
      assert p in Expanded(p, lookup, toSkip) && KeptEdge(p, d, lookup, toSkip);
    } else {
      assert !MustSkip(from, to, toSkip) && e in GraphEdges(d, lookup, toSkip);
      GraphEdgesSound(d, lookup, toSkip, e);
      assert Expanded(d, lookup, toSkip) <= ExpandedDeps(p, k, lookup, toSkip);
    }
  }

  /** Handling more dependencies only expands more nodes. */
  lemma {:induction false} ExpandedDepsGrow(p: Node, k: nat, lookup: string -> Components, toSkip: map<string, bool>)
    requires LookupValid(lookup)
    requires k <= |p.deps|
    requires !Skipped(toSkip, GetNodeLabel(p.name, lookup))
    ensures ExpandedDeps(p, k, lookup, toSkip) <= Expanded(p, lookup, toSkip)
    decreases |p.deps| - k
  {
    if k < |p.deps| {
      ExpandedDepsGrow(p, k + 1, lookup, toSkip);
    }
  }

  /** Conversely, every kept edge out of an expanded node is recorded. */
  lemma {:induction false} GraphEdgesComplete(p: Node, lookup: string -> Components, toSkip: map<string, bool>, u: Node, v: Node)
    requires LookupValid(lookup)
    requires u in Expanded(p, lookup, toSkip) && KeptEdge(u, v, lookup, toSkip)
    ensures EdgeString(GetNodeLabel(u.name, lookup), GetNodeLabel(v.name, lookup)) in GraphEdges(p, lookup, toSkip)
    decreases p, |p.deps| + 1
  {
    if u == p {
      var i :| 0 <= i < |p.deps| && p.deps[i] == v;
      DepsEdgesGrow(p, i + 1, lookup, toSkip);
    } else {
      DepsEdgesComplete(p, |p.deps|, lookup, toSkip, u, v);
    }
  }

  lemma {:induction false} DepsEdgesComplete(p: Node, k: nat, lookup: string -> Components, toSkip: map<string, bool>, u: Node, v: Node)
    requires LookupValid(lookup)
    requires k <= |p.deps|
    requires !Skipped(toSkip, GetNodeLabel(p.name, lookup))
    requires u in ExpandedDeps(p, k, lookup, toSkip) && KeptEdge(u, v, lookup, toSkip)
    ensures EdgeString(GetNodeLabel(u.name, lookup), GetNodeLabel(v.name, lookup)) in DepsEdges(p, k, lookup, toSkip)
    decreases p, k
  {
    var d := p.deps[k - 1];
    if u in ExpandedDeps(p, k - 1, lookup, toSkip) {
      DepsEdgesComplete(p, k - 1, lookup, toSkip, u, v);
    } else {
      assert u in Expanded(d, lookup, toSkip);
      GraphEdgesComplete(d, lookup, toSkip, u, v);
    }
  }

  /** Handling more dependencies only records more edges. */
  lemma {:induction false} DepsEdgesGrow(p: Node, k: nat, lookup: string -> Components, toSkip: map<string, bool>)
    requires LookupValid(lookup)
    requires k <= |p.deps|
    requires !Skipped(toSkip, GetNodeLabel(p.name, lookup))
    ensures DepsEdges(p, k, lookup, toSkip) <= GraphEdges(p, lookup, toSkip)
    decreases |p.deps| - k
  {
    if k < |p.deps| {
      DepsEdgesGrow(p, k + 1, lookup, toSkip);
    }
  }

  /** No recorded edge is a self-loop or touches a skipped label. */
  lemma GraphEdgesClean(p: Node, lookup: string -> Components, toSkip: map<string, bool>, e: string)
    requires LookupValid(lookup)
    requires e in GraphEdges(p, lookup, toSkip)
    ensures CleanEdge(e, toSkip)
  {
    GraphEdgesSound(p, lookup, toSkip, e);
    var u, v :| u in Expanded(p, lookup, toSkip) && KeptEdge(u, v, lookup, toSkip)
                && e == EdgeString(GetNodeLabel(u.name, lookup), GetNodeLabel(v.name, lookup));
    assert !MustSkip(GetNodeLabel(u.name, lookup), GetNodeLabel(v.name, lookup), toSkip);
  }

  /** Over all selected packages, the emitted edge set has no self-loop and no edge touching a skipped label. */
  lemma {:induction false} AllEdgesClean(trees: seq<NodeResolution>, lookup: string -> Components, toSkip: map<string, bool>, e: string)
    requires LookupValid(lookup)
    requires e in AllEdges(trees, lookup, toSkip)
    ensures CleanEdge(e, toSkip)
  {
    var init := trees[..|trees| - 1];
    if e in AllEdges(init, lookup, toSkip) {
      AllEdgesClean(init, lookup, toSkip, e);
    } else {
      match trees[|trees| - 1] {
        case Resolved(root) => GraphEdgesClean(root, lookup, toSkip, e);
        case Unresolved(_) => assert false;
      }
    }
  }

  // ---------------------------------------------------------------------
  // Examples
  // ---------------------------------------------------------------------

  /** A lookup placing packages a and a2 in component A, b in B and c in C; others in none. */
  function ExampleLookup(name: string): Components
  {
    if name == "a" || name == "a2" then Components(["A"], true)
    else if name == "b" then Components(["B"], true)
    else if name == "c" then Components(["C"], true)
    else Components([], false)
  }

  /** a depends on b and c, b on c; with B skipped the only edge is A -> C. */
  lemma SkipExample()
    ensures LookupValid(ExampleLookup)
    ensures GraphEdges(Node("a", [Node("b", [Node("c", [])]), Node("c", [])]), ExampleLookup, map["B" := true])
         == {EdgeString("A", "C")}
  {
    var c := Node("c", []);
    var b := Node("b", [c]);
    var a := Node("a", [b, c]);
    var toSkip := map["B" := true];
    assert GraphEdges(c, ExampleLookup, toSkip) == {};
    assert DepsEdges(a, 1, ExampleLookup, toSkip) == {};
  }

  /**
   * The walk does not enter a dependency in its own component: from a through
   * a2 (both in A) to c (in C), no edge A -> C is recorded, although a2 itself
   * depends on c. A package with no component gets the label "UNDEFINED".
   */
  lemma SameComponentNotEntered()
    ensures LookupValid(ExampleLookup)
    ensures GraphEdges(Node("a", [Node("a2", [Node("c", [])])]), ExampleLookup, map[]) == {}
    ensures GraphEdges(Node("a2", [Node("c", [])]), ExampleLookup, map[]) == {EdgeString("A", "C")}
    ensures GraphEdges(Node("a", [Node("ext/z", [])]), ExampleLookup, map[]) == {EdgeString("A", Undefined)}
  {
  }
}
