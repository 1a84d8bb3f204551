/** Erasing and replacing subtrees, as functions of the tables, and what they preserve. */
module GraphEdit {
  import opened Ir
  import opened Tables

  function Filter(s: seq<NodeId>, gone: set<NodeId>): seq<NodeId> {
    if s == [] then [] else (if s[0] in gone then [] else [s[0]]) + Filter(s[1..], gone)
  }

  lemma {:induction false} FilterFacts(s: seq<NodeId>, gone: set<NodeId>)
    ensures forall x :: x in Filter(s, gone) <==> x in s && x !in gone
    ensures NoDup(s) ==> NoDup(Filter(s, gone))
    ensures (forall x | x in s :: x !in gone) ==> Filter(s, gone) == s
  {
    if s != [] {
      FilterFacts(s[1..], gone);
      assert s == [s[0]] + s[1..];
      if NoDup(s) { FilterHead(s, gone); }
    }
  }

  lemma FilterHead(s: seq<NodeId>, gone: set<NodeId>)
    requires s != [] && NoDup(s) && (NoDup(s[1..]) ==> NoDup(Filter(s[1..], gone)))
    requires forall x :: x in Filter(s[1..], gone) <==> x in s[1..] && x !in gone
    ensures NoDup(s[1..]) && NoDup(Filter(s, gone))
  {
    assert s[0] !in s[1..];
  }

  /** The root chosen when the old one is gone: the first top-level form, else the least node id, else 0. */
  ghost function PickRoot(top: seq<NodeId>, ids: set<NodeId>): NodeId {
    if top != [] then top[0]
    else if ids == {} then 0
    else Least(ids)
  }

  ghost function Least(ids: set<NodeId>): (m: NodeId)
    requires ids != {}
    ensures m in ids && forall x | x in ids :: m <= x
  {
    HasLeast(ids);
    var m :| m in ids && forall x | x in ids :: m <= x;
    m
  }

  lemma HasLeast(ids: set<NodeId>)
    requires ids != {}
    ensures exists m :: m in ids && forall x | x in ids :: m <= x
  {
    var m := FindLeast(ids);
  }

  lemma {:induction false} FindLeast(ids: set<NodeId>) returns (m: NodeId)
    requires ids != {}
    ensures m in ids && forall x | x in ids :: m <= x
    decreases ids
  {
    m :| m in ids;
    var a, rest := m, ids - {m};
    if rest != {} {
      var b := FindLeast(rest);
      if b < m { m := b; }
    }
    assert forall x | x in ids :: x == a || x in rest;
  }

  /** The tables without the given nodes. */
  ghost function Drop(g: Tables, gone: set<NodeId>): Tables {
    var top, nodes := Filter(g.top, gone), g.nodes - gone;
    Tables(if g.root in gone then PickRoot(top, nodes.Keys) else g.root,
           nodes, g.parents - gone, g.spans - gone, g.internal - gone, top, g.topSet - gone, g.next)
  }

  /** A detached tree may be erased. */
  ghost predicate CanErase(g: Tables, id: NodeId) {
    id in g.nodes && ParentOf(g.parents, id) == None
  }

  // ---- Erasing -----------------------------------------------------------------------------------

  /** Outside a subtree nothing refers into it, but for the parent of its root. */
  lemma OutsideSubtree(g: Tables, a: NodeId, x: NodeId)
    requires Forest(g) && x in g.nodes && x !in Subtree(g, a)
    ensures forall c: NodeId | IsChild(g, x, c) :: c == a || c !in Subtree(g, a)
    ensures ParentOf(g.parents, x).Some? ==> ParentOf(g.parents, x).value !in Subtree(g, a)
  {
    hide Forest, IsUnder;
    forall c: NodeId | IsChild(g, x, c) && c != a ensures c !in Subtree(g, a) {
      ChildIsNode(g, x, c);
      UnderStep(g.parents, c, a);
    }
    UnderSelf(g.parents, x);
    if ParentOf(g.parents, x).Some? && x != a { UnderStep(g.parents, x, a); }
  }

  /** Erasing a detached tree keeps the forest. */
  lemma EraseKeepsForest(g: Tables, a: NodeId)
    requires Forest(g) && CanErase(g, a)
    ensures Forest(Drop(g, Subtree(g, a)))
  {
    EraseKeepsLinks(g, a);
    EraseKeepsMarks(g, a);
    DropAcyclic(g.parents, Drop(g, Subtree(g, a)).parents);
    hide ChildrenOk, LinksOk, MarksOk, TopOk, Acyclic;
  }

  lemma EraseKeepsLinks(g: Tables, a: NodeId)
    requires Forest(g) && CanErase(g, a)
    ensures var g2 := Drop(g, Subtree(g, a)); ChildrenOk(g2) && LinksOk(g2)
  {
    hide Acyclic, MarksOk, TopOk, IsUnder;
    var g2 := Drop(g, Subtree(g, a));
    UnderSelf(g.parents, a);
    forall p: NodeId, c: NodeId | IsChild(g2, p, c) ensures c in g2.nodes && ParentOf(g2.parents, c) == Some(p) {
      assert IsChild(g, p, c);
      OutsideSubtree(g, a, p);
    }
    forall c | c in g2.parents && g2.parents[c].Some? ensures IsChild(g2, g2.parents[c].value, c) {
      assert IsChild(g, g.parents[c].value, c);
      OutsideSubtree(g, a, c);
    }
  }

  lemma EraseKeepsMarks(g: Tables, a: NodeId)
    requires Forest(g)
    ensures var g2 := Drop(g, Subtree(g, a)); MarksOk(g2) && TopOk(g2)
  {
    hide Acyclic, ChildrenOk, LinksOk, IsUnder;
    FilterFacts(g.top, Subtree(g, a));
  }

  /** Forgetting parent links cannot close a cycle. */
  lemma DropAcyclic(m: ParentMap, m2: ParentMap)
    requires Acyclic(m)
    requires forall x | x in m2 && m2[x].Some? :: ParentOf(m, x) == m2[x]
    ensures Acyclic(m2)
  {
    forall x: NodeId, n: nat | n > 0 ensures Up(m2, x, n) != Some(x) {
      if Up(m2, x, n).Some? { UpSub(m, m2, x, n); }
    }
  }

  lemma {:induction false} UpSub(m: ParentMap, m2: ParentMap, x: NodeId, n: nat)
    requires forall x | x in m2 && m2[x].Some? :: ParentOf(m, x) == m2[x]
    requires Up(m2, x, n).Some?
    ensures Up(m, x, n) == Up(m2, x, n)
    decreases n
  {
    if n > 0 { UpSub(m, m2, ParentOf(m2, x).value, n - 1); }
  }

  /** Nodes outside an erased tree still denote what they denoted. */
  lemma EraseKeepsExpressions(g: Tables, a: NodeId, x: NodeId)
    requires Forest(g) && CanErase(g, a) && x in g.nodes && x !in Subtree(g, a)
    ensures SpecOf(Drop(g, Subtree(g, a)), x) == SpecOf(g, x)
  {
    hide Forest, SameOn, Subtree, SpecAt, SpecOf;
    var g2 := Drop(g, Subtree(g, a));
    EraseKeepsForest(g, a);
    EraseSameOn(g, a);
    var fuel := |g.nodes| + |g2.nodes| + 1;
    SpecFrame(g, g2, g2.nodes.Keys, x, fuel);
    SpecTerminates(g, x, fuel);
    SpecTerminates(g2, x, fuel);
  }

  lemma EraseSameOn(g: Tables, a: NodeId)
    requires Forest(g) && CanErase(g, a)
    ensures var g2 := Drop(g, Subtree(g, a)); SameOn(g, g2, g2.nodes.Keys)
  {
    hide Forest, Subtree;
    var g2 := Drop(g, Subtree(g, a));
    forall y, c | y in g2.nodes && c in g.nodes[y].Children() ensures c in g2.nodes {
      assert IsChild(g, y, c);
      ChildIsNode(g, y, c);
      OutsideSubtree(g, a, y);
    }
  }

  lemma EraseParentless(g: Tables, a: NodeId)
    requires Forest(g) && CanErase(g, a)
    ensures Parentless(Drop(g, Subtree(g, a))) == Parentless(g) - {a}
    ensures forall x | x in Parentless(g) && x != a :: x !in Subtree(g, a)
  {
    hide Forest, IsUnder;
    ParentKeys(g);
    UnderSelf(g.parents, a);
    forall x | x in Parentless(g) && x != a ensures x !in Subtree(g, a) { UnderStep(g.parents, x, a); }
  }

  /** What is left after erasing a root is under some other root. */
  lemma EraseLeavesRoot(g: Tables, a: NodeId, x: NodeId) returns (r: NodeId)
    requires Integrity(g) && CanErase(g, a) && x in g.nodes && x !in Subtree(g, a)
    ensures r in Roots(g) && r != a
  {
    hide Forest, IsUnder;
    UniqueRoot(g, x);
    r :| r in Roots(g) && IsUnder(g.parents, x, r);
  }

  /** Erasing a root of an accepted graph leaves an accepted graph. */
  lemma EraseKeepsIntegrity(g: Tables, a: NodeId)
    requires Integrity(g) && CanErase(g, a)
    ensures Integrity(Drop(g, Subtree(g, a)))
  {
    hide Forest, Subtree, Filter, NoDup;
    var g2 := Drop(g, Subtree(g, a));
    EraseKeepsForest(g, a);
    FilterFacts(g.top, Subtree(g, a));
    ParentKeys(g);
    EraseParentless(g, a);
    if x :| x in g2.nodes {
      var r := EraseLeavesRoot(g, a, x);
      assert r in Parentless(g2);
      assert a in Roots(g) && r in Roots(g);
      assert g.top != [];
      assert r in g2.top;
      assert SetOf(g2.top) == Parentless(g2);
      assert g2.root in g2.nodes by { assert g2.top[0] in SetOf(g2.top); }
    }
  }

  // ---- Replacing ---------------------------------------------------------------------------------

  function SwapId(x: NodeId, from: NodeId, to: NodeId): NodeId {
    if x == from then to else x
  }

  function SwapIds(s: seq<NodeId>, from: NodeId, to: NodeId): (r: seq<NodeId>)
    ensures |r| == |s| && forall i | 0 <= i < |s| :: r[i] == SwapId(s[i], from, to)
  {
    if s == [] then [] else [SwapId(s[0], from, to)] + SwapIds(s[1..], from, to)
  }

  function Rewrite(node: Node, from: NodeId, to: NodeId): Node {
    match node
    case Call(id, callee, args) => Call(id, SwapId(callee, from, to), SwapIds(args, from, to))
    case _ => node
  }

  /** The checks `replace_subtree` makes. */
  ghost predicate CanReplace(g: Tables, from: NodeId, to: NodeId) {
    && from in g.nodes && to in g.nodes && from != to
    && ParentOf(g.parents, to) == None && to !in g.topSet
    && (from in g.topSet || ParentOf(g.parents, from).Some?)
  }

  ghost function Rewired(g: Tables, from: NodeId, to: NodeId): Tables
    requires CanReplace(g, from, to)
  {
    if from in g.topSet then
      g.(top := SwapIds(g.top, from, to), topSet := g.topSet - {from} + {to}, root := SwapId(g.root, from, to))
    else
      var p := ParentOf(g.parents, from).value;
      g.(parents := g.parents[to := Some(p)],
         nodes := if p in g.nodes then g.nodes[p := Rewrite(g.nodes[p], from, to)] else g.nodes)
  }

  ghost function Replaced(g: Tables, from: NodeId, to: NodeId): Tables
    requires CanReplace(g, from, to)
  {
    Drop(Rewired(g, from, to), Subtree(g, from))
  }

  lemma RewriteChildren(node: Node, from: NodeId, to: NodeId)
    requires NoDup(node.Children()) && to !in node.Children()
    ensures Rewrite(node, from, to).Children() == SwapIds(node.Children(), from, to)
    ensures NoDup(Rewrite(node, from, to).Children())
    ensures Rewrite(node, from, to).id == node.id
    ensures forall c :: c in Rewrite(node, from, to).Children() <==>
                        (c in node.Children() && c != from) || (c == to && from in node.Children())
  {
    var kids, kids2 := node.Children(), Rewrite(node, from, to).Children();
    assert kids2 == SwapIds(kids, from, to);
    forall i, j | 0 <= i < j < |kids2| ensures kids2[i] != kids2[j] {
      assert kids[i] in kids && kids[j] in kids;
    }
    forall c ensures c in kids2 <==> (c in kids && c != from) || (c == to && from in kids) {
      if c in kids && c != from {
        var i :| 0 <= i < |kids| && kids[i] == c;
        assert kids2[i] == c;
      }
      if c == to && from in kids {
        var i :| 0 <= i < |kids| && kids[i] == from;
        assert kids2[i] == c;
      }
    }
  }

  /** Where the pieces lie: the new tree and the old one's parent are outside the old subtree. */
  lemma Apart(g: Tables, from: NodeId, to: NodeId)
    requires Forest(g) && CanReplace(g, from, to)
    ensures to !in Subtree(g, from) && from in Subtree(g, from)
    ensures ParentOf(g.parents, from).Some? ==>
              ParentOf(g.parents, from).value in g.nodes && ParentOf(g.parents, from).value !in Subtree(g, from)
  {
    UnderStep(g.parents, to, from);
    UnderSelf(g.parents, from);
    hide IsUnder, ChildrenOk, LinksOk, MarksOk, TopOk;
    if ParentOf(g.parents, from).Some? {
      ParentIsNode(g, from);
      NotUnderChild(g.parents, ParentOf(g.parents, from).value, from);
    }
  }

  /** Hanging a detached tree below a node outside it closes no cycle. */
  lemma HangAcyclic(g: Tables, to: NodeId, p: NodeId)
    requires Forest(g) && to in g.nodes && p in g.nodes
    requires ParentOf(g.parents, to) == None && !IsUnder(g.parents, p, to)
    ensures Acyclic(g.parents[to := Some(p)])
  {
    var h := SubtreeRanks(g);
    var n := |g.nodes|;
    var m := g.parents[to := Some(p)];
    var rank := map x | x in g.nodes :: n - h[x] + (if IsUnder(g.parents, x, to) then n + 1 else 0);
    UnderSelf(g.parents, to);
    forall c | c in m && m[c].Some? ensures c in rank && m[c].value in rank && rank[m[c].value] < rank[c] {
      if c != to {
        assert IsChild(g, m[c].value, c);
        UnderStep(g.parents, c, to);
      }
    }
    RankedIsAcyclic(m, rank);
  }

  /** The rewritten parent lists the replacement where it listed the old child, and nothing else changes. */
  lemma RewiredChildren(g: Tables, from: NodeId, to: NodeId)
    requires Forest(g) && CanReplace(g, from, to) && from !in g.topSet
    ensures var p, g2 := ParentOf(g.parents, from).value, Replaced(g, from, to);
            && p in g2.nodes && g2.nodes[p].id == p && NoDup(g2.nodes[p].Children()) && to in g2.nodes
            && forall x: NodeId, c: NodeId :: IsChild(g2, x, c) <==>
                 x in g2.nodes && ((IsChild(g, x, c) && c != from) || (x == p && c == to))
  {
    hide IsUnder, Acyclic, MarksOk, TopOk;
    var p, g2 := ParentOf(g.parents, from).value, Replaced(g, from, to);
    Apart(g, from, to);
    assert IsChild(g, p, from) && !IsChild(g, p, to);
    RewriteChildren(g.nodes[p], from, to);
    forall x: NodeId | x in g2.nodes && x != p ensures !IsChild(g, x, from) {}
  }

  lemma RewiredLinks(g: Tables, from: NodeId, to: NodeId)
    requires Forest(g) && CanReplace(g, from, to) && from !in g.topSet
    ensures var g2 := Replaced(g, from, to); ChildrenOk(g2) && LinksOk(g2)
  {
    hide IsUnder, Acyclic, MarksOk, TopOk, NoDup, Rewrite;
    var g2 := Replaced(g, from, to);
    Apart(g, from, to);
    RewiredChildren(g, from, to);
    forall x: NodeId, c: NodeId | IsChild(g2, x, c) ensures c in g2.nodes && ParentOf(g2.parents, c) == Some(x) {
      if c != to { OutsideSubtree(g, from, x); }
    }
    forall c | c in g2.parents && g2.parents[c].Some? ensures IsChild(g2, g2.parents[c].value, c) {
      if c != to {
        assert IsChild(g, g.parents[c].value, c);
        OutsideSubtree(g, from, c);
      }
    }
  }

  lemma {:induction false} SwapNoDup(s: seq<NodeId>, from: NodeId, to: NodeId)
    requires NoDup(s) && to !in s
    ensures NoDup(SwapIds(s, from, to))
    ensures forall x :: x in SwapIds(s, from, to) <==> (x in s && x != from) || (x == to && from in s)
  {
    var r := SwapIds(s, from, to);
    forall i, j | 0 <= i < j < |r| ensures r[i] != r[j] {
      assert s[i] in s && s[j] in s;
    }
    forall x ensures x in r <==> (x in s && x != from) || (x == to && from in s) {
      if x in s && x != from {
        var i :| 0 <= i < |s| && s[i] == x;
        assert r[i] == x;
      }
      if x == to && from in s {
        var i :| 0 <= i < |s| && s[i] == from;
        assert r[i] == x;
      }
    }
  }

  /** No top-level form but the replaced one is lost. */
  lemma ReplaceTopKept(g: Tables, from: NodeId, to: NodeId)
    requires Forest(g) && CanReplace(g, from, to)
    ensures Replaced(g, from, to).top == Rewired(g, from, to).top
    ensures NoDup(Rewired(g, from, to).top)
    ensures SetOf(Rewired(g, from, to).top) == if from in g.topSet then SetOf(g.top) - {from} + {to} else SetOf(g.top)
    ensures forall x | x in Rewired(g, from, to).top :: x !in Subtree(g, from)
  {
    hide Forest, Subtree, Filter, SwapIds, NoDup;
    var top := Rewired(g, from, to).top;
    Apart(g, from, to);
    TopList(g);
    if from in g.topSet { SwapNoDup(g.top, from, to); }
    forall x | x in top ensures x !in Subtree(g, from) {
      if x != to { TopOutside(g, from, x); }
    }
    FilterFacts(top, Subtree(g, from));
  }

  lemma TopList(g: Tables)
    requires Forest(g)
    ensures NoDup(g.top) && g.topSet == SetOf(g.top)
  {
    hide Acyclic, ChildrenOk, LinksOk, MarksOk;
  }

  lemma TopOutside(g: Tables, from: NodeId, x: NodeId)
    requires Forest(g) && x in g.top && x != from
    ensures x !in Subtree(g, from)
  {
    hide Forest, IsUnder;
    TopIsDetached(g, x);
    UnderStep(g.parents, x, from);
  }

  lemma ReplaceTopOk(g: Tables, from: NodeId, to: NodeId)
    requires Forest(g) && CanReplace(g, from, to) && from in g.topSet
    ensures TopOk(Replaced(g, from, to))
  {
    hide Forest, Filter, SwapIds, NoDup, Subtree;
    var g2 := Replaced(g, from, to);
    ReplaceTopKept(g, from, to);
    TopList(g);
    Apart(g, from, to);
    ParentKeys(g);
    forall x | x in g2.top ensures x in g2.nodes && ParentOf(g2.parents, x) == None {
      assert x in SetOf(g2.top);
      if x != to { TopIsDetached(g, x); }
    }
    assert g2.topSet == SetOf(g2.top) by {
      forall x | x in SetOf(g2.top) ensures x !in Subtree(g, from) { assert x in g2.top; }
    }
  }

  lemma ReplaceTopForest(g: Tables, from: NodeId, to: NodeId)
    requires Forest(g) && CanReplace(g, from, to) && from in g.topSet
    ensures Forest(Replaced(g, from, to))
  {
    hide Forest, TopOk, Subtree;
    assert CanErase(g, from) by { TopDetached(g, from); }
    EraseKeepsForest(g, from);
    ReplaceTopOk(g, from, to);
    SameForest(Drop(g, Subtree(g, from)), Replaced(g, from, to));
  }

  lemma TopDetached(g: Tables, id: NodeId)
    requires Forest(g) && id in g.topSet
    ensures CanErase(g, id)
  {
    hide Forest;
    TopIsDetached(g, id);
  }

  /** Being a forest depends on the links, and only then on what is listed as top-level. */
  lemma SameForest(g1: Tables, g2: Tables)
    requires Forest(g1) && TopOk(g2)
    requires g2.nodes == g1.nodes && g2.parents == g1.parents && g2.spans == g1.spans && g2.internal == g1.internal && g2.next == g1.next
    ensures Forest(g2)
  {
    forall p: NodeId, c: NodeId | IsChild(g2, p, c) ensures IsChild(g1, p, c) {}
    forall c | c in g2.parents && g2.parents[c].Some? ensures IsChild(g2, g2.parents[c].value, c) {
      assert IsChild(g1, g1.parents[c].value, c);
    }
  }

  /** The replacement is hung below a node of another tree: the forest is kept. */
  lemma ReplaceInnerForest(g: Tables, from: NodeId, to: NodeId)
    requires Forest(g) && CanReplace(g, from, to) && from !in g.topSet && !IsUnder(g.parents, from, to)
    ensures Forest(Replaced(g, from, to))
  {
    RewiredLinks(g, from, to);
    ReplaceInnerMarks(g, from, to);
    hide ChildrenOk, LinksOk, MarksOk, TopOk, Acyclic;
    var p := ParentOf(g.parents, from).value;
    ParentIsNode(g, from);
    UnderStep(g.parents, from, to);
    HangAcyclic(g, to, p);
    DropAcyclic(g.parents[to := Some(p)], Replaced(g, from, to).parents);
  }

  lemma ReplaceInnerMarks(g: Tables, from: NodeId, to: NodeId)
    requires Forest(g) && CanReplace(g, from, to) && from !in g.topSet
    ensures var g2 := Replaced(g, from, to); MarksOk(g2) && TopOk(g2)
  {
    hide Acyclic, ChildrenOk, LinksOk, Subtree;
    var g2, p := Replaced(g, from, to), ParentOf(g.parents, from).value;
    ReplaceTopKept(g, from, to);
    ParentIsNode(g, from);
    ParentKeys(g);
    assert g.nodes[p].Call?;
    forall x | x in g2.top ensures x in g2.nodes && ParentOf(g2.parents, x) == None {
      assert x in SetOf(g.top);
    }
  }

  /** The replacement is an ancestor of what it replaces: the parent links go round in a circle. */
  lemma ReplaceByAncestorCycle(g: Tables, from: NodeId, to: NodeId)
    requires Forest(g) && CanReplace(g, from, to) && IsUnder(g.parents, from, to)
    ensures !Acyclic(Replaced(g, from, to).parents)
  {
    var g2 := Replaced(g, from, to);
    UnderStep(g.parents, from, to);
    assert from !in g.top;
    var p := ParentOf(g.parents, from).value;
    Apart(g, from, to);
    var j: nat :| Up(g.parents, p, j) == Some(to);
    ClimbToNew(g, from, to, p, j);
    assert Up(g2.parents, to, j + 1) == Some(to);
  }

  lemma {:induction false} ClimbToNew(g: Tables, from: NodeId, to: NodeId, x: NodeId, j: nat)
    requires Forest(g) && CanReplace(g, from, to) && from !in g.topSet
    requires x in g.nodes && x !in Subtree(g, from) && Up(g.parents, x, j) == Some(to)
    ensures Up(Replaced(g, from, to).parents, x, j) == Some(to)
    decreases j
  {
    hide Forest, Subtree, Rewrite;
    if j > 0 {
      ParentIsNode(g, x);
      OutsideSubtree(g, from, x);
      ClimbToNew(g, from, to, ParentOf(g.parents, x).value, j - 1);
    }
  }

  /**
   * `replace_subtree` keeps the forest exactly when the replacement is not an ancestor of what it
   * replaces, a condition the code does not check.
   */
  lemma ReplaceKeepsForest(g: Tables, from: NodeId, to: NodeId)
    requires Forest(g) && CanReplace(g, from, to)
    ensures Forest(Replaced(g, from, to)) <==> !IsUnder(g.parents, from, to)
  {
    if IsUnder(g.parents, from, to) {
      ReplaceByAncestorCycle(g, from, to);
    } else if from in g.topSet {
      ReplaceTopForest(g, from, to);
    } else {
      ReplaceInnerForest(g, from, to);
    }
  }

  /** A graph with the one expression (x): node 0 calls node 1. */
  function CallOfX(): Tables {
    Tables(0, map[0 := Call(0, 1, []), 1 := Name(1, "x")], map[0 := None, 1 := Some(0)], map[], {}, [], {}, 2)
  }

  /** Replacing x by the call it is part of passes every check and leaves parent links that go round. */
  lemma ReplaceByAncestorInstance()
    ensures Forest(CallOfX()) && Integrity(CallOfX()) && CanReplace(CallOfX(), 1, 0) && IsUnder(CallOfX().parents, 1, 0)
    ensures !Forest(Replaced(CallOfX(), 1, 0))
  {
    hide Replaced, Rewired, Drop, Subtree;
    var g := CallOfX();
    assert g.nodes[0].Children() == [1] && g.nodes[1].Children() == [];
    RankedIsAcyclic(g.parents, map[0 := 0, 1 := 1]);
    UnderParent(g.parents, 1, 0);
    assert Parentless(g) == {0};
    ReplaceKeepsForest(g, 1, 0);
  }

  // ---- What a replacement means ------------------------------------------------------------------

  /** The expression at x, with e standing in for the expression at `hole`. */
  ghost function SpecWith(g: Tables, x: NodeId, hole: NodeId, e: SpecResult, fuel: nat): SpecResult
    decreases fuel, 0
  {
    if x == hole then e
    else if fuel == 0 then Looping
    else if x !in g.nodes then Bad
    else match g.nodes[x]
      case Name(_, identifier) => if identifier == "" then Bad else Spec(NameSpec(identifier, SpanOf(g, x)))
      case Lit(_, value) => Spec(LitSpec(value, SpanOf(g, x)))
      case Call(_, callee, args) =>
        CallResult(SpecWith(g, callee, hole, e, fuel - 1), SpecsWith(g, args, hole, e, fuel - 1), SpanOf(g, x))
  }

  ghost function SpecsWith(g: Tables, ids: seq<NodeId>, hole: NodeId, e: SpecResult, fuel: nat): SpecsResult
    decreases fuel, |ids|
  {
    if ids == [] then Specs([])
    else ConsResult(SpecWith(g, ids[0], hole, e, fuel), SpecsWith(g, ids[1..], hole, e, fuel))
  }

  /**
   * Two graphs that read the same up to the hole: x in g2 is x in g, except that where g has the hole
   * g2 has `to`, which reads as e.
   */
  ghost predicate Matches(g: Tables, g2: Tables, h: map<NodeId, nat>, hole: NodeId, to: NodeId, e: SpecResult) {
    && Ranked(g2, h)
    && hole !in g2.nodes && to in g2.nodes
    && (forall fuel: nat | fuel > h[to] :: SpecAt(g2, to, fuel) == e)
    && (forall x | x in g2.nodes ::
          x in g.nodes && SpanOf(g2, x) == SpanOf(g, x)
          && (g2.nodes[x] == g.nodes[x] || g2.nodes[x] == Rewrite(g.nodes[x], hole, to)))
  }

  lemma {:induction false} MatchReads(g: Tables, g2: Tables, h: map<NodeId, nat>, hole: NodeId, to: NodeId, e: SpecResult, x: NodeId, fuel: nat)
    requires Matches(g, g2, h, hole, to, e) && x in g2.nodes && fuel > h[x]
    ensures SpecAt(g2, x, fuel) == SpecWith(g, x, hole, e, fuel)
    decreases fuel, 0
  {
    if g2.nodes[x].Call? {
      var c2, c := g2.nodes[x], g.nodes[x];
      assert IsChild(g2, x, c2.Children()[0]);
      forall i | 0 <= i < |c2.args| ensures c2.args[i] in h && h[c2.args[i]] < fuel - 1 { assert IsChild(g2, x, c2.args[i]); }
      ChildReads(g, g2, h, hole, to, e, c2.callee, c.callee, fuel - 1);
      MatchReadsAll(g, g2, h, hole, to, e, c2.args, c.args, fuel - 1);
    }
  }

  /** A child of g2 against the child of g it came from. */
  lemma {:induction false} ChildReads(g: Tables, g2: Tables, h: map<NodeId, nat>, hole: NodeId, to: NodeId, e: SpecResult, c2: NodeId, c: NodeId, fuel: nat)
    requires Matches(g, g2, h, hole, to, e) && c2 in g2.nodes && fuel > h[c2]
    requires c2 == c || (c == hole && c2 == to)
    ensures SpecAt(g2, c2, fuel) == SpecWith(g, c, hole, e, fuel)
    decreases fuel, 1
  {
    if c2 == c { MatchReads(g, g2, h, hole, to, e, c, fuel); }
  }

  lemma {:induction false} MatchReadsAll(g: Tables, g2: Tables, h: map<NodeId, nat>, hole: NodeId, to: NodeId, e: SpecResult,
                                         ids2: seq<NodeId>, ids: seq<NodeId>, fuel: nat)
    requires Matches(g, g2, h, hole, to, e) && |ids2| == |ids|
    requires forall i | 0 <= i < |ids2| :: ids2[i] in g2.nodes && h[ids2[i]] < fuel
    requires forall i | 0 <= i < |ids| :: ids2[i] == ids[i] || (ids[i] == hole && ids2[i] == to)
    ensures SpecsAt(g2, ids2, fuel) == SpecsWith(g, ids, hole, e, fuel)
    decreases fuel, 2, |ids|
  {
    if ids != [] {
      ChildReads(g, g2, h, hole, to, e, ids2[0], ids[0], fuel);
      MatchReadsAll(g, g2, h, hole, to, e, ids2[1..], ids[1..], fuel);
    }
  }

  /** The new tree reads the same after the replacement. */
  lemma NewTreeReads(g: Tables, from: NodeId, to: NodeId, fuel: nat)
    requires Forest(g) && CanReplace(g, from, to) && !IsUnder(g.parents, from, to)
    requires fuel > |Replaced(g, from, to).nodes|
    ensures SpecAt(Replaced(g, from, to), to, fuel) == SpecOf(g, to)
  {
    var g2, part := Replaced(g, from, to), Subtree(g, to);
    ReplaceKeepsForest(g, from, to);
    Apart(g, from, to);
    UnderSelf(g.parents, to);
    NewTreeSame(g, from, to);
    var more := fuel + |g.nodes| + 1;
    SpecFrame(g, g2, part, to, more);
    SpecTerminates(g, to, more);
    SpecTerminates(g2, to, more);
    SpecTerminates(g2, to, fuel);
  }

  lemma NewTreeSame(g: Tables, from: NodeId, to: NodeId)
    requires Forest(g) && CanReplace(g, from, to) && !IsUnder(g.parents, from, to)
    ensures SameOn(g, Replaced(g, from, to), Subtree(g, to))
  {
    hide Forest, IsUnder, Rewrite;
    var part, gone := Subtree(g, to), Subtree(g, from);
    forall x | x in part ensures x !in gone && ParentOf(g.parents, from) != Some(x) {
      if x in gone { OneTree(g.parents, x, from, to); }
      UnderStep(g.parents, from, to);
    }
    forall x, c | x in part && c in g.nodes[x].Children() ensures c in part {
      assert IsChild(g, x, c);
      ChildIsNode(g, x, c);
      UnderParent(g.parents, c, x);
      UnderTrans(g.parents, c, x, to);
    }
  }

  /** Two nodes above x are one above the other; a parentless one is on top. */
  lemma OneTree(m: ParentMap, x: NodeId, a: NodeId, top: NodeId)
    requires IsUnder(m, x, a) && IsUnder(m, x, top) && ParentOf(m, top) == None
    ensures IsUnder(m, a, top)
  {
    var i: nat :| Up(m, x, i) == Some(a);
    var j: nat :| Up(m, x, j) == Some(top);
    if i <= j {
      UpAdd(m, x, i, j - i);
      assert Up(m, a, j - i) == Some(top);
    } else {
      UpAdd(m, x, j, i - j);
    }
  }

  /**
   * After a replacement every remaining node denotes what it denoted before, with the expression of the
   * new tree in place of the old one's.
   */
  lemma ReplaceMeaning(g: Tables, from: NodeId, to: NodeId, x: NodeId)
    requires Forest(g) && CanReplace(g, from, to) && !IsUnder(g.parents, from, to)
    requires x in Replaced(g, from, to).nodes
    ensures var g2 := Replaced(g, from, to);
            SpecOf(g2, x) == SpecWith(g, x, from, SpecOf(g, to), |g2.nodes| + 1)
  {
    var g2 := Replaced(g, from, to);
    ReplaceKeepsForest(g, from, to);
    Apart(g, from, to);
    var h := SubtreeRanks(g2);
    ReplaceMatches(g, from, to, h);
    MatchReads(g, g2, h, from, to, SpecOf(g, to), x, |g2.nodes| + 1);
  }

  lemma RankedKeys(g: Tables, h: map<NodeId, nat>)
    requires Ranked(g, h)
    ensures h.Keys == g.nodes.Keys
  {
  }

  lemma ReplaceMatches(g: Tables, from: NodeId, to: NodeId, h: map<NodeId, nat>)
    requires Forest(g) && CanReplace(g, from, to) && !IsUnder(g.parents, from, to)
    requires Ranked(Replaced(g, from, to), h)
    requires forall x | x in h :: h[x] <= |Replaced(g, from, to).nodes|
    ensures Matches(g, Replaced(g, from, to), h, from, to, SpecOf(g, to))
  {
    hide Forest, IsUnder, Ranked, SpecAt, SpecOf, Subtree;
    var g2 := Replaced(g, from, to);
    Apart(g, from, to);
    RankedKeys(g2, h);
    forall fuel: nat | fuel > h[to] ensures SpecAt(g2, to, fuel) == SpecOf(g, to) {
      var more := fuel + |g2.nodes| + 1;
      NewTreeReads(g, from, to, more);
      SpecSettles(g2, h, to, fuel, more);
    }
  }

  /** Putting a node's own expression in its place changes nothing. */
  lemma SpecWithSelf(g: Tables, x: NodeId, hole: NodeId)
    requires Forest(g) && x in g.nodes && hole in g.nodes
    ensures SpecWith(g, x, hole, SpecOf(g, hole), |g.nodes| + 1) == SpecOf(g, x)
  {
    var h := SubtreeRanks(g);
    SelfReads(g, h, x, hole, |g.nodes| + 1);
  }

  lemma {:induction false} SelfReads(g: Tables, h: map<NodeId, nat>, x: NodeId, hole: NodeId, fuel: nat)
    requires Ranked(g, h) && x in g.nodes && hole in g.nodes && h[x] < fuel <= |g.nodes| + 1
    ensures SpecWith(g, x, hole, SpecOf(g, hole), fuel) == SpecAt(g, x, fuel)
    decreases fuel, 0
  {
    if x == hole {
      SpecSettles(g, h, x, fuel, |g.nodes| + 1);
    } else if g.nodes[x].Call? {
      var kids := g.nodes[x].Children();
      assert IsChild(g, x, kids[0]);
      forall a | a in g.nodes[x].args ensures a in h && h[a] < fuel - 1 { assert IsChild(g, x, a); }
      SelfReads(g, h, kids[0], hole, fuel - 1);
      SelfReadsAll(g, h, g.nodes[x].args, hole, fuel - 1);
    }
  }

  lemma {:induction false} SelfReadsAll(g: Tables, h: map<NodeId, nat>, ids: seq<NodeId>, hole: NodeId, fuel: nat)
    requires Ranked(g, h) && hole in g.nodes && fuel <= |g.nodes| + 1
    requires forall a | a in ids :: a in h && h[a] < fuel
    ensures SpecsWith(g, ids, hole, SpecOf(g, hole), fuel) == SpecsAt(g, ids, fuel)
    decreases fuel, |ids|
  {
    if ids != [] {
      SelfReads(g, h, ids[0], hole, fuel);
      SelfReadsAll(g, h, ids[1..], hole, fuel);
    }
  }

  lemma ReplaceParentless(g: Tables, from: NodeId, to: NodeId)
    requires Forest(g) && CanReplace(g, from, to)
    ensures Parentless(Replaced(g, from, to)) == Parentless(g) - {if from in g.topSet then from else to}
  {
    hide IsUnder, Acyclic, MarksOk, ChildrenOk;
    var g2, gone := Replaced(g, from, to), Subtree(g, from);
    Apart(g, from, to);
    forall x | x in Parentless(g) && x != from ensures x !in gone { UnderStep(g.parents, x, from); }
  }

  lemma ReplaceRoots(g: Tables, from: NodeId, to: NodeId)
    requires Forest(g) && CanReplace(g, from, to)
    requires g.root in g.nodes && Roots(g) <= Parentless(g)
    ensures var g2 := Replaced(g, from, to);
            g2.root in g2.nodes && Roots(g2) == if from in g.topSet then Roots(g) - {from} + {to} else Roots(g)
  {
    hide IsUnder, Acyclic, MarksOk, ChildrenOk, SwapIds, NoDup, Filter;
    var g2, gone := Replaced(g, from, to), Subtree(g, from);
    Apart(g, from, to);
    ReplaceTopKept(g, from, to);
    if from !in g.topSet && g.top == [] && g.root in gone {
      assert g.root in Roots(g);
      UnderStep(g.parents, g.root, from);
    }
    if g2.top != [] {
      assert g2.top[0] in SetOf(g2.top);
      if g2.top[0] != to { UnderStep(g.parents, g2.top[0], from); }
    }
  }

  /** When the replacement was the one tree that kept the graph from being accepted, the result is accepted. */
  lemma ReplaceGivesIntegrity(g: Tables, from: NodeId, to: NodeId)
    requires Forest(g) && CanReplace(g, from, to) && !IsUnder(g.parents, from, to)
    requires g.root in g.nodes && Parentless(g) == Roots(g) + {to}
    ensures Integrity(Replaced(g, from, to))
  {
    ReplaceKeepsForest(g, from, to);
    ReplaceParentless(g, from, to);
    ReplaceRoots(g, from, to);
    if to in Roots(g) { OnlyRoot(g, from, to); }
  }

  /** A detached tree that is not top-level can only be a root of a graph without top-level forms, and then of all of it. */
  lemma OnlyRoot(g: Tables, from: NodeId, to: NodeId)
    requires Forest(g) && from in g.nodes && to in Roots(g) && to !in g.topSet
    requires Parentless(g) == Roots(g) + {to}
    ensures IsUnder(g.parents, from, to)
  {
    var r := SomeRoot(g, from);
    assert r in Parentless(g);
  }
}
