/** The checks both validators make, and that together they mean integrity. */
module Checks {
  import opened Ir
  import opened Tables

  /** Nodes are stored under their own ids, and children are present and pairwise different. */
  predicate NodesCheck(g: Tables) {
    forall id | id in g.nodes ::
      g.nodes[id].id == id && NoDup(g.nodes[id].Children()) && forall c | c in g.nodes[id].Children() :: c in g.nodes
  }

  predicate ParentsCheck(g: Tables) {
    && (forall id | id in g.parents :: id in g.nodes && (g.parents[id].Some? ==> g.parents[id].value in g.nodes))
    && (forall id | id in g.nodes :: id in g.parents)
  }

  predicate TopCheck(g: Tables) {
    (forall id | id in g.top :: id in g.nodes) && NoDup(g.top) && SetOf(g.top) == g.topSet
  }

  predicate RootsCheck(g: Tables) {
    var parentless := set id | id in g.parents && g.parents[id].None?;
    parentless == if g.top == [] then {g.root} else SetOf(g.top)
  }

  /** Every parent lists its child. */
  predicate UpCheck(g: Tables) {
    forall id | id in g.parents && g.parents[id].Some? :: IsChild(g, g.parents[id].value, id)
  }

  /** Every child points back at its parent. */
  predicate DownCheck(g: Tables) {
    forall id | id in g.nodes :: forall c | c in g.nodes[id].Children() :: ParentOf(g.parents, c) == Some(id)
  }

  predicate MarksCheck(g: Tables) {
    && (forall id | id in g.spans :: id in g.nodes)
    && (forall id | id in g.internal :: id in g.nodes && g.nodes[id].Name?)
    && (forall id | id in g.nodes :: id < g.next)
  }

  lemma ClosedParents(g: Tables)
    requires ParentsCheck(g)
    ensures g.parents.Keys == g.nodes.Keys
    ensures forall c | c in g.parents && g.parents[c].Some? :: g.parents[c].value in g.parents
  {
  }

  lemma LinkChecks(g: Tables)
    ensures NodesCheck(g) && ParentsCheck(g) && UpCheck(g) && DownCheck(g) <==> ChildrenOk(g) && LinksOk(g)
  {
    if ChildrenOk(g) && LinksOk(g) {
      forall id, c | id in g.nodes && c in g.nodes[id].Children() ensures c in g.nodes && ParentOf(g.parents, c) == Some(id) {
        assert IsChild(g, id, c);
      }
    }
  }

  lemma TopChecks(g: Tables)
    requires ParentsCheck(g)
    ensures TopCheck(g) && RootsCheck(g) <==> TopOk(g) && Parentless(g) == Roots(g)
  {
    assert Parentless(g) == set id | id in g.parents && g.parents[id].None?;
    if TopCheck(g) && RootsCheck(g) {
      forall id | id in g.top ensures ParentOf(g.parents, id) == None { assert id in SetOf(g.top); }
    }
  }

  /** On a graph with nodes, the checks and acyclic parent links are exactly integrity. */
  lemma ChecksAreIntegrity(g: Tables)
    requires g.nodes.Keys != {}
    ensures Integrity(g) <==>
              && g.root in g.nodes && NodesCheck(g) && ParentsCheck(g) && TopCheck(g) && RootsCheck(g)
              && UpCheck(g) && Acyclic(g.parents) && DownCheck(g) && MarksCheck(g)
  {
    LinkChecks(g);
    if ParentsCheck(g) { TopChecks(g); }
    assert MarksCheck(g) <==> MarksOk(g);
    hide NodesCheck, ParentsCheck, TopCheck, RootsCheck, UpCheck, DownCheck, MarksCheck, ChildrenOk, LinksOk, TopOk, MarksOk, Acyclic;
  }

  lemma EmptyIntegrity(g: Tables)
    requires g.nodes.Keys == {}
    ensures Integrity(g) <==> g.parents.Keys == {} && g.top == [] && g.topSet == {} && g.spans.Keys == {} && g.internal == {}
  {
    if g.parents.Keys == {} {
      RankedIsAcyclic(g.parents, map[]);
    }
    if g.top != [] { assert g.top[0] in g.top; }
  }

  // ---- Field by field -------------------------------------------------------------------------

  /** c is the callee or an argument of the call stored at p. */
  ghost predicate Owns(g: Tables, p: NodeId, c: NodeId) {
    p in g.nodes && g.nodes[p].Call? && (c == g.nodes[p].callee || c in g.nodes[p].args)
  }

  ghost predicate NodesSound(g: Tables) {
    && (forall id | id in g.nodes :: g.nodes[id].id == id && id < g.next && id in g.parents)
    && (forall id | id in g.parents :: id in g.nodes)
    && (forall id | id in g.nodes && g.nodes[id].Call? ::
          var args := g.nodes[id].args; g.nodes[id].callee !in args && forall i, j | 0 <= i < j < |args| :: args[i] != args[j])
    && (forall id | id in g.spans :: id in g.nodes)
    && (forall id | id in g.internal :: id in g.nodes && g.nodes[id].Name?)
  }

  ghost predicate LinksSound(g: Tables) {
    && (forall p: NodeId, c: NodeId | Owns(g, p, c) :: c in g.parents && g.parents[c] == Some(p))
    && (forall c | c in g.parents && g.parents[c].Some? :: Owns(g, g.parents[c].value, c))
  }

  /** The forms are the nodes without a parent; where there are no forms, the root is the only such node. */
  ghost predicate FormsSound(g: Tables) {
    && (forall i, j | 0 <= i < j < |g.top| :: g.top[i] != g.top[j])
    && (forall id :: id in g.topSet <==> id in g.top)
    && (forall id | id in g.top :: id in g.parents && g.parents[id] == None)
    && (g.nodes.Keys != {} ==> g.root in g.nodes)
    && (forall id | id in g.parents && g.parents[id] == None :: if g.top == [] then id == g.root else id in g.top)
    && (g.nodes.Keys != {} && g.top == [] ==> ParentOf(g.parents, g.root) == None)
  }

  lemma IntegrityMeans(g: Tables)
    ensures Integrity(g) <==> NodesSound(g) && LinksSound(g) && Acyclic(g.parents) && FormsSound(g)
  {
    NodesAndLinks(g);
    if g.parents.Keys == g.nodes.Keys { FormsMean(g); }
    assert LinksOk(g) ==> g.parents.Keys == g.nodes.Keys;
    hide NodesSound, LinksSound, FormsSound, ChildrenOk, LinksOk, MarksOk, TopOk, Acyclic, Parentless, Roots;
  }

  lemma NodesAndLinks(g: Tables)
    ensures NodesSound(g) && LinksSound(g) <==> ChildrenOk(g) && LinksOk(g) && MarksOk(g)
  {
    forall p: NodeId, c: NodeId ensures IsChild(g, p, c) <==> Owns(g, p, c) {}
    forall id | id in g.nodes && g.nodes[id].Call?
      ensures NoDup(g.nodes[id].Children()) <==>
                var args := g.nodes[id].args; g.nodes[id].callee !in args && forall i, j | 0 <= i < j < |args| :: args[i] != args[j]
    {
      DistinctChildren(g.nodes[id]);
    }
    hide IsChild, Owns, NoDup;
    if ChildrenOk(g) && LinksOk(g) && MarksOk(g) {
      forall p: NodeId, c: NodeId | Owns(g, p, c) ensures c in g.parents && g.parents[c] == Some(p) { assert IsChild(g, p, c); }
    }
    if NodesSound(g) && LinksSound(g) {
      forall p: NodeId, c: NodeId | IsChild(g, p, c) ensures c in g.nodes && ParentOf(g.parents, c) == Some(p) { assert Owns(g, p, c); }
      forall id | id in g.nodes && !g.nodes[id].Call? ensures NoDup(g.nodes[id].Children()) { NoChildren(g.nodes[id]); }
    }
  }

  lemma NoChildren(node: Node)
    requires !node.Call?
    ensures NoDup(node.Children())
  {
  }

  lemma DistinctChildren(node: Node)
    requires node.Call?
    ensures NoDup(node.Children()) <==> node.callee !in node.args && forall i, j | 0 <= i < j < |node.args| :: node.args[i] != node.args[j]
  {
    var kids, args := node.Children(), node.args;
    forall i | 0 <= i < |args| ensures kids[i + 1] == args[i] {}
    if NoDup(kids) {
      forall i | 0 <= i < |args| ensures args[i] != node.callee { assert kids[0] != kids[i + 1]; }
      forall i, j | 0 <= i < j < |args| ensures args[i] != args[j] { assert kids[i + 1] != kids[j + 1]; }
    }
  }

  lemma FormsMean(g: Tables)
    requires g.parents.Keys == g.nodes.Keys
    ensures FormsSound(g) <==> TopOk(g) && (g.nodes.Keys != {} ==> g.root in g.nodes && Parentless(g) == Roots(g))
  {
    if FormsSound(g) {
      assert g.topSet == SetOf(g.top);
      forall id ensures id in Parentless(g) <==> id in g.nodes && id in Roots(g) {}
    }
    if TopOk(g) && (g.nodes.Keys != {} ==> g.root in g.nodes && Parentless(g) == Roots(g)) {
      forall id | id in g.parents && g.parents[id] == None ensures if g.top == [] then id == g.root else id in g.top {
        assert id in Parentless(g);
      }
      if g.nodes.Keys != {} && g.top == [] { assert g.root in Roots(g); }
    }
  }
}
