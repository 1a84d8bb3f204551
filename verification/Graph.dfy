/** The mutable IR graph: the tables of `Tables` updated in place. */
module Graph {
  import opened Ir
  import opened Tables
  import opened SpecInsert
  import opened InsertLaws
  import opened GraphEdit
  import opened GraphFrames
  import opened Acyclicity
  import opened Checks

  /** The nodes of one tree as seen from its root: child lists in g, parent links in m. */
  ghost predicate OwnTree(g: Tables, m: ParentMap, a: NodeId, tree: set<NodeId>) {
    && a in tree && tree <= g.nodes.Keys
    && (forall q: NodeId, c: NodeId | q in tree && IsChild(g, q, c) :: c in tree && c != a && ParentOf(m, c) == Some(q))
    && (forall q | q in tree :: NoDup(g.nodes[q].Children()) && IsUnder(m, q, a))
    && (forall x | x in tree && x != a :: ParentOf(m, x).Some? && ParentOf(m, x).value in tree && IsChild(g, ParentOf(m, x).value, x))
  }

  lemma SubtreeIsOwnTree(g: Tables, a: NodeId)
    requires Forest(g) && a in g.nodes
    ensures OwnTree(g, g.parents, a, Subtree(g, a))
  {
    var tree := Subtree(g, a);
    UnderSelf(g.parents, a);
    forall q: NodeId, c: NodeId | q in tree && IsChild(g, q, c) ensures c in tree && c != a {
      UnderParent(g.parents, c, q);
      UnderTrans(g.parents, c, q, a);
      NotUnderChild(g.parents, q, c);
    }
    forall x | x in tree && x != a
      ensures ParentOf(g.parents, x).Some? && ParentOf(g.parents, x).value in tree && IsChild(g, ParentOf(g.parents, x).value, x)
    {
      UnderStep(g.parents, x, a);
      assert IsChild(g, g.parents[x].value, x);
    }
  }

  /** Rewiring leaves the tree that is about to go as it was. */
  lemma RewiredOwnTree(g: Tables, from: NodeId, to: NodeId)
    requires Forest(g) && CanReplace(g, from, to)
    ensures OwnTree(Rewired(g, from, to), g.parents, from, Subtree(g, from))
  {
    SubtreeIsOwnTree(g, from);
    Apart(g, from, to);
    hide Forest;
    var g1, tree := Rewired(g, from, to), Subtree(g, from);
    forall q: NodeId, c: NodeId | q in tree ensures IsChild(g1, q, c) <==> IsChild(g, q, c) {}
  }

  /** Once nothing on the border of the removed part is left, everything has been removed. */
  lemma {:induction false} NothingLeftBehind(g: Tables, m: ParentMap, a: NodeId, tree: set<NodeId>, gone: set<NodeId>, x: NodeId, n: nat)
    requires OwnTree(g, m, a, tree) && x in tree && Up(m, x, n) == Some(a)
    requires forall y | y in tree && y !in gone :: y != a && ParentOf(m, y).value !in gone
    ensures x in gone
    decreases n
  {
    if x !in gone {
      NothingLeftBehind(g, m, a, tree, gone, ParentOf(m, x).value, n - 1);
    }
  }

  lemma {:induction false} FilterTwice(s: seq<NodeId>, gone: set<NodeId>, y: NodeId)
    ensures Filter(Filter(s, gone), {y}) == Filter(s, gone + {y})
  {
    if s != [] {
      FilterTwice(s[1..], gone, y);
      var f := Filter(s[1..], gone);
      if s[0] in gone {
        assert [] + f == f && [] + Filter(s[1..], gone + {y}) == Filter(s[1..], gone + {y});
      } else {
        assert ([s[0]] + f)[1..] == f;
      }
    }
  }

  lemma DropTwice(g: Tables, gone: set<NodeId>, y: NodeId)
    requires y in g.nodes && y !in gone
    ensures Drop(Drop(g, gone), {y}) == Drop(g, gone + {y})
    ensures y in Drop(g, gone).nodes && Drop(g, gone).nodes[y] == g.nodes[y]
  {
    FilterTwice(g.top, gone, y);
    var d := Drop(g, gone);
    assert g.nodes - gone - {y} == g.nodes - (gone + {y});
    assert g.parents - gone - {y} == g.parents - (gone + {y});
    assert g.spans - gone - {y} == g.spans - (gone + {y});
    if g.root in gone && d.root != y {
      if d.top != [] {
        assert Filter(d.top, {y})[0] == d.top[0];
      } else {
        assert Filter(d.top, {y}) == [];
        assert d.root in d.nodes.Keys - {y};
        assert Least(d.nodes.Keys - {y}) == d.root;
        assert Drop(d, {y}).nodes.Keys == d.nodes.Keys - {y};
      }
    }
  }

  lemma DropNothing(g: Tables)
    ensures Drop(g, {}) == g
  {
    FilterFacts(g.top, {});
    assert g.nodes - {} == g.nodes && g.parents - {} == g.parents && g.spans - {} == g.spans;
  }

  /** The stack holds, once each, exactly the nodes still there whose parent is gone. */
  ghost predicate Border(g: Tables, m: ParentMap, a: NodeId, tree: set<NodeId>, gone: set<NodeId>, stack: seq<NodeId>) {
    && NoDup(stack)
    && (forall x :: x in stack <==> x in tree && x !in gone && (x == a || (ParentOf(m, x).Some? && ParentOf(m, x).value in gone)))
    && (forall x | x in gone :: x in tree && (x == a || (ParentOf(m, x).Some? && ParentOf(m, x).value in gone)))
  }

  lemma BorderStart(g: Tables, m: ParentMap, a: NodeId, tree: set<NodeId>)
    requires OwnTree(g, m, a, tree)
    ensures Border(g, m, a, tree, {}, [a])
  {
  }

  lemma BorderEmpty(g: Tables, m: ParentMap, a: NodeId, tree: set<NodeId>, gone: set<NodeId>)
    requires OwnTree(g, m, a, tree) && Border(g, m, a, tree, gone, [])
    ensures gone == tree
  {
    forall x | x in tree ensures x in gone {
      var n: nat :| Up(m, x, n) == Some(a);
      NothingLeftBehind(g, m, a, tree, gone, x, n);
    }
  }

  lemma BorderStep(g: Tables, m: ParentMap, a: NodeId, tree: set<NodeId>, gone: set<NodeId>, stack: seq<NodeId>)
    requires OwnTree(g, m, a, tree) && Border(g, m, a, tree, gone, stack) && stack != []
    ensures var y := stack[|stack| - 1];
            && y in tree && y !in gone && y in g.nodes
            && Border(g, m, a, tree, gone + {y}, stack[..|stack| - 1] + g.nodes[y].Children())
  {
    var y, rest := stack[|stack| - 1], stack[..|stack| - 1];
    var kids := g.nodes[y].Children();
    assert forall x :: x in stack <==> x == y || x in rest;
    assert y !in rest;
    forall x ensures x in kids <==> x in tree && x != a && ParentOf(m, x) == Some(y) {
      if x in kids { assert IsChild(g, y, x); }
    }
    forall i, j | 0 <= i < j < |rest + kids| ensures (rest + kids)[i] != (rest + kids)[j] {
      if i < |rest| { assert rest[i] in rest; }
      if j >= |rest| { assert kids[j - |rest|] in kids; }
    }
  }

  ghost predicate TopListOk(g: Tables) {
    NoDup(g.top) && g.topSet == SetOf(g.top)
  }

  lemma DropTopList(g: Tables, gone: set<NodeId>)
    requires TopListOk(g)
    ensures TopListOk(Drop(g, gone))
  {
    FilterFacts(g.top, gone);
  }

  lemma {:induction false} FilterAt(s: seq<NodeId>, i: nat)
    requires NoDup(s) && i < |s|
    ensures Filter(s, {s[i]}) == s[..i] + s[i + 1..]
  {
    var rest := s[1..];
    if i == 0 {
      FilterFacts(rest, {s[0]});
      assert s[0] !in rest;
    } else {
      FilterAt(rest, i - 1);
      assert rest[..i - 1] + rest[i..] == s[1..i] + s[i + 1..];
      assert s[..i] == [s[0]] + s[1..i];
    }
  }

  lemma RewiredTopList(g: Tables, from: NodeId, to: NodeId)
    requires Forest(g) && CanReplace(g, from, to)
    ensures TopListOk(Rewired(g, from, to))
  {
    hide Forest;
    ForestTopList(g);
    if from in g.topSet { SwapNoDup(g.top, from, to); }
  }

  lemma ForestTopList(g: Tables)
    requires Forest(g)
    ensures TopListOk(g) && forall x :: x in g.topSet <==> x in g.top
  {
    hide Acyclic, ChildrenOk, LinksOk, MarksOk;
  }

  /** In a forest the rewritten parent passes every check of `ReplaceNode`. */
  lemma HangFacts(g: Tables, p: NodeId, from: NodeId, to: NodeId)
    requires Forest(g) && CanReplace(g, from, to) && from !in g.topSet && ParentOf(g.parents, from) == Some(p)
    ensures p in g.nodes && from in g.nodes[p].Children()
    ensures var node := Rewrite(g.nodes[p], from, to);
            && node.id == p && NoDup(node.Children())
            && forall c | c in node.Children() :: c in g.nodes && ParentOf(g.parents[to := Some(p)], c) == Some(p)
  {
    hide Acyclic, MarksOk, TopOk;
    assert IsChild(g, p, from) && !IsChild(g, p, to);
    RewriteChildren(g.nodes[p], from, to);
    forall c | c in Rewrite(g.nodes[p], from, to).Children() ensures c in g.nodes && ParentOf(g.parents[to := Some(p)], c) == Some(p) {
      if c != to { assert IsChild(g, p, c); }
    }
  }

  ghost function Prepend(ids: seq<NodeId>, r: InsertedAll): InsertedAll {
    match r
    case FailedAll(g) => FailedAll(g)
    case InsertedAll(g, rest) => InsertedAll(g, ids + rest)
  }

  class IRGraph {
    var rootId: NodeId
    var nodes: map<NodeId, Node>
    var parents: map<NodeId, Option<NodeId>>
    var sourceSpans: map<NodeId, Span>
    var internalNodes: set<NodeId>
    var topLevelForms: seq<NodeId>
    var topLevelSet: set<NodeId>
    var nextId: NodeId

    function View(): Tables
      reads this
    {
      Tables(rootId, nodes, parents, sourceSpans, internalNodes, topLevelForms, topLevelSet, nextId)
    }

    constructor ()
      ensures View() == EMPTY
    {
      rootId, nodes, parents, sourceSpans := 0, map[], map[], map[];
      internalNodes, topLevelForms, topLevelSet, nextId := {}, [], {}, 0;
    }

    // ---- Insertion ---------------------------------------------------------------------------

    method AllocateId() returns (id: Option<NodeId>)
      modifies this`nextId
      ensures id == if old(nextId) == MAX_ID then None else Some(old(nextId))
      ensures nextId == if old(nextId) == MAX_ID then MAX_ID else old(nextId) + 1
    {
      if nextId == MAX_ID { return None; }
      id := Some(nextId);
      nextId := nextId + 1;
    }

    method PutNode(node: Node, parent: Option<NodeId>, span: Option<Span>)
      requires node.id < nextId
      modifies this
      ensures View() == SpecInsert.PutNode(old(View()), node, parent, span)
    {
      nodes := nodes[node.id := node];
      parents := parents[node.id := parent];
      if span.Some? { sourceSpans := sourceSpans[node.id := span.value]; }
    }

    method InsertExprSpec(e: ExprSpec, parent: Option<NodeId>) returns (id: Option<NodeId>)
      modifies this
      ensures match Insert(old(View()), e, parent)
              case Inserted(g, i) => View() == g && id == Some(i)
              case Failed(g) => View() == g && id == None
      ensures nextId >= old(nextId)
      decreases e, 0
    {
      var own := AllocateId();
      if own.None? { return None; }
      match e {
        case NameSpec(identifier, span) =>
          if identifier == "" { return None; }
          PutNode(Name(own.value, identifier), parent, span);
        case LitSpec(value, span) =>
          PutNode(Lit(own.value, value), parent, span);
        case CallSpec(callee, args, span) =>
          var calleeId := InsertExprSpec(callee, own);
          if calleeId.None? { return None; }
          var argIds := InsertArgs(args, own);
          if argIds.None? || !CallChildrenOk(View(), calleeId.value, argIds.value) { return None; }
          PutNode(Call(own.value, calleeId.value, argIds.value), parent, span);
      }
      return own;
    }

    /** A detached tree that reads as e, or an error; either way all that was there is there unchanged. */
    method InsertTree(e: ExprSpec) returns (id: Option<NodeId>)
      requires Forest(View())
      modifies this
      ensures id.Some? <==> NamesOk(e) && old(nextId) + Size(e) <= 0xFFFF_FFFF
      ensures id.Some? ==> id.value == old(nextId) && SpecOf(View(), id.value) == Spec(e)
      ensures id.Some? ==> Forest(View()) && Parentless(View()) == old(Parentless(View())) + {id.value} && id.value !in topLevelForms
      ensures Keeps(old(View()), View()) && forall x | x in old(nodes) :: SpecOf(View(), x) == old(SpecOf(View(), x))
    {
      hide Forest, Insert, SpecOf, Keeps, KeysBelow, Adds, Parentless, NamesOk, Size;
      ghost var g := View();
      ForestKeys(g);
      InsertRoundTrip(g, e);
      InsertKeeps(g, e, None);
      forall x | x in g.nodes ensures SpecOf(Insert(g, e, None).g, x) == SpecOf(g, x) { InsertKeepsExpressions(g, e, None, x); }
      id := InsertExprSpec(e, None);
    }

    method InsertArgs(es: seq<ExprSpec>, parent: Option<NodeId>) returns (ids: Option<seq<NodeId>>)
      modifies this
      ensures match InsertAll(old(View()), es, parent)
              case InsertedAll(g, s) => View() == g && ids == Some(s)
              case FailedAll(g) => View() == g && ids == None
      ensures nextId >= old(nextId)
      decreases es, 1
    {
      hide Insert;
      var i, acc := 0, [];
      assert es[0..] == es;
      while i < |es|
        invariant 0 <= i <= |es| && nextId >= old(nextId)
        invariant InsertAll(old(View()), es, parent) == Prepend(acc, InsertAll(View(), es[i..], parent))
      {
        assert es[i..][0] == es[i] && es[i..][1..] == es[i + 1..];
        var id := InsertExprSpec(es[i], parent);
        if id.None? { return None; }
        i, acc := i + 1, acc + [id.value];
      }
      assert es[i..] == [] && acc + [] == acc;
      return Some(acc);
    }

    // ---- Top-level forms ---------------------------------------------------------------------

    method AddTopLevelForm(id: NodeId) returns (ok: bool)
      modifies this
      ensures ok == (id in old(nodes) && ParentOf(old(parents), id) == None)
      ensures View() == if !ok || id in old(topLevelSet) then old(View())
                        else old(View()).(top := old(topLevelForms) + [id], topSet := old(topLevelSet) + {id},
                                          root := if old(topLevelForms) == [] then id else old(rootId))
    {
      if id !in nodes || ParentOf(parents, id).Some? { return false; }
      if id !in topLevelSet {
        topLevelSet := topLevelSet + {id};
        if topLevelForms == [] { rootId := id; }
        topLevelForms := topLevelForms + [id];
      }
      return true;
    }

    method TopLevelIndex(id: NodeId) returns (i: Option<nat>)
      ensures i.None? ==> id !in topLevelForms
      ensures i.Some? ==> i.value < |topLevelForms| && topLevelForms[i.value] == id
    {
      var k := 0;
      while k < |topLevelForms|
        invariant 0 <= k <= |topLevelForms| && id !in topLevelForms[..k]
      {
        if topLevelForms[k] == id { return Some(k); }
        k := k + 1;
      }
      return None;
    }

    method RemoveTopLevelForm(id: NodeId) returns (found: bool)
      requires TopListOk(View())
      modifies this`topLevelForms, this`topLevelSet
      ensures found == (id in old(topLevelForms)) && Kept(old(topLevelForms), {id}, topLevelForms)
      ensures topLevelForms == Filter(old(topLevelForms), {id}) && topLevelSet == old(topLevelSet) - {id}
    {
      FilterKept(topLevelForms, {id});
      hide Kept;
      var i := TopLevelIndex(id);
      if i.None? {
        FilterFacts(topLevelForms, {id});
        return false;
      }
      FilterAt(topLevelForms, i.value);
      topLevelForms := topLevelForms[..i.value] + topLevelForms[i.value + 1..];
      topLevelSet := topLevelSet - {id};
      return true;
    }

    method ReplaceTopLevelForm(from: NodeId, to: NodeId) returns (ok: bool)
      requires TopListOk(View())
      modifies this`topLevelForms, this`topLevelSet
      ensures ok == (from in old(topLevelForms) &&
                     (from == to || (to in nodes && ParentOf(parents, to) == None && to !in old(topLevelSet))))
      ensures ok && from != to ==>
                topLevelForms == SwapIds(old(topLevelForms), from, to) && topLevelSet == old(topLevelSet) - {from} + {to}
      ensures !ok || from == to ==> topLevelForms == old(topLevelForms) && topLevelSet == old(topLevelSet)
    {
      var i := TopLevelIndex(from);
      if i.None? { return false; }
      if from == to { return true; }
      if to !in nodes || ParentOf(parents, to).Some? || to in topLevelSet { return false; }
      topLevelForms := topLevelForms[i.value := to];
      topLevelSet := topLevelSet - {from} + {to};
      return true;
    }

    // ---- Removal -----------------------------------------------------------------------------

    method RemoveNodeStorage(id: NodeId) returns (existed: bool)
      requires TopListOk(View())
      modifies this
      ensures existed == (id in old(nodes))
      ensures Without(old(View()), {id}, View()) && View() == Drop(old(View()), {id})
    {
      hide Without, Kept, Filter, NoDup;
      ghost var g := View();
      existed := id in nodes;
      nodes := nodes - {id};
      parents := parents - {id};
      sourceSpans := sourceSpans - {id};
      internalNodes := internalNodes - {id};
      var _ := RemoveTopLevelForm(id);
      if rootId == id {
        if topLevelForms != [] {
          rootId := topLevelForms[0];
        } else if nodes.Keys == {} {
          rootId := 0;
        } else {
          HasLeast(nodes.Keys);
          var least :| least in nodes.Keys && forall x | x in nodes.Keys :: least <= x;
          rootId := least;
        }
      }
      DropIsWithout(g, {id});
    }

    /** Removes a tree with an explicit stack; every node of it exactly once. */
    method RemoveSubtreeStorage(root: NodeId, ghost m: ParentMap, ghost tree: set<NodeId>) returns (dropped: seq<NodeId>)
      requires TopListOk(View()) && OwnTree(View(), m, root, tree)
      modifies this
      ensures View() == Drop(old(View()), tree)
      ensures NoDup(dropped) && SetOf(dropped) == tree
    {
      hide Drop, Border, OwnTree, TopListOk;
      ghost var g := View();
      dropped := [];
      var stack := [root];
      DropNothing(g);
      assert SetOf(dropped) == {};
      BorderStart(g, m, root, tree);
      while stack != []
        invariant View() == Drop(g, SetOf(dropped)) && TopListOk(View())
        invariant NoDup(dropped) && SetOf(dropped) <= tree
        invariant Border(g, m, root, tree, SetOf(dropped), stack)
        decreases tree - SetOf(dropped)
      {
        ghost var gone := SetOf(dropped);
        var current := stack[|stack| - 1];
        BorderStep(g, m, root, tree, gone, stack);
        DropTwice(g, gone, current);
        DropTopList(View(), {current});
        stack := stack[..|stack| - 1];
        if current in nodes { stack := stack + nodes[current].Children(); }
        var existed := RemoveNodeStorage(current);
        if existed { dropped := dropped + [current]; }
        assert SetOf(dropped) == gone + {current};
      }
      BorderEmpty(g, m, root, tree, SetOf(dropped));
    }

    /** Erases a tree whose root has no parent. */
    method EraseDetachedSubtree(root: NodeId) returns (dropped: Option<seq<NodeId>>)
      requires Forest(View())
      modifies this
      ensures dropped.Some? == CanErase(old(View()), root)
      ensures dropped.None? ==> View() == old(View())
      ensures dropped.Some? ==>
                && Without(old(View()), Subtree(old(View()), root), View())
                && View() == Drop(old(View()), Subtree(old(View()), root))
                && NoDup(dropped.value) && SetOf(dropped.value) == Subtree(old(View()), root)
                && Forest(View()) && (Integrity(old(View())) ==> Integrity(View()))
                && forall x | x in nodes :: SpecOf(View(), x) == SpecOf(old(View()), x)
    {
      if root !in nodes || ParentOf(parents, root).Some? { return None; }
      ghost var g := View();
      SubtreeIsOwnTree(g, root);
      var ids := RemoveSubtreeStorage(root, parents, Subtree(g, root));
      DropIsWithout(g, Subtree(g, root));
      EraseKeepsForest(g, root);
      if Integrity(g) { EraseKeepsIntegrity(g, root); }
      forall x | x in nodes ensures SpecOf(View(), x) == SpecOf(g, x) { EraseKeepsExpressions(g, root, x); }
      return Some(ids);
    }

    /** A raw write of one node, whose children must already point back at it. */
    method ReplaceNode(id: NodeId, node: Node) returns (ok: bool)
      modifies this`nodes
      ensures ok == (id in old(nodes) && node.id == id && NoDup(node.Children())
                     && forall c | c in node.Children() :: c in old(nodes) && ParentOf(parents, c) == Some(id))
      ensures nodes == if ok then old(nodes)[id := node] else old(nodes)
    {
      ok := id in nodes && node.id == id && NoDup(node.Children())
            && forall c | c in node.Children() :: c in nodes && ParentOf(parents, c) == Some(id);
      if ok { nodes := nodes[id := node]; }
    }

    /** The parent with the child swapped; None when it does not own that child. */
    static function RewriteParentChild(parent: Node, from: NodeId, to: NodeId): (r: Option<Node>)
      ensures r == if from in parent.Children() then Some(Rewrite(parent, from, to)) else None
      ensures r.Some? ==> Relinked(parent, from, to, r.value)
    {
      match parent
      case Call(_, callee, args) =>
        assert from in parent.Children() <==> callee == from || from in args;
        if callee == from || from in args then Some(Rewrite(parent, from, to)) else None
      case _ => None
    }

    /**
     * Puts the detached tree `to` where the tree `from` was and removes `from`.  Nothing after the
     * checks can fail; the forest is kept exactly when `to` is not an ancestor of `from`.
     */
    method ReplaceSubtree(from: NodeId, to: NodeId) returns (dropped: Option<seq<NodeId>>)
      requires Forest(View())
      modifies this
      ensures dropped.Some? == (from in old(nodes) && (from == to || CanReplace(old(View()), from, to)))
      ensures dropped.None? || from == to ==> View() == old(View())
      ensures dropped.Some? && from == to ==> dropped.value == []
      ensures dropped.Some? && from != to ==>
                && Swapped(old(View()), from, to, View())
                && View() == Replaced(old(View()), from, to)
                && NoDup(dropped.value) && SetOf(dropped.value) == Subtree(old(View()), from)
                && (Forest(View()) <==> !IsUnder(old(parents), from, to))
      ensures dropped.Some? && from != to && !IsUnder(old(parents), from, to) ==>
                forall x | x in nodes :: SpecOf(View(), x) == SpecWith(old(View()), x, from, SpecOf(old(View()), to), |nodes| + 1)
    {
      hide Forest, IsUnder, Subtree, SpecOf, OwnTree, TopListOk, NoDup, SwapIds, Swapped;
      if from !in nodes { return None; }
      if from == to { return Some([]); }
      ForestTopList(View());
      if to !in nodes || ParentOf(parents, to).Some? || to in topLevelSet { return None; }
      ghost var g := View();
      if from in topLevelSet {
        var ok := ReplaceTopLevelForm(from, to);
        if !ok { return None; }
        if rootId == from { rootId := to; }
      } else {
        var p := ParentOf(parents, from);
        if p.None? { return None; }
        var ok := HangBelow(p.value, from, to);
        if !ok { return None; }
      }
      assert View() == Rewired(g, from, to);
      RewiredOwnTree(g, from, to);
      RewiredTopList(g, from, to);
      var ids := RemoveSubtreeStorage(from, g.parents, Subtree(g, from));
      ReplacedIsSwapped(g, from, to);
      ReplaceKeepsForest(g, from, to);
      if !IsUnder(g.parents, from, to) {
        forall x | x in nodes ensures SpecOf(View(), x) == SpecWith(g, x, from, SpecOf(g, to), |nodes| + 1) {
          ReplaceMeaning(g, from, to, x);
        }
      }
      return Some(ids);
    }

    method HangBelow(p: NodeId, from: NodeId, to: NodeId) returns (ok: bool)
      requires Forest(View()) && CanReplace(View(), from, to) && from !in topLevelSet && ParentOf(parents, from) == Some(p)
      modifies this`parents, this`nodes
      ensures ok && View() == Rewired(old(View()), from, to)
    {
      hide Forest, NoDup, Rewrite;
      ghost var g := View();
      HangFacts(g, p, from, to);
      if p !in nodes { return false; }
      var rewritten := RewriteParentChild(nodes[p], from, to);
      if rewritten.None? { return false; }
      parents := parents[to := Some(p)];
      ok := ReplaceNode(p, rewritten.value);
    }

    // ---- Validation ----------------------------------------------------------------------------

    /** Accepts exactly the forests whose parentless nodes are the roots. */
    method ValidateIntegrity() returns (ok: bool)
      ensures ok <==> Integrity(View())
      ensures ok <==> NodesSound(View()) && LinksSound(View()) && Acyclic(parents) && FormsSound(View())
    {
      IntegrityMeans(View());
      hide NodesSound, LinksSound, FormsSound;
      if nodes.Keys == {} {
        EmptyIntegrity(View());
        return parents.Keys == {} && topLevelForms == [] && topLevelSet == {} && sourceSpans.Keys == {} && internalNodes == {};
      }
      hide Integrity, NodesCheck, ParentsCheck, TopCheck, RootsCheck, UpCheck, DownCheck, MarksCheck;
      ChecksAreIntegrity(View());
      if rootId !in nodes { return false; }
      if !NodesCheck(View()) { return false; }
      if !ParentsCheck(View()) { return false; }
      if !TopCheck(View()) { return false; }
      if !RootsCheck(View()) { return false; }
      if !UpCheck(View()) { return false; }
      ClosedParents(View());
      var acyclic := ParentsAcyclic(parents);
      return acyclic && DownCheck(View()) && MarksCheck(View());
    }
  }
}
