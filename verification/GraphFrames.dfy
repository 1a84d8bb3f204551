/** What an edit of the graph leaves alone, table by table. */
module GraphFrames {
  import opened Ir
  import opened Tables
  import opened GraphEdit

  /** x stands somewhere before y in s. */
  ghost predicate Precedes(s: seq<NodeId>, x: NodeId, y: NodeId) {
    exists a, b :: 0 <= a < b < |s| && s[a] == x && s[b] == y
  }

  ghost predicate InOrder(s: seq<NodeId>, small: seq<NodeId>) {
    forall i, j | 0 <= i < j < |small| :: Precedes(s, small[i], small[j])
  }

  /** small has exactly the elements of s that are not gone, in the order they have in s. */
  ghost predicate Kept(s: seq<NodeId>, gone: set<NodeId>, small: seq<NodeId>) {
    && (forall x :: x in small <==> x in s && x !in gone)
    && InOrder(s, small)
  }

  /** The root of a graph that lost its root: the first form, else the least node, else 0. */
  ghost predicate NewRoot(g: Tables) {
    if g.top != [] then g.root == g.top[0]
    else if g.nodes.Keys != {} then g.root in g.nodes && forall x | x in g.nodes :: g.root <= x
    else g.root == 0
  }

  /** Only the nodes in `gone` are gone; everything said about the others still is. */
  ghost predicate Without(before: Tables, gone: set<NodeId>, after: Tables) {
    && (forall x :: x in after.nodes <==> x in before.nodes && x !in gone)
    && (forall x | x in after.nodes :: after.nodes[x] == before.nodes[x])
    && (forall x :: x in after.parents <==> x in before.parents && x !in gone)
    && (forall x | x in after.parents :: after.parents[x] == before.parents[x])
    && (forall x :: x in after.spans <==> x in before.spans && x !in gone)
    && (forall x | x in after.spans :: after.spans[x] == before.spans[x])
    && (forall x :: x in after.internal <==> x in before.internal && x !in gone)
    && (forall x :: x in after.topSet <==> x in before.topSet && x !in gone)
    && Kept(before.top, gone, after.top)
    && after.next == before.next
    && (if before.root in gone then NewRoot(after) else after.root == before.root)
  }

  lemma DropIsWithout(g: Tables, gone: set<NodeId>)
    ensures Without(g, gone, Drop(g, gone))
  {
    FilterKept(g.top, gone);
  }

  lemma FilterKept(s: seq<NodeId>, gone: set<NodeId>)
    ensures Kept(s, gone, Filter(s, gone))
  {
    hide Filter, InOrder, NoDup;
    FilterFacts(s, gone);
    FilterOrder(s, gone);
  }

  lemma {:induction false} FilterOrder(s: seq<NodeId>, gone: set<NodeId>)
    ensures InOrder(s, Filter(s, gone))
  {
    if s != [] {
      hide InOrder;
      FilterOrder(s[1..], gone);
      OrderTail(s, Filter(s[1..], gone));
      if s[0] !in gone {
        forall k: nat | k < |Filter(s[1..], gone)| ensures Filter(s[1..], gone)[k] in s[1..] { FilterIn(s[1..], gone, k); }
        OrderCons(s, Filter(s[1..], gone));
      }
    }
  }

  lemma {:induction false} FilterIn(s: seq<NodeId>, gone: set<NodeId>, k: nat)
    requires k < |Filter(s, gone)|
    ensures Filter(s, gone)[k] in s
  {
    if s[0] in gone { FilterIn(s[1..], gone, k); } else if k > 0 { FilterIn(s[1..], gone, k - 1); }
  }

  lemma OrderTail(s: seq<NodeId>, small: seq<NodeId>)
    requires s != [] && InOrder(s[1..], small)
    ensures InOrder(s, small)
  {
    hide Precedes;
    forall i, j | 0 <= i < j < |small| ensures Precedes(s, small[i], small[j]) { PrecedesTail(s, small[i], small[j]); }
  }

  lemma OrderCons(s: seq<NodeId>, rest: seq<NodeId>)
    requires s != [] && InOrder(s, rest) && forall k: nat | k < |rest| :: rest[k] in s[1..]
    ensures InOrder(s, [s[0]] + rest)
  {
    hide Precedes;
    var small := [s[0]] + rest;
    forall i, j | 0 <= i < j < |small| ensures Precedes(s, small[i], small[j]) {
      if i == 0 { PrecedesHead(s, rest[j - 1]); } else { assert Precedes(s, rest[i - 1], rest[j - 1]); }
    }
  }

  lemma PrecedesTail(s: seq<NodeId>, x: NodeId, y: NodeId)
    requires s != [] && Precedes(s[1..], x, y)
    ensures Precedes(s, x, y)
  {
    var a, b :| 0 <= a < b < |s[1..]| && s[1..][a] == x && s[1..][b] == y;
    assert s[a + 1] == x && s[b + 1] == y;
  }

  lemma PrecedesHead(s: seq<NodeId>, y: NodeId)
    requires s != [] && y in s[1..]
    ensures Precedes(s, s[0], y)
  {
    var b :| 0 <= b < |s[1..]| && s[1..][b] == y;
    assert s[b + 1] == y;
  }

  /** ys is xs with `to` for `from`. */
  ghost predicate InPlace(xs: seq<NodeId>, from: NodeId, to: NodeId, ys: seq<NodeId>) {
    |ys| == |xs| && forall i | 0 <= i < |xs| :: ys[i] == if xs[i] == from then to else xs[i]
  }

  /** y is the call x with `to` for `from` among its children. */
  ghost predicate Relinked(x: Node, from: NodeId, to: NodeId, y: Node) {
    x.Call? && y.Call? && y.id == x.id && InPlace([x.callee] + x.args, from, to, [y.callee] + y.args)
  }

  /** The tree `to` stands where the tree `from` stood: below the same parent, or as the same form; nothing else changed. */
  ghost predicate Swapped(before: Tables, from: NodeId, to: NodeId, after: Tables) {
    && (forall x :: x in after.nodes <==> x in before.nodes && !IsUnder(before.parents, x, from))
    && (forall x | x in after.nodes ::
          if ParentOf(before.parents, from) == Some(x) then Relinked(before.nodes[x], from, to, after.nodes[x])
          else after.nodes[x] == before.nodes[x])
    && after.parents.Keys == after.nodes.Keys
    && (forall x | x in after.parents :: after.parents[x] == ParentOf(before.parents, if x == to then from else x))
    && (forall x :: x in after.spans <==> x in before.spans && x in after.nodes)
    && (forall x | x in after.spans :: after.spans[x] == before.spans[x])
    && (forall x :: x in after.internal <==> x in before.internal && x in after.nodes)
    && InPlace(before.top, from, to, after.top) && after.topSet == SetOf(after.top)
    && after.next == before.next
    && (if before.root == from && from in before.top then after.root == to
        else if IsUnder(before.parents, before.root, from) then NewRoot(after)
        else after.root == before.root)
  }

  lemma ReplacedIsSwapped(g: Tables, from: NodeId, to: NodeId)
    requires Forest(g) && CanReplace(g, from, to)
    ensures Swapped(g, from, to, Replaced(g, from, to))
  {
    hide IsUnder, Replaced, Forest, NewRoot, Relinked, InPlace, SetOf;
    SwappedNodes(g, from, to);
    SwappedTables(g, from, to);
    SwappedTop(g, from, to);
  }

  lemma SwappedNodes(g: Tables, from: NodeId, to: NodeId)
    requires Forest(g) && CanReplace(g, from, to)
    ensures var g2 := Replaced(g, from, to);
            && (forall x :: x in g2.nodes <==> x in g.nodes && !IsUnder(g.parents, x, from))
            && (forall x | x in g2.nodes ::
                  if ParentOf(g.parents, from) == Some(x) then Relinked(g.nodes[x], from, to, g2.nodes[x])
                  else g2.nodes[x] == g.nodes[x])
  {
    hide IsUnder, Acyclic, LinksOk, MarksOk, Filter;
    Apart(g, from, to);
    if ParentOf(g.parents, from).Some? {
      ParentIsNode(g, from);
      var p := ParentOf(g.parents, from).value;
      RelinkedParent(g.nodes[p], from, to);
    }
  }

  lemma RelinkedParent(node: Node, from: NodeId, to: NodeId)
    requires from in node.Children()
    ensures Relinked(node, from, to, Rewrite(node, from, to))
  {
  }

  lemma SwappedTables(g: Tables, from: NodeId, to: NodeId)
    requires Forest(g) && CanReplace(g, from, to)
    ensures var g2 := Replaced(g, from, to);
            && g2.parents.Keys == g2.nodes.Keys
            && (forall x | x in g2.parents :: g2.parents[x] == ParentOf(g.parents, if x == to then from else x))
            && (forall x :: x in g2.spans <==> x in g.spans && x in g2.nodes)
            && (forall x | x in g2.spans :: g2.spans[x] == g.spans[x])
            && (forall x :: x in g2.internal <==> x in g.internal && x in g2.nodes)
            && g2.next == g.next
  {
    hide IsUnder, Acyclic, ChildrenOk, Filter;
    Apart(g, from, to);
    if from in g.topSet { assert from in g.top; }
    if ParentOf(g.parents, from).Some? { ParentIsNode(g, from); }
  }

  lemma SwappedTop(g: Tables, from: NodeId, to: NodeId)
    requires Forest(g) && CanReplace(g, from, to)
    ensures var g2 := Replaced(g, from, to);
            && InPlace(g.top, from, to, g2.top) && g2.topSet == SetOf(g2.top)
            && (if g.root == from && from in g.top then g2.root == to
                else if IsUnder(g.parents, g.root, from) then NewRoot(g2)
                else g2.root == g.root)
  {
    hide Forest, IsUnder, Subtree, Drop, NewRoot, InPlace, SwapIds, Rewired;
    var g1, gone := Rewired(g, from, to), Subtree(g, from);
    TopStays(g, from, to);
    TopKept(g1, gone);
    Apart(g, from, to);
    RootUnder(g, from);
    RootMoves(g, from, to);
  }

  lemma TopKept(g: Tables, gone: set<NodeId>)
    requires (forall x | x in g.top :: x !in gone) && g.topSet == SetOf(g.top)
    ensures Drop(g, gone).top == g.top && Drop(g, gone).topSet == g.topSet
    ensures if g.root in gone then NewRoot(Drop(g, gone)) else Drop(g, gone).root == g.root
  {
    hide Filter, NoDup;
    FilterFacts(g.top, gone);
  }

  lemma RootMoves(g: Tables, from: NodeId, to: NodeId)
    requires Forest(g) && CanReplace(g, from, to)
    ensures Rewired(g, from, to).root == if g.root == from && from in g.top then to else g.root
  {
    hide SwapIds, ChildrenOk, LinksOk, MarksOk, Acyclic, Rewrite;
  }

  lemma RootUnder(g: Tables, a: NodeId)
    requires Forest(g) && a in g.nodes
    ensures g.root in Subtree(g, a) <==> IsUnder(g.parents, g.root, a)
  {
    hide IsUnder, Acyclic, ChildrenOk, MarksOk, TopOk;
    if g.root != a { UnderStep(g.parents, g.root, a); }
  }

  /** A form is in a subtree only as its root, and the replacement is in no other. */
  lemma TopStays(g: Tables, from: NodeId, to: NodeId)
    requires Forest(g) && CanReplace(g, from, to)
    ensures forall x | x in Rewired(g, from, to).top :: x !in Subtree(g, from)
    ensures InPlace(g.top, from, to, Rewired(g, from, to).top)
    ensures Rewired(g, from, to).topSet == SetOf(Rewired(g, from, to).top)
  {
    hide IsUnder, Acyclic, ChildrenOk, LinksOk, MarksOk, Rewrite, NoDup, SwapIds;
    Apart(g, from, to);
    forall x | x in g.top && x != from ensures x !in Subtree(g, from) {
      UnderStep(g.parents, x, from);
    }
    var top := Rewired(g, from, to).top;
    InPlaceMembers(g.top, from, to, top);
    hide InPlace, Subtree;
  }

  lemma InPlaceMembers(xs: seq<NodeId>, from: NodeId, to: NodeId, ys: seq<NodeId>)
    requires InPlace(xs, from, to, ys) && from != to
    ensures from !in ys
    ensures forall x :: x in ys <==> (x in xs && x != from) || (x == to && from in xs)
  {
    forall x ensures x in ys <==> (x in xs && x != from) || (x == to && from in xs) {
      if x in xs && x != from {
        var i :| 0 <= i < |xs| && xs[i] == x;
        assert ys[i] == x;
      }
      if x == to && from in xs {
        var i :| 0 <= i < |xs| && xs[i] == from;
        assert ys[i] == x;
      }
    }
  }
}
