/** Where the pieces of an inserted expression go, and what a failed insertion leaves alone. */
module InsertLaws {
  import opened Ir
  import opened Tables
  import opened SpecInsert

  // ---- Nothing that was there changes ---------------------------------------------------------

  /** g2 has everything g has; whatever else it has is under ids handed out since. */
  ghost predicate Keeps(g: Tables, g2: Tables) {
    && g.next <= g2.next
    && (forall x | x in g.nodes :: x in g2.nodes && g2.nodes[x] == g.nodes[x])
    && (forall x | x in g.parents :: x in g2.parents && g2.parents[x] == g.parents[x])
    && (forall x | x in g.spans :: x in g2.spans && g2.spans[x] == g.spans[x])
    && (forall x | x in g2.nodes && x !in g.nodes :: g.next <= x < g2.next)
    && (forall x | x in g2.parents && x !in g.parents :: g.next <= x < g2.next)
    && (forall x | x in g2.spans && x !in g.spans :: g.next <= x < g2.next)
    && g2.root == g.root && g2.internal == g.internal && g2.top == g.top && g2.topSet == g.topSet
  }

  lemma KeepsTrans(a: Tables, b: Tables, c: Tables)
    requires Keeps(a, b) && Keeps(b, c)
    ensures Keeps(a, c)
  {
  }

  lemma KeepsBelow(g: Tables, g2: Tables)
    requires KeysBelow(g) && Keeps(g, g2)
    ensures KeysBelow(g2)
  {
  }

  lemma PutKeeps(g: Tables, g2: Tables, node: Node, parent: Option<NodeId>, span: Option<Span>)
    requires KeysBelow(g) && Keeps(g, g2) && g.next <= node.id < g2.next
    ensures Keeps(g, PutNode(g2, node, parent, span))
  {
  }

  /** Whether it succeeds or fails, an insertion changes no entry that was there. */
  lemma {:induction false} InsertKeeps(g: Tables, e: ExprSpec, parent: Option<NodeId>)
    requires KeysBelow(g)
    ensures Keeps(g, Insert(g, e, parent).g)
    decreases e, 0
  {
    hide Keeps, KeysBelow, CallChildrenOk, PutNode;
    var r := Insert(g, e, parent);
    KeepsSelf(g);
    if g.next == MAX_ID { return; }
    var g1 := g.(next := g.next + 1);
    OneMore(g);
    KeepsNext(g);
    match e
    case NameSpec(identifier, span) =>
      if identifier != "" { PutKeeps(g, g1, Name(g.next, identifier), parent, span); }
    case LitSpec(value, span) => PutKeeps(g, g1, Lit(g.next, value), parent, span);
    case CallSpec(callee, args, span) =>
      InsertKeeps(g1, callee, Some(g.next));
      var r1 := Insert(g1, callee, Some(g.next));
      var g2 := r1.g;
      KeepsBelow(g1, g2);
      KeepsTrans(g, g1, g2);
      InsertAllKeeps(g2, args, Some(g.next));
      var r2 := InsertAll(g2, args, Some(g.next));
      var g3 := r2.g;
      KeepsTrans(g, g2, g3);
      KeepsRoom(g1, g2);
      KeepsRoom(g2, g3);
      if r.Inserted? { PutKeeps(g, g3, Call(g.next, r1.id, r2.ids), parent, span); }
  }

  lemma {:induction false} InsertAllKeeps(g: Tables, es: seq<ExprSpec>, parent: Option<NodeId>)
    requires KeysBelow(g)
    ensures Keeps(g, InsertAll(g, es, parent).g)
    decreases es
  {
    hide Keeps, KeysBelow, Insert;
    if es == [] {
      KeepsSelf(g);
    } else {
      InsertKeeps(g, es[0], parent);
      var g1 := Insert(g, es[0], parent).g;
      if Insert(g, es[0], parent).Inserted? {
        KeepsBelow(g, g1);
        InsertAllKeeps(g1, es[1..], parent);
        KeepsTrans(g, g1, InsertAll(g1, es[1..], parent).g);
      }
    }
  }

  lemma KeepsSelf(g: Tables)
    ensures Keeps(g, g)
  {
  }

  lemma KeepsNext(g: Tables)
    requires g.next < MAX_ID
    ensures Keeps(g, g.(next := g.next + 1))
  {
  }

  lemma KeepsRoom(g: Tables, g2: Tables)
    requires Keeps(g, g2)
    ensures g.next <= g2.next
  {
  }

  /** So every expression that was there still reads as it did. */
  lemma InsertKeepsExpressions(g: Tables, e: ExprSpec, parent: Option<NodeId>, x: NodeId)
    requires Forest(g) && x in g.nodes
    ensures SpecOf(Insert(g, e, parent).g, x) == SpecOf(g, x)
  {
    hide Insert;
    var g2 := Insert(g, e, parent).g;
    ForestKeys(g);
    InsertKeeps(g, e, parent);
    var fuel := |g2.nodes| + 1;
    assert SameOn(g, g2, g.nodes.Keys) by {
      forall y, c | y in g.nodes && c in g.nodes[y].Children() ensures c in g.nodes {
        assert IsChild(g, y, c);
        ChildIsNode(g, y, c);
      }
      forall y | y in g.nodes ensures SpanOf(g2, y) == SpanOf(g, y) {}
    }
    SpecFrame(g, g2, g.nodes.Keys, x, fuel);
    SubsetSize(g.nodes.Keys, g2.nodes.Keys);
    hide Forest, SpecAt;
    SpecTerminates(g, x, fuel);
  }

  // ---- Ids ------------------------------------------------------------------------------------

  /** Ids are handed out in reading order: the call, its callee, then each argument after the one before it. */
  lemma InsertOrder(g: Tables, e: ExprSpec, parent: Option<NodeId>, i: nat)
    requires KeysBelow(g) && Insert(g, e, parent).Inserted? && e.CallSpec? && i < |e.args|
    ensures var r := Insert(g, e, parent);
            && r.id == g.next && r.id in r.g.nodes && r.g.nodes[r.id].Call? && |r.g.nodes[r.id].args| == |e.args|
            && r.g.nodes[r.id].callee == g.next + 1
            && r.g.nodes[r.id].args[i] == g.next + 1 + Size(e.callee) + SizeAll(e.args[..i])
  {
    hide Grew, Reads, CallChildrenOk;
    var g1 := g.(next := g.next + 1);
    OneMore(g);
    InsertGood(g1, e.callee, Some(g.next));
    var r1 := Insert(g1, e.callee, Some(g.next));
    GrewBelow(g1, r1.g, [r1.id], Some(g.next));
    ArgsOrder(r1.g, e.args, Some(g.next), i);
  }

  lemma {:induction false} ArgsOrder(g: Tables, es: seq<ExprSpec>, parent: Option<NodeId>, i: nat)
    requires KeysBelow(g) && InsertAll(g, es, parent).InsertedAll? && i < |es|
    ensures var r := InsertAll(g, es, parent); |r.ids| == |es| && r.ids[i] == g.next + SizeAll(es[..i])
    decreases es
  {
    hide Grew, Reads, KeysBelow, Insert;
    InsertGood(g, es[0], parent);
    var r1 := Insert(g, es[0], parent);
    GrewBelow(g, r1.g, [r1.id], parent);
    if |es| == 1 { return; }
    ArgsOrder(r1.g, es[1..], parent, if i == 0 then 0 else i - 1);
    if i > 0 { assert es[..i][0] == es[0] && es[..i][1..] == es[1..][..i - 1]; }
  }

  // ---- Names ----------------------------------------------------------------------------------

  /** x is e or a part of it. */
  ghost predicate Occurs(x: ExprSpec, e: ExprSpec)
    decreases e
  {
    x == e || (e.CallSpec? && (Occurs(x, e.callee) || exists i :: 0 <= i < |e.args| && Occurs(x, e.args[i])))
  }

  /** The names are in order when no part of the expression is an empty name. */
  lemma {:induction false} NamesMean(e: ExprSpec)
    ensures NamesOk(e) <==> forall x | Occurs(x, e) && x.NameSpec? :: x.identifier != ""
    decreases e, 0
  {
    if e.CallSpec? {
      NamesMean(e.callee);
      AllNamesMean(e.args);
    } else {
      assert Occurs(e, e);
    }
  }

  lemma {:induction false} AllNamesMean(es: seq<ExprSpec>)
    ensures AllNamesOk(es) <==> forall i, x | 0 <= i < |es| && Occurs(x, es[i]) && x.NameSpec? :: x.identifier != ""
    decreases es
  {
    hide Occurs;
    if es != [] {
      NamesMean(es[0]);
      AllNamesMean(es[1..]);
      forall i | 0 <= i < |es| ensures es[i] == if i == 0 then es[0] else es[1..][i - 1] {}
      forall i | 0 <= i < |es[1..]| ensures es[1..][i] == es[i + 1] {}
    }
  }
}
