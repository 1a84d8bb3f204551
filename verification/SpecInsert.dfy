/** Inserting an expression tree into the tables of a graph, as a function of the tables. */
module SpecInsert {
  import opened Ir
  import opened Tables

  /** A failed insertion leaves the nodes inserted before the failure behind. */
  datatype Inserted = Inserted(g: Tables, id: NodeId) | Failed(g: Tables)
  datatype InsertedAll = InsertedAll(g: Tables, ids: seq<NodeId>) | FailedAll(g: Tables)

  function PutNode(g: Tables, node: Node, parent: Option<NodeId>, span: Option<Span>): Tables {
    g.(nodes := g.nodes[node.id := node],
       parents := g.parents[node.id := parent],
       spans := if span.Some? then g.spans[node.id := span.value] else g.spans)
  }

  function Insert(g: Tables, e: ExprSpec, parent: Option<NodeId>): Inserted
    decreases e, 0
  {
    if g.next == MAX_ID then Failed(g)
    else
      var id := g.next;
      var g1 := g.(next := g.next + 1);
      match e
      case NameSpec(identifier, span) =>
        if identifier == "" then Failed(g1)
        else Inserted(PutNode(g1, Name(id, identifier), parent, span), id)
      case LitSpec(value, span) =>
        Inserted(PutNode(g1, Lit(id, value), parent, span), id)
      case CallSpec(callee, args, span) =>
        match Insert(g1, callee, Some(id))
        case Failed(g2) => Failed(g2)
        case Inserted(g2, calleeId) =>
          match InsertAll(g2, args, Some(id))
          case FailedAll(g3) => Failed(g3)
          case InsertedAll(g3, argIds) =>
            if !CallChildrenOk(g3, calleeId, argIds) then Failed(g3)
            else Inserted(PutNode(g3, Call(id, calleeId, argIds), parent, span), id)
  }

  function InsertAll(g: Tables, es: seq<ExprSpec>, parent: Option<NodeId>): InsertedAll
    decreases es
  {
    if es == [] then InsertedAll(g, [])
    else
      match Insert(g, es[0], parent)
      case Failed(g1) => FailedAll(g1)
      case Inserted(g1, id) =>
        match InsertAll(g1, es[1..], parent)
        case FailedAll(g2) => FailedAll(g2)
        case InsertedAll(g2, ids) => InsertedAll(g2, [id] + ids)
  }

  /** Children of a call must be present and pairwise different. */
  predicate CallChildrenOk(g: Tables, callee: NodeId, args: seq<NodeId>) {
    NoDup([callee] + args) && callee in g.nodes && forall a | a in args :: a in g.nodes
  }

  // ---- What an insertion does to the tables --------------------------------------------------

  /** No table mentions an id that has not been handed out. */
  ghost predicate KeysBelow(g: Tables) {
    && (forall x | x in g.nodes :: x < g.next)
    && (forall x | x in g.parents :: x < g.next)
    && (forall x | x in g.spans :: x < g.next)
  }

  /** g2 is g with exactly the ids g.next .. g2.next-1 added, and nothing else changed. */
  ghost predicate Adds(g: Tables, g2: Tables) {
    && g.next <= g2.next
    && (forall x: NodeId :: x in g2.nodes <==> x in g.nodes || g.next <= x < g2.next)
    && (forall x: NodeId :: x in g2.parents <==> x in g.parents || g.next <= x < g2.next)
    && (forall x | x in g.nodes :: g2.nodes[x] == g.nodes[x])
    && (forall x | x in g.parents :: g2.parents[x] == g.parents[x])
    && (forall x: NodeId | x < g.next :: SpanOf(g2, x) == SpanOf(g, x))
    && (forall x | x in g2.spans :: x < g2.next)
    && g2.root == g.root && g2.internal == g.internal && g2.top == g.top && g2.topSet == g.topSet
  }

  ghost predicate Placed(g: Tables, x: NodeId, lo: int, roots: seq<NodeId>, parent: Option<NodeId>) {
    && x in g.nodes && x in g.parents && g.nodes[x].id == x && NoDup(g.nodes[x].Children())
    && (if x in roots then g.parents[x] == parent
        else g.parents[x].Some? && lo <= g.parents[x].value < x && IsChild(g, g.parents[x].value, x))
  }

  /** The nodes lo..hi-1 are trees with the given roots: children come after their call, and links agree. */
  ghost predicate Block(g: Tables, lo: int, hi: int, roots: seq<NodeId>, parent: Option<NodeId>) {
    && (forall x: NodeId | lo <= x < hi :: Placed(g, x, lo, roots, parent))
    && (forall x: NodeId, c: NodeId | lo <= x < hi && IsChild(g, x, c) :: x < c < hi && ParentOf(g.parents, c) == Some(x))
    && (forall r | r in roots :: lo <= r < hi)
    && NoDup(roots)
  }

  ghost predicate Grew(g: Tables, g2: Tables, roots: seq<NodeId>, parent: Option<NodeId>) {
    Adds(g, g2) && Block(g2, g.next, g2.next, roots, parent)
  }

  ghost predicate SameRange(g: Tables, g2: Tables, lo: int, hi: int) {
    forall x: NodeId | lo <= x < hi ::
      x in g.nodes && x in g2.nodes && g2.nodes[x] == g.nodes[x] && SpanOf(g2, x) == SpanOf(g, x)
  }

  /** Descending n levels or more from the roots reads the trees es. */
  ghost predicate Reads(g: Tables, roots: seq<NodeId>, es: seq<ExprSpec>, n: nat) {
    forall fuel: nat | fuel >= n :: SpecsAt(g, roots, fuel) == Specs(es)
  }

  // ---- Building blocks -------------------------------------------------------------------------

  lemma LeafGrew(g: Tables, node: Node, parent: Option<NodeId>, span: Option<Span>)
    requires KeysBelow(g) && g.next < MAX_ID && !node.Call? && node.id == g.next
    ensures var g2 := PutNode(g.(next := g.next + 1), node, parent, span);
            Grew(g, g2, [g.next], parent) && SpanOf(g2, g.next) == span
  {
  }

  lemma NothingGrew(g: Tables, parent: Option<NodeId>)
    requires KeysBelow(g)
    ensures Grew(g, g, [], parent)
  {
  }

  lemma GrewBelow(g: Tables, g2: Tables, roots: seq<NodeId>, parent: Option<NodeId>)
    requires KeysBelow(g) && Grew(g, g2, roots, parent)
    ensures KeysBelow(g2) && g.next <= g2.next
  {
  }

  lemma GrewSame(g: Tables, g2: Tables, g3: Tables, roots: seq<NodeId>, parent: Option<NodeId>)
    requires Grew(g, g2, roots, parent) && Adds(g2, g3)
    ensures SameRange(g2, g3, g.next, g2.next) && Block(g3, g.next, g2.next, roots, parent)
  {
    forall x: NodeId, c: NodeId | g.next <= x < g2.next && IsChild(g3, x, c)
      ensures x < c < g2.next && ParentOf(g3.parents, c) == Some(x)
    {
      assert IsChild(g2, x, c);
    }
    forall x: NodeId | g.next <= x < g2.next ensures Placed(g3, x, g.next, roots, parent) {
      assert Placed(g2, x, g.next, roots, parent);
    }
  }

  lemma BlockJoin(g: Tables, lo: int, mid: int, hi: int, a: seq<NodeId>, b: seq<NodeId>, parent: Option<NodeId>)
    requires Block(g, lo, mid, a, parent) && Block(g, mid, hi, b, parent) && lo <= mid <= hi
    ensures Block(g, lo, hi, a + b, parent)
  {
    forall x: NodeId | lo <= x < hi ensures Placed(g, x, lo, a + b, parent) {
      if x < mid { assert Placed(g, x, lo, a, parent); } else { assert Placed(g, x, mid, b, parent); }
    }
    forall i, j | 0 <= i < j < |a + b| ensures (a + b)[i] != (a + b)[j] {
      if i < |a| { assert a[i] in a; }
      if j >= |a| { assert b[j - |a|] in b; }
    }
  }

  lemma GrewJoin(g: Tables, g2: Tables, g3: Tables, a: seq<NodeId>, b: seq<NodeId>, parent: Option<NodeId>)
    requires Grew(g, g2, a, parent) && Grew(g2, g3, b, parent)
    ensures Grew(g, g3, a + b, parent) && SameRange(g2, g3, g.next, g2.next)
  {
    GrewSame(g, g2, g3, a, parent);
    BlockJoin(g3, g.next, g2.next, g3.next, a, b, parent);
  }

  lemma AddsRoot(g: Tables, g3: Tables, node: Node, parent: Option<NodeId>, span: Option<Span>)
    requires KeysBelow(g) && g.next < MAX_ID && node.id == g.next && Adds(g.(next := g.next + 1), g3)
    ensures var g4 := PutNode(g3, node, parent, span);
            Adds(g, g4) && SpanOf(g4, g.next) == span && forall x: NodeId | x != g.next :: SpanOf(g4, x) == SpanOf(g3, x)
  {
    var g1, g4 := g.(next := g.next + 1), PutNode(g3, node, parent, span);
    assert SpanOf(g3, g.next) == SpanOf(g1, g.next) == None;
    forall x: NodeId | x < g.next ensures SpanOf(g4, x) == SpanOf(g, x) {
      assert SpanOf(g3, x) == SpanOf(g1, x);
    }
  }

  lemma BlockRoot(g3: Tables, lo: NodeId, node: Node, parent: Option<NodeId>, span: Option<Span>)
    requires node.Call? && node.id == lo < g3.next && Block(g3, lo + 1, g3.next, node.Children(), Some(lo))
    ensures Block(PutNode(g3, node, parent, span), lo, g3.next, [lo], parent)
    ensures CallChildrenOk(g3, node.callee, node.args)
  {
    var g4, kids := PutNode(g3, node, parent, span), node.Children();
    forall x: NodeId | lo <= x < g3.next ensures Placed(g4, x, lo, [lo], parent) {
      if x != lo { assert Placed(g3, x, lo + 1, kids, Some(lo)); }
    }
    forall x: NodeId, c: NodeId | lo <= x < g3.next && IsChild(g4, x, c)
      ensures x < c < g3.next && ParentOf(g4.parents, c) == Some(x)
    {
      if x != lo { assert IsChild(g3, x, c); } else { assert Placed(g3, c, lo + 1, kids, Some(lo)); }
    }
    forall r | r in kids ensures r in g3.nodes { assert Placed(g3, r, lo + 1, kids, Some(lo)); }
    assert kids[0] == node.callee && kids[1..] == node.args;
  }

  /** A call put above the trees of its children. */
  lemma GrewRoot(g: Tables, g3: Tables, node: Node, parent: Option<NodeId>, span: Option<Span>)
    requires KeysBelow(g) && g.next < MAX_ID && node.Call? && node.id == g.next
    requires Grew(g.(next := g.next + 1), g3, node.Children(), Some(g.next))
    ensures var g4 := PutNode(g3, node, parent, span);
            Grew(g, g4, [g.next], parent) && SpanOf(g4, g.next) == span && SameRange(g3, g4, g.next + 1, g3.next)
    ensures CallChildrenOk(g3, node.callee, node.args)
  {
    hide Block, NoDup;
    AddsRoot(g, g3, node, parent, span);
    BlockRoot(g3, g.next, node, parent, span);
  }

  // ---- Reading blocks --------------------------------------------------------------------------

  lemma ReadsFrame(g: Tables, g2: Tables, g3: Tables, roots: seq<NodeId>, parent: Option<NodeId>, es: seq<ExprSpec>, n: nat)
    requires Grew(g, g2, roots, parent) && SameRange(g2, g3, g.next, g2.next) && Reads(g2, roots, es, n)
    ensures Reads(g3, roots, es, n)
  {
    var part := set x | x in g2.nodes && g.next <= x < g2.next;
    forall x, c | x in part && c in g2.nodes[x].Children() ensures c in part { assert IsChild(g2, x, c); }
    forall fuel: nat | fuel >= n ensures SpecsAt(g3, roots, fuel) == Specs(es) {
      SpecsFrame(g2, g3, part, roots, fuel);
    }
  }

  lemma ReadsLeaf(g: Tables, id: NodeId, e: ExprSpec)
    requires id in g.nodes && SpecAt(g, id, 1) == Spec(e) && !g.nodes[id].Call?
    ensures Reads(g, [id], [e], 1)
  {
    forall fuel: nat | fuel >= 1 ensures SpecsAt(g, [id], fuel) == Specs([e]) {
      assert SpecAt(g, id, fuel) == Spec(e) && [id][1..] == [];
      assert SpecsAt(g, [], fuel) == Specs([]);
    }
  }

  lemma ReadsJoin(g: Tables, id: NodeId, ids: seq<NodeId>, e: ExprSpec, es: seq<ExprSpec>, n: nat, m: nat)
    requires Reads(g, [id], [e], n) && Reads(g, ids, es, m)
    ensures Reads(g, [id] + ids, [e] + es, n + m)
  {
    forall fuel: nat | fuel >= n + m ensures SpecsAt(g, [id] + ids, fuel) == Specs([e] + es) {
      ReadsOne(g, id, e, n, fuel);
      assert ([id] + ids)[1..] == ids;
    }
  }

  lemma ReadsOne(g: Tables, id: NodeId, e: ExprSpec, n: nat, fuel: nat)
    requires Reads(g, [id], [e], n) && fuel >= n
    ensures SpecAt(g, id, fuel) == Spec(e)
  {
    assert SpecsAt(g, [id], fuel) == Specs([e]);
    assert SpecsAt(g, [id], fuel) == ConsResult(SpecAt(g, id, fuel), SpecsAt(g, [id][1..], fuel));
    assert SpecsAt(g, [id][1..], fuel) == Specs([]);
    assert ([SpecAt(g, id, fuel).e] + [])[0] == [e][0];
  }

  lemma ReadsCall(g: Tables, id: NodeId, callee: NodeId, ids: seq<NodeId>, ce: ExprSpec, es: seq<ExprSpec>, n: nat, m: nat)
    requires id in g.nodes && g.nodes[id] == Call(id, callee, ids)
    requires Reads(g, [callee], [ce], n) && Reads(g, ids, es, m)
    ensures Reads(g, [id], [CallSpec(ce, es, SpanOf(g, id))], 1 + n + m)
  {
    forall fuel: nat | fuel >= 1 + n + m ensures SpecsAt(g, [id], fuel) == Specs([CallSpec(ce, es, SpanOf(g, id))]) {
      ReadsOne(g, callee, ce, n, fuel - 1);
      assert SpecAt(g, id, fuel) == Spec(CallSpec(ce, es, SpanOf(g, id))) && [id][1..] == [];
    }
  }

  // ---- Inserting and reading back --------------------------------------------------------------

  ghost predicate InsertsWell(g: Tables, e: ExprSpec, parent: Option<NodeId>, r: Inserted) {
    r.Inserted? ==>
      && r.id == g.next && r.g.next == g.next + Size(e)
      && Grew(g, r.g, [r.id], parent) && Reads(r.g, [r.id], [e], Size(e))
  }

  lemma {:induction false} InsertGood(g: Tables, e: ExprSpec, parent: Option<NodeId>)
    requires KeysBelow(g)
    ensures Insert(g, e, parent).Inserted? <==> NamesOk(e) && g.next + Size(e) <= MAX_ID
    ensures InsertsWell(g, e, parent, Insert(g, e, parent))
    decreases e, 0
  {
    hide Grew, Reads, SameRange, NoDup;
    if g.next == MAX_ID { return; }
    match e
    case NameSpec(identifier, span) =>
      if identifier != "" {
        LeafGrew(g, Name(g.next, identifier), parent, span);
        ReadsLeaf(Insert(g, e, parent).g, g.next, e);
      }
    case LitSpec(value, span) =>
      LeafGrew(g, Lit(g.next, value), parent, span);
      ReadsLeaf(Insert(g, e, parent).g, g.next, e);
    case CallSpec(callee, args, span) => InsertCallGood(g, e, parent);
  }

  lemma {:induction false} InsertCallGood(g: Tables, e: ExprSpec, parent: Option<NodeId>)
    requires KeysBelow(g) && g.next < MAX_ID && e.CallSpec?
    ensures Insert(g, e, parent).Inserted? <==> NamesOk(e) && g.next + Size(e) <= MAX_ID
    ensures InsertsWell(g, e, parent, Insert(g, e, parent))
    decreases e, -1
  {
    hide Grew, Reads, SameRange, NoDup, KeysBelow, SpecAt, SpecsAt, CallChildrenOk, SpanOf;
    var id, g1 := g.next, g.(next := g.next + 1);
    OneMore(g);
    InsertGood(g1, e.callee, Some(id));
    var r1 := Insert(g1, e.callee, Some(id));
    if r1.Failed? { return; }
    GrewBelow(g1, r1.g, [r1.id], Some(id));
    InsertAllGood(r1.g, e.args, Some(id));
    var r2 := InsertAll(r1.g, e.args, Some(id));
    if r2.FailedAll? { return; }
    CallInserted(g, e, parent, r1, r2);
  }

  lemma CallInserted(g: Tables, e: ExprSpec, parent: Option<NodeId>, r1: Inserted, r2: InsertedAll)
    requires KeysBelow(g) && g.next < MAX_ID && e.CallSpec? && r1.Inserted? && r2.InsertedAll?
    requires Grew(g.(next := g.next + 1), r1.g, [r1.id], Some(g.next)) && Reads(r1.g, [r1.id], [e.callee], Size(e.callee))
    requires Grew(r1.g, r2.g, r2.ids, Some(g.next)) && Reads(r2.g, r2.ids, e.args, SizeAll(e.args))
    requires g.next < r1.g.next <= r2.g.next
    ensures CallChildrenOk(r2.g, r1.id, r2.ids)
    ensures var g4 := PutNode(r2.g, Call(g.next, r1.id, r2.ids), parent, e.span);
            Grew(g, g4, [g.next], parent) && Reads(g4, [g.next], [e], Size(e))
  {
    hide Grew, Reads, SameRange, NoDup, KeysBelow, SpecAt, SpecsAt, CallChildrenOk, SpanOf;
    var id, g1 := g.next, g.(next := g.next + 1);
    var node := Call(id, r1.id, r2.ids);
    var g4 := PutNode(r2.g, node, parent, e.span);
    GrewJoin(g1, r1.g, r2.g, [r1.id], r2.ids, Some(id));
    GrewRoot(g, r2.g, node, parent, e.span);
    SameTwice(r1.g, r2.g, g4, g1.next, r1.g.next, r2.g.next);
    ReadsFrame(g1, r1.g, g4, [r1.id], Some(id), [e.callee], Size(e.callee));
    ReadsFrame(r1.g, r2.g, g4, r2.ids, Some(id), e.args, SizeAll(e.args));
    ReadsCall(g4, id, r1.id, r2.ids, e.callee, e.args, Size(e.callee), SizeAll(e.args));
  }

  lemma OneMore(g: Tables)
    requires KeysBelow(g) && g.next < MAX_ID
    ensures KeysBelow(g.(next := g.next + 1))
  {
  }

  lemma SameTwice(g: Tables, g2: Tables, g3: Tables, lo: int, mid: int, hi: int)
    requires SameRange(g, g2, lo, mid) && SameRange(g2, g3, lo, hi) && lo <= mid <= hi
    ensures SameRange(g, g3, lo, mid) && SameRange(g2, g3, mid, hi)
  {
  }

  lemma {:induction false} InsertAllGood(g: Tables, es: seq<ExprSpec>, parent: Option<NodeId>)
    requires KeysBelow(g)
    ensures InsertAll(g, es, parent).InsertedAll? <==> AllNamesOk(es) && g.next + SizeAll(es) <= MAX_ID
    ensures var r := InsertAll(g, es, parent);
            r.InsertedAll? ==>
              r.g.next == g.next + SizeAll(es) && Grew(g, r.g, r.ids, parent) && Reads(r.g, r.ids, es, SizeAll(es))
    decreases es
  {
    if es == [] {
      NothingGrew(g, parent);
      return;
    }
    hide Grew, Reads, SameRange, NoDup;
    InsertGood(g, es[0], parent);
    var r1 := Insert(g, es[0], parent);
    if r1.Failed? { return; }
    GrewBelow(g, r1.g, [r1.id], parent);
    InsertAllGood(r1.g, es[1..], parent);
    var r2 := InsertAll(r1.g, es[1..], parent);
    if r2.FailedAll? { return; }
    GrewJoin(g, r1.g, r2.g, [r1.id], r2.ids, parent);
    ReadsFrame(g, r1.g, r2.g, [r1.id], parent, [es[0]], Size(es[0]));
    ReadsJoin(r2.g, r1.id, r2.ids, es[0], es[1..], Size(es[0]), SizeAll(es[1..]));
    assert es == [es[0]] + es[1..];
  }

  // ---- Inserting into a forest -----------------------------------------------------------------

  /** Above the old nodes, chains of parents go down in id and stop at the inserted root. */
  lemma {:induction false} NewChains(g: Tables, g2: Tables, x: NodeId, n: nat)
    requires Grew(g, g2, [g.next], None) && g.next <= x < g2.next
    requires n > 0 && Up(g2.parents, x, n).Some?
    ensures g.next <= Up(g2.parents, x, n).value < x
    decreases n
  {
    assert Placed(g2, x, g.next, [g.next], None);
    var p := ParentOf(g2.parents, x).value;
    if n > 1 { NewChains(g, g2, p, n - 1); } else { assert Up(g2.parents, p, 0) == Some(p); }
  }

  lemma GrewAcyclic(g: Tables, g2: Tables)
    requires Forest(g) && Grew(g, g2, [g.next], None)
    ensures Acyclic(g2.parents)
  {
    forall x: NodeId, n: nat | n > 0 ensures Up(g2.parents, x, n) != Some(x) {
      if x in g.nodes {
        forall y | y in g.nodes && ParentOf(g.parents, y).Some? ensures ParentOf(g.parents, y).value in g.nodes {
          assert IsChild(g, g.parents[y].value, y);
        }
        UpFrame(g.parents, g2.parents, g.nodes.Keys, x, n);
      } else if g.next <= x < g2.next {
        if Up(g2.parents, x, n).Some? { NewChains(g, g2, x, n); }
      }
    }
  }

  lemma GrewLinks(g: Tables, g2: Tables)
    requires Forest(g) && Grew(g, g2, [g.next], None)
    ensures ChildrenOk(g2) && LinksOk(g2)
  {
    forall x | x in g2.nodes ensures g2.nodes[x].id == x && NoDup(g2.nodes[x].Children()) {
      if x !in g.nodes { assert Placed(g2, x, g.next, [g.next], None); }
    }
    forall p: NodeId, c: NodeId | IsChild(g2, p, c) ensures c in g2.nodes && ParentOf(g2.parents, c) == Some(p) {
      if p in g.nodes { assert IsChild(g, p, c); }
    }
    forall c | c in g2.parents && g2.parents[c].Some? ensures IsChild(g2, g2.parents[c].value, c) {
      if c in g.nodes { assert IsChild(g, g.parents[c].value, c); } else { assert Placed(g2, c, g.next, [g.next], None); }
    }
  }

  lemma GrewMarks(g: Tables, g2: Tables)
    requires Forest(g) && Grew(g, g2, [g.next], None)
    ensures MarksOk(g2) && TopOk(g2)
  {
    hide Acyclic, ChildrenOk, LinksOk, Block, NoDup;
    ParentKeys(g);
    forall x | x in g2.spans ensures x in g2.nodes {
      if x < g.next { assert SpanOf(g2, x) == SpanOf(g, x); }
    }
  }

  lemma GrewRootDetached(g: Tables, g2: Tables)
    requires Forest(g) && Grew(g, g2, [g.next], None)
    ensures g.next in g2.nodes && g2.parents[g.next] == None && g.next !in g2.top
    ensures Parentless(g2) == Parentless(g) + {g.next}
  {
    hide Acyclic, ChildrenOk, LinksOk, NoDup;
    assert g.next in [g.next];
    assert Placed(g2, g.next, g.next, [g.next], None);
    forall id | id in g2.parents && g2.parents[id] == None && id !in g.parents ensures id == g.next {
      assert Placed(g2, id, g.next, [g.next], None);
    }
  }

  lemma GrewForest(g: Tables, g2: Tables)
    requires Forest(g) && Grew(g, g2, [g.next], None)
    ensures Forest(g2)
    ensures g.next in g2.nodes && g2.parents[g.next] == None && g.next !in g2.top
    ensures Parentless(g2) == Parentless(g) + {g.next}
  {
    hide ChildrenOk, LinksOk, MarksOk, TopOk, Acyclic, Grew, Parentless;
    GrewAcyclic(g, g2);
    GrewLinks(g, g2);
    GrewMarks(g, g2);
    GrewRootDetached(g, g2);
  }

  lemma GrewSameOn(g: Tables, g2: Tables)
    requires Forest(g) && Grew(g, g2, [g.next], None)
    ensures SameOn(g, g2, g.nodes.Keys) && g.nodes.Keys <= g2.nodes.Keys
  {
    forall x | x in g.nodes ensures SpanOf(g2, x) == SpanOf(g, x) && forall c | c in g.nodes[x].Children() :: c in g.nodes {
      forall c | c in g.nodes[x].Children() ensures c in g.nodes { assert IsChild(g, x, c); }
    }
  }

  lemma GrewAdds(g: Tables, g2: Tables)
    requires Grew(g, g2, [g.next], None)
    ensures Adds(g, g2)
  {
  }

  lemma ForestKeys(g: Tables)
    requires Forest(g)
    ensures KeysBelow(g)
  {
  }

  /** Everything that was there still denotes what it denoted. */
  lemma GrewKeeps(g: Tables, g2: Tables, x: NodeId)
    requires Forest(g) && Grew(g, g2, [g.next], None) && x in g.nodes
    ensures forall fuel: nat :: SpecAt(g2, x, fuel) == SpecAt(g, x, fuel)
    ensures SpecOf(g2, x) == SpecOf(g, x)
  {
    hide Forest, Grew, SameOn;
    GrewSameOn(g, g2);
    forall fuel: nat ensures SpecAt(g2, x, fuel) == SpecAt(g, x, fuel) {
      SpecFrame(g, g2, g.nodes.Keys, x, fuel);
    }
    GrewForest(g, g2);
    SpecTerminates(g, x, |g.nodes| + |g2.nodes| + 1);
    SpecTerminates(g2, x, |g.nodes| + |g2.nodes| + 1);
  }

  /**
   * Inserting a tree into a forest and reading it back is the identity, spans included; it succeeds
   * exactly when the names are non-empty and the ids suffice, takes the next Size(e) ids, keeps the
   * forest, and changes no node, parent, span or expression that was there.
   */
  lemma InsertRoundTrip(g: Tables, e: ExprSpec)
    requires Forest(g)
    ensures Insert(g, e, None).Inserted? <==> NamesOk(e) && g.next + Size(e) <= MAX_ID
    ensures var r := Insert(g, e, None);
            r.Inserted? ==>
              && r.id == g.next && r.g.next == g.next + Size(e) && Adds(g, r.g)
              && Forest(r.g) && Parentless(r.g) == Parentless(g) + {r.id} && r.id !in r.g.top
              && SpecOf(r.g, r.id) == Spec(e)
              && forall x | x in g.nodes :: SpecOf(r.g, x) == SpecOf(g, x)
  {
    hide Forest, Grew, Adds, Reads, Parentless, KeysBelow, Insert, SpecAt, SpecOf, Size, NamesOk;
    ForestKeys(g);
    InsertGood(g, e, None);
    var r := Insert(g, e, None);
    if r.Inserted? {
      GrewForest(g, r.g);
      GrewAdds(g, r.g);
      forall x | x in g.nodes ensures SpecOf(r.g, x) == SpecOf(g, x) { GrewKeeps(g, r.g, x); }
      SpecTerminates(r.g, r.id, |r.g.nodes| + 1 + Size(e));
      ReadsOne(r.g, r.id, e, Size(e), |r.g.nodes| + 1 + Size(e));
    }
  }
}
