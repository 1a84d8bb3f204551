/**
 * The tables of an IR graph as one value, what it means for them to describe a forest, and the
 * expression a node denotes.
 */
module Tables {
  import opened Ir

  type ParentMap = map<NodeId, Option<NodeId>>

  datatype Tables = Tables(
    root: NodeId,
    nodes: map<NodeId, Node>,
    parents: ParentMap,
    spans: map<NodeId, Span>,
    internal: set<NodeId>,
    top: seq<NodeId>,
    topSet: set<NodeId>,
    next: NodeId)

  const EMPTY := Tables(0, map[], map[], map[], {}, [], {}, 0)

  /** A missing entry reads as "no parent". */
  function ParentOf(m: ParentMap, x: NodeId): Option<NodeId> {
    if x in m then m[x] else None
  }

  /** The n-th ancestor of x. */
  ghost function Up(m: ParentMap, x: NodeId, n: nat): Option<NodeId>
    decreases n
  {
    if n == 0 then Some(x)
    else match ParentOf(m, x)
      case None => None
      case Some(p) => Up(m, p, n - 1)
  }

  /** a is x or an ancestor of x. */
  ghost predicate IsUnder(m: ParentMap, x: NodeId, a: NodeId) {
    exists n: nat :: Up(m, x, n) == Some(a)
  }

  /** No node is its own proper ancestor. */
  ghost predicate Acyclic(m: ParentMap) {
    forall x: NodeId, n: nat :: n > 0 ==> Up(m, x, n) != Some(x)
  }

  ghost function Subtree(g: Tables, a: NodeId): set<NodeId> {
    set x | x in g.nodes && IsUnder(g.parents, x, a)
  }

  function SetOf<T(==)>(s: seq<T>): set<T>
  {
    set x | x in s
  }

  // ---- The invariants ----------------------------------------------------------------------

  predicate IsChild(g: Tables, p: NodeId, c: NodeId) {
    p in g.nodes && c in g.nodes[p].Children()
  }

  ghost predicate ChildrenOk(g: Tables) {
    && (forall id | id in g.nodes :: g.nodes[id].id == id && NoDup(g.nodes[id].Children()))
    && (forall p: NodeId, c: NodeId | IsChild(g, p, c) :: c in g.nodes)
  }

  /** Parent entries and child lists are inverse to each other. */
  ghost predicate LinksOk(g: Tables) {
    && g.parents.Keys == g.nodes.Keys
    && (forall c | c in g.parents && g.parents[c].Some? :: IsChild(g, g.parents[c].value, c))
    && (forall p: NodeId, c: NodeId | IsChild(g, p, c) :: ParentOf(g.parents, c) == Some(p))
  }

  ghost predicate MarksOk(g: Tables) {
    && g.spans.Keys <= g.nodes.Keys
    && (forall id | id in g.internal :: id in g.nodes && g.nodes[id].Name?)
    && (forall id | id in g.nodes :: id < g.next)
  }

  ghost predicate TopOk(g: Tables) {
    && NoDup(g.top)
    && g.topSet == SetOf(g.top)
    && forall id | id in g.top :: id in g.nodes && ParentOf(g.parents, id) == None
  }

  /** The tables describe a forest; trees that are not top-level forms are allowed. */
  ghost predicate Forest(g: Tables) {
    ChildrenOk(g) && LinksOk(g) && MarksOk(g) && TopOk(g) && Acyclic(g.parents)
  }

  ghost function Parentless(g: Tables): set<NodeId> {
    set id | id in g.parents && g.parents[id] == None
  }

  ghost function Roots(g: Tables): set<NodeId> {
    if g.top == [] then {g.root} else SetOf(g.top)
  }

  /** What `validate_integrity` is meant to accept: a forest whose parentless nodes are the roots. */
  ghost predicate Integrity(g: Tables) {
    && Forest(g)
    && (g.nodes.Keys != {} ==> g.root in g.nodes && Parentless(g) == Roots(g))
  }

  // ---- The expression at a node ------------------------------------------------------------

  /** `Looping`: the descent is deeper than the given number of levels. `Bad`: the descent fails. */
  datatype SpecResult = Looping | Bad | Spec(e: ExprSpec)
  datatype SpecsResult = AllLooping | AllBad | Specs(es: seq<ExprSpec>)

  function SpanOf(g: Tables, id: NodeId): Option<Span> {
    if id in g.spans then Some(g.spans[id]) else None
  }

  /** `expr_spec_for_subtree` allowed to descend `fuel` levels. */
  function SpecAt(g: Tables, id: NodeId, fuel: nat): SpecResult
    decreases fuel, 0
  {
    if fuel == 0 then Looping
    else if id !in g.nodes then Bad
    else match g.nodes[id]
      case Name(_, identifier) => if identifier == "" then Bad else Spec(NameSpec(identifier, SpanOf(g, id)))
      case Lit(_, value) => Spec(LitSpec(value, SpanOf(g, id)))
      case Call(_, callee, args) => CallResult(SpecAt(g, callee, fuel - 1), SpecsAt(g, args, fuel - 1), SpanOf(g, id))
  }

  function SpecsAt(g: Tables, ids: seq<NodeId>, fuel: nat): SpecsResult
    decreases fuel, |ids|
  {
    if ids == [] then Specs([])
    else ConsResult(SpecAt(g, ids[0], fuel), SpecsAt(g, ids[1..], fuel))
  }

  function CallResult(callee: SpecResult, args: SpecsResult, span: Option<Span>): SpecResult {
    match callee
    case Looping => Looping
    case Bad => Bad
    case Spec(c) =>
      match args
      case AllLooping => Looping
      case AllBad => Bad
      case Specs(es) => Spec(CallSpec(c, es, span))
  }

  function ConsResult(head: SpecResult, tail: SpecsResult): SpecsResult {
    match head
    case Looping => AllLooping
    case Bad => AllBad
    case Spec(e) =>
      match tail
      case AllLooping => AllLooping
      case AllBad => AllBad
      case Specs(es) => Specs([e] + es)
  }

  /** The expression at a node; descending further than there are nodes means going round a cycle. */
  function SpecOf(g: Tables, id: NodeId): SpecResult {
    SpecAt(g, id, |g.nodes| + 1)
  }

  // ---- Ancestors ---------------------------------------------------------------------------

  lemma {:induction false} UpAdd(m: ParentMap, x: NodeId, i: nat, j: nat)
    ensures Up(m, x, i + j) == match Up(m, x, i) case None => None case Some(y) => Up(m, y, j)
    decreases i
  {
    if i > 0 {
      match ParentOf(m, x)
      case None =>
      case Some(p) => UpAdd(m, p, i - 1, j);
    }
  }

  lemma UnderSelf(m: ParentMap, x: NodeId)
    ensures IsUnder(m, x, x)
  {
    assert Up(m, x, 0) == Some(x);
  }

  lemma UnderTrans(m: ParentMap, x: NodeId, y: NodeId, z: NodeId)
    requires IsUnder(m, x, y) && IsUnder(m, y, z)
    ensures IsUnder(m, x, z)
  {
    var i: nat :| Up(m, x, i) == Some(y);
    var j: nat :| Up(m, y, j) == Some(z);
    UpAdd(m, x, i, j);
    assert Up(m, x, i + j) == Some(z);
  }

  /** Anything under a child is under the parent. */
  lemma UnderParent(m: ParentMap, x: NodeId, p: NodeId)
    requires ParentOf(m, x) == Some(p)
    ensures IsUnder(m, x, p)
  {
    assert Up(m, p, 0) == Some(p);
    assert Up(m, x, 1) == Some(p);
  }

  /** Leaving x aside, being under a passes through x's parent. */
  lemma UnderStep(m: ParentMap, x: NodeId, a: NodeId)
    requires x != a
    ensures IsUnder(m, x, a) <==> (ParentOf(m, x).Some? && IsUnder(m, ParentOf(m, x).value, a))
  {
    if IsUnder(m, x, a) {
      var n: nat :| Up(m, x, n) == Some(a);
      assert n > 0;
      assert Up(m, ParentOf(m, x).value, n - 1) == Some(a);
    }
    if ParentOf(m, x).Some? && IsUnder(m, ParentOf(m, x).value, a) {
      UnderParent(m, x, ParentOf(m, x).value);
      UnderTrans(m, x, ParentOf(m, x).value, a);
    }
  }

  /** Chains that stay in a part where two parent tables agree are the same in both. */
  lemma {:induction false} UpFrame(m: ParentMap, m2: ParentMap, part: set<NodeId>, x: NodeId, n: nat)
    requires x in part
    requires forall y | y in part ::
               ParentOf(m2, y) == ParentOf(m, y) && (ParentOf(m, y).Some? ==> ParentOf(m, y).value in part)
    ensures Up(m2, x, n) == Up(m, x, n)
    decreases n
  {
    if n > 0 && ParentOf(m, x).Some? {
      UpFrame(m, m2, part, ParentOf(m, x).value, n - 1);
    }
  }

  /** A number that strictly drops along every parent link rules out cycles. */
  lemma {:induction false} RankDrops(m: ParentMap, rank: map<NodeId, nat>, x: NodeId, n: nat)
    requires forall c | c in m && m[c].Some? :: c in rank && m[c].value in rank && rank[m[c].value] < rank[c]
    requires n > 0 && Up(m, x, n).Some?
    ensures x in rank && Up(m, x, n).value in rank && rank[Up(m, x, n).value] < rank[x]
    decreases n
  {
    var p := ParentOf(m, x).value;
    if n > 1 {
      RankDrops(m, rank, p, n - 1);
    } else {
      assert Up(m, p, 0) == Some(p);
    }
  }

  lemma RankedIsAcyclic(m: ParentMap, rank: map<NodeId, nat>)
    requires forall c | c in m && m[c].Some? :: c in rank && m[c].value in rank && rank[m[c].value] < rank[c]
    ensures Acyclic(m)
  {
    forall x: NodeId, n: nat | n > 0 ensures Up(m, x, n) != Some(x) {
      if Up(m, x, n) == Some(x) {
        RankDrops(m, rank, x, n);
      }
    }
  }

  // ---- Reading single facts off a forest -----------------------------------------------------

  lemma ParentIsNode(g: Tables, c: NodeId)
    requires Forest(g) && ParentOf(g.parents, c).Some?
    ensures c in g.nodes && ParentOf(g.parents, c).value in g.nodes && IsChild(g, ParentOf(g.parents, c).value, c)
  {
    hide Acyclic, ChildrenOk, MarksOk, TopOk;
  }

  lemma ParentKeys(g: Tables)
    requires Forest(g)
    ensures g.parents.Keys == g.nodes.Keys
  {
    hide Acyclic, ChildrenOk, MarksOk, TopOk;
  }

  lemma ChildIsNode(g: Tables, p: NodeId, c: NodeId)
    requires Forest(g) && IsChild(g, p, c)
    ensures c in g.nodes && ParentOf(g.parents, c) == Some(p)
  {
    hide Acyclic, MarksOk, TopOk;
  }

  lemma TopIsDetached(g: Tables, id: NodeId)
    requires Forest(g) && (id in g.top || id in g.topSet)
    ensures id in g.nodes && ParentOf(g.parents, id) == None && id in g.top && id in g.topSet
  {
    hide Acyclic, ChildrenOk, LinksOk, MarksOk;
  }

  // ---- Subtrees ----------------------------------------------------------------------------

  lemma NotUnderChild(m: ParentMap, p: NodeId, c: NodeId)
    requires Acyclic(m) && ParentOf(m, c) == Some(p)
    ensures !IsUnder(m, p, c)
  {
    forall n: nat ensures Up(m, p, n) != Some(c) {
      UpAdd(m, p, n, 1);
      assert Up(m, c, 1) == Some(p) by { assert Up(m, p, 0) == Some(p); }
      assert Up(m, p, n + 1) != Some(p);
    }
  }

  /** A child's subtree is strictly inside its parent's. */
  lemma ChildSubtreeSmaller(g: Tables, p: NodeId, c: NodeId)
    requires Acyclic(g.parents) && p in g.nodes && ParentOf(g.parents, c) == Some(p)
    ensures |Subtree(g, c)| < |Subtree(g, p)|
  {
    var sc, sp := Subtree(g, c), Subtree(g, p);
    UnderParent(g.parents, c, p);
    forall x | x in sc ensures x in sp {
      UnderTrans(g.parents, x, c, p);
    }
    UnderSelf(g.parents, p);
    NotUnderChild(g.parents, p, c);
    assert p in sp && p !in sc;
    SubsetSize(sc, sp);
  }

  /** h drops from every call to each of its children, all of which are present. */
  ghost predicate Ranked(g: Tables, h: map<NodeId, nat>) {
    && h.Keys == g.nodes.Keys
    && forall p: NodeId, c: NodeId | IsChild(g, p, c) :: c in h && h[c] < h[p]
  }

  /** Subtree sizes rank the nodes of a forest. */
  lemma SubtreeRanks(g: Tables) returns (h: map<NodeId, nat>)
    requires Forest(g)
    ensures Ranked(g, h)
    ensures forall id | id in h :: h[id] <= |g.nodes|
  {
    h := map id | id in g.nodes :: |Subtree(g, id)|;
    forall id | id in g.nodes ensures h[id] <= |g.nodes| {
      SubsetSize(Subtree(g, id), g.nodes.Keys);
    }
    forall p: NodeId, c: NodeId | IsChild(g, p, c) ensures c in h && h[c] < h[p] {
      ChildSubtreeSmaller(g, p, c);
    }
  }

  /** More levels than the rank of a node are enough for the descent, and any further ones change nothing. */
  lemma {:induction false} SpecSettles(g: Tables, h: map<NodeId, nat>, id: NodeId, fuel: nat, more: nat)
    requires Ranked(g, h) && id in g.nodes && h[id] < fuel <= more
    ensures SpecAt(g, id, fuel) != Looping
    ensures SpecAt(g, id, more) == SpecAt(g, id, fuel)
    decreases fuel, 0
  {
    match g.nodes[id]
    case Name(_, _) =>
    case Lit(_, _) =>
    case Call(_, callee, args) =>
      var kids := g.nodes[id].Children();
      assert IsChild(g, id, kids[0]);
      forall a | a in args ensures a in h && h[a] < fuel - 1 { assert IsChild(g, id, a); }
      SpecSettles(g, h, callee, fuel - 1, more - 1);
      SpecsSettle(g, h, args, fuel - 1, more - 1);
  }

  lemma {:induction false} SpecsSettle(g: Tables, h: map<NodeId, nat>, ids: seq<NodeId>, fuel: nat, more: nat)
    requires Ranked(g, h) && fuel <= more
    requires forall a | a in ids :: a in h && h[a] < fuel
    ensures SpecsAt(g, ids, fuel) != AllLooping
    ensures SpecsAt(g, ids, more) == SpecsAt(g, ids, fuel)
    decreases fuel, |ids|
  {
    if ids != [] {
      SpecSettles(g, h, ids[0], fuel, more);
      SpecsSettle(g, h, ids[1..], fuel, more);
    }
  }

  /** Reading an expression back from a forest always comes to an end, whatever the level bound. */
  lemma SpecTerminates(g: Tables, id: NodeId, fuel: nat)
    requires Forest(g) && id in g.nodes && fuel > |g.nodes|
    ensures SpecOf(g, id) != Looping
    ensures SpecAt(g, id, fuel) == SpecOf(g, id)
  {
    var h := SubtreeRanks(g);
    SpecSettles(g, h, id, |g.nodes| + 1, fuel);
  }

  /** Expressions are read off nodes and spans only: where two graphs agree on a closed part, they read the same. */
  ghost predicate SameOn(g: Tables, g2: Tables, part: set<NodeId>) {
    forall x | x in part ::
      && x in g.nodes && x in g2.nodes && g2.nodes[x] == g.nodes[x] && SpanOf(g2, x) == SpanOf(g, x)
      && forall c | c in g.nodes[x].Children() :: c in part
  }

  lemma {:induction false} SpecFrame(g: Tables, g2: Tables, part: set<NodeId>, id: NodeId, fuel: nat)
    requires SameOn(g, g2, part) && id in part
    ensures SpecAt(g2, id, fuel) == SpecAt(g, id, fuel)
    decreases fuel, 0
  {
    if fuel > 0 && g.nodes[id].Call? {
      var kids := g.nodes[id].Children();
      assert kids[0] in part;
      SpecFrame(g, g2, part, kids[0], fuel - 1);
      SpecsFrame(g, g2, part, kids[1..], fuel - 1);
    }
  }

  lemma {:induction false} SpecsFrame(g: Tables, g2: Tables, part: set<NodeId>, ids: seq<NodeId>, fuel: nat)
    requires SameOn(g, g2, part) && forall a | a in ids :: a in part
    ensures SpecsAt(g2, ids, fuel) == SpecsAt(g, ids, fuel)
    decreases fuel, |ids|
  {
    if ids != [] {
      SpecFrame(g, g2, part, ids[0], fuel);
      SpecsFrame(g, g2, part, ids[1..], fuel);
    }
  }

  // ---- Exactly one root --------------------------------------------------------------------

  /** Every node of an accepted graph is under exactly one root. */
  lemma UniqueRoot(g: Tables, id: NodeId)
    requires Integrity(g) && id in g.nodes
    ensures exists r :: r in Roots(g) && IsUnder(g.parents, id, r)
    ensures forall r, q | r in Roots(g) && q in Roots(g) && IsUnder(g.parents, id, r) && IsUnder(g.parents, id, q) ::
              r == q
  {
    var r := SomeRoot(g, id);
    assert r in Parentless(g);
    forall r, q | r in Roots(g) && q in Roots(g) && IsUnder(g.parents, id, r) && IsUnder(g.parents, id, q)
      ensures r == q
    {
      assert r in Parentless(g) && q in Parentless(g);
      OneTopAncestor(g.parents, id, r, q);
    }
  }

  lemma SomeRoot(g: Tables, id: NodeId) returns (r: NodeId)
    requires Forest(g) && id in g.nodes
    ensures r in g.nodes && g.parents[r] == None && IsUnder(g.parents, id, r)
  {
    var h := SubtreeRanks(g);
    r := ClimbToRoot(g, h, id);
  }

  lemma {:induction false} ClimbToRoot(g: Tables, h: map<NodeId, nat>, id: NodeId) returns (r: NodeId)
    requires Ranked(g, h) && LinksOk(g) && id in g.nodes
    requires forall x | x in h :: h[x] <= |g.nodes|
    ensures r in g.nodes && g.parents[r] == None && IsUnder(g.parents, id, r)
    decreases |g.nodes| - h[id]
  {
    match g.parents[id]
    case None =>
      r := id;
      UnderSelf(g.parents, id);
    case Some(p) =>
      r := ClimbToRoot(g, h, p);
      UnderParent(g.parents, id, p);
      UnderTrans(g.parents, id, p, r);
  }

  lemma OneTopAncestor(m: ParentMap, x: NodeId, r: NodeId, q: NodeId)
    requires IsUnder(m, x, r) && IsUnder(m, x, q)
    requires ParentOf(m, r) == None && ParentOf(m, q) == None
    ensures r == q
  {
    var i: nat :| Up(m, x, i) == Some(r);
    var j: nat :| Up(m, x, j) == Some(q);
    if i < j {
      UpAdd(m, x, i, j - i);
    } else if j < i {
      UpAdd(m, x, j, i - j);
    }
  }
}
