/** Sorted snapshots of a graph: writing them, validating them and reading them back. */
module Template {
  import opened Ir
  import opened Tables
  import opened Acyclicity
  import opened Checks

  type Entry<T> = (NodeId, T)

  datatype Template = Template(
    root: NodeId,
    nodes: seq<Node>,
    parents: seq<Entry<Option<NodeId>>>,
    spans: seq<Entry<Span>>,
    internal: seq<NodeId>,
    top: seq<NodeId>,
    next: NodeId)

  // ---- Sequences of entries and the maps they stand for ----------------------------------------

  function KeysOf<T>(s: seq<Entry<T>>): (r: seq<NodeId>)
    ensures |r| == |s| && forall i | 0 <= i < |s| :: r[i] == s[i].0
  {
    seq(|s|, i requires 0 <= i < |s| => s[i].0)
  }

  /** Collecting entries into a map: the last entry for a key wins. */
  function MapOf<T>(s: seq<Entry<T>>): map<NodeId, T> {
    if s == [] then map[] else MapOf(s[..|s| - 1])[s[|s| - 1].0 := s[|s| - 1].1]
  }

  ghost predicate Rising<T>(s: seq<Entry<T>>) {
    forall i, j | 0 <= i < j < |s| :: s[i].0 < s[j].0
  }

  /** s lists exactly the entries of m, by rising key. */
  ghost predicate Lists<T(!new)>(s: seq<Entry<T>>, m: map<NodeId, T>) {
    && Rising(s)
    && (forall e | e in s :: e.0 in m && m[e.0] == e.1)
    && (forall k | k in m :: (k, m[k]) in s)
  }

  lemma {:induction false} MapOfFacts<T>(s: seq<Entry<T>>)
    ensures forall k :: k in MapOf(s) <==> k in KeysOf(s)
    ensures NoDup(KeysOf(s)) ==> forall e | e in s :: e.0 in MapOf(s) && MapOf(s)[e.0] == e.1
  {
    if s != [] {
      var n := |s| - 1;
      MapOfFacts(s[..n]);
      assert s == s[..n] + [s[n]];
      assert KeysOf(s) == KeysOf(s[..n]) + [s[n].0];
      if NoDup(KeysOf(s)) {
        assert NoDup(KeysOf(s[..n]));
        forall e | e in s ensures e.0 in MapOf(s) && MapOf(s)[e.0] == e.1 {
          if e in s[..n] {
            var i :| 0 <= i < n && s[..n][i] == e;
            assert KeysOf(s)[i] != KeysOf(s)[n];
          }
        }
      }
    }
  }

  /** A listing of a map gives the map back. */
  lemma ListsMapOf<T(!new)>(s: seq<Entry<T>>, m: map<NodeId, T>)
    requires Lists(s, m)
    ensures NoDup(KeysOf(s)) && MapOf(s) == m
  {
    MapOfFacts(s);
    forall k | k in MapOf(s) ensures k in m && MapOf(s)[k] == m[k] {
      var i :| 0 <= i < |s| && KeysOf(s)[i] == k;
      assert s[i] in s;
    }
    forall k | k in m ensures k in MapOf(s) {
      assert (k, m[k]) in s;
    }
  }

  lemma LastIsGreatest<T(!new)>(s: seq<Entry<T>>, m: map<NodeId, T>)
    requires Lists(s, m) && s != []
    ensures var e := s[|s| - 1]; e.0 in m && e.1 == m[e.0] && forall k | k in m :: k <= e.0
  {
    assert s[|s| - 1] in s;
    forall k | k in m ensures k <= s[|s| - 1].0 {
      var i :| 0 <= i < |s| && s[i] == (k, m[k]);
      assert i == |s| - 1 || s[i].0 < s[|s| - 1].0;
    }
  }

  lemma ListsEmpty<T(!new)>(s: seq<Entry<T>>, m: map<NodeId, T>)
    requires Lists(s, m)
    ensures s == [] <==> m.Keys == {}
  {
    if s != [] { assert s[0] in s; }
  }

  /** A map has only one listing: the order in which its entries are met does not matter. */
  lemma {:induction false} ListsUnique<T(!new)>(s: seq<Entry<T>>, t: seq<Entry<T>>, m: map<NodeId, T>)
    requires Lists(s, m) && Lists(t, m)
    ensures s == t
    decreases |s|
  {
    hide Lists;
    ListsEmpty(s, m);
    ListsEmpty(t, m);
    if s != [] {
      LastIsGreatest(s, m);
      LastIsGreatest(t, m);
      var n, l := |s| - 1, |t| - 1;
      assert s[n].0 == t[l].0 && s[n].1 == t[l].1;
      ListsInit(s, m);
      ListsInit(t, m);
      ListsUnique(s[..n], t[..l], m - {s[n].0});
      assert s == s[..n] + [s[n]] && t == t[..l] + [t[l]];
    }
  }

  lemma ListsInit<T(!new)>(s: seq<Entry<T>>, m: map<NodeId, T>)
    requires Lists(s, m) && s != []
    ensures Lists(s[..|s| - 1], m - {s[|s| - 1].0})
  {
    var n := |s| - 1;
    var r, m2 := s[..n], m - {s[n].0};
    forall e | e in r ensures e.0 in m2 && m2[e.0] == e.1 {
      InitBelow(s, e);
      assert e in s;
    }
    forall k | k in m2 ensures (k, m2[k]) in r {
      InInit(s, (k, m[k]));
    }
  }

  lemma InitBelow<T(!new)>(s: seq<Entry<T>>, e: Entry<T>)
    requires Rising(s) && s != [] && e in s[..|s| - 1]
    ensures e.0 < s[|s| - 1].0
  {
  }

  lemma InInit<T(!new)>(s: seq<Entry<T>>, e: Entry<T>)
    requires e in s && e.0 != s[|s| - 1].0
    ensures e in s[..|s| - 1]
  {
    assert s == s[..|s| - 1] + [s[|s| - 1]];
  }

  // ---- Sorting ---------------------------------------------------------------------------------

  function InsertEntry<T>(s: seq<Entry<T>>, e: Entry<T>): seq<Entry<T>> {
    if s == [] then [e]
    else if e.0 < s[0].0 then [e] + s
    else [s[0]] + InsertEntry(s[1..], e)
  }

  lemma {:induction false} InsertLists<T(!new)>(s: seq<Entry<T>>, e: Entry<T>, m: map<NodeId, T>)
    requires Lists(s, m) && e.0 !in m
    ensures Lists(InsertEntry(s, e), m[e.0 := e.1])
  {
    InsertMembers(s, e);
    InsertRising(s, e);
    forall x | x in InsertEntry(s, e) ensures x.0 in m[e.0 := e.1] && m[e.0 := e.1][x.0] == x.1 {
      if x != e { assert x in s; }
    }
  }

  lemma {:induction false} InsertMembers<T(!new)>(s: seq<Entry<T>>, e: Entry<T>)
    ensures forall x :: x in InsertEntry(s, e) <==> x == e || x in s
  {
    if s != [] {
      InsertMembers(s[1..], e);
      assert s == [s[0]] + s[1..];
    }
  }

  lemma {:induction false} InsertRising<T(!new)>(s: seq<Entry<T>>, e: Entry<T>)
    requires Rising(s) && forall x | x in s :: x.0 != e.0
    ensures Rising(InsertEntry(s, e))
  {
    if s != [] && e.0 >= s[0].0 {
      var tail := s[1..];
      assert s[0] in s && forall x | x in tail :: x in s && s[0].0 < x.0;
      InsertRising(tail, e);
      InsertMembers(tail, e);
      RisingCons(s[0], InsertEntry(tail, e));
    }
  }

  lemma RisingCons<T(!new)>(h: Entry<T>, tail: seq<Entry<T>>)
    requires Rising(tail) && forall x | x in tail :: h.0 < x.0
    ensures Rising([h] + tail)
  {
  }

  /** Entries are met in no particular order; the listing is the same whatever that order is. */
  method ListEntries<T(!new)>(m: map<NodeId, T>) returns (s: seq<Entry<T>>)
    ensures Lists(s, m)
  {
    s := [];
    var todo := m.Keys;
    ghost var done: map<NodeId, T> := map[];
    while todo != {}
      invariant todo <= m.Keys && done == m - todo && Lists(s, done)
      decreases todo
    {
      var k :| k in todo;
      InsertLists(s, (k, m[k]), done);
      s := InsertEntry(s, (k, m[k]));
      todo := todo - {k};
      done := done[k := m[k]];
      assert done == m - todo;
    }
    assert m - {} == m;
  }

  // ---- Templates -------------------------------------------------------------------------------

  function NodeEntries(nodes: seq<Node>): (r: seq<Entry<Node>>)
    ensures |r| == |nodes| && forall i | 0 <= i < |nodes| :: r[i] == (nodes[i].id, nodes[i])
  {
    seq(|nodes|, i requires 0 <= i < |nodes| => (nodes[i].id, nodes[i]))
  }

  /** The graph a template describes. */
  function TablesOf(t: Template): Tables {
    Tables(t.root, MapOf(NodeEntries(t.nodes)), MapOf(t.parents), MapOf(t.spans), SetOf(t.internal), t.top, SetOf(t.top), t.next)
  }

  /** No table of the template lists a key twice. */
  predicate Distinct(t: Template) {
    NoDup(KeysOf(NodeEntries(t.nodes))) && NoDup(KeysOf(t.parents)) && NoDup(KeysOf(t.spans)) && NoDup(t.internal)
  }

  // ---- The template's own checks, over its sequences --------------------------------------------

  function IdsOf(nodes: seq<Node>): seq<NodeId> { KeysOf(NodeEntries(nodes)) }

  predicate CallsOk(nodes: seq<Node>, ids: set<NodeId>) {
    forall i | 0 <= i < |nodes| :: NoDup(nodes[i].Children()) && forall c | c in nodes[i].Children() :: c in ids
  }

  predicate ParentEntriesOk(ps: seq<Entry<Option<NodeId>>>, ids: set<NodeId>) {
    && (forall i | 0 <= i < |ps| :: ps[i].0 in ids && (ps[i].1.Some? ==> ps[i].1.value in ids))
    && NoDup(KeysOf(ps)) && (forall id | id in ids :: id in KeysOf(ps))
  }

  predicate IdsOk(listed: seq<NodeId>, ids: set<NodeId>) {
    (forall i | 0 <= i < |listed| :: listed[i] in ids) && NoDup(listed)
  }

  predicate UpsOk(ps: seq<Entry<Option<NodeId>>>, byId: map<NodeId, Node>) {
    forall i | 0 <= i < |ps| && ps[i].1.Some? :: ps[i].1.value in byId && ps[i].0 in byId[ps[i].1.value].Children()
  }

  predicate DownsOk(nodes: seq<Node>, byParent: ParentMap) {
    forall i | 0 <= i < |nodes| :: PointBack(nodes[i], byParent)
  }

  predicate PointBack(node: Node, byParent: ParentMap) {
    forall c | c in node.Children() :: ParentOf(byParent, c) == Some(node.id)
  }

  predicate NamesMarked(listed: seq<NodeId>, byId: map<NodeId, Node>) {
    (forall i | 0 <= i < |listed| :: listed[i] in byId && byId[listed[i]].Name?) && NoDup(listed)
  }

  function ParentlessOf(ps: seq<Entry<Option<NodeId>>>): set<NodeId> {
    set i | 0 <= i < |ps| && ps[i].1.None? :: ps[i].0
  }

  /** Inserts ids one by one into a set, and stops at the first that is there already. */
  method CollectIds(listed: seq<NodeId>) returns (ok: bool, ids: set<NodeId>)
    ensures ok <==> NoDup(listed)
    ensures ok ==> ids == SetOf(listed)
  {
    ids := {};
    for i := 0 to |listed|
      invariant NoDup(listed[..i]) && ids == SetOf(listed[..i])
    {
      if listed[i] in ids {
        RepeatedId(listed, i);
        return false, ids;
      }
      OneMoreId(listed, i);
      ids := ids + {listed[i]};
    }
    assert listed[..|listed|] == listed;
    ok := true;
  }

  lemma RepeatedId(listed: seq<NodeId>, i: nat)
    requires i < |listed| && listed[i] in SetOf(listed[..i])
    ensures !NoDup(listed)
  {
    var j :| 0 <= j < i && listed[..i][j] == listed[i];
    assert listed[j] == listed[i];
  }

  lemma OneMoreId(listed: seq<NodeId>, i: nat)
    requires i < |listed| && NoDup(listed[..i]) && listed[i] !in SetOf(listed[..i])
    ensures NoDup(listed[..i + 1]) && SetOf(listed[..i + 1]) == SetOf(listed[..i]) + {listed[i]}
  {
    assert listed[..i + 1] == listed[..i] + [listed[i]];
    assert forall j | 0 <= j < i :: listed[..i][j] in SetOf(listed[..i]);
  }

  method CheckCalls(nodes: seq<Node>, ids: set<NodeId>) returns (ok: bool)
    ensures ok <==> CallsOk(nodes, ids)
  {
    hide NoDup;
    for i := 0 to |nodes|
      invariant forall j | 0 <= j < i :: NoDup(nodes[j].Children()) && forall c | c in nodes[j].Children() :: c in ids
    {
      if !NoDup(nodes[i].Children()) || exists c | c in nodes[i].Children() :: c !in ids { return false; }
    }
    return true;
  }

  method CheckParentEntries(ps: seq<Entry<Option<NodeId>>>, ids: set<NodeId>) returns (ok: bool)
    ensures ok <==> ParentEntriesOk(ps, ids)
  {
    hide NoDup;
    for i := 0 to |ps|
      invariant forall j | 0 <= j < i :: ps[j].0 in ids && (ps[j].1.Some? ==> ps[j].1.value in ids)
    {
      if ps[i].0 !in ids || (ps[i].1.Some? && ps[i].1.value !in ids) { return false; }
    }
    var once, listed := CollectIds(KeysOf(ps));
    ok := once && ids <= listed;
  }

  method CheckIds(listed: seq<NodeId>, ids: set<NodeId>) returns (ok: bool)
    ensures ok <==> IdsOk(listed, ids)
  {
    hide NoDup;
    for i := 0 to |listed|
      invariant forall j | 0 <= j < i :: listed[j] in ids
    {
      if listed[i] !in ids { return false; }
    }
    var once, _ := CollectIds(listed);
    ok := once;
  }

  method CheckUps(ps: seq<Entry<Option<NodeId>>>, byId: map<NodeId, Node>) returns (ok: bool)
    ensures ok <==> UpsOk(ps, byId)
  {
    for i := 0 to |ps|
      invariant UpsOk(ps[..i], byId)
    {
      if ps[i].1.Some? && (ps[i].1.value !in byId || ps[i].0 !in byId[ps[i].1.value].Children()) { return false; }
      assert ps[..i + 1] == ps[..i] + [ps[i]];
    }
    assert ps[..|ps|] == ps;
    return true;
  }

  method CheckDowns(nodes: seq<Node>, byParent: ParentMap) returns (ok: bool)
    ensures ok <==> DownsOk(nodes, byParent)
  {
    for i := 0 to |nodes|
      invariant forall j | 0 <= j < i :: PointBack(nodes[j], byParent)
    {
      if !PointBack(nodes[i], byParent) { return false; }
    }
    return true;
  }

  method CheckMarks(listed: seq<NodeId>, byId: map<NodeId, Node>) returns (ok: bool)
    ensures ok <==> NamesMarked(listed, byId)
  {
    hide NoDup;
    for i := 0 to |listed|
      invariant forall j | 0 <= j < i :: listed[j] in byId && byId[listed[j]].Name?
    {
      if listed[i] !in byId || !byId[listed[i]].Name? { return false; }
    }
    var once, _ := CollectIds(listed);
    ok := once;
  }

  /** Accepts exactly the templates without repeated keys whose graph has integrity. */
  method Validate(t: Template) returns (ok: bool)
    ensures ok <==> Distinct(t) && Integrity(TablesOf(t))
  {
    hide *;
    var once, ids := CollectIds(IdsOf(t.nodes));
    if !once {
      RepeatsKeys(t);
      return false;
    }
    if t.nodes == [] {
      EmptyTemplate(t);
      return t.parents == [] && t.top == [] && t.spans == [] && t.internal == [];
    }
    SequenceChecks(t, ids);
    var byId, byParent := MapOf(NodeEntries(t.nodes)), MapOf(t.parents);
    if t.root !in ids { return false; }
    ok := CheckCalls(t.nodes, ids);
    if !ok { return; }
    ok := CheckParentEntries(t.parents, ids);
    if !ok { return; }
    ok := CheckIds(t.top, ids);
    if !ok { return; }
    if ParentlessOf(t.parents) != (if t.top == [] then {t.root} else SetOf(t.top)) { return false; }
    ok := CheckUps(t.parents, byId);
    if !ok { return; }
    ParentsClosed(t, ids);
    ok := ParentsAcyclic(byParent);
    if !ok { return; }
    ok := CheckDowns(t.nodes, byParent);
    if !ok { return; }
    ok := CheckIds(KeysOf(t.spans), ids);
    if !ok { return; }
    ok := CheckMarks(t.internal, byId);
    if !ok { return; }
    var max := MaxId(t.nodes);
    ok := t.next > max;
  }

  method MaxId(nodes: seq<Node>) returns (max: NodeId)
    requires nodes != []
    ensures forall n: int :: n > max <==> BelowAll(nodes, n)
  {
    max := nodes[0].id;
    for i := 1 to |nodes|
      invariant forall j | 0 <= j < i :: nodes[j].id <= max
      invariant exists j | 0 <= j < i :: nodes[j].id == max
    {
      if nodes[i].id > max { max := nodes[i].id; }
    }
  }

  predicate BelowAll(nodes: seq<Node>, n: int) {
    forall i | 0 <= i < |nodes| :: nodes[i].id < n
  }

  lemma RepeatsKeys(t: Template)
    requires !NoDup(IdsOf(t.nodes))
    ensures !Distinct(t)
  {
  }

  lemma EmptyTemplate(t: Template)
    requires t.nodes == []
    ensures Distinct(t) && Integrity(TablesOf(t)) <==> t.parents == [] && t.top == [] && t.spans == [] && t.internal == []
  {
    hide Integrity, Distinct;
    EmptyTables(t);
    EmptyIntegrity(TablesOf(t));
  }

  /** An entry of the map a sequence stands for is an entry of the sequence. */
  lemma {:induction false} FromSequence<T>(s: seq<Entry<T>>, k: NodeId) returns (i: nat)
    requires k in MapOf(s)
    ensures i < |s| && s[i] == (k, MapOf(s)[k])
  {
    var n := |s| - 1;
    if s[n].0 == k {
      i := n;
    } else {
      i := FromSequence(s[..n], k);
    }
  }

  lemma InSequence<T>(s: seq<Entry<T>>, i: nat)
    requires NoDup(KeysOf(s)) && i < |s|
    ensures s[i].0 in MapOf(s) && MapOf(s)[s[i].0] == s[i].1
  {
    MapOfFacts(s);
    assert s[i] in s;
  }

  lemma IdsAreKeys(t: Template)
    ensures SetOf(IdsOf(t.nodes)) == TablesOf(t).nodes.Keys
  {
    MapOfFacts(NodeEntries(t.nodes));
  }

  lemma CallsAreNodes(t: Template)
    requires NoDup(IdsOf(t.nodes))
    ensures CallsOk(t.nodes, TablesOf(t).nodes.Keys) <==> NodesCheck(TablesOf(t))
  {
    hide NoDup;
    var g, es := TablesOf(t), NodeEntries(t.nodes);
    forall id | id in g.nodes ensures exists i | 0 <= i < |t.nodes| :: t.nodes[i] == g.nodes[id] && t.nodes[i].id == id {
      var i := FromSequence(es, id);
    }
    forall i | 0 <= i < |t.nodes| ensures t.nodes[i].id in g.nodes && g.nodes[t.nodes[i].id] == t.nodes[i] { InSequence(es, i); }
  }

  lemma EntriesAreParents(t: Template)
    ensures ParentEntriesOk(t.parents, TablesOf(t).nodes.Keys) <==> ParentsCheck(TablesOf(t)) && NoDup(KeysOf(t.parents))
  {
    hide NoDup;
    var g, ps := TablesOf(t), t.parents;
    MapOfFacts(ps);
    if NoDup(KeysOf(ps)) {
      forall i | 0 <= i < |ps| ensures ps[i].0 in g.parents && g.parents[ps[i].0] == ps[i].1 { InSequence(ps, i); }
      forall id | id in g.parents ensures exists i | 0 <= i < |ps| :: ps[i] == (id, g.parents[id]) {
        var i := FromSequence(ps, id);
      }
    }
  }

  lemma LinksAgree(t: Template)
    requires NoDup(IdsOf(t.nodes)) && NoDup(KeysOf(t.parents))
    ensures UpsOk(t.parents, TablesOf(t).nodes) <==> UpCheck(TablesOf(t))
    ensures DownsOk(t.nodes, TablesOf(t).parents) <==> DownCheck(TablesOf(t))
    ensures ParentlessOf(t.parents) == set id | id in TablesOf(t).parents && TablesOf(t).parents[id].None?
  {
    hide NoDup;
    var g, ps, es := TablesOf(t), t.parents, NodeEntries(t.nodes);
    forall i | 0 <= i < |ps| ensures ps[i].0 in g.parents && g.parents[ps[i].0] == ps[i].1 { InSequence(ps, i); }
    forall id | id in g.parents ensures exists i | 0 <= i < |ps| :: ps[i] == (id, g.parents[id]) { var i := FromSequence(ps, id); }
    forall i | 0 <= i < |t.nodes| ensures t.nodes[i].id in g.nodes && g.nodes[t.nodes[i].id] == t.nodes[i] { InSequence(es, i); }
    forall id | id in g.nodes ensures exists i | 0 <= i < |t.nodes| :: t.nodes[i] == g.nodes[id] && t.nodes[i].id == id {
      var i := FromSequence(es, id);
    }
  }

  lemma ListsAgree(t: Template)
    requires NoDup(IdsOf(t.nodes))
    ensures IdsOk(t.top, TablesOf(t).nodes.Keys) <==> TopCheck(TablesOf(t))
    ensures IdsOk(KeysOf(t.spans), TablesOf(t).nodes.Keys) && NamesMarked(t.internal, TablesOf(t).nodes) && BelowAll(t.nodes, t.next)
            <==> MarksCheck(TablesOf(t)) && NoDup(KeysOf(t.spans)) && NoDup(t.internal)
  {
    hide NoDup;
    var g, es := TablesOf(t), NodeEntries(t.nodes);
    MapOfFacts(t.spans);
    forall i | 0 <= i < |t.nodes| ensures t.nodes[i].id in g.nodes && g.nodes[t.nodes[i].id] == t.nodes[i] { InSequence(es, i); }
    forall id | id in g.nodes ensures exists i | 0 <= i < |t.nodes| :: t.nodes[i].id == id { var i := FromSequence(es, id); }
    assert forall i | 0 <= i < |KeysOf(t.spans)| :: KeysOf(t.spans)[i] in g.spans;
    assert forall i | 0 <= i < |t.internal| :: t.internal[i] in g.internal;
  }

  /** Checking the sequences is checking the tables they stand for. */
  lemma SequenceChecks(t: Template, ids: set<NodeId>)
    requires NoDup(IdsOf(t.nodes)) && ids == SetOf(IdsOf(t.nodes)) && t.nodes != []
    ensures Distinct(t) && Integrity(TablesOf(t)) <==>
              && t.root in ids && CallsOk(t.nodes, ids) && ParentEntriesOk(t.parents, ids) && IdsOk(t.top, ids)
              && ParentlessOf(t.parents) == (if t.top == [] then {t.root} else SetOf(t.top))
              && UpsOk(t.parents, MapOf(NodeEntries(t.nodes))) && Acyclic(MapOf(t.parents)) && DownsOk(t.nodes, MapOf(t.parents))
              && IdsOk(KeysOf(t.spans), ids) && NamesMarked(t.internal, MapOf(NodeEntries(t.nodes))) && BelowAll(t.nodes, t.next)
  {
    var g := TablesOf(t);
    IdsAreKeys(t);
    EmptyTables(t);
    ChecksAreIntegrity(g);
    CallsAreNodes(t);
    EntriesAreParents(t);
    ListsAgree(t);
    if NoDup(KeysOf(t.parents)) { LinksAgree(t); }
    hide NoDup, Integrity, NodesCheck, ParentsCheck, TopCheck, UpCheck, DownCheck, MarksCheck, Acyclic, CallsOk, IdsOk, UpsOk, DownsOk, NamesMarked, BelowAll, MapOf, KeysOf, SetOf, ParentlessOf;
  }

  lemma ParentsClosed(t: Template, ids: set<NodeId>)
    requires ParentEntriesOk(t.parents, ids) && ids == SetOf(IdsOf(t.nodes))
    ensures forall c | c in MapOf(t.parents) && MapOf(t.parents)[c].Some? :: MapOf(t.parents)[c].value in MapOf(t.parents)
  {
    IdsAreKeys(t);
    EntriesAreParents(t);
    ClosedParents(TablesOf(t));
  }

  lemma MapEmpty<T>(s: seq<Entry<T>>)
    ensures MapOf(s).Keys == {} <==> s == []
  {
    MapOfFacts(s);
    if s != [] { assert KeysOf(s)[0] in KeysOf(s); }
  }

  lemma EmptyTables(t: Template)
    ensures TablesOf(t).nodes.Keys == {} <==> t.nodes == []
    ensures TablesOf(t).parents.Keys == {} <==> t.parents == []
    ensures TablesOf(t).spans.Keys == {} <==> t.spans == []
    ensures TablesOf(t).internal == {} <==> t.internal == []
    ensures TablesOf(t).topSet == {} <==> t.top == []
    ensures t.nodes == [] && t.parents == [] && t.spans == [] && t.internal == [] ==> Distinct(t)
  {
    MapEmpty(NodeEntries(t.nodes));
    MapEmpty(t.parents);
    MapEmpty(t.spans);
    if t.internal != [] { assert t.internal[0] in SetOf(t.internal); }
    if t.top != [] { assert t.top[0] in SetOf(t.top); }
  }

  // ---- Writing and reading back ----------------------------------------------------------------

  /** t is the sorted snapshot of g. */
  ghost predicate IsSnapshot(t: Template, g: Tables) {
    && Lists(NodeEntries(t.nodes), g.nodes) && Lists(t.parents, g.parents) && Lists(t.spans, g.spans)
    && Lists(UnitEntries(t.internal), UnitMap(g.internal))
    && t.root == g.root && t.top == g.top && t.next == g.next
  }

  function UnitEntries(ids: seq<NodeId>): (r: seq<Entry<()>>)
    ensures |r| == |ids| && forall i | 0 <= i < |ids| :: r[i] == (ids[i], ())
  {
    seq(|ids|, i requires 0 <= i < |ids| => (ids[i], ()))
  }

  function UnitMap(ids: set<NodeId>): map<NodeId, ()> {
    map id | id in ids :: ()
  }

  /** Keys match node ids, and the top-level set matches the list. */
  ghost predicate Keyed(g: Tables) {
    (forall id | id in g.nodes :: g.nodes[id].id == id) && g.topSet == SetOf(g.top)
  }

  /** The snapshot is the same whatever order the maps are walked in. */
  lemma SnapshotUnique(t: Template, u: Template, g: Tables)
    requires IsSnapshot(t, g) && IsSnapshot(u, g)
    ensures t == u
  {
    ListsUnique(NodeEntries(t.nodes), NodeEntries(u.nodes), g.nodes);
    ListsUnique(t.parents, u.parents, g.parents);
    ListsUnique(t.spans, u.spans, g.spans);
    ListsUnique(UnitEntries(t.internal), UnitEntries(u.internal), UnitMap(g.internal));
    assert |NodeEntries(t.nodes)| == |t.nodes| && |NodeEntries(u.nodes)| == |u.nodes|;
    forall i | 0 <= i < |t.nodes| ensures t.nodes[i] == u.nodes[i] {
      assert NodeEntries(t.nodes)[i] == NodeEntries(u.nodes)[i];
    }
    assert |UnitEntries(t.internal)| == |t.internal| && |UnitEntries(u.internal)| == |u.internal|;
    forall i | 0 <= i < |t.internal| ensures t.internal[i] == u.internal[i] {
      assert UnitEntries(t.internal)[i] == UnitEntries(u.internal)[i];
    }
  }

  /**
   * Reading a snapshot back gives the graph it was taken from, so the two validators agree on it.
   */
  lemma SnapshotRoundTrip(t: Template, g: Tables)
    requires IsSnapshot(t, g) && Keyed(g)
    ensures TablesOf(t) == g && Distinct(t)
    ensures Distinct(t) && Integrity(TablesOf(t)) <==> Integrity(g)
  {
    hide Integrity, Lists;
    ListsMapOf(NodeEntries(t.nodes), g.nodes);
    ListsMapOf(t.parents, g.parents);
    ListsMapOf(t.spans, g.spans);
    ListsMapOf(UnitEntries(t.internal), UnitMap(g.internal));
    UnitKeys(t.internal, g.internal);
  }

  lemma UnitKeys(ids: seq<NodeId>, s: set<NodeId>)
    requires NoDup(KeysOf(UnitEntries(ids))) && MapOf(UnitEntries(ids)) == UnitMap(s)
    ensures NoDup(ids) && SetOf(ids) == s
  {
    MapOfFacts(UnitEntries(ids));
    assert KeysOf(UnitEntries(ids)) == ids;
    assert forall id :: id in s <==> id in UnitMap(s);
  }

  method ListNodes(nodes: map<NodeId, Node>) returns (s: seq<Node>)
    ensures (forall k | k in nodes :: nodes[k].id == k) ==> Lists(NodeEntries(s), nodes)
  {
    var entries: seq<Entry<Node>> := [];
    var todo := nodes.Keys;
    ghost var keyed := forall k | k in nodes :: nodes[k].id == k;
    while todo != {}
      invariant todo <= nodes.Keys && (keyed ==> Lists(entries, nodes - todo))
      decreases todo
    {
      var k :| k in todo;
      if keyed {
        InsertLists(entries, (k, nodes[k]), nodes - todo);
        assert (nodes - todo)[k := nodes[k]] == nodes - (todo - {k});
      }
      entries := InsertEntry(entries, (nodes[k].id, nodes[k]));
      todo := todo - {k};
    }
    assert nodes - {} == nodes;
    s := seq(|entries|, i requires 0 <= i < |entries| => entries[i].1);
    if keyed {
      forall i | 0 <= i < |entries| ensures NodeEntries(s)[i] == entries[i] { assert entries[i] in entries; }
      assert NodeEntries(s) == entries;
    }
  }

  /** t says exactly what g says, field by field. */
  ghost predicate Describes(t: Template, g: Tables) {
    && t.root == g.root && t.next == g.next && t.top == g.top
    && (forall id :: id in g.topSet <==> id in t.top)
    && (forall id :: id in g.internal <==> id in t.internal)
    && (forall i | 0 <= i < |t.nodes| :: t.nodes[i].id in g.nodes && g.nodes[t.nodes[i].id] == t.nodes[i])
    && (forall id | id in g.nodes :: g.nodes[id] in t.nodes && g.nodes[id].id == id)
    && (forall i | 0 <= i < |t.parents| :: t.parents[i].0 in g.parents && g.parents[t.parents[i].0] == t.parents[i].1)
    && (forall id | id in g.parents :: (id, g.parents[id]) in t.parents)
    && (forall i | 0 <= i < |t.spans| :: t.spans[i].0 in g.spans && g.spans[t.spans[i].0] == t.spans[i].1)
    && (forall id | id in g.spans :: (id, g.spans[id]) in t.spans)
  }

  lemma {:induction false} MapOfIn<T(!new)>(s: seq<Entry<T>>, k: NodeId)
    requires k in MapOf(s)
    ensures (k, MapOf(s)[k]) in s
    decreases |s|
  {
    var n := |s| - 1;
    if s[n].0 != k { MapOfIn(s[..n], k); }
    assert s == s[..n] + [s[n]];
  }

  lemma EntryAt<T(!new)>(s: seq<Entry<T>>, i: nat)
    requires i < |s| && NoDup(KeysOf(s))
    ensures s[i].0 in MapOf(s) && MapOf(s)[s[i].0] == s[i].1
  {
    MapOfFacts(s);
    assert s[i] in s;
  }

  lemma TablesDescribed(t: Template)
    requires Distinct(t)
    ensures Describes(t, TablesOf(t))
  {
    hide MapOf, NoDup;
    var g, ns := TablesOf(t), NodeEntries(t.nodes);
    forall i | 0 <= i < |t.nodes| ensures t.nodes[i].id in g.nodes && g.nodes[t.nodes[i].id] == t.nodes[i] { EntryAt(ns, i); }
    forall id | id in g.nodes ensures g.nodes[id] in t.nodes && g.nodes[id].id == id {
      MapOfIn(ns, id);
      var i :| 0 <= i < |ns| && ns[i] == (id, g.nodes[id]);
      assert t.nodes[i] == g.nodes[id];
    }
    forall i | 0 <= i < |t.parents| ensures t.parents[i].0 in g.parents && g.parents[t.parents[i].0] == t.parents[i].1 {
      EntryAt(t.parents, i);
    }
    forall id | id in g.parents ensures (id, g.parents[id]) in t.parents { MapOfIn(t.parents, id); }
    forall i | 0 <= i < |t.spans| ensures t.spans[i].0 in g.spans && g.spans[t.spans[i].0] == t.spans[i].1 { EntryAt(t.spans, i); }
    forall id | id in g.spans ensures (id, g.spans[id]) in t.spans { MapOfIn(t.spans, id); }
  }

  /** Nodes, parents, spans and markers are written in the order of their ids. */
  ghost predicate InIdOrder(t: Template) {
    && (forall i, j | 0 <= i < j < |t.nodes| :: t.nodes[i].id < t.nodes[j].id)
    && (forall i, j | 0 <= i < j < |t.parents| :: t.parents[i].0 < t.parents[j].0)
    && (forall i, j | 0 <= i < j < |t.spans| :: t.spans[i].0 < t.spans[j].0)
    && (forall i, j | 0 <= i < j < |t.internal| :: t.internal[i] < t.internal[j])
  }

  lemma SnapshotInOrder(t: Template, g: Tables)
    requires IsSnapshot(t, g)
    ensures InIdOrder(t)
  {
    var ns, us := NodeEntries(t.nodes), UnitEntries(t.internal);
    assert Rising(ns) && Rising(t.parents) && Rising(t.spans) && Rising(us);
    forall i, j | 0 <= i < j < |t.nodes| ensures t.nodes[i].id < t.nodes[j].id { assert ns[i].0 < ns[j].0; }
    forall i, j | 0 <= i < j < |t.internal| ensures t.internal[i] < t.internal[j] { assert us[i].0 < us[j].0; }
  }

  method ToTemplate(g: Tables) returns (t: Template)
    ensures Keyed(g) ==> IsSnapshot(t, g)
    ensures Keyed(g) ==> Describes(t, g) && InIdOrder(t)
  {
    var nodes := ListNodes(g.nodes);
    var parents := ListEntries(g.parents);
    var spans := ListEntries(g.spans);
    var marks := ListEntries(UnitMap(g.internal));
    var internal := KeysOf(marks);
    t := Template(g.root, nodes, parents, spans, internal, g.top, g.next);
    forall i | 0 <= i < |marks| ensures UnitEntries(internal)[i] == marks[i] {}
    assert UnitEntries(internal) == marks;
    if Keyed(g) {
      assert IsSnapshot(t, g);
      hide IsSnapshot, Describes, InIdOrder, Distinct;
      SnapshotInOrder(t, g);
      SnapshotRoundTrip(t, g);
      TablesDescribed(t);
    }
  }

  /** Every graph read from a template has integrity, and no template with an accepted graph is refused. */
  method FromTemplate(t: Template) returns (g: Option<Tables>)
    ensures g.Some? <==> Distinct(t) && Integrity(TablesOf(t))
    ensures g.Some? ==> g.value == TablesOf(t) && Integrity(g.value) && Describes(t, g.value)
  {
    var ok := Validate(t);
    if ok { TablesDescribed(t); }
    hide Describes;
    return if ok then Some(TablesOf(t)) else None;
  }

  /** Writing a graph and reading it back is the identity on accepted graphs, and fails on all others. */
  method RoundTrip(g: Tables) returns (r: Option<Tables>)
    requires Keyed(g)
    ensures r == if Integrity(g) then Some(g) else None
  {
    var t := ToTemplate(g);
    SnapshotRoundTrip(t, g);
    r := FromTemplate(t);
  }
}
