/** The three-colour walk along parent links, used by both validators. */
module Acyclicity {
  import opened Ir
  import opened Tables

  /** The chain of parents from x comes to an end. */
  ghost predicate Ends(m: ParentMap, x: NodeId) {
    exists n: nat :: Up(m, x, n) == None
  }

  lemma EndsStep(m: ParentMap, x: NodeId)
    requires ParentOf(m, x).None? || Ends(m, ParentOf(m, x).value)
    ensures Ends(m, x)
  {
    if ParentOf(m, x).None? {
      assert Up(m, x, 1) == None;
    } else {
      var n: nat :| Up(m, ParentOf(m, x).value, n) == None;
      assert Up(m, x, n + 1) == None;
    }
  }

  /** A node on a cycle has an endless chain. */
  lemma {:induction false} CycleNeverEnds(m: ParentMap, x: NodeId, n: nat, j: nat)
    requires n > 0 && Up(m, x, n) == Some(x)
    ensures Up(m, x, j).Some?
    decreases j
  {
    if j < n {
      UpAdd(m, x, j, n - j);
    } else {
      UpAdd(m, x, n, j - n);
      CycleNeverEnds(m, x, n, j - n);
    }
  }

  lemma AllEndIsAcyclic(m: ParentMap)
    requires forall x | x in m :: Ends(m, x)
    ensures Acyclic(m)
  {
    forall x: NodeId, n: nat | n > 0 ensures Up(m, x, n) != Some(x) {
      if Up(m, x, n) == Some(x) {
        assert x in m;
        var j: nat :| Up(m, x, j) == None;
        CycleNeverEnds(m, x, n, j);
      }
    }
  }

  ghost predicate IsPath(m: ParentMap, path: seq<NodeId>, current: Option<NodeId>) {
    && (forall i | 0 <= i < |path| :: path[i] in m)
    && (forall i | 0 <= i < |path| - 1 :: m[path[i]] == Some(path[i + 1]))
    && (path != [] ==> m[path[|path| - 1]] == current)
  }

  lemma {:induction false} PathUp(m: ParentMap, path: seq<NodeId>, current: Option<NodeId>, j: nat, k: nat)
    requires IsPath(m, path, current) && j + k <= |path| && j < |path|
    ensures Up(m, path[j], k) == if j + k < |path| then Some(path[j + k]) else current
    decreases k
  {
    if k > 0 {
      if j + 1 < |path| {
        PathUp(m, path, current, j + 1, k - 1);
      } else if current.Some? {
        assert Up(m, current.value, 0) == current;
      }
    }
  }

  lemma {:induction false} PathEnds(m: ParentMap, path: seq<NodeId>, current: Option<NodeId>, i: nat)
    requires IsPath(m, path, current) && i < |path| && (current.None? || Ends(m, current.value))
    ensures Ends(m, path[i])
    decreases |path| - i
  {
    if i + 1 < |path| { PathEnds(m, path, current, i + 1); }
    EndsStep(m, path[i]);
  }

  lemma PathStart(m: ParentMap, current: Option<NodeId>)
    ensures IsPath(m, [], current)
  {
  }

  lemma PathCloses(m: ParentMap, path: seq<NodeId>, id: NodeId)
    requires IsPath(m, path, Some(id)) && id in path
    ensures !Acyclic(m)
  {
    var j :| 0 <= j < |path| && path[j] == id;
    PathUp(m, path, Some(id), j, |path| - j);
  }

  lemma PathGrows(m: ParentMap, path: seq<NodeId>, id: NodeId)
    requires IsPath(m, path, Some(id)) && id in m
    ensures IsPath(m, path + [id], m[id])
  {
  }

  lemma AllPathEnds(m: ParentMap, path: seq<NodeId>, current: Option<NodeId>)
    requires IsPath(m, path, current) && (current.None? || Ends(m, current.value))
    ensures forall x | x in path :: Ends(m, x)
  {
    hide IsPath, Ends;
    forall x | x in path ensures Ends(m, x) {
      var k :| 0 <= k < |path| && path[k] == x;
      PathEnds(m, path, current, k);
    }
  }

  datatype Color = OnPath | Finished

  /** Colours every node of the chain from `start`, or finds that the chain runs into itself. */
  method Climb(m: ParentMap, start: NodeId, finished: map<NodeId, Color>) returns (ok: bool, colors: map<NodeId, Color>)
    requires start in m && finished.Keys <= m.Keys
    requires forall c | c in m && m[c].Some? :: m[c].value in m
    requires forall x | x in finished :: finished[x] == Finished && Ends(m, x)
    ensures !ok ==> !Acyclic(m)
    ensures ok ==> colors.Keys <= m.Keys && finished.Keys + {start} <= colors.Keys
    ensures ok ==> forall x | x in colors :: colors[x] == Finished && Ends(m, x)
  {
    hide Acyclic, IsPath, Ends;
    colors := finished;
    var path, current := [], Some(start);
    PathStart(m, current);
    while current.Some? && (current.value !in colors || colors[current.value] == OnPath)
      invariant current.Some? ==> current.value in m
      invariant IsPath(m, path, current) && (if path == [] then current == Some(start) else path[0] == start)
      invariant forall x :: x in colors <==> x in finished || x in path
      invariant forall x | x in path :: x in m && x !in finished
      invariant forall x | x in colors :: colors[x] == if x in finished then Finished else OnPath
      decreases m.Keys - colors.Keys
    {
      var id := current.value;
      if id in colors {
        PathCloses(m, path, id);
        return false, colors;
      }
      PathGrows(m, path, id);
      assert id in m.Keys - colors.Keys;
      colors := colors[id := OnPath];
      path := path + [id];
      current := m[id];
    }
    AllPathEnds(m, path, current);
    var i := 0;
    while i < |path|
      invariant 0 <= i <= |path|
      invariant forall x :: x in colors <==> x in finished || x in path
      invariant forall x | x in finished :: colors[x] == Finished
      invariant forall k | 0 <= k < i :: colors[path[k]] == Finished
    {
      colors := colors[path[i] := Finished];
      i := i + 1;
    }
    return true, colors;
  }

  /** Accepts exactly the parent tables without cycles; every round colours at least one more node. */
  method ParentsAcyclic(m: ParentMap) returns (ok: bool)
    requires forall c | c in m && m[c].Some? :: m[c].value in m
    ensures ok <==> Acyclic(m)
  {
    hide Acyclic, Ends;
    var colors: map<NodeId, Color> := map[];
    var todo := m.Keys;
    while todo != {}
      invariant todo <= m.Keys && m.Keys <= todo + colors.Keys && colors.Keys <= m.Keys
      invariant forall x | x in colors :: colors[x] == Finished && Ends(m, x)
      decreases todo
    {
      var start :| start in todo;
      todo := todo - {start};
      if start !in colors {
        ok, colors := Climb(m, start, colors);
        if !ok { return; }
      }
    }
    AllEndIsAcyclic(m);
    ok := true;
  }
}
