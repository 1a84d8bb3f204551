/** How the operands of forms are written in the graph, said as relations and proved to be what `Semantics` reads. */
module Operands {
  import opened Ir
  import opened Tables
  import opened Semantics
  import opened Reading

  predicate IsAt(w: World, g: nat, id: NodeId, node: Node) {
    g < |w.graphs| && id in w.graphs[g].nodes && w.graphs[g].nodes[id] == node
  }

  predicate Missing(w: World, g: nat, id: NodeId) {
    g < |w.graphs| ==> id !in w.graphs[g].nodes
  }

  lemma NodeAtExactly(w: World, g: nat, id: NodeId)
    ensures forall node :: NodeAt(w, g, id) == Some(node) <==> IsAt(w, g, id, node)
    ensures NodeAt(w, g, id) == None <==> Missing(w, g, id)
  {
  }

  predicate NameIs(w: World, g: nat, id: NodeId, name: string) {
    g < |w.graphs| && id in w.graphs[g].nodes && w.graphs[g].nodes[id].Name? && w.graphs[g].nodes[id].identifier == name
  }

  lemma NameAtExactly(w: World, g: nat, id: NodeId, name: string)
    ensures NameAt(w, g, id) == Some(name) <==> NameIs(w, g, id, name)
  {
  }

  /** Names such as __group__ only hold other nodes together. */
  predicate OnlyGroups(name: string) {
    |name| >= 2 && name[0] == '_' && name[1] == '_' && name[|name| - 1] == '_' && name[|name| - 2] == '_'
  }

  lemma GroupNameExactly(name: string)
    ensures IsGroupName(name) <==> OnlyGroups(name)
  {
    if |name| >= 2 {
      assert name[..2] == [name[0], name[1]];
      assert name[|name| - 2..] == [name[|name| - 2], name[|name| - 1]];
    }
  }

  /** The nodes a parenthesised list is made of: a grouping name in front does not count. */
  ghost predicate Listed(w: World, g: nat, id: NodeId, items: seq<NodeId>) {
    && g < |w.graphs| && id in w.graphs[g].nodes && w.graphs[g].nodes[id].Call?
    && var call := w.graphs[g].nodes[id];
       if exists name :: NameIs(w, g, call.callee, name) && OnlyGroups(name) then items == call.args
       else items == [call.callee] + call.args
  }

  lemma ListedExactly(w: World, g: nat, id: NodeId, items: seq<NodeId>)
    ensures Listed(w, g, id, items) <==>
              NodeAt(w, g, id).Some? && NodeAt(w, g, id).value.Call? && items == CallItems(w, g, NodeAt(w, g, id).value)
  {
    if NodeAt(w, g, id).Some? && NodeAt(w, g, id).value.Call? {
      var call := NodeAt(w, g, id).value;
      match NameAt(w, g, call.callee)
      case Some(name) =>
        NameAtExactly(w, g, call.callee, name);
        GroupNameExactly(name);
        assert NameIs(w, g, call.callee, name);
      case None =>
        forall name ensures !NameIs(w, g, call.callee, name) { NameAtExactly(w, g, call.callee, name); }
    }
  }

  // ---- Parameter lists ----------------------------------------------------------------------

  ghost predicate Named(w: World, g: nat, ids: seq<NodeId>, names: seq<string>) {
    |ids| == |names| && forall i | 0 <= i < |ids| :: NameIs(w, g, ids[i], names[i])
  }

  lemma {:induction false} NamesAtExactly(w: World, g: nat, ids: seq<NodeId>, names: seq<string>)
    ensures NamesAt(w, g, ids) == Some(names) <==> Named(w, g, ids, names)
    decreases |ids|
  {
    hide NameAt;
    if ids != [] {
      if names != [] {
        NameAtExactly(w, g, ids[0], names[0]);
        NamesAtExactly(w, g, ids[1..], names[1..]);
        assert names == [names[0]] + names[1..];
        NamedCons(w, g, ids, names);
      }
      if NamesAt(w, g, ids).Some? { assert NamesAt(w, g, ids).value != []; }
    }
  }

  lemma NamedCons(w: World, g: nat, ids: seq<NodeId>, names: seq<string>)
    requires ids != [] && names != []
    ensures Named(w, g, ids, names) <==> NameIs(w, g, ids[0], names[0]) && Named(w, g, ids[1..], names[1..])
  {
    hide NameIs;
    if NameIs(w, g, ids[0], names[0]) && Named(w, g, ids[1..], names[1..]) {
      forall i | 0 <= i < |ids| ensures NameIs(w, g, ids[i], names[i]) {
        if i > 0 { assert ids[1..][i - 1] == ids[i] && names[1..][i - 1] == names[i]; }
      }
    }
  }

  ghost predicate Spelled(ls: seq<Literal>, names: seq<string>) {
    |ls| == |names| && forall i | 0 <= i < |ls| :: ls[i] == LStr(names[i]) && names[i] != ""
  }

  lemma {:induction false} ParamLiteralsExactly(ls: seq<Literal>, names: seq<string>)
    ensures ParamLiterals(ls) == Some(names) <==> Spelled(ls, names)
    decreases |ls|
  {
    if ls != [] {
      if names != [] {
        ParamLiteralsExactly(ls[1..], names[1..]);
        assert names == [names[0]] + names[1..];
        SpelledCons(ls, names);
      }
      if ParamLiterals(ls).Some? { assert ParamLiterals(ls).value != []; }
    }
  }

  lemma SpelledCons(ls: seq<Literal>, names: seq<string>)
    requires ls != [] && names != []
    ensures Spelled(ls, names) <==> ls[0] == LStr(names[0]) && names[0] != "" && Spelled(ls[1..], names[1..])
  {
    if ls[0] == LStr(names[0]) && names[0] != "" && Spelled(ls[1..], names[1..]) {
      forall i | 0 <= i < |ls| ensures ls[i] == LStr(names[i]) && names[i] != "" {
        if i > 0 { assert ls[1..][i - 1] == ls[i] && names[1..][i - 1] == names[i]; }
      }
    }
  }

  /** A parameter list: names in parentheses, strings in a tuple, or nothing, written null or as one name. */
  ghost predicate Params(w: World, g: nat, id: NodeId, names: seq<string>) {
    && g < |w.graphs| && id in w.graphs[g].nodes
    && match w.graphs[g].nodes[id]
       case Name(_, _) => names == []
       case Lit(_, l) => (l.LNull? && names == []) || (l.LTuple? && Spelled(l.items, names))
       case Call(_, _, _) => exists items :: Listed(w, g, id, items) && Named(w, g, items, names)
  }

  lemma ParamsExactly(w: World, g: nat, id: NodeId, names: seq<string>)
    ensures ParamNames(w, g, id) == Some(names) <==> Params(w, g, id, names)
  {
    hide Spelled, Named, CallItems, ParamLiterals, NamesAt;
    match NodeAt(w, g, id)
    case Some(Lit(_, l)) => if l.LTuple? { ParamLiteralsExactly(l.items, names); }
    case Some(Call(i, c, a)) =>
      var items := CallItems(w, g, Call(i, c, a));
      ListedExactly(w, g, id, items);
      NamesAtExactly(w, g, items, names);
      forall other | Listed(w, g, id, other) ensures other == items { ListedExactly(w, g, id, other); }
    case _ =>
  }

  // ---- Bindings -----------------------------------------------------------------------------

  /** ((x1 e1) ... (xn en)) */
  ghost predicate PairList(w: World, g: nat, ids: seq<NodeId>, pairs: seq<(string, NodeId)>) {
    |ids| == |pairs| && forall i | 0 <= i < |ids| :: IsPair(w, g, ids[i], pairs[i])
  }

  ghost predicate IsPair(w: World, g: nat, id: NodeId, pair: (string, NodeId)) {
    exists nameId :: Listed(w, g, id, [nameId, pair.1]) && NameIs(w, g, nameId, pair.0)
  }

  function OnePair(w: World, g: nat, id: NodeId): Option<(string, NodeId)> {
    match NodeAt(w, g, id)
    case Some(Call(i, c, a)) =>
      var items := CallItems(w, g, Call(i, c, a));
      if |items| != 2 then None
      else (match NameAt(w, g, items[0]) case Some(n) => Some((n, items[1])) case None => None)
    case _ => None
  }

  lemma OnePairExactly(w: World, g: nat, id: NodeId, pair: (string, NodeId))
    ensures OnePair(w, g, id) == Some(pair) <==> IsPair(w, g, id, pair)
  {
    if NodeAt(w, g, id).Some? && NodeAt(w, g, id).value.Call? {
      var items := CallItems(w, g, NodeAt(w, g, id).value);
      ListedExactly(w, g, id, items);
      hide CallItems, NameIs, NameAt;
      if |items| == 2 {
        assert items == [items[0], items[1]];
        NameAtExactly(w, g, items[0], pair.0);
      }
      forall nameId | Listed(w, g, id, [nameId, pair.1]) ensures [nameId, pair.1] == items { ListedExactly(w, g, id, [nameId, pair.1]); }
    }
  }

  lemma PairsStep(w: World, g: nat, ids: seq<NodeId>)
    requires ids != []
    ensures BindPairs(w, g, ids) ==
              if OnePair(w, g, ids[0]).Some? && BindPairs(w, g, ids[1..]).Some?
              then Some([OnePair(w, g, ids[0]).value] + BindPairs(w, g, ids[1..]).value) else None
  {
    hide CallItems, NameAt;
  }

  lemma {:induction false} BindPairsExactly(w: World, g: nat, ids: seq<NodeId>, pairs: seq<(string, NodeId)>)
    ensures BindPairs(w, g, ids) == Some(pairs) <==> PairList(w, g, ids, pairs)
    decreases |ids|
  {
    hide OnePair, IsPair;
    if ids != [] {
      PairsStep(w, g, ids);
      hide BindPairs;
      if pairs != [] {
        OnePairExactly(w, g, ids[0], pairs[0]);
        BindPairsExactly(w, g, ids[1..], pairs[1..]);
        assert pairs == [pairs[0]] + pairs[1..];
        PairListCons(w, g, ids, pairs);
      }
      if BindPairs(w, g, ids).Some? { assert BindPairs(w, g, ids).value != []; }
    }
  }

  lemma PairListCons(w: World, g: nat, ids: seq<NodeId>, pairs: seq<(string, NodeId)>)
    requires ids != [] && pairs != []
    ensures PairList(w, g, ids, pairs) <==> IsPair(w, g, ids[0], pairs[0]) && PairList(w, g, ids[1..], pairs[1..])
  {
    hide IsPair;
    if IsPair(w, g, ids[0], pairs[0]) && PairList(w, g, ids[1..], pairs[1..]) {
      forall i | 0 <= i < |ids| ensures IsPair(w, g, ids[i], pairs[i]) {
        if i > 0 { assert ids[1..][i - 1] == ids[i] && pairs[1..][i - 1] == pairs[i]; }
      }
    }
  }

  /** "x1" e1 ... "xn" en */
  ghost predicate FlatList(w: World, g: nat, ids: seq<NodeId>, pairs: seq<(string, NodeId)>) {
    && |ids| == 2 * |pairs|
    && forall i | 0 <= i < |pairs| :: pairs[i].0 != "" && IsString(w, g, ids[2 * i], pairs[i].0) && ids[2 * i + 1] == pairs[i].1
  }

  predicate IsString(w: World, g: nat, id: NodeId, text: string) {
    && g < |w.graphs| && id in w.graphs[g].nodes
    && w.graphs[g].nodes[id].Lit? && w.graphs[g].nodes[id].value == LStr(text)
  }

  lemma {:induction false} FlatPairsExactly(w: World, g: nat, ids: seq<NodeId>, pairs: seq<(string, NodeId)>)
    ensures FlatPairs(w, g, ids) == Some(pairs) <==> FlatList(w, g, ids, pairs)
    decreases |ids|
  {
    if |ids| >= 2 {
      if pairs != [] {
        FlatPairsExactly(w, g, ids[2..], pairs[1..]);
        assert pairs == [pairs[0]] + pairs[1..];
        FlatListCons(w, g, ids, pairs);
        FlatStep(w, g, ids, pairs[0].0);
      }
      if FlatPairs(w, g, ids).Some? { assert FlatPairs(w, g, ids).value != []; }
    }
  }

  lemma FlatStep(w: World, g: nat, ids: seq<NodeId>, name: string)
    requires |ids| >= 2
    ensures FlatPairs(w, g, ids).Some? && FlatPairs(w, g, ids).value[0].0 == name ==> IsString(w, g, ids[0], name) && name != ""
    ensures IsString(w, g, ids[0], name) && name != "" && FlatPairs(w, g, ids[2..]).Some? ==>
              FlatPairs(w, g, ids) == Some([(name, ids[1])] + FlatPairs(w, g, ids[2..]).value)
    ensures FlatPairs(w, g, ids).Some? ==>
              FlatPairs(w, g, ids[2..]).Some? && FlatPairs(w, g, ids).value[1..] == FlatPairs(w, g, ids[2..]).value
              && FlatPairs(w, g, ids).value[0].1 == ids[1]
  {
  }

  lemma FlatListCons(w: World, g: nat, ids: seq<NodeId>, pairs: seq<(string, NodeId)>)
    requires |ids| >= 2 && pairs != []
    ensures FlatList(w, g, ids, pairs) <==>
              pairs[0].0 != "" && IsString(w, g, ids[0], pairs[0].0) && ids[1] == pairs[0].1 && FlatList(w, g, ids[2..], pairs[1..])
  {
    hide IsString;
    if FlatList(w, g, ids, pairs) {
      forall i | 0 <= i < |pairs| - 1
        ensures pairs[1..][i].0 != "" && IsString(w, g, ids[2..][2 * i], pairs[1..][i].0) && ids[2..][2 * i + 1] == pairs[1..][i].1
      {
        assert ids[2..][2 * i] == ids[2 * (i + 1)] && ids[2..][2 * i + 1] == ids[2 * (i + 1) + 1];
      }
    }
    if pairs[0].0 != "" && IsString(w, g, ids[0], pairs[0].0) && ids[1] == pairs[0].1 && FlatList(w, g, ids[2..], pairs[1..]) {
      forall i | 0 <= i < |pairs| ensures pairs[i].0 != "" && IsString(w, g, ids[2 * i], pairs[i].0) && ids[2 * i + 1] == pairs[i].1 {
        if i > 0 {
          assert pairs[1..][i - 1] == pairs[i];
          assert ids[2..][2 * (i - 1)] == ids[2 * i] && ids[2..][2 * (i - 1) + 1] == ids[2 * i + 1];
        }
      }
    }
  }

  // ---- The shapes of bind -------------------------------------------------------------------

  predicate IsNull(w: World, g: nat, id: NodeId) {
    g < |w.graphs| && id in w.graphs[g].nodes && w.graphs[g].nodes[id].Lit? && w.graphs[g].nodes[id].value == LNull
  }

  /** (bind ((x e) ...) body ...), or (bind "x" e ... body) with a single body form. */
  ghost predicate Scope(w: World, g: nat, args: seq<NodeId>, pairs: seq<(string, NodeId)>, body: seq<NodeId>)
    requires |args| >= 2
  {
    || (body == args[1..] && exists items :: Listed(w, g, args[0], items) && PairList(w, g, items, pairs))
    || (|args| >= 3 && (exists text :: IsString(w, g, args[0], text)) && body == [args[|args| - 1]] && FlatList(w, g, args[..|args| - 1], pairs))
  }

  lemma BindShapeExactly(w: World, g: nat, args: seq<NodeId>)
    requires |args| >= 2
    ensures forall x :: BindShapeOf(w, g, args) == BindInPlace(x) <==> NameIs(w, g, args[0], x)
    ensures BindShapeOf(w, g, args) == BindNothing <==> IsNull(w, g, args[0])
    ensures forall pairs, body :: BindShapeOf(w, g, args) == BindScope(pairs, body) <==> Scope(w, g, args, pairs, body)
  {
    forall pairs, body ensures BindShapeOf(w, g, args) == BindScope(pairs, body) <==> Scope(w, g, args, pairs, body) {
      ScopeExactly(w, g, args, pairs, body);
    }
    hide Listed, PairList, FlatList, CallItems, BindPairs, FlatPairs;
  }

  lemma ScopeExactly(w: World, g: nat, args: seq<NodeId>, pairs: seq<(string, NodeId)>, body: seq<NodeId>)
    requires |args| >= 2
    ensures BindShapeOf(w, g, args) == BindScope(pairs, body) <==> Scope(w, g, args, pairs, body)
  {
    hide CallItems, BindPairs, FlatPairs, PairList;
    var last := |args| - 1;
    assert args[last..] == [args[last]];
    match NodeAt(w, g, args[0])
    case Some(Call(i, c, a)) =>
      var items := CallItems(w, g, Call(i, c, a));
      ListedExactly(w, g, args[0], items);
      BindPairsExactly(w, g, items, pairs);
      forall other | Listed(w, g, args[0], other) ensures other == items { ListedExactly(w, g, args[0], other); }
    case Some(Lit(_, l)) =>
      if l.LStr? {
        assert IsString(w, g, args[0], l.s);
        FlatPairsExactly(w, g, args[..last], pairs);
      }
    case _ =>
  }

  // ---- Catch clauses ------------------------------------------------------------------------

  /** (catch name body ...) */
  ghost predicate CatchesWith(w: World, g: nat, id: NodeId, name: string, body: seq<NodeId>) {
    exists head, nameId :: Listed(w, g, id, [head, nameId] + body) && NameIs(w, g, head, "catch") && NameIs(w, g, nameId, name)
  }

  lemma CatchExactly(w: World, g: nat, args: seq<NodeId>)
    ensures CatchOf(w, g, args) == NoCatch <==> |args| != 2
    ensures |args| == 2 ==> forall name, body :: CatchOf(w, g, args) == Catch(name, body) <==> CatchesWith(w, g, args[1], name, body)
  {
    if |args| == 2 {
      forall name, body ensures CatchOf(w, g, args) == Catch(name, body) <==> CatchesWith(w, g, args[1], name, body) {
        CatchOneExactly(w, g, args, name, body);
      }
    }
  }

  lemma CatchOneExactly(w: World, g: nat, args: seq<NodeId>, name: string, body: seq<NodeId>)
    requires |args| == 2
    ensures CatchOf(w, g, args) == Catch(name, body) <==> CatchesWith(w, g, args[1], name, body)
  {
    if NodeAt(w, g, args[1]).Some? && NodeAt(w, g, args[1]).value.Call? {
      var items := CallItems(w, g, NodeAt(w, g, args[1]).value);
      ListedExactly(w, g, args[1], items);
      hide CallItems, NameAt, NameIs, Listed;
      if |items| >= 2 {
        assert items == [items[0], items[1]] + items[2..];
        NameAtExactly(w, g, items[0], "catch");
        NameAtExactly(w, g, items[1], name);
      }
      forall head, nameId | Listed(w, g, args[1], [head, nameId] + body)
        ensures items == [head, nameId] + body && items[0] == head && items[1] == nameId && items[2..] == body
      {
        ListedExactly(w, g, args[1], [head, nameId] + body);
      }
    }
  }

  /** The block a leave goes to: the literal, cut to the 32 bits of a node id. */
  ghost predicate LeavesTo(w: World, g: nat, id: NodeId, target: int) {
    && g < |w.graphs| && id in w.graphs[g].nodes && w.graphs[g].nodes[id].Lit? && w.graphs[g].nodes[id].value.LInt?
    && 0 <= target < 0x1_0000_0000 && (w.graphs[g].nodes[id].value.i - target) % 0x1_0000_0000 == 0
  }

  lemma LeaveTargetExactly(w: World, g: nat, id: NodeId, target: int)
    ensures LeaveTarget(w, g, id) == Some(target) <==> LeavesTo(w, g, id, target)
  {
  }

  // ---- Match clauses ------------------------------------------------------------------------

  predicate Guards(guard: string) {
    guard == "null?" || guard == "bool?" || guard == "int?" || guard == "float?" || guard == "str?" || guard == "list?" || guard == "map?"
  }

  predicate GuardHolds(guard: string, v: Value) {
    || (guard == "null?" && v.Null?) || (guard == "bool?" && v.Bool?) || (guard == "int?" && v.Int?) || (guard == "float?" && v.Float?)
    || (guard == "str?" && v.Str?) || (guard == "list?" && v.List?) || (guard == "map?" && v.Map?)
  }

  /** A literal pattern may be any literal but a tuple or dictionary. */
  predicate Matchable(l: Literal) { !l.LTuple? && !l.LDict? }

  ghost predicate LiteralFits(l: Literal, v: Value) {
    if l.LFloat? then v.Float? && SameNumber(v.bits, l.bits) else Matchable(l) && Denotes(l, v)
  }

  /**
   * A name fits everything and is bound to it, but for _ and else, which bind nothing.  A literal fits its own
   * value.  A type guard fits the values of its type and may bind a name.
   */
  ghost predicate Fits(w: World, g: nat, id: NodeId, v: Value, vars: map<string, Value>) {
    && g < |w.graphs| && id in w.graphs[g].nodes
    && match w.graphs[g].nodes[id]
       case Name(_, x) => vars == if x == "_" || x == "else" then map[] else map[x := v]
       case Lit(_, l) => LiteralFits(l, v) && vars == map[]
       case Call(_, c, a) =>
         && (exists guard :: NameIs(w, g, c, guard) && GuardHolds(guard, v))
         && (if a == [] then vars == map[] else exists x :: NameIs(w, g, a[0], x) && vars == map[x := v])
  }

  /** A well-formed pattern that does not fit. */
  ghost predicate Misses(w: World, g: nat, id: NodeId, v: Value) {
    && g < |w.graphs| && id in w.graphs[g].nodes
    && match w.graphs[g].nodes[id]
       case Name(_, _) => false
       case Lit(_, l) => Matchable(l) && !LiteralFits(l, v)
       case Call(_, c, _) => exists guard :: NameIs(w, g, c, guard) && Guards(guard) && !GuardHolds(guard, v)
  }

  lemma GuardExactly(guard: string, v: Value)
    ensures TypeGuard(guard, v).None? <==> !Guards(guard)
    ensures TypeGuard(guard, v) == Some(true) <==> GuardHolds(guard, v)
  {
  }

  lemma LiteralFitsExactly(l: Literal, v: Value)
    ensures MatchLiteral(l, v).BadPattern? <==> !Matchable(l)
    ensures MatchLiteral(l, v) == MatchedWith(map[]) <==> LiteralFits(l, v)
    ensures MatchLiteral(l, v).MatchedWith? ==> MatchLiteral(l, v) == MatchedWith(map[])
  {
    if l.LFloat? && v.Float? { FloatEqExactly(v.bits, l.bits); }
    hide FloatEq, SameNumber;
  }

  lemma PatternExactly(w: World, g: nat, id: NodeId, v: Value)
    ensures forall vars :: MatchPattern(w, g, id, v) == MatchedWith(vars) <==> Fits(w, g, id, v, vars)
    ensures MatchPattern(w, g, id, v) == NoMatch <==> Misses(w, g, id, v)
  {
    match NodeAt(w, g, id)
    case Some(Lit(_, l)) =>
      LiteralFitsExactly(l, v);
      hide MatchLiteral, LiteralFits;
    case Some(Call(_, c, a)) => GuardPatternExactly(w, g, id, c, a, v);
    case _ =>
  }

  lemma GuardPatternExactly(w: World, g: nat, id: NodeId, c: NodeId, a: seq<NodeId>, v: Value)
    requires NodeAt(w, g, id).Some? && NodeAt(w, g, id).value.Call? && NodeAt(w, g, id).value.callee == c && NodeAt(w, g, id).value.args == a
    ensures forall vars :: MatchPattern(w, g, id, v) == MatchedWith(vars) <==> Fits(w, g, id, v, vars)
    ensures MatchPattern(w, g, id, v) == NoMatch <==> Misses(w, g, id, v)
  {
    forall x ensures NameAt(w, g, c) == Some(x) <==> NameIs(w, g, c, x) { NameAtExactly(w, g, c, x); }
    if a != [] {
      forall x ensures NameAt(w, g, a[0]) == Some(x) <==> NameIs(w, g, a[0], x) { NameAtExactly(w, g, a[0], x); }
    }
    forall guard ensures (TypeGuard(guard, v).None? <==> !Guards(guard)) && (TypeGuard(guard, v) == Some(true) <==> GuardHolds(guard, v)) {
      GuardExactly(guard, v);
    }
    hide TypeGuard, Guards, GuardHolds, NameIs, NameAt;
  }

  /** (pattern body ...) for each clause. */
  ghost predicate Clauses(w: World, g: nat, ids: seq<NodeId>, clauses: seq<(NodeId, seq<NodeId>)>) {
    |ids| == |clauses| && forall i | 0 <= i < |ids| :: Listed(w, g, ids[i], [clauses[i].0] + clauses[i].1)
  }

  lemma {:induction false} ClausesExactly(w: World, g: nat, ids: seq<NodeId>, clauses: seq<(NodeId, seq<NodeId>)>)
    ensures MatchClauses(w, g, ids) == Some(clauses) <==> Clauses(w, g, ids, clauses)
    decreases |ids|
  {
    hide CallItems, Listed;
    if ids != [] {
      if clauses != [] {
        ClausesExactly(w, g, ids[1..], clauses[1..]);
        assert clauses == [clauses[0]] + clauses[1..];
        ClausesCons(w, g, ids, clauses);
        FirstClause(w, g, ids[0], clauses[0]);
      }
      if MatchClauses(w, g, ids).Some? { assert MatchClauses(w, g, ids).value != []; }
    }
  }

  lemma FirstClause(w: World, g: nat, id: NodeId, clause: (NodeId, seq<NodeId>))
    ensures Listed(w, g, id, [clause.0] + clause.1) <==>
              && NodeAt(w, g, id).Some? && NodeAt(w, g, id).value.Call? && CallItems(w, g, NodeAt(w, g, id).value) != []
              && clause == (CallItems(w, g, NodeAt(w, g, id).value)[0], CallItems(w, g, NodeAt(w, g, id).value)[1..])
  {
    ListedExactly(w, g, id, [clause.0] + clause.1);
    if NodeAt(w, g, id).Some? && NodeAt(w, g, id).value.Call? {
      var items := CallItems(w, g, NodeAt(w, g, id).value);
      hide CallItems;
      if items != [] { assert items == [items[0]] + items[1..]; }
      assert ([clause.0] + clause.1)[1..] == clause.1;
    }
  }

  lemma ClausesCons(w: World, g: nat, ids: seq<NodeId>, clauses: seq<(NodeId, seq<NodeId>)>)
    requires ids != [] && clauses != []
    ensures Clauses(w, g, ids, clauses) <==> Listed(w, g, ids[0], [clauses[0].0] + clauses[0].1) && Clauses(w, g, ids[1..], clauses[1..])
  {
    hide Listed;
    if Listed(w, g, ids[0], [clauses[0].0] + clauses[0].1) && Clauses(w, g, ids[1..], clauses[1..]) {
      forall i | 0 <= i < |ids| ensures Listed(w, g, ids[i], [clauses[i].0] + clauses[i].1) {
        if i > 0 { assert ids[1..][i - 1] == ids[i] && clauses[1..][i - 1] == clauses[i]; }
      }
    }
  }

  /** Clause i is the first that does not miss, and it fits. */
  ghost predicate FitsFirst(w: World, g: nat, clauses: seq<(NodeId, seq<NodeId>)>, v: Value, i: nat, vars: map<string, Value>) {
    i < |clauses| && Fits(w, g, clauses[i].0, v, vars) && forall j | 0 <= j < i :: Misses(w, g, clauses[j].0, v)
  }

  ghost predicate AllMiss(w: World, g: nat, clauses: seq<(NodeId, seq<NodeId>)>, v: Value) {
    forall j | 0 <= j < |clauses| :: Misses(w, g, clauses[j].0, v)
  }

  lemma {:induction false} ChoiceExactly(w: World, g: nat, clauses: seq<(NodeId, seq<NodeId>)>, v: Value, vars: map<string, Value>, body: seq<NodeId>)
    ensures ChooseClause(w, g, clauses, v) == Clause(vars, body) <==> exists i: nat :: FitsFirst(w, g, clauses, v, i, vars) && clauses[i].1 == body
    ensures ChooseClause(w, g, clauses, v) == NoClause <==> AllMiss(w, g, clauses, v)
    decreases |clauses|
  {
    hide MatchPattern, Fits, Misses;
    if clauses == [] {
    } else {
      PatternExactly(w, g, clauses[0].0, v);
      ChoiceExactly(w, g, clauses[1..], v, vars, body);
      if MatchPattern(w, g, clauses[0].0, v) == NoMatch {
        FirstMisses(w, g, clauses, v, vars, body);
      } else {
        assert forall i: nat | FitsFirst(w, g, clauses, v, i, vars) :: i == 0;
        assert ChooseClause(w, g, clauses, v) == Clause(vars, body) ==> FitsFirst(w, g, clauses, v, 0, vars);
      }
    }
  }

  lemma FirstMisses(w: World, g: nat, clauses: seq<(NodeId, seq<NodeId>)>, v: Value, vars: map<string, Value>, body: seq<NodeId>)
    requires clauses != [] && Misses(w, g, clauses[0].0, v) && !Fits(w, g, clauses[0].0, v, vars)
    ensures (exists i: nat :: FitsFirst(w, g, clauses, v, i, vars) && clauses[i].1 == body)
            <==> exists i: nat :: FitsFirst(w, g, clauses[1..], v, i, vars) && clauses[1..][i].1 == body
    ensures AllMiss(w, g, clauses, v) <==> AllMiss(w, g, clauses[1..], v)
  {
    hide FitsFirst, Fits, Misses, AllMiss;
    forall i: nat ensures FitsFirst(w, g, clauses, v, i + 1, vars) <==> FitsFirst(w, g, clauses[1..], v, i, vars) {
      ShiftFits(w, g, clauses, v, i, vars);
    }
    NotHere(w, g, clauses, v, vars);
    forall i: nat ensures FitsFirst(w, g, clauses, v, i, vars) ==> i < |clauses| {
      if FitsFirst(w, g, clauses, v, i, vars) { FitsInside(w, g, clauses, v, i, vars); }
    }
    forall i: nat ensures FitsFirst(w, g, clauses[1..], v, i, vars) ==> i < |clauses[1..]| {
      if FitsFirst(w, g, clauses[1..], v, i, vars) { FitsInside(w, g, clauses[1..], v, i, vars); }
    }
    if i: nat :| FitsFirst(w, g, clauses, v, i, vars) && i < |clauses| && clauses[i].1 == body {
      assert FitsFirst(w, g, clauses, v, (i - 1) + 1, vars);
      assert FitsFirst(w, g, clauses[1..], v, i - 1, vars) && clauses[1..][i - 1] == clauses[i];
    }
    if i: nat :| FitsFirst(w, g, clauses[1..], v, i, vars) && i < |clauses[1..]| && clauses[1..][i].1 == body {
      assert FitsFirst(w, g, clauses, v, i + 1, vars) && clauses[i + 1] == clauses[1..][i];
    }
    ShiftMiss(w, g, clauses, v);
  }

  lemma ShiftMiss(w: World, g: nat, clauses: seq<(NodeId, seq<NodeId>)>, v: Value)
    requires clauses != [] && Misses(w, g, clauses[0].0, v)
    ensures AllMiss(w, g, clauses, v) <==> AllMiss(w, g, clauses[1..], v)
  {
    hide Misses;
    if AllMiss(w, g, clauses[1..], v) {
      forall j | 0 <= j < |clauses| ensures Misses(w, g, clauses[j].0, v) {
        if j > 0 { assert clauses[1..][j - 1] == clauses[j]; }
      }
    }
  }

  lemma NotHere(w: World, g: nat, clauses: seq<(NodeId, seq<NodeId>)>, v: Value, vars: map<string, Value>)
    requires clauses != [] && !Fits(w, g, clauses[0].0, v, vars)
    ensures !FitsFirst(w, g, clauses, v, 0, vars)
  {
    hide Fits, Misses;
  }

  lemma FitsInside(w: World, g: nat, clauses: seq<(NodeId, seq<NodeId>)>, v: Value, i: nat, vars: map<string, Value>)
    requires FitsFirst(w, g, clauses, v, i, vars)
    ensures i < |clauses|
  {
    hide Fits, Misses;
  }

  lemma ShiftFits(w: World, g: nat, clauses: seq<(NodeId, seq<NodeId>)>, v: Value, i: nat, vars: map<string, Value>)
    requires clauses != [] && Misses(w, g, clauses[0].0, v)
    ensures FitsFirst(w, g, clauses, v, i + 1, vars) <==> FitsFirst(w, g, clauses[1..], v, i, vars)
  {
    hide Fits, Misses;
    assert forall j | 0 <= j < |clauses| - 1 :: clauses[1..][j] == clauses[j + 1];
    if FitsFirst(w, g, clauses[1..], v, i, vars) {
      forall j | 0 <= j < i + 1 ensures Misses(w, g, clauses[j].0, v) {
        if j > 0 { assert clauses[1..][j - 1] == clauses[j]; }
      }
    }
  }
}
