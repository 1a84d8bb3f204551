/** A closure that does nothing but call itself: one level of depth is enough for any number of rounds. */
module TailLoops {
  import opened Ir
  import opened Semantics
  import opened Depth
  import opened DepthRuns

  /** The closure at addr has the body (f), and f is bound to that closure where it was made. */
  ghost predicate CallsItself(w: World, g: nat, addr: nat, n: NodeId, callee: NodeId, f: string) {
    && addr < |w.codes| && w.codes[addr].params == [] && w.codes[addr].body == [n] && w.codes[addr].graph == g
    && NodeAt(w, g, n) == Some(Call(n, callee, [])) && NodeAt(w, g, callee) == Some(Name(callee, f))
    && callee !in w.graphs[g].internal
    && w.codes[addr].env < |w.frames| && f in w.frames[w.codes[addr].env].vars
    && w.frames[w.codes[addr].env].vars[f] == Closure(addr)
  }

  function NextRound(w: World, addr: nat): World
    requires addr < |w.codes|
  {
    PushFrame(w, map[], w.codes[addr].env)
  }

  /** In the frame of the next round, f is still the closure itself. */
  lemma StillItself(rt: Registry, w: World, g: nat, addr: nat, n: NodeId, callee: NodeId, f: string)
    requires CallsItself(w, g, addr, n, callee, f)
    ensures CallsItself(NextRound(w, addr), g, addr, n, callee, f)
    ensures ResolveCallee(rt, NextRound(w, addr), g, callee, f, |w.frames|) == Ok(Closure(addr))
  {
    var w2, env := NextRound(w, addr), w.codes[addr].env;
    assert w2.frames[|w.frames|] == Frame(map[], Some(env)) && w2.frames[env] == w.frames[env];
    assert Lookup(w2.frames, env, f) == Some(Closure(addr));
  }

  /** A round takes one level of depth while it lasts, and comes down to the next round with none taken. */
  lemma OneRound(rt: Registry, h: Here, cx: Ctx, addr: nat, s: State, n: NodeId, callee: NodeId, f: string)
    requires CallsItself(s.w, h.graph, addr, n, callee, f) && h.tail.NoTail? && h.room >= 1
    ensures Leads(rt, Spot(h, Cfg(cx, TInvoke(addr, []), s)), Spot(h, Cfg(cx, TInvoke(addr, []), s.(w := NextRound(s.w, addr)))), 1)
  {
    var s2 := s.(w := NextRound(s.w, addr));
    var p := Spot(h, Cfg(cx, TInvoke(addr, []), s));
    var body := Spot(h.(tail := Tail(addr, h.graph, h.room)), Cfg(cx, TSeq(h.graph, [n], |s.w.frames|), s2));
    StillItself(rt, s.w, h.graph, addr, n, callee, f);
    assert SpotPlan(rt, p) == Straight(On(body)) by { assert Zip([], []) == map[]; }
    GoesOn(rt, p, body);
    BodyLeads(rt, body, addr, n, callee, f);
    LeadsTrans(rt, p, body, Spot(h, Cfg(cx, TInvoke(addr, []), s2)), 1, 1);
    LeadsLess(rt, p, Spot(h, Cfg(cx, TInvoke(addr, []), s2)), 2, 1);
  }

  lemma BodyLeads(rt: Registry, p: Spot, addr: nat, n: NodeId, callee: NodeId, f: string)
    requires p.h.room >= 1 && p.h.tail.Tail? && p.h.tail.addr == addr
    requires p.c.t.TSeq? && p.c.t.g == p.h.graph && p.c.t.ids == [n]
    requires NodeAt(p.c.s.w, p.h.graph, n) == Some(Call(n, callee, [])) && NodeAt(p.c.s.w, p.h.graph, callee) == Some(Name(callee, f))
    requires ResolveCallee(rt, p.c.s.w, p.h.graph, callee, f, p.c.t.env) == Ok(Closure(addr))
    ensures Leads(rt, p, Spot(Invoked(p.h), Cfg(p.c.cx, TInvoke(addr, []), p.c.s)), 1)
  {
    hide Leads, Ends, DepthRun, PlanForm, AfterForm, PlanCallback, PlanMacro, NodeAt, ResolveCallee, BindArgs;
    var g, env, s := p.h.graph, p.c.t.env, p.c.s;
    var call := Call(n, callee, []);
    var eval := Same(p, TEval(g, n, env), s);
    var atCall := Deeper(eval, TCall(g, call, env), s);
    var apply := Same(atCall, TApply(g, call, env, Closure(addr)), s);
    var last := Spot(Invoked(p.h), Cfg(p.c.cx, TInvoke(addr, []), s));
    GoesOn(rt, p, eval);
    GoesOn(rt, eval, atCall);
    GoesOn(rt, atCall, apply);
    var args := Apart(apply, TArgs(g, [], env, []), s);
    Returns(rt, args, OkAll([]), s);
    InnerGoesOn(rt, apply, args, OkAll([]), s, last);
    LeadsTrans(rt, p, eval, atCall, 1, 1);
    LeadsTrans(rt, p, atCall, apply, 2, 1);
    LeadsTrans(rt, p, apply, last, 3, 1);
    LeadsLess(rt, p, last, 4, 1);
  }

  /** With one level of depth left, however long it is followed, the loop is never too deep. */
  lemma SelfLoopNeverTooDeep(rt: Registry, h: Here, cx: Ctx, addr: nat, s: State, n: NodeId, callee: NodeId, f: string, k: nat)
    requires CallsItself(s.w, h.graph, addr, n, callee, f) && h.tail.NoTail? && h.room >= 1
    ensures DepthRun(rt, k, Spot(h, Cfg(cx, TInvoke(addr, []), s))) == OutOfLevels
    decreases k
  {
    hide Leads, CallsItself, NextRound, SpotPlan, SpotAfter;
    if k > 0 {
      var p := Spot(h, Cfg(cx, TInvoke(addr, []), s));
      Callable(s.w, h.graph, addr, n, callee, f);
      var s2 := s.(w := NextRound(s.w, addr));
      StillItself(rt, s.w, h.graph, addr, n, callee, f);
      SelfLoopNeverTooDeep(rt, h, cx, addr, s2, n, callee, f, k - 1);
      OneRound(rt, h, cx, addr, s, n, callee, f);
      LeadsBack(rt, p, Spot(h, Cfg(cx, TInvoke(addr, []), s2)), k);
    }
  }

  lemma Callable(w: World, g: nat, addr: nat, n: NodeId, callee: NodeId, f: string)
    requires CallsItself(w, g, addr, n, callee, f)
    ensures addr < |w.codes|
  {
  }

  lemma LeadsBack(rt: Registry, p: Spot, q: Spot, k: nat)
    requires Leads(rt, p, q, 1) && k > 0 && DepthRun(rt, k - 1, q) == OutOfLevels
    ensures DepthRun(rt, k, p) == OutOfLevels
  {
    hide DepthRun, Ends;
  }

  // ---- Which places take depth --------------------------------------------------------------

  /** Evaluating a node takes one level, and there must be one. */
  lemma NodeTakesOneLevel(rt: Registry, h: Here, cx: Ctx, g: nat, n: NodeId, env: nat, s: State)
    ensures h.room <= 0 ==> Ends(rt, Spot(h, Cfg(cx, TEval(g, n, env), s)), Err(Fatal(DepthExceeded)), s)
    ensures h.room > 0 && Plan(rt, Cfg(cx, TEval(g, n, env), s)).r.Goto? ==>
              Leads(rt, Spot(h, Cfg(cx, TEval(g, n, env), s)),
                    Spot(Here(h.graph, h.room - 1, h.max, h.tail), Plan(rt, Cfg(cx, TEval(g, n, env), s)).r.c), 1)
  {
    hide DepthRun, EvalName, FromLiteral;
    var c := Cfg(cx, TEval(g, n, env), s);
    if h.room <= 0 {
      Returns(rt, Spot(h, c), Err(Fatal(DepthExceeded)), s);
    } else if Plan(rt, c).r.Goto? {
      GoesOn(rt, Spot(h, c), Spot(Here(h.graph, h.room - 1, h.max, h.tail), Plan(rt, c).r.c));
    }
  }

  /** What a form ends with is where the form was, in tail position for four of them; what comes before never is. */
  lemma FormPlaces(rt: Registry, p: Spot, o: Outcome, s: State, q: Spot)
    requires p.c.t.TForm? && p.c.t.name in rt.builtins
    ensures SpotPlan(rt, p) == Inner(q) ==> q.h == Here(p.h.graph, p.h.room, p.h.max, NoTail)
    ensures SpotPlan(rt, p) == Straight(On(q)) || SpotAfter(rt, p, o, s) == On(q) ==>
              var f := rt.builtins[p.c.t.name].handler;
              q.h == if f.If? || f.Do? || f.Bind? || f.Match? then p.h else Here(p.h.graph, p.h.room, p.h.max, NoTail)
  {
    hide Plan, After;
  }

  /** A closure's body runs at the depth of the call in its own graph, with the full allowance in another. */
  lemma BodyPlace(rt: Registry, p: Spot, q: Spot)
    requires p.c.t.TInvoke? && SpotPlan(rt, p) == Straight(On(q))
    ensures p.c.t.addr < |p.c.s.w.codes|
    ensures var g := p.c.s.w.codes[p.c.t.addr].graph;
            q.h == Here(g, if g == p.h.graph then p.h.room else p.h.max, p.h.max, Tail(p.c.t.addr, p.h.graph, p.h.room))
  {
    hide BindArgs;
  }

  // ---- Against nested calls -----------------------------------------------------------------

  /** As CallsItself, with more to do after the call. */
  ghost predicate CallsItselfFirst(w: World, g: nat, addr: nat, n: NodeId, rest: seq<NodeId>, callee: NodeId, f: string) {
    && addr < |w.codes| && w.codes[addr].params == [] && w.codes[addr].body == [n] + rest && rest != [] && w.codes[addr].graph == g
    && NodeAt(w, g, n) == Some(Call(n, callee, [])) && NodeAt(w, g, callee) == Some(Name(callee, f))
    && callee !in w.graphs[g].internal
    && w.codes[addr].env < |w.frames| && f in w.frames[w.codes[addr].env].vars
    && w.frames[w.codes[addr].env].vars[f] == Closure(addr)
  }

  /** A closure that calls itself and has more to do afterwards runs out of depth, whatever depth there is. */
  lemma {:induction false} NestedCallsAreTooDeep(rt: Registry, h: Here, cx: Ctx, addr: nat, s: State, n: NodeId, rest: seq<NodeId>, callee: NodeId, f: string)
    requires CallsItselfFirst(s.w, h.graph, addr, n, rest, callee, f)
    ensures exists s2 :: Ends(rt, Spot(h, Cfg(cx, TInvoke(addr, []), s)), TOO_DEEP, s2)
    decreases if h.room > 0 then h.room else 0
  {
    hide Leads, Ends, DepthRun, CallsItselfFirst, NextRound, SpotPlan, SpotAfter;
    var p := Spot(h, Cfg(cx, TInvoke(addr, []), s));
    NestedRound(rt, s.w, h.graph, addr, n, rest, callee, f);
    var s1 := s.(w := NextRound(s.w, addr));
    var body := Spot(h.(tail := Tail(addr, h.graph, h.room)), Cfg(cx, TSeq(h.graph, [n] + rest, |s.w.frames|), s1));
    BodyStarts(rt, p, body, addr, n, rest, callee, f);
    var node := Apart(body, TEval(h.graph, n, |s.w.frames|), s1);
    var s2 := s1;
    if h.room <= 0 {
      NodeTakesOneLevel(rt, node.h, cx, h.graph, n, |s.w.frames|, s1);
    } else {
      var h2 := Here(h.graph, h.room - 1, h.max, NoTail);
      NestedCallsAreTooDeep(rt, h2, cx, addr, s1, n, rest, callee, f);
      s2 :| Ends(rt, Spot(h2, Cfg(cx, TInvoke(addr, []), s1)), TOO_DEEP, s2);
      CallLeads(rt, node, addr, n, callee, f);
      LeadsEnds(rt, node, Spot(h2, Cfg(cx, TInvoke(addr, []), s1)), 1, TOO_DEEP, s2);
    }
    FailsInside(rt, body, node, rest, n, s2);
    LeadsEnds(rt, p, body, 1, TOO_DEEP, s2);
  }

  lemma NestedRound(rt: Registry, w: World, g: nat, addr: nat, n: NodeId, rest: seq<NodeId>, callee: NodeId, f: string)
    requires CallsItselfFirst(w, g, addr, n, rest, callee, f)
    ensures addr < |w.codes| && CallsItselfFirst(NextRound(w, addr), g, addr, n, rest, callee, f)
    ensures ResolveCallee(rt, NextRound(w, addr), g, callee, f, |w.frames|) == Ok(Closure(addr))
    ensures NodeAt(NextRound(w, addr), g, n) == Some(Call(n, callee, [])) && NodeAt(NextRound(w, addr), g, callee) == Some(Name(callee, f))
  {
    var w2, env := NextRound(w, addr), w.codes[addr].env;
    assert w2.frames[|w.frames|] == Frame(map[], Some(env)) && w2.frames[env] == w.frames[env];
    assert Lookup(w2.frames, env, f) == Some(Closure(addr));
  }

  lemma BodyStarts(rt: Registry, p: Spot, body: Spot, addr: nat, n: NodeId, rest: seq<NodeId>, callee: NodeId, f: string)
    requires p.c.t == TInvoke(addr, []) && CallsItselfFirst(p.c.s.w, p.h.graph, addr, n, rest, callee, f)
    requires body == Spot(p.h.(tail := Tail(addr, p.h.graph, p.h.room)),
                          Cfg(p.c.cx, TSeq(p.h.graph, [n] + rest, |p.c.s.w.frames|), p.c.s.(w := NextRound(p.c.s.w, addr))))
    ensures Leads(rt, p, body, 1)
  {
    hide Leads;
    assert Zip([], []) == map[];
    GoesOn(rt, p, body);
  }

  lemma CallLeads(rt: Registry, p: Spot, addr: nat, n: NodeId, callee: NodeId, f: string)
    requires p.h.room >= 1 && p.h.tail.NoTail? && p.c.t.TEval? && p.c.t.g == p.h.graph && p.c.t.n == n
    requires NodeAt(p.c.s.w, p.h.graph, n) == Some(Call(n, callee, [])) && NodeAt(p.c.s.w, p.h.graph, callee) == Some(Name(callee, f))
    requires ResolveCallee(rt, p.c.s.w, p.h.graph, callee, f, p.c.t.env) == Ok(Closure(addr))
    ensures Leads(rt, p, Spot(Here(p.h.graph, p.h.room - 1, p.h.max, NoTail), Cfg(p.c.cx, TInvoke(addr, []), p.c.s)), 1)
  {
    hide Leads, Ends, DepthRun, PlanForm, AfterForm, PlanCallback, PlanMacro, NodeAt, ResolveCallee, BindArgs;
    var g, env, s := p.h.graph, p.c.t.env, p.c.s;
    var call := Call(n, callee, []);
    var atCall := Deeper(p, TCall(g, call, env), s);
    var apply := Same(atCall, TApply(g, call, env, Closure(addr)), s);
    var last := Spot(Here(g, p.h.room - 1, p.h.max, NoTail), Cfg(p.c.cx, TInvoke(addr, []), s));
    GoesOn(rt, p, atCall);
    GoesOn(rt, atCall, apply);
    var args := Apart(apply, TArgs(g, [], env, []), s);
    Returns(rt, args, OkAll([]), s);
    InnerGoesOn(rt, apply, args, OkAll([]), s, last);
    LeadsTrans(rt, p, atCall, apply, 1, 1);
    LeadsTrans(rt, p, apply, last, 2, 1);
    LeadsLess(rt, p, last, 3, 1);
  }

  lemma FailsInside(rt: Registry, body: Spot, node: Spot, rest: seq<NodeId>, n: NodeId, s: State)
    requires rest != [] && body.c.t.TSeq? && body.c.t.ids == [n] + rest
    requires node == Apart(body, TEval(body.c.t.g, n, body.c.t.env), body.c.s) && Ends(rt, node, TOO_DEEP, s)
    ensures Ends(rt, body, TOO_DEEP, s)
  {
    hide Ends, DepthRun;
    InnerReturns(rt, body, node, TOO_DEEP, s);
  }
}
