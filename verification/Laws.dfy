/**
 * The rules of the language.  Each law says, for one kind of expression, with which outcome and in which
 * state it ends, in terms of how its parts end.  The rules do not mention how a run is driven.
 */
module Laws {
  import opened Ir
  import opened Tables
  import opened SpecInsert
  import opened Semantics
  import opened Runs
  import opened Reading
  import opened Operands

  // ---- From steps to rules ------------------------------------------------------------------

  ghost predicate Finishes(rt: Registry, r: Rest, o: Outcome, s: State) {
    match r
    case Return(o1, s1) => o == o1 && s == s1
    case Goto(c) => Evals(rt, c, o, s)
  }

  lemma ReturnRule(rt: Registry, c: Cfg, o1: Outcome, s1: State, o: Outcome, s: State)
    requires Plan(rt, c) == Now(Return(o1, s1))
    ensures Evals(rt, c, o, s) <==> o == o1 && s == s1
  {
    hide Plan, After;
    assert Run(rt, 1, c) == Done(o1, s1);
    if Evals(rt, c, o, s) { Deterministic(rt, c, o, s, o1, s1); }
  }

  lemma GotoRule(rt: Registry, c: Cfg, c2: Cfg, o: Outcome, s: State)
    requires Plan(rt, c) == Now(Goto(c2))
    ensures Evals(rt, c, o, s) <==> Evals(rt, c2, o, s)
  {
    hide Plan, After;
    if k: nat :| Run(rt, k, c) == Done(o, s) {
      assert Run(rt, k, c) == RunRest(rt, k - 1, Goto(c2));
      assert Run(rt, k - 1, c2) == Done(o, s);
    }
    if k: nat :| Run(rt, k, c2) == Done(o, s) { assert Run(rt, k + 1, c) == Done(o, s); }
  }

  lemma FirstRule(rt: Registry, c: Cfg, c1: Cfg, o: Outcome, s: State)
    requires Plan(rt, c) == First(c1)
    ensures Evals(rt, c, o, s) <==> exists o1, s1 :: Evals(rt, c1, o1, s1) && Finishes(rt, After(rt, c, o1, s1), o, s)
  {
    hide Plan, After;
    if k: nat :| Run(rt, k, c) == Done(o, s) {
      var Done(o1, s1) := Run(rt, k - 1, c1);
      assert Evals(rt, c1, o1, s1);
      var r := After(rt, c, o1, s1);
      assert Run(rt, k, c) == RunRest(rt, k - 1, r);
      if r.Goto? { assert Run(rt, k - 1, r.c) == Done(o, s); }
      assert Finishes(rt, r, o, s);
    }
    if o1, s1 :| Evals(rt, c1, o1, s1) && Finishes(rt, After(rt, c, o1, s1), o, s) {
      FirstFinishes(rt, c, c1, o1, s1, o, s);
    }
  }

  lemma FirstFinishes(rt: Registry, c: Cfg, c1: Cfg, o1: Outcome, s1: State, o: Outcome, s: State)
    requires Plan(rt, c) == First(c1) && Evals(rt, c1, o1, s1) && Finishes(rt, After(rt, c, o1, s1), o, s)
    ensures Evals(rt, c, o, s)
  {
    hide Plan, After;
    var k1: nat :| Run(rt, k1, c1) == Done(o1, s1);
    var r := After(rt, c, o1, s1);
    if r.Goto? {
      var k2: nat :| Run(rt, k2, r.c) == Done(o, s);
      var m := if k1 >= k2 then k1 else k2;
      Mono(rt, k1, m, c1);
      Mono(rt, k2, m, r.c);
      assert Run(rt, m + 1, c) == Done(o, s);
    } else {
      assert Run(rt, k1 + 1, c) == Done(o, s);
    }
  }

  // ---- The judgements -----------------------------------------------------------------------

  /** The node n ends with o in s2. */
  ghost predicate Ev(rt: Registry, cx: Ctx, g: nat, n: NodeId, env: nat, s: State, o: Outcome, s2: State) {
    Evals(rt, Cfg(cx, TEval(g, n, env), s), o, s2)
  }

  /** The nodes ids, one after the other, end with o in s2. */
  ghost predicate EvSeq(rt: Registry, cx: Ctx, g: nat, ids: seq<NodeId>, env: nat, s: State, o: Outcome, s2: State) {
    Evals(rt, Cfg(cx, TSeq(g, ids, env), s), o, s2)
  }

  /** The arguments ids end with o in s2: all their values, or the first that is none. */
  ghost predicate EvArgs(rt: Registry, cx: Ctx, g: nat, ids: seq<NodeId>, env: nat, s: State, o: Outcome, s2: State) {
    Evals(rt, Cfg(cx, TArgs(g, ids, env, []), s), o, s2)
  }

  ghost predicate Calls(rt: Registry, cx: Ctx, g: nat, call: Node, env: nat, callee: Value, s: State, o: Outcome, s2: State) {
    Evals(rt, Cfg(cx, TApply(g, call, env, callee), s), o, s2)
  }

  /** A form that has been admitted ends with o in s2. */
  ghost predicate Form(rt: Registry, cx: Ctx, g: nat, call: Node, env: nat, name: string, s: State, o: Outcome, s2: State) {
    Evals(rt, Cfg(cx, TForm(g, call, env, name), s), o, s2)
  }

  ghost predicate Invokes(rt: Registry, cx: Ctx, addr: nat, args: seq<Value>, s: State, o: Outcome, s2: State) {
    Evals(rt, Cfg(cx, TInvoke(addr, args), s), o, s2)
  }

  ghost predicate CallsBack(rt: Registry, cx: Ctx, cb: Value, args: seq<Value>, s: State, o: Outcome, s2: State) {
    Evals(rt, Cfg(cx, TCallback(cb, args), s), o, s2)
  }

  /** Refused with an error, and nothing happens. */
  ghost predicate Refused(rt: Registry, c: Cfg) {
    exists msg :: Evals(rt, c, Err(Error(msg)), c.s)
  }

  lemma RefusedRule(rt: Registry, c: Cfg)
    requires Plan(rt, c).Now? && Plan(rt, c).r.Return? && Plan(rt, c).r.o.Err? && Plan(rt, c).r.o.sig.Error? && Plan(rt, c).r.s == c.s
    ensures Refused(rt, c)
  {
    hide Plan;
    ReturnRule(rt, c, Plan(rt, c).r.o, c.s, Plan(rt, c).r.o, c.s);
  }

  // ---- Nodes --------------------------------------------------------------------------------

  lemma LiteralLaw(rt: Registry, cx: Ctx, g: nat, n: NodeId, env: nat, s: State, i: NodeId, l: Literal)
    requires IsAt(s.w, g, n, Lit(i, l))
    ensures exists v :: Denotes(l, v) && Ev(rt, cx, g, n, env, s, Ok(v), s)
  {
    hide Denotes, FromLiteral;
    NodeAtExactly(s.w, g, n);
    LiteralDenotes(l);
    ReturnRule(rt, Cfg(cx, TEval(g, n, env), s), Ok(FromLiteral(l)), s, Ok(FromLiteral(l)), s);
  }

  /** A name stands for its nearest binding, else for the public builtin of that name, else for nothing. */
  lemma NameLaw(rt: Registry, cx: Ctx, g: nat, n: NodeId, env: nat, s: State, name: string)
    requires NameIs(s.w, g, n, name)
    ensures forall v | Nearest(s.w.frames, env, name, v) :: Ev(rt, cx, g, n, env, s, Ok(v), s)
    ensures (forall v :: !Nearest(s.w.frames, env, name, v)) && name in rt.builtins && rt.builtins[name].isPublic ==>
              Ev(rt, cx, g, n, env, s, Ok(Builtin(name)), s)
    ensures (forall v :: !Nearest(s.w.frames, env, name, v)) && !(name in rt.builtins && rt.builtins[name].isPublic) ==>
              Refused(rt, Cfg(cx, TEval(g, n, env), s))
  {
    var c := Cfg(cx, TEval(g, n, env), s);
    forall v ensures Lookup(s.w.frames, env, name) == Some(v) <==> Nearest(s.w.frames, env, name, v) {
      LookupExactly(s.w.frames, env, name, v);
    }
    hide Lookup, Nearest;
    var o := EvalName(rt, s.w, name, env);
    ReturnRule(rt, c, o, s, o, s);
    if o.Err? { RefusedRule(rt, c); }
  }

  /** What a name in front of a call stands for. */
  ghost predicate Resolves(rt: Registry, w: World, g: nat, id: NodeId, name: string, env: nat, callee: Value) {
    if g < |w.graphs| && id in w.graphs[g].internal then name in rt.builtins && callee == Builtin(name)
    else Nearest(w.frames, env, name, callee)
         || ((forall v :: !Nearest(w.frames, env, name, v)) && name in rt.builtins && rt.builtins[name].isPublic && callee == Builtin(name))
  }

  lemma ResolvesExactly(rt: Registry, w: World, g: nat, id: NodeId, name: string, env: nat, callee: Value)
    ensures ResolveCallee(rt, w, g, id, name, env) == Ok(callee) <==> Resolves(rt, w, g, id, name, env, callee)
    ensures ResolveCallee(rt, w, g, id, name, env).Ok? || (ResolveCallee(rt, w, g, id, name, env).Err? && ResolveCallee(rt, w, g, id, name, env).sig.Error?)
  {
    forall v ensures Lookup(w.frames, env, name) == Some(v) <==> Nearest(w.frames, env, name, v) {
      LookupExactly(w.frames, env, name, v);
    }
    hide Lookup, Nearest;
    if Lookup(w.frames, env, name).Some? { assert Nearest(w.frames, env, name, Lookup(w.frames, env, name).value); }
  }

  /** A call whose callee is a name calls what that name stands for. */
  lemma NamedCallLaw(rt: Registry, cx: Ctx, g: nat, n: NodeId, env: nat, s: State, call: Node, name: string, o: Outcome, s2: State)
    requires IsAt(s.w, g, n, call) && call.Call? && NameIs(s.w, g, call.callee, name)
    ensures forall callee | Resolves(rt, s.w, g, call.callee, name, env, callee) ::
              Ev(rt, cx, g, n, env, s, o, s2) <==> Calls(rt, cx, g, call, env, callee, s, o, s2)
    ensures (forall callee :: !Resolves(rt, s.w, g, call.callee, name, env, callee)) ==> Refused(rt, Cfg(cx, TEval(g, n, env), s))
  {
    hide Evals, Run, Resolves;
    var c, c2 := Cfg(cx, TEval(g, n, env), s), Cfg(cx, TCall(g, call, env), s);
    NodeAtExactly(s.w, g, n);
    NodeAtExactly(s.w, g, call.callee);
    GotoRule(rt, c, c2, o, s2);
    forall callee | Resolves(rt, s.w, g, call.callee, name, env, callee)
      ensures Ev(rt, cx, g, n, env, s, o, s2) <==> Calls(rt, cx, g, call, env, callee, s, o, s2)
    {
      ResolvesExactly(rt, s.w, g, call.callee, name, env, callee);
      GotoRule(rt, c2, Cfg(cx, TApply(g, call, env, callee), s), o, s2);
    }
    if forall callee :: !Resolves(rt, s.w, g, call.callee, name, env, callee) {
      var r := ResolveCallee(rt, s.w, g, call.callee, name, env);
      if r.Ok? { ResolvesExactly(rt, s.w, g, call.callee, name, env, r.v); }
      ResolvesExactly(rt, s.w, g, call.callee, name, env, Null);
      ReturnRule(rt, c2, r, s, r, s);
      GotoRule(rt, c, c2, r, s);
    }
  }

  /** Any other callee is evaluated first. */
  lemma CallLaw(rt: Registry, cx: Ctx, g: nat, n: NodeId, env: nat, s: State, call: Node, callee: Node, o: Outcome, s2: State)
    requires IsAt(s.w, g, n, call) && call.Call? && IsAt(s.w, g, call.callee, callee) && !callee.Name?
    ensures Ev(rt, cx, g, n, env, s, o, s2) <==>
              exists o1, s1 :: Ev(rt, cx, g, call.callee, env, s, o1, s1) && ThenCalls(rt, cx, g, call, env, o1, s1, o, s2)
  {
    hide Evals, Run;
    var c, c2 := Cfg(cx, TEval(g, n, env), s), Cfg(cx, TCall(g, call, env), s);
    NodeAtExactly(s.w, g, n);
    NodeAtExactly(s.w, g, call.callee);
    GotoRule(rt, c, c2, o, s2);
    FirstRule(rt, c2, Cfg(cx, TEval(g, call.callee, env), s), o, s2);
    forall o1, s1 ensures Finishes(rt, After(rt, c2, o1, s1), o, s2) <==> ThenCalls(rt, cx, g, call, env, o1, s1, o, s2) {}
  }

  ghost predicate ThenCalls(rt: Registry, cx: Ctx, g: nat, call: Node, env: nat, o1: Outcome, s1: State, o: Outcome, s2: State) {
    if o1.Ok? then Calls(rt, cx, g, call, env, o1.v, s1, o, s2) else o == o1 && s2 == s1
  }

  // ---- Sequences and arguments --------------------------------------------------------------

  /** In a sequence the last value counts, and anything that is no value ends it. */
  lemma SequenceLaw(rt: Registry, cx: Ctx, g: nat, ids: seq<NodeId>, env: nat, s: State, o: Outcome, s2: State)
    ensures ids == [] ==> (EvSeq(rt, cx, g, ids, env, s, o, s2) <==> o == Ok(Null) && s2 == s)
    ensures |ids| == 1 ==> (EvSeq(rt, cx, g, ids, env, s, o, s2) <==> Ev(rt, cx, g, ids[0], env, s, o, s2))
    ensures |ids| > 1 ==> (EvSeq(rt, cx, g, ids, env, s, o, s2) <==>
              exists o1, s1 :: Ev(rt, cx, g, ids[0], env, s, o1, s1) && ThenSequence(rt, cx, g, ids[1..], env, o1, s1, o, s2))
  {
    hide Evals, Run;
    var c := Cfg(cx, TSeq(g, ids, env), s);
    if ids == [] {
      ReturnRule(rt, c, Ok(Null), s, o, s2);
    } else if |ids| == 1 {
      GotoRule(rt, c, Cfg(cx, TEval(g, ids[0], env), s), o, s2);
    } else {
      FirstRule(rt, c, Cfg(cx, TEval(g, ids[0], env), s), o, s2);
      forall o1, s1 ensures Finishes(rt, After(rt, c, o1, s1), o, s2) <==> ThenSequence(rt, cx, g, ids[1..], env, o1, s1, o, s2) {}
    }
  }

  ghost predicate ThenSequence(rt: Registry, cx: Ctx, g: nat, ids: seq<NodeId>, env: nat, o1: Outcome, s1: State, o: Outcome, s2: State) {
    if o1.Ok? then EvSeq(rt, cx, g, ids, env, s1, o, s2) else o == o1 && s2 == s1
  }

  /** vs are the values of ids, evaluated from left to right from s to s2. */
  ghost predicate Values(rt: Registry, cx: Ctx, g: nat, ids: seq<NodeId>, env: nat, s: State, vs: seq<Value>, s2: State)
    decreases |ids|
  {
    if ids == [] then vs == [] && s2 == s
    else
      |vs| == |ids| && exists s1 :: Ev(rt, cx, g, ids[0], env, s, Ok(vs[0]), s1) && Values(rt, cx, g, ids[1..], env, s1, vs[1..], s2)
  }

  /** The first of ids that is no value ends with o in s2. */
  ghost predicate FailsFirst(rt: Registry, cx: Ctx, g: nat, ids: seq<NodeId>, env: nat, s: State, o: Outcome, s2: State)
    decreases |ids|
  {
    && ids != []
    && ((Ev(rt, cx, g, ids[0], env, s, o, s2) && !o.Ok?)
        || exists v, s1 :: Ev(rt, cx, g, ids[0], env, s, Ok(v), s1) && FailsFirst(rt, cx, g, ids[1..], env, s1, o, s2))
  }

  /** Arguments are evaluated from left to right, up to the first that is no value. */
  lemma ArgsLaw(rt: Registry, cx: Ctx, g: nat, ids: seq<NodeId>, env: nat, s: State, o: Outcome, s2: State)
    ensures EvArgs(rt, cx, g, ids, env, s, o, s2) <==>
              if o.OkAll? then Values(rt, cx, g, ids, env, s, o.vs, s2) else FailsFirst(rt, cx, g, ids, env, s, o, s2)
  {
    hide Evals, Values, FailsFirst;
    ArgsFrom(rt, cx, g, ids, env, [], s, o, s2);
    if o.OkAll? { assert o.vs[0..] == o.vs; }
  }

  lemma {:induction false} ArgsFrom(rt: Registry, cx: Ctx, g: nat, ids: seq<NodeId>, env: nat, acc: seq<Value>, s: State, o: Outcome, s2: State)
    ensures Evals(rt, Cfg(cx, TArgs(g, ids, env, acc), s), o, s2) <==>
              if o.OkAll? then acc <= o.vs && Values(rt, cx, g, ids, env, s, o.vs[|acc|..], s2)
              else FailsFirst(rt, cx, g, ids, env, s, o, s2)
    decreases |ids|
  {
    hide Evals, Run;
    var c := Cfg(cx, TArgs(g, ids, env, acc), s);
    if ids == [] {
      ReturnRule(rt, c, OkAll(acc), s, o, s2);
      if o.OkAll? && acc <= o.vs && o.vs[|acc|..] == [] { assert o.vs == acc; }
    } else {
      var c1 := Cfg(cx, TEval(g, ids[0], env), s);
      FirstRule(rt, c, c1, o, s2);
      forall o1, s1 | Evals(rt, c1, o1, s1)
        ensures !o1.OkAll? && (Finishes(rt, After(rt, c, o1, s1), o, s2) <==> ThenArgs(rt, cx, g, ids[1..], env, acc, o1, s1, o, s2))
      {
        NoList(rt, c1, o1, s1);
        if o1.Ok? { ArgsFrom(rt, cx, g, ids[1..], env, acc + [o1.v], s1, o, s2); }
      }
      hide After, Plan;
      if o.OkAll? { ArgsCons(rt, cx, g, ids, env, acc, s, o, s2); }
    }
  }

  ghost predicate ThenArgs(rt: Registry, cx: Ctx, g: nat, ids: seq<NodeId>, env: nat, acc: seq<Value>, o1: Outcome, s1: State, o: Outcome, s2: State) {
    if !o1.Ok? then o == o1 && s2 == s1
    else if o.OkAll? then acc + [o1.v] <= o.vs && Values(rt, cx, g, ids, env, s1, o.vs[|acc| + 1..], s2)
    else FailsFirst(rt, cx, g, ids, env, s1, o, s2)
  }

  lemma ArgsCons(rt: Registry, cx: Ctx, g: nat, ids: seq<NodeId>, env: nat, acc: seq<Value>, s: State, o: Outcome, s2: State)
    requires ids != [] && o.OkAll?
    ensures (acc <= o.vs && Values(rt, cx, g, ids, env, s, o.vs[|acc|..], s2)) <==>
              exists o1, s1 :: Ev(rt, cx, g, ids[0], env, s, o1, s1) && !o1.OkAll? && ThenArgs(rt, cx, g, ids[1..], env, acc, o1, s1, o, s2)
  {
    hide Evals;
    var n := |acc|;
    if acc <= o.vs && Values(rt, cx, g, ids, env, s, o.vs[n..], s2) {
      var vs := o.vs[n..];
      var s1 :| Ev(rt, cx, g, ids[0], env, s, Ok(vs[0]), s1) && Values(rt, cx, g, ids[1..], env, s1, vs[1..], s2);
      assert vs[1..] == o.vs[n + 1..] && acc + [vs[0]] <= o.vs;
      assert ThenArgs(rt, cx, g, ids[1..], env, acc, Ok(vs[0]), s1, o, s2);
    }
    if o1, s1 :| Ev(rt, cx, g, ids[0], env, s, o1, s1) && !o1.OkAll? && ThenArgs(rt, cx, g, ids[1..], env, acc, o1, s1, o, s2) {
      var vs := o.vs[n..];
      assert acc + [o1.v] <= o.vs;
      assert vs[0] == o1.v && vs[1..] == o.vs[n + 1..];
      ValuesLength(rt, cx, g, ids[1..], env, s1, vs[1..], s2);
    }
  }

  lemma ValuesLength(rt: Registry, cx: Ctx, g: nat, ids: seq<NodeId>, env: nat, s: State, vs: seq<Value>, s2: State)
    requires Values(rt, cx, g, ids, env, s, vs, s2)
    ensures |vs| == |ids|
  {
  }

  /** Only argument lists end with a list of values. */
  lemma NoList(rt: Registry, c: Cfg, o: Outcome, s: State)
    requires Evals(rt, c, o, s) && !c.t.TArgs?
    ensures !o.OkAll?
  {
    hide Plan, After;
    var k: nat :| Run(rt, k, c) == Done(o, s);
    NoListRun(rt, k, c);
  }

  lemma {:induction false} NoListRun(rt: Registry, k: nat, c: Cfg)
    requires Run(rt, k, c).Done? && !c.t.TArgs?
    ensures !Run(rt, k, c).o.OkAll?
    decreases k
  {
    hide Plan, After;
    match Plan(rt, c)
    case Now(r) =>
      PlanNoList(rt, c);
      if r.Goto? { NoListRun(rt, k - 1, r.c); }
    case First(c1) =>
      var Done(o, s) := Run(rt, k - 1, c1);
      if !c1.t.TArgs? { NoListRun(rt, k - 1, c1); }
      AfterNoList(rt, c, c1, o, s);
      var r := After(rt, c, o, s);
      if r.Goto? { NoListRun(rt, k - 1, r.c); }
  }

  lemma PlanNoList(rt: Registry, c: Cfg)
    requires !c.t.TArgs? && Plan(rt, c).Now?
    ensures match Plan(rt, c).r case Return(o, _) => !o.OkAll? case Goto(c2) => !c2.t.TArgs?
  {
    match c.t
    case TForm(g, call, env, name) => if call.Call? && name in rt.builtins { FormNoList(c, g, call, env, rt.builtins[name].handler); }
    case _ =>
  }

  lemma FormNoList(c: Cfg, g: nat, call: Node, env: nat, h: Handler)
    requires call.Call?
    ensures var p := PlanForm(c.cx, g, call, env, h, c.s);
            p.Now? ==> match p.r case Return(o, _) => !o.OkAll? case Goto(c2) => !c2.t.TArgs?
  {
    hide BindShapeOf, ParamNames, CatchOf, LeaveTarget;
  }

  lemma AfterNoList(rt: Registry, c: Cfg, c1: Cfg, o: Outcome, s: State)
    requires !c.t.TArgs? && Plan(rt, c) == First(c1) && (o.OkAll? ==> c1.t.TArgs?)
    ensures match After(rt, c, o, s) case Return(o2, _) => !o2.OkAll? case Goto(c2) => !c2.t.TArgs?
  {
    match c.t
    case TForm(g, call, env, name) =>
      if call.Call? && name in rt.builtins && |call.args| >= MinArgs(rt.builtins[name].handler) {
        AfterFormNoList(rt, c, g, call, env, rt.builtins[name].handler, o, s);
      }
    case _ =>
  }

  lemma AfterFormNoList(rt: Registry, c: Cfg, g: nat, call: Node, env: nat, h: Handler, o: Outcome, s: State)
    requires call.Call? && |call.args| >= MinArgs(h)
    requires var p := PlanForm(c.cx, g, call, env, h, c.s); p.First? && (o.OkAll? ==> p.c.t.TArgs?)
    ensures match AfterForm(rt, c.cx, g, call, env, h, c.s, o, s) case Return(o2, _) => !o2.OkAll? case Goto(c2) => !c2.t.TArgs?
  {
    hide BindShapeOf, ParamNames, CatchOf, LeaveTarget, MatchChoice, EffectTags, ChargeAlloc, Truthy;
  }
}
