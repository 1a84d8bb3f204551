/** Plain runs: one outcome each, and no limit or signal among them. */
module Runs {
  import opened Ir
  import opened Semantics

  /** c ends with outcome o in state s. */
  ghost predicate Evals(rt: Registry, c: Cfg, o: Outcome, s: State) {
    exists k: nat :: Run(rt, k, c) == Done(o, s)
  }

  /** More levels never change a result. */
  lemma {:induction false} Mono(rt: Registry, k: nat, more: nat, c: Cfg)
    requires k <= more && Run(rt, k, c).Done?
    ensures Run(rt, more, c) == Run(rt, k, c)
    decreases k
  {
    hide Plan, After;
    match Plan(rt, c)
    case Now(r) =>
      if r.Goto? { Mono(rt, k - 1, more - 1, r.c); }
    case First(c1) =>
      Mono(rt, k - 1, more - 1, c1);
      var Done(o, s) := Run(rt, k - 1, c1);
      var r := After(rt, c, o, s);
      if r.Goto? { Mono(rt, k - 1, more - 1, r.c); }
  }

  /** A configuration has at most one outcome. */
  lemma Deterministic(rt: Registry, c: Cfg, o: Outcome, s: State, o2: Outcome, s2: State)
    requires Evals(rt, c, o, s) && Evals(rt, c, o2, s2)
    ensures o == o2 && s == s2
  {
    hide Plan, After;
    var k: nat :| Run(rt, k, c) == Done(o, s);
    var k2: nat :| Run(rt, k2, c) == Done(o2, s2);
    if k <= k2 { Mono(rt, k, k2, c); } else { Mono(rt, k2, k, c); }
  }

  predicate Unsettled(o: Outcome) {
    o.Err? && (o.sig.Suspended? || o.sig.TailCall? || (o.sig.Fatal? && !o.sig.why.AllocExhausted?))
  }

  /** Tail-call signals and depth or step limits are never outcomes of plain recursion. */
  lemma {:induction false} RunSettles(rt: Registry, k: nat, c: Cfg)
    requires Run(rt, k, c).Done?
    ensures !Unsettled(Run(rt, k, c).o)
    decreases k
  {
    hide Plan, After;
    match Plan(rt, c)
    case Now(r) =>
      if r.Goto? { RunSettles(rt, k - 1, r.c); } else { PlanSettles(rt, c); }
    case First(c1) =>
      RunSettles(rt, k - 1, c1);
      var Done(o, s) := Run(rt, k - 1, c1);
      var r := After(rt, c, o, s);
      if r.Goto? { RunSettles(rt, k - 1, r.c); } else { AfterSettles(rt, c, o, s); }
  }

  lemma PlanSettles(rt: Registry, c: Cfg)
    requires Plan(rt, c).Now? && Plan(rt, c).r.Return?
    ensures !Unsettled(Plan(rt, c).r.o)
  {
    match c.t
    case TApply(g, call, env, callee) => if call.Call? { ApplySettles(rt, c, g, call, env, callee); }
    case TCallback(cb, args) => CallbackSettles(rt, c, cb, args);
    case TForm(g, call, env, name) =>
      if call.Call? && name in rt.builtins { FormSettles(c, g, call, env, rt.builtins[name].handler); }
    case _ =>
  }

  lemma ApplySettles(rt: Registry, c: Cfg, g: nat, call: Node, env: nat, callee: Value)
    requires call.Call?
    ensures var p := PlanApply(rt, c.cx, g, call, env, callee, c.s); p.Now? && p.r.Return? ==> !Unsettled(p.r.o)
  {
  }

  lemma CallbackSettles(rt: Registry, c: Cfg, cb: Value, args: seq<Value>)
    ensures var p := PlanCallback(rt, c.cx, cb, args, c.s); p.Now? && p.r.Return? ==> !Unsettled(p.r.o)
  {
  }

  lemma FormSettles(c: Cfg, g: nat, call: Node, env: nat, h: Handler)
    requires call.Call?
    ensures var p := PlanForm(c.cx, g, call, env, h, c.s); p.Now? && p.r.Return? ==> !Unsettled(p.r.o)
  {
  }

  lemma AfterSettles(rt: Registry, c: Cfg, o: Outcome, s: State)
    requires !Unsettled(o) && After(rt, c, o, s).Return?
    ensures !Unsettled(After(rt, c, o, s).o)
  {
  }
}
