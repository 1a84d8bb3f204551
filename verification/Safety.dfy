/** What no piece of a run can do: act outside the active effect scope, or create allocation budget. */
module Safety {
  import opened Ir
  import opened Semantics

  function Charged(log: seq<Event>): nat {
    if log == [] then 0
    else Charged(log[..|log| - 1]) + (match log[|log| - 1] case Charge(u) => u case Effect(_, _) => 0)
  }

  lemma {:induction false} ChargedCat(a: seq<Event>, b: seq<Event>)
    ensures Charged(a + b) == Charged(a) + Charged(b)
    decreases |b|
  {
    if b == [] {
      assert a + b == a;
    } else {
      assert (a + b)[..|a + b| - 1] == a + b[..|b| - 1];
      ChargedCat(a, b[..|b| - 1]);
    }
  }

  /** Every effect in the log from `from` on lies inside the scope. */
  ghost predicate EffectsInside(scope: Option<set<string>>, log: seq<Event>, from: nat) {
    forall i :: from <= i < |log| && log[i].Effect? ==> EffectsAllowed(log[i].effects, scope)
  }

  /** What s2 may look like after running from s under a scope; the whole log is kept, so the clauses speak of each event. */
  ghost predicate Safe(scope: Option<set<string>>, s: State, s2: State) {
    && s.w.log <= s2.w.log && s.w.codes <= s2.w.codes && s.w.graphs <= s2.w.graphs && |s.w.frames| <= |s2.w.frames|
    && EffectsInside(scope, s2.w.log, |s.w.log|)
    && s.alloc.Some? == s2.alloc.Some?
    && (s.alloc.Some? ==> s2.alloc.value + Charged(s2.w.log) == s.alloc.value + Charged(s.w.log))
  }

  lemma SafeSelf(scope: Option<set<string>>, s: State)
    ensures Safe(scope, s, s)
  {
  }

  lemma SafeTrans(scope: Option<set<string>>, s: State, s2: State, s3: State)
    requires Safe(scope, s, s2) && Safe(scope, s2, s3)
    ensures Safe(scope, s, s3)
  {
    forall i | |s.w.log| <= i < |s3.w.log| && s3.w.log[i].Effect? ensures EffectsAllowed(s3.w.log[i].effects, scope) {
      if i < |s2.w.log| { assert s2.w.log[i] == s3.w.log[i]; }
    }
  }

  /** Closures stay where they are. */
  lemma SafeCodes(scope: Option<set<string>>, s: State, s2: State, addr: nat)
    requires Safe(scope, s, s2) && addr < |s.w.codes|
    ensures addr < |s2.w.codes| && s2.w.codes[addr] == s.w.codes[addr]
  {
  }

  /** Changes that add no event. */
  lemma SafeQuiet(scope: Option<set<string>>, s: State, s2: State)
    requires s2.w.log == s.w.log && s2.alloc == s.alloc
    requires s.w.codes <= s2.w.codes && s.w.graphs <= s2.w.graphs && |s.w.frames| <= |s2.w.frames|
    ensures Safe(scope, s, s2)
  {
  }

  lemma SafeEffect(scope: Option<set<string>>, s: State, name: string, effects: set<string>)
    requires EffectsAllowed(effects, scope)
    ensures Safe(scope, s, s.(w := LogEffect(s.w, name, effects)))
  {
    ChargedCat(s.w.log, [Effect(name, effects)]);
    assert Charged([Effect(name, effects)]) == 0 by { assert [Effect(name, effects)][..0] == []; }
  }

  lemma SafeCharge(scope: Option<set<string>>, s: State, units: nat)
    requires ChargeAlloc(s, units).Some?
    ensures Safe(scope, s, ChargeAlloc(s, units).value)
  {
    ChargedCat(s.w.log, [Charge(units)]);
    assert Charged([Charge(units)]) == units by { assert [Charge(units)][..0] == []; }
  }

  /** Leaving a nested scope: its effects were inside the outer scope too, and a budget it installed goes away. */
  lemma SafeLeaveScope(scope: Option<set<string>>, inner: set<string>, s: State, s1: State)
    requires scope.None? || inner <= scope.value
    requires Safe(Some(inner), if s.alloc.None? then s.(alloc := Some(DEFAULT_ALLOC_BUDGET)) else s, s1)
    ensures Safe(scope, s, if s.alloc.None? then s1.(alloc := None) else s1)
  {
  }

  // ---- Every step of the semantics is safe ---------------------------------------------------

  ghost predicate RestSafe(c: Cfg, s: State, r: Rest) {
    match r
    case Return(_, s2) => Safe(c.cx.scope, s, s2)
    case Goto(c2) => Safe(c.cx.scope, s, c2.s) && c2.cx == c.cx
  }

  ghost predicate StepSafe(c: Cfg, p: Step) {
    match p
    case Now(r) => RestSafe(c, c.s, r)
    case First(c1) => c1.cx == c.cx && Safe(c.cx.scope, c.s, c1.s)
  }

  lemma FormSafe(c: Cfg, g: nat, call: Node, env: nat, h: Handler)
    requires call.Call?
    ensures StepSafe(c, PlanForm(c.cx, g, call, env, h, c.s))
  {
    SafeSelf(c.cx.scope, c.s);
  }

  lemma ApplySafe(rt: Registry, c: Cfg, g: nat, call: Node, env: nat, callee: Value)
    requires call.Call?
    ensures StepSafe(c, PlanApply(rt, c.cx, g, call, env, callee, c.s))
  {
    SafeSelf(c.cx.scope, c.s);
    if callee.Builtin? && callee.name in rt.builtins && EffectsAllowed(rt.builtins[callee.name].effects, c.cx.scope) {
      SafeEffect(c.cx.scope, c.s, callee.name, rt.builtins[callee.name].effects);
    }
  }

  lemma CallbackSafe(rt: Registry, c: Cfg, cb: Value, args: seq<Value>)
    ensures StepSafe(c, PlanCallback(rt, c.cx, cb, args, c.s))
  {
    SafeSelf(c.cx.scope, c.s);
    if cb.Builtin? && cb.name in rt.builtins && EffectsAllowed(rt.builtins[cb.name].effects, c.cx.scope) {
      SafeEffect(c.cx.scope, c.s, cb.name, rt.builtins[cb.name].effects);
    }
    if cb.HostFunction? && cb.name in rt.hosts && EffectsAllowed(rt.hosts[cb.name].effects, c.cx.scope) {
      SafeEffect(c.cx.scope, c.s, cb.name, rt.hosts[cb.name].effects);
    }
  }

  lemma PlanSafe(rt: Registry, c: Cfg)
    ensures (c.t.TScoped? && Plan(rt, c).First?) || StepSafe(c, Plan(rt, c))
  {
    SafeSelf(c.cx.scope, c.s);
    match c.t
    case TForm(g, call, env, name) =>
      if call.Call? && name in rt.builtins { FormSafe(c, g, call, env, rt.builtins[name].handler); }
    case TApply(g, call, env, callee) => if call.Call? { ApplySafe(rt, c, g, call, env, callee); }
    case TCallback(cb, args) => CallbackSafe(rt, c, cb, args);
    case TInvoke(_, _) => PushSafe(rt, c);
    case TMacro(_, _, _, _) => PushSafe(rt, c);
    case TExpand(_, _) => PushSafe(rt, c);
    case TScoped(_, _, _, _) =>
    case _ => PlainSafe(rt, c);
  }

  lemma PlainSafe(rt: Registry, c: Cfg)
    requires c.t.TEval? || c.t.TCall? || c.t.TSeq? || c.t.TArgs? || c.t.TLetrec? || c.t.TMap?
    ensures StepSafe(c, Plan(rt, c))
  {
    SafeSelf(c.cx.scope, c.s);
  }

  lemma PushSafe(rt: Registry, c: Cfg)
    requires c.t.TInvoke? || c.t.TMacro? || c.t.TExpand?
    ensures StepSafe(c, Plan(rt, c))
  {
    SafeSelf(c.cx.scope, c.s);
  }

  lemma AfterFormSafe(rt: Registry, c: Cfg, g: nat, call: Node, env: nat, h: Handler, o: Outcome, s: State)
    requires call.Call? && |call.args| >= MinArgs(h)
    ensures RestSafe(c, s, AfterForm(rt, c.cx, g, call, env, h, c.s, o, s))
  {
    if o.OkAll? { AfterArgsSafe(rt, c, g, call, env, h, o, s); }
  }

  lemma AfterArgsSafe(rt: Registry, c: Cfg, g: nat, call: Node, env: nat, h: Handler, o: Outcome, s: State)
    requires call.Call? && |call.args| >= MinArgs(h) && o.OkAll?
    ensures RestSafe(c, s, AfterForm(rt, c.cx, g, call, env, h, c.s, o, s))
  {
    hide Safe;
    SafeSelf(c.cx.scope, s);
    if h.ListOf? && ChargeAlloc(s, |o.vs|).Some? { SafeCharge(c.cx.scope, s, |o.vs|); }
    if h.SequenceMap? && |o.vs| >= 2 && (o.vs[0].List? || o.vs[0].Tuple?) && ChargeAlloc(s, |o.vs[0].items|).Some? {
      SafeCharge(c.cx.scope, s, |o.vs[0].items|);
    }
  }

  lemma AfterSafe(rt: Registry, c: Cfg, c1: Cfg, o: Outcome, s: State)
    requires Plan(rt, c) == First(c1) && !c.t.TScoped?
    ensures RestSafe(c, s, After(rt, c, o, s))
  {
    match c.t
    case TForm(g, call, env, name) =>
      SafeSelf(c.cx.scope, s);
      if call.Call? && name in rt.builtins && |call.args| >= MinArgs(rt.builtins[name].handler) {
        AfterFormSafe(rt, c, g, call, env, rt.builtins[name].handler, o, s);
      }
    case TApply(g, call, env, callee) =>
      SafeSelf(c.cx.scope, s);
      if callee.HostFunction? && callee.name in rt.hosts {
        SafeEffect(c.cx.scope, s, callee.name, rt.hosts[callee.name].effects);
      }
    case _ => AfterPlainSafe(rt, c, o, s);
  }

  lemma AfterPlainSafe(rt: Registry, c: Cfg, o: Outcome, s: State)
    requires !c.t.TScoped? && !c.t.TForm? && !c.t.TApply?
    ensures RestSafe(c, s, After(rt, c, o, s))
  {
    SafeSelf(c.cx.scope, s);
  }

  /** A nested scope: narrower than the active one, and a budget it installs is its own. */
  lemma ScopedSafe(rt: Registry, c: Cfg, c1: Cfg, o: Outcome, s: State)
    requires Plan(rt, c) == First(c1) && c.t.TScoped? && Safe(c1.cx.scope, c1.s, s)
    ensures After(rt, c, o, s).Return? && Safe(c.cx.scope, c.s, After(rt, c, o, s).s)
  {
    hide Safe;
    SafeLeaveScope(c.cx.scope, c.t.effects, c.s, s);
  }

  /** Effect-scope safety and conservation of the allocation budget over a whole run. */
  lemma {:induction false} RunSafe(rt: Registry, k: nat, c: Cfg)
    requires Run(rt, k, c).Done?
    ensures Safe(c.cx.scope, c.s, Run(rt, k, c).s)
    decreases k, 0
  {
    hide Plan, After, Safe;
    PlanSafe(rt, c);
    var s2 := Run(rt, k, c).s;
    match Plan(rt, c)
    case Now(r) => RestRunSafe(rt, k - 1, c, c.s, r);
    case First(c1) =>
      RunSafe(rt, k - 1, c1);
      var Done(o, s) := Run(rt, k - 1, c1);
      if c.t.TScoped? {
        ScopedSafe(rt, c, c1, o, s);
      } else {
        AfterSafe(rt, c, c1, o, s);
        RestRunSafe(rt, k - 1, c, s, After(rt, c, o, s));
        SafeTrans(c.cx.scope, c.s, c1.s, s);
        SafeTrans(c.cx.scope, c.s, s, s2);
      }
  }

  lemma {:induction false} RestRunSafe(rt: Registry, k: nat, c: Cfg, s: State, r: Rest)
    requires RestSafe(c, s, r) && RunRest(rt, k, r).Done?
    ensures Safe(c.cx.scope, s, RunRest(rt, k, r).s)
    decreases k, 1
  {
    if r.Goto? {
      RunSafe(rt, k, r.c);
      SafeTrans(c.cx.scope, s, r.c.s, Run(rt, k, r.c).s);
    }
  }

  /** What a run charges to an active budget is what it takes from it, so never more than was there. */
  lemma BudgetHolds(rt: Registry, k: nat, c: Cfg)
    requires Run(rt, k, c).Done? && c.s.alloc.Some?
    ensures var s2 := Run(rt, k, c).s;
            && s2.alloc.Some? && s2.alloc.value <= c.s.alloc.value
            && Charged(s2.w.log) - Charged(c.s.w.log) == c.s.alloc.value - s2.alloc.value
  {
    hide Run;
    RunSafe(rt, k, c);
    var before, after := c.s.w.log, Run(rt, k, c).s.w.log;
    assert before + after[|before|..] == after;
    ChargedCat(before, after[|before|..]);
  }

  /** An effectful call a run lets through lies inside the scope the run started under, and so inside every scope around it. */
  lemma EffectsStayInside(rt: Registry, k: nat, c: Cfg, i: nat)
    requires Run(rt, k, c).Done? && c.cx.scope.Some?
    requires |c.s.w.log| <= i < |Run(rt, k, c).s.w.log| && Run(rt, k, c).s.w.log[i].Effect?
    ensures Run(rt, k, c).s.w.log[i].effects <= c.cx.scope.value
  {
    hide Run;
    RunSafe(rt, k, c);
  }
}
