/** The rules for effect scopes, collections, plain builtins and callbacks. */
module ScopeLaws {
  import opened Ir
  import opened Tables
  import opened SpecInsert
  import opened Semantics
  import opened Runs
  import opened Reading
  import opened Operands
  import opened Laws
  import opened FormLaws

  // ---- Effect scopes ------------------------------------------------------------------------

  /** v is a list of strings without repetition, and tags are those strings. */
  ghost predicate TagsAre(v: Value, tags: set<string>) {
    && v.List?
    && (forall i | 0 <= i < |v.items| :: v.items[i].Str? && v.items[i].s in tags)
    && (forall i, j | 0 <= i < j < |v.items| :: v.items[i] != v.items[j])
    && (forall t | t in tags :: Str(t) in v.items)
  }

  lemma TagsExactly(v: Value, tags: set<string>)
    ensures EffectTags(v) == Some(tags) <==> TagsAre(v, tags)
  {
    if v.List? {
      if forall x | x in v.items :: x.Str? {
        var all := set x | x in v.items :: x.s;
        forall i | 0 <= i < |v.items| ensures v.items[i].s in all { assert v.items[i] in v.items; }
        if TagsAre(v, tags) {
          forall t | t in tags ensures t in all { assert Str(t).s in all; }
          forall t | t in all ensures t in tags {
            var x :| x in v.items && x.s == t;
            var i :| 0 <= i < |v.items| && v.items[i] == x;
          }
          assert all == tags;
        }
        if EffectTags(v) == Some(tags) {
          forall t | t in tags ensures Str(t) in v.items {
            var x :| x in v.items && x.s == t;
            assert x == Str(t);
          }
        }
      } else {
        var x :| x in v.items && !x.Str?;
        var i :| 0 <= i < |v.items| && v.items[i] == x;
      }
    }
  }

  /** s with a budget: the one already active, or else a new one. */
  function Budgeted(s: State): State { if s.alloc.Some? then s else State(s.w, Some(64_000_000)) }

  /** The operands run with exactly the given effects, which must be active already, and on a budget. */
  lemma EffectScopeLaw(rt: Registry, cx: Ctx, g: nat, call: Node, env: nat, name: string, s: State, o: Outcome, s2: State)
    requires IsForm(rt, call, name, EffectScope, 1)
    ensures Form(rt, cx, g, call, env, name, s, o, s2) <==>
              exists o1, s1 :: Ev(rt, cx, g, call.args[0], env, s, o1, s1) && ThenScoped(rt, cx, g, call.args[1..], env, o1, s1, o, s2)
  {
    hide Evals, Run, EffectTags, TagsAre;
    var c := Cfg(cx, TForm(g, call, env, name), s);
    FirstRule(rt, c, Cfg(cx, TEval(g, call.args[0], env), s), o, s2);
    forall o1, s1 ensures Finishes(rt, After(rt, c, o1, s1), o, s2) <==> ThenScoped(rt, cx, g, call.args[1..], env, o1, s1, o, s2) {
      if o1.Ok? {
        forall tags ensures EffectTags(o1.v) == Some(tags) <==> TagsAre(o1.v, tags) { TagsExactly(o1.v, tags); }
        if EffectTags(o1.v).Some? { ScopedLaw(rt, cx, EffectTags(o1.v).value, g, call.args[1..], env, s1, o, s2); }
      }
    }
  }

  ghost predicate ThenScoped(rt: Registry, cx: Ctx, g: nat, ids: seq<NodeId>, env: nat, o1: Outcome, s1: State, o: Outcome, s2: State) {
    if !o1.Ok? then o == o1 && s2 == s1
    else if tags :| TagsAre(o1.v, tags) then Scoped(rt, cx, tags, g, ids, env, s1, o, s2)
    else o == Err(Error("expected a list of effect tags")) && s2 == s1
  }

  /** ids end with o in s2 when run under tags: a new budget ends with them. */
  ghost predicate Scoped(rt: Registry, cx: Ctx, tags: set<string>, g: nat, ids: seq<NodeId>, env: nat, s: State, o: Outcome, s2: State) {
    if cx.scope.Some? && exists t :: t in tags && t !in cx.scope.value
    then o == Err(Error("effect-scope cannot grant effects")) && s2 == s
    else exists s1 :: EvSeq(rt, Ctx(cx.phase, Some(tags)), g, ids, env, Budgeted(s), o, s1)
                      && s2 == if s.alloc.Some? then s1 else State(s1.w, None)
  }

  lemma ScopedLaw(rt: Registry, cx: Ctx, tags: set<string>, g: nat, ids: seq<NodeId>, env: nat, s: State, o: Outcome, s2: State)
    ensures Evals(rt, Cfg(cx, TScoped(tags, g, ids, env), s), o, s2) <==> Scoped(rt, cx, tags, g, ids, env, s, o, s2)
  {
    hide Evals, Run;
    var c := Cfg(cx, TScoped(tags, g, ids, env), s);
    if cx.scope.Some? && !(tags <= cx.scope.value) {
      ReturnRule(rt, c, Err(Error("effect-scope cannot grant effects")), s, o, s2);
    } else {
      FirstRule(rt, c, Cfg(Ctx(cx.phase, Some(tags)), TSeq(g, ids, env), Budgeted(s)), o, s2);
      forall o1, s1
        ensures Finishes(rt, After(rt, c, o1, s1), o, s2) <==> o == o1 && s2 == if s.alloc.Some? then s1 else State(s1.w, None) {}
    }
  }

  // ---- Collections and plain builtins -------------------------------------------------------

  /** `list` gives the values of its operands, within the size limit and the budget. */
  lemma ListLaw(rt: Registry, cx: Ctx, g: nat, call: Node, env: nat, name: string, s: State, o: Outcome, s2: State)
    requires IsForm(rt, call, name, ListOf, 0)
    ensures Form(rt, cx, g, call, env, name, s, o, s2) <==>
              exists o1, s1 :: EvArgs(rt, cx, g, call.args, env, s, o1, s1) && ThenList(rt, o1, s1, o, s2)
  {
    hide Evals, Run, ChargeAlloc;
    var c, c1 := Cfg(cx, TForm(g, call, env, name), s), Cfg(cx, TArgs(g, call.args, env, []), s);
    FirstRule(rt, c, c1, o, s2);
    forall o1, s1 | Evals(rt, c1, o1, s1) ensures Finishes(rt, After(rt, c, o1, s1), o, s2) <==> ThenList(rt, o1, s1, o, s2) {
      if o1.OkAll? { ChargeExactly(s1, |o1.vs|); }
    }
  }

  predicate Sized(rt: Registry, n: nat, s: State, o: Outcome, s2: State)
    requires n > rt.collectionLimit || !CanPay(s, n)
  {
    s2 == s && o == if n > rt.collectionLimit then Err(Error("size limit exceeded")) else Err(Fatal(AllocExhausted))
  }

  ghost predicate ThenList(rt: Registry, o1: Outcome, s1: State, o: Outcome, s2: State) {
    if !o1.OkAll? then o == o1 && s2 == s1
    else if |o1.vs| <= rt.collectionLimit && CanPay(s1, |o1.vs|) then o == Ok(List(o1.vs)) && s2 == Paid(s1, |o1.vs|)
    else Sized(rt, |o1.vs|, s1, o, s2)
  }

  /** `map` pays for the whole result before it calls its callback on the first item. */
  lemma SequenceMapLaw(rt: Registry, cx: Ctx, g: nat, call: Node, env: nat, name: string, s: State, o: Outcome, s2: State)
    requires IsForm(rt, call, name, SequenceMap, 2)
    ensures Form(rt, cx, g, call, env, name, s, o, s2) <==>
              exists o1, s1 :: EvArgs(rt, cx, g, call.args, env, s, o1, s1) && ThenMaps(rt, cx, o1, s1, o, s2)
  {
    hide Evals, Run, ChargeAlloc, Mapped;
    var c, c1 := Cfg(cx, TForm(g, call, env, name), s), Cfg(cx, TArgs(g, call.args, env, []), s);
    FirstRule(rt, c, c1, o, s2);
    forall o1, s1 ensures Finishes(rt, After(rt, c, o1, s1), o, s2) <==> ThenMaps(rt, cx, o1, s1, o, s2) {
      if o1.OkAll? && |o1.vs| >= 2 && (o1.vs[0].List? || o1.vs[0].Tuple?) {
        var items := o1.vs[0].items;
        ChargeExactly(s1, |items|);
        if CanPay(s1, |items|) { MapLaw(rt, cx, o1.vs[1], items, Paid(s1, |items|), o, s2); }
      }
    }
  }

  ghost predicate ThenMaps(rt: Registry, cx: Ctx, o1: Outcome, s1: State, o: Outcome, s2: State) {
    if !o1.OkAll? then o == o1 && s2 == s1
    else if |o1.vs| >= 2 && (o1.vs[0].List? || o1.vs[0].Tuple?) then
      var items := o1.vs[0].items;
      if |items| <= rt.collectionLimit && CanPay(s1, |items|) then Mapped(rt, cx, o1.vs[1], items, Paid(s1, |items|), o, s2)
      else Sized(rt, |items|, s1, o, s2)
    else o == Err(Error("expected sequence")) && s2 == s1
  }

  /** The callback's answers to the items, in order, or the first that is no value. */
  ghost predicate Mapped(rt: Registry, cx: Ctx, cb: Value, items: seq<Value>, s: State, o: Outcome, s2: State) {
    if o.Ok? then o.v.List? && Images(rt, cx, cb, items, s, o.v.items, s2) else MapFails(rt, cx, cb, items, s, o, s2)
  }

  ghost predicate Images(rt: Registry, cx: Ctx, cb: Value, items: seq<Value>, s: State, vs: seq<Value>, s2: State)
    decreases |items|
  {
    if items == [] then vs == [] && s2 == s
    else
      |vs| == |items| && exists s1 :: CallsBack(rt, cx, cb, [items[0]], s, Ok(vs[0]), s1) && Images(rt, cx, cb, items[1..], s1, vs[1..], s2)
  }

  ghost predicate MapFails(rt: Registry, cx: Ctx, cb: Value, items: seq<Value>, s: State, o: Outcome, s2: State)
    decreases |items|
  {
    && items != []
    && ((CallsBack(rt, cx, cb, [items[0]], s, o, s2) && !o.Ok?)
        || exists v, s1 :: CallsBack(rt, cx, cb, [items[0]], s, Ok(v), s1) && MapFails(rt, cx, cb, items[1..], s1, o, s2))
  }

  lemma MapLaw(rt: Registry, cx: Ctx, cb: Value, items: seq<Value>, s: State, o: Outcome, s2: State)
    ensures Evals(rt, Cfg(cx, TMap(cb, items, []), s), o, s2) <==> Mapped(rt, cx, cb, items, s, o, s2)
  {
    hide Evals, Images, MapFails;
    MapFrom(rt, cx, cb, items, [], s, o, s2);
    if o.Ok? && o.v.List? { assert o.v.items[0..] == o.v.items; }
  }

  lemma {:induction false} MapFrom(rt: Registry, cx: Ctx, cb: Value, items: seq<Value>, acc: seq<Value>, s: State, o: Outcome, s2: State)
    ensures Evals(rt, Cfg(cx, TMap(cb, items, acc), s), o, s2) <==>
              if o.Ok? then o.v.List? && acc <= o.v.items && Images(rt, cx, cb, items, s, o.v.items[|acc|..], s2)
              else MapFails(rt, cx, cb, items, s, o, s2)
    decreases |items|
  {
    hide Evals, Run;
    var c := Cfg(cx, TMap(cb, items, acc), s);
    if items == [] {
      ReturnRule(rt, c, Ok(List(acc)), s, o, s2);
      if o.Ok? && o.v.List? && acc <= o.v.items && o.v.items[|acc|..] == [] { assert o.v.items == acc; }
    } else {
      var c1 := Cfg(cx, TCallback(cb, [items[0]]), s);
      FirstRule(rt, c, c1, o, s2);
      forall o1, s1
        ensures Finishes(rt, After(rt, c, o1, s1), o, s2) <==> ThenMapped(rt, cx, cb, items[1..], acc, o1, s1, o, s2)
      {
        if o1.Ok? { MapFrom(rt, cx, cb, items[1..], acc + [o1.v], s1, o, s2); }
      }
      hide After, Plan;
      if o.Ok? { MapCons(rt, cx, cb, items, acc, s, o, s2); }
    }
  }

  ghost predicate ThenMapped(rt: Registry, cx: Ctx, cb: Value, items: seq<Value>, acc: seq<Value>, o1: Outcome, s1: State, o: Outcome, s2: State) {
    if !o1.Ok? then o == o1 && s2 == s1
    else if o.Ok? then o.v.List? && acc + [o1.v] <= o.v.items && Images(rt, cx, cb, items, s1, o.v.items[|acc| + 1..], s2)
    else MapFails(rt, cx, cb, items, s1, o, s2)
  }

  lemma MapCons(rt: Registry, cx: Ctx, cb: Value, items: seq<Value>, acc: seq<Value>, s: State, o: Outcome, s2: State)
    requires items != [] && o.Ok?
    ensures (o.v.List? && acc <= o.v.items && Images(rt, cx, cb, items, s, o.v.items[|acc|..], s2)) <==>
              exists o1, s1 :: CallsBack(rt, cx, cb, [items[0]], s, o1, s1) && ThenMapped(rt, cx, cb, items[1..], acc, o1, s1, o, s2)
  {
    hide Evals;
    var n := |acc|;
    if o.v.List? && acc <= o.v.items && Images(rt, cx, cb, items, s, o.v.items[n..], s2) {
      var vs := o.v.items[n..];
      var s1 :| CallsBack(rt, cx, cb, [items[0]], s, Ok(vs[0]), s1) && Images(rt, cx, cb, items[1..], s1, vs[1..], s2);
      assert vs[1..] == o.v.items[n + 1..] && acc + [vs[0]] <= o.v.items;
      assert ThenMapped(rt, cx, cb, items[1..], acc, Ok(vs[0]), s1, o, s2);
    }
    if o1, s1 :| CallsBack(rt, cx, cb, [items[0]], s, o1, s1) && ThenMapped(rt, cx, cb, items[1..], acc, o1, s1, o, s2) {
      var vs := o.v.items[n..];
      assert acc + [o1.v] <= o.v.items;
      assert vs[0] == o1.v && vs[1..] == o.v.items[n + 1..];
      ImagesLength(rt, cx, cb, items[1..], s1, vs[1..], s2);
    }
  }

  lemma ImagesLength(rt: Registry, cx: Ctx, cb: Value, items: seq<Value>, s: State, vs: seq<Value>, s2: State)
    requires Images(rt, cx, cb, items, s, vs, s2)
    ensures |vs| == |items|
  {
  }

  /** A plain builtin answers to the values of its operands. */
  lemma EagerLaw(rt: Registry, cx: Ctx, g: nat, call: Node, env: nat, name: string, s: State, o: Outcome, s2: State)
    requires call.Call? && name in rt.builtins && rt.builtins[name].handler.Eager?
    ensures Form(rt, cx, g, call, env, name, s, o, s2) <==>
              exists o1 :: EvArgs(rt, cx, g, call.args, env, s, o1, s2)
                           && o == if o1.OkAll? then Said(rt.builtins[name].handler.f(o1.vs)) else o1
  {
    hide Evals, Run;
    var c, c1 := Cfg(cx, TForm(g, call, env, name), s), Cfg(cx, TArgs(g, call.args, env, []), s);
    FirstRule(rt, c, c1, o, s2);
    forall o1, s1
      ensures Finishes(rt, After(rt, c, o1, s1), o, s2) <==>
                s2 == s1 && o == if o1.OkAll? then Said(rt.builtins[name].handler.f(o1.vs)) else o1 {}
  }

  // ---- Callbacks ----------------------------------------------------------------------------

  /** A closure called back is invoked; a host function or a plain eager builtin answers if it is admitted. */
  lemma CallbackLaw(rt: Registry, cx: Ctx, cb: Value, args: seq<Value>, s: State, o: Outcome, s2: State)
    ensures cb.Closure? ==> (CallsBack(rt, cx, cb, args, s, o, s2) <==> Invokes(rt, cx, cb.addr, args, s, o, s2))
    ensures !cb.Closure? && AnswersBack(rt, cx, cb, args) ==>
              (CallsBack(rt, cx, cb, args, s, o, s2) <==>
               if cb.HostFunction?
               then o == Said(rt.hosts[cb.name].f(s.w.log, args)) && s2 == Traced(s, cb.name, rt.hosts[cb.name].effects)
               else o == Said(rt.builtins[cb.name].handler.f(args)) && s2 == Traced(s, cb.name, rt.builtins[cb.name].effects))
    ensures !cb.Closure? && !AnswersBack(rt, cx, cb, args) ==> Refused(rt, Cfg(cx, TCallback(cb, args), s))
  {
    hide Evals, Run, Admission, Admitted;
    var c := Cfg(cx, TCallback(cb, args), s);
    match cb
    case Closure(addr) => GotoRule(rt, c, Cfg(cx, TInvoke(addr, args), s), o, s2);
    case HostFunction(name) =>
      if name in rt.hosts {
        var h := rt.hosts[name];
        AdmissionExactly(cx, h.phase, h.effects, |args|, h.minArity, h.maxArity);
      }
      if AnswersBack(rt, cx, cb, args) {
        ReturnRule(rt, c, Said(rt.hosts[name].f(s.w.log, args)), Traced(s, name, rt.hosts[name].effects), o, s2);
      } else {
        RefusedRule(rt, c);
      }
    case Builtin(name) =>
      if name in rt.builtins { BuiltinAdmission(cx, rt.builtins[name], |args|); }
      if AnswersBack(rt, cx, cb, args) {
        ReturnRule(rt, c, Said(rt.builtins[name].handler.f(args)), Traced(s, name, rt.builtins[name].effects), o, s2);
      } else {
        RefusedRule(rt, c);
      }
    case _ => RefusedRule(rt, c);
  }

  ghost predicate AnswersBack(rt: Registry, cx: Ctx, cb: Value, args: seq<Value>) {
    || (cb.HostFunction? && cb.name in rt.hosts
        && var h := rt.hosts[cb.name]; Admitted(cx, h.phase, h.effects, |args|, h.minArity, h.maxArity))
    || (cb.Builtin? && cb.name in rt.builtins
        && var b := rt.builtins[cb.name]; b.eagerArgs && b.handler.Eager? && Admitted(cx, b.phase, b.effects, |args|, b.minArity, b.maxArity))
  }

  lemma BuiltinAdmission(cx: Ctx, b: BuiltinInfo, n: nat)
    ensures Admission(cx.phase, cx.scope, b.phase, b.effects, 0, 0, None).None? && ArityOk(n, b.minArity, b.maxArity) <==>
              Admitted(cx, b.phase, b.effects, n, b.minArity, b.maxArity)
  {
  }

  // ---- A form where it stands ---------------------------------------------------------------

  /** A call of a builtin by its public name does what its form does, unless the name is bound here. */
  lemma FormCallLaw(rt: Registry, cx: Ctx, g: nat, n: NodeId, env: nat, call: Node, name: string, s: State, o: Outcome, s2: State)
    requires IsAt(s.w, g, n, call) && call.Call? && NameIs(s.w, g, call.callee, name)
    requires Resolves(rt, s.w, g, call.callee, name, env, Builtin(name)) && name in rt.builtins
    requires var b := rt.builtins[name]; Admitted(cx, b.phase, b.effects, |call.args|, b.minArity, b.maxArity)
    ensures Ev(rt, cx, g, n, env, s, o, s2) <==> Form(rt, cx, g, call, env, name, Traced(s, name, rt.builtins[name].effects), o, s2)
  {
    hide Evals, Resolves, Admitted;
    NamedCallLaw(rt, cx, g, n, env, s, call, name, o, s2);
    BuiltinLaw(rt, cx, g, call, env, name, s, o, s2);
  }

  /** A node that is not there, or whose callee is not there, is refused. */
  lemma MissingLaw(rt: Registry, cx: Ctx, g: nat, n: NodeId, env: nat, s: State)
    requires Missing(s.w, g, n) || exists i, callee, args :: IsAt(s.w, g, n, Call(i, callee, args)) && Missing(s.w, g, callee)
    ensures Refused(rt, Cfg(cx, TEval(g, n, env), s))
  {
    hide Evals, Run;
    var c := Cfg(cx, TEval(g, n, env), s);
    NodeAtExactly(s.w, g, n);
    if Missing(s.w, g, n) {
      RefusedRule(rt, c);
    } else {
      var i, callee, args :| IsAt(s.w, g, n, Call(i, callee, args)) && Missing(s.w, g, callee);
      var c2 := Cfg(cx, TCall(g, Call(i, callee, args), env), s);
      NodeAtExactly(s.w, g, callee);
      RefusedRule(rt, c2);
      var msg :| Evals(rt, c2, Err(Error(msg)), s);
      GotoRule(rt, c, c2, Err(Error(msg)), s);
    }
  }
}
