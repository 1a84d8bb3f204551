/** The rules for calls and for every form. */
module FormLaws {
  import opened Ir
  import opened Tables
  import opened SpecInsert
  import opened Semantics
  import opened Runs
  import opened Reading
  import opened Operands
  import opened Laws
  import Safety

  // ---- Changes of state ---------------------------------------------------------------------

  /** s with one more frame, inside env. */
  function Entered(s: State, vars: map<string, Value>, env: nat): State {
    State(World(s.w.frames + [Frame(vars, Some(env))], s.w.codes, s.w.graphs, s.w.log), s.alloc)
  }

  /** s with name bound to v in the frame env. */
  function Assigned(s: State, env: nat, name: string, v: Value): State
    requires env < |s.w.frames|
  {
    var f := s.w.frames[env];
    State(World(s.w.frames[env := Frame(f.vars[name := v], f.parent)], s.w.codes, s.w.graphs, s.w.log), s.alloc)
  }

  /** s after an effectful call; a call without effects leaves no trace. */
  function Traced(s: State, name: string, effects: set<string>): State {
    State(World(s.w.frames, s.w.codes, s.w.graphs, if effects == {} then s.w.log else s.w.log + [Effect(name, effects)]), s.alloc)
  }

  /** A piece of code with the next address. */
  function Coded(s: State, params: seq<string>, body: seq<NodeId>, env: nat, g: nat): State {
    State(World(s.w.frames, s.w.codes + [Code(params, body, env, g)], s.w.graphs, s.w.log), s.alloc)
  }

  /** s after paying units, if a budget is active. */
  function Paid(s: State, units: nat): State
    requires s.alloc.Some? ==> units <= s.alloc.value
  {
    if s.alloc.None? then s
    else State(World(s.w.frames, s.w.codes, s.w.graphs, s.w.log + [Charge(units)]), Some(s.alloc.value - units))
  }

  predicate CanPay(s: State, units: nat) { s.alloc.Some? ==> units <= s.alloc.value }

  lemma ChargeExactly(s: State, units: nat)
    ensures ChargeAlloc(s, units) == if CanPay(s, units) then Some(Paid(s, units)) else None
  {
  }

  /** In the right phase, with its effects inside the active scope, and with a fitting number of arguments. */
  predicate Admitted(cx: Ctx, phase: Phase, effects: set<string>, arity: nat, min: nat, max: Option<nat>) {
    && (phase == Dual || phase == cx.phase)
    && (forall e | e in effects :: cx.scope.None? || e in cx.scope.value)
    && min <= arity && (max.Some? ==> arity <= max.value)
  }

  lemma AdmissionExactly(cx: Ctx, phase: Phase, effects: set<string>, arity: nat, min: nat, max: Option<nat>)
    ensures Admission(cx.phase, cx.scope, phase, effects, arity, min, max) == None <==> Admitted(cx, phase, effects, arity, min, max)
  {
  }

  // ---- Calls --------------------------------------------------------------------------------

  /** An admitted builtin leaves its trace and then does what its form does. */
  lemma BuiltinLaw(rt: Registry, cx: Ctx, g: nat, call: Node, env: nat, name: string, s: State, o: Outcome, s2: State)
    requires call.Call? && name in rt.builtins
    ensures var b := rt.builtins[name];
            if Admitted(cx, b.phase, b.effects, |call.args|, b.minArity, b.maxArity)
            then Calls(rt, cx, g, call, env, Builtin(name), s, o, s2) <==> Form(rt, cx, g, call, env, name, Traced(s, name, b.effects), o, s2)
            else Refused(rt, Cfg(cx, TApply(g, call, env, Builtin(name)), s))
  {
    hide Evals, Run, Admission, Admitted;
    var b, c := rt.builtins[name], Cfg(cx, TApply(g, call, env, Builtin(name)), s);
    AdmissionExactly(cx, b.phase, b.effects, |call.args|, b.minArity, b.maxArity);
    if Admitted(cx, b.phase, b.effects, |call.args|, b.minArity, b.maxArity) {
      GotoRule(rt, c, Cfg(cx, TForm(g, call, env, name), Traced(s, name, b.effects)), o, s2);
    } else {
      RefusedRule(rt, c);
    }
  }

  function Said(a: Answer): Outcome { if a.Good? then Ok(a.v) else Err(Error(a.msg)) }

  /** An admitted host function gets the values of its arguments and everything that happened before. */
  lemma HostLaw(rt: Registry, cx: Ctx, g: nat, call: Node, env: nat, name: string, s: State, o: Outcome, s2: State)
    requires call.Call? && name in rt.hosts
    ensures var h := rt.hosts[name];
            if Admitted(cx, h.phase, h.effects, |call.args|, h.minArity, h.maxArity)
            then Calls(rt, cx, g, call, env, HostFunction(name), s, o, s2) <==>
                   exists o1, s1 :: EvArgs(rt, cx, g, call.args, env, s, o1, s1) && HostAnswers(rt, name, o1, s1, o, s2)
            else Refused(rt, Cfg(cx, TApply(g, call, env, HostFunction(name)), s))
  {
    hide Evals, Run, Admission, Admitted;
    var h, c := rt.hosts[name], Cfg(cx, TApply(g, call, env, HostFunction(name)), s);
    AdmissionExactly(cx, h.phase, h.effects, |call.args|, h.minArity, h.maxArity);
    if Admitted(cx, h.phase, h.effects, |call.args|, h.minArity, h.maxArity) {
      FirstRule(rt, c, Cfg(cx, TArgs(g, call.args, env, []), s), o, s2);
      forall o1, s1 ensures Finishes(rt, After(rt, c, o1, s1), o, s2) <==> HostAnswers(rt, name, o1, s1, o, s2) {}
    } else {
      RefusedRule(rt, c);
    }
  }

  ghost predicate HostAnswers(rt: Registry, name: string, o1: Outcome, s1: State, o: Outcome, s2: State)
    requires name in rt.hosts
  {
    if o1.OkAll? then o == Said(rt.hosts[name].f(s1.w.log, o1.vs)) && s2 == Traced(s1, name, rt.hosts[name].effects)
    else o == o1 && s2 == s1
  }

  /** A closure is invoked with the values of its arguments. */
  lemma ClosureLaw(rt: Registry, cx: Ctx, g: nat, call: Node, env: nat, addr: nat, s: State, o: Outcome, s2: State)
    requires call.Call?
    ensures Calls(rt, cx, g, call, env, Closure(addr), s, o, s2) <==>
              exists o1, s1 :: EvArgs(rt, cx, g, call.args, env, s, o1, s1) && ThenInvokes(rt, cx, addr, o1, s1, o, s2)
  {
    hide Evals, Run;
    var c := Cfg(cx, TApply(g, call, env, Closure(addr)), s);
    FirstRule(rt, c, Cfg(cx, TArgs(g, call.args, env, []), s), o, s2);
    forall o1, s1 ensures Finishes(rt, After(rt, c, o1, s1), o, s2) <==> ThenInvokes(rt, cx, addr, o1, s1, o, s2) {}
  }

  ghost predicate ThenInvokes(rt: Registry, cx: Ctx, addr: nat, o1: Outcome, s1: State, o: Outcome, s2: State) {
    if o1.OkAll? then Invokes(rt, cx, addr, o1.vs, s1, o, s2) else o == o1 && s2 == s1
  }

  /** The body of a closure runs in a new frame that holds its arguments, inside the frame it was made in. */
  lemma InvokeLaw(rt: Registry, cx: Ctx, addr: nat, args: seq<Value>, s: State, o: Outcome, s2: State)
    requires addr < |s.w.codes|
    ensures var code := s.w.codes[addr];
            forall vars | Binds(code.params, args, vars) ::
              Invokes(rt, cx, addr, args, s, o, s2) <==>
                EvSeq(rt, cx, code.graph, code.body, |s.w.frames|, Entered(s, vars, code.env), o, s2)
    ensures (forall vars :: !Binds(s.w.codes[addr].params, args, vars)) ==> Refused(rt, Cfg(cx, TInvoke(addr, args), s))
  {
    hide Evals, Run, Binds, BindArgs;
    var code, c := s.w.codes[addr], Cfg(cx, TInvoke(addr, args), s);
    BindsExactly(code.params, args);
    match BindArgs(code.params, args)
    case BoundVars(vars) =>
      GotoRule(rt, c, Cfg(cx, TSeq(code.graph, code.body, |s.w.frames|), Entered(s, vars, code.env)), o, s2);
    case BindError(_) => RefusedRule(rt, c);
  }

  /** Nothing else can be called. */
  lemma NotCallableLaw(rt: Registry, cx: Ctx, g: nat, call: Node, env: nat, v: Value, s: State)
    requires call.Call? && !v.Builtin? && !v.HostFunction? && !v.Closure? && !v.Macro?
    ensures Refused(rt, Cfg(cx, TApply(g, call, env, v), s))
  {
    RefusedRule(rt, Cfg(cx, TApply(g, call, env, v), s));
  }

  // ---- Macros -------------------------------------------------------------------------------

  /** vs are the expressions at ids, unevaluated. */
  ghost predicate Quoted(g: Tables, ids: seq<NodeId>, vs: seq<Value>) {
    |vs| == |ids| && forall i | 0 <= i < |ids| :: vs[i].Syntax? && SpecOf(g, ids[i]) == Spec(vs[i].spec)
  }

  lemma {:induction false} QuotedExactly(g: Tables, ids: seq<NodeId>, vs: seq<Value>)
    ensures QuoteAll(g, ids) == Some(vs) <==> Quoted(g, ids, vs)
    decreases |ids|
  {
    hide SpecOf;
    if ids != [] {
      if vs != [] {
        QuotedExactly(g, ids[1..], vs[1..]);
        assert vs == [vs[0]] + vs[1..];
        QuotedCons(g, ids, vs);
      }
      if QuoteAll(g, ids).Some? { assert QuoteAll(g, ids).value != []; }
    }
  }

  lemma QuotedCons(g: Tables, ids: seq<NodeId>, vs: seq<Value>)
    requires ids != [] && vs != []
    ensures Quoted(g, ids, vs) <==> vs[0].Syntax? && SpecOf(g, ids[0]) == Spec(vs[0].spec) && Quoted(g, ids[1..], vs[1..])
  {
    hide SpecOf;
    if vs[0].Syntax? && SpecOf(g, ids[0]) == Spec(vs[0].spec) && Quoted(g, ids[1..], vs[1..]) {
      forall i | 0 <= i < |ids| ensures vs[i].Syntax? && SpecOf(g, ids[i]) == Spec(vs[i].spec) {
        if i > 0 { assert ids[1..][i - 1] == ids[i] && vs[1..][i - 1] == vs[i]; }
      }
    }
  }

  /** A macro gets its arguments unevaluated; the syntax it gives back is evaluated where the macro was called. */
  lemma MacroLaw(rt: Registry, cx: Ctx, g: nat, call: Node, env: nat, addr: nat, s: State, vs: seq<Value>, vars: map<string, Value>, o: Outcome, s2: State)
    requires call.Call? && g < |s.w.graphs| && addr < |s.w.codes|
    requires Quoted(s.w.graphs[g], call.args, vs) && Binds(s.w.codes[addr].params, vs, vars)
    ensures var code := s.w.codes[addr];
            Calls(rt, cx, g, call, env, Macro(addr), s, o, s2) <==>
              exists o1, s1 :: EvSeq(rt, cx, code.graph, code.body, |s.w.frames|, Entered(s, vars, code.env), o1, s1)
                               && ThenExpands(rt, cx, env, o1, s1, o, s2)
  {
    hide Evals, Run, Binds, BindArgs, Quoted, QuoteAll;
    var code := s.w.codes[addr];
    var c, c2 := Cfg(cx, TApply(g, call, env, Macro(addr)), s), Cfg(cx, TMacro(g, call, env, addr), s);
    QuotedExactly(s.w.graphs[g], call.args, vs);
    BindsExactly(code.params, vs);
    GotoRule(rt, c, c2, o, s2);
    FirstRule(rt, c2, Cfg(cx, TSeq(code.graph, code.body, |s.w.frames|), Entered(s, vars, code.env)), o, s2);
    forall o1, s1 ensures Finishes(rt, After(rt, c2, o1, s1), o, s2) <==> ThenExpands(rt, cx, env, o1, s1, o, s2) {}
  }

  ghost predicate ThenExpands(rt: Registry, cx: Ctx, env: nat, o1: Outcome, s1: State, o: Outcome, s2: State) {
    if !o1.Ok? then o == o1 && s2 == s1
    else if !o1.v.Syntax? then o == Err(Error("macro expansion must return syntax")) && s2 == s1
    else Evals(rt, Cfg(cx, TExpand(o1.v.spec, env), s1), o, s2)
  }

  /** An expansion is evaluated in a graph of its own that reads as that expansion. */
  lemma ExpandLaw(rt: Registry, cx: Ctx, spec: ExprSpec, env: nat, s: State, o: Outcome, s2: State) returns (graph: Tables, id: NodeId)
    requires NamesOk(spec) && EMPTY.next + Size(spec) <= MAX_ID
    ensures SpecOf(graph, id) == Spec(spec) && graph.top == [id] && graph.internal == {}
    ensures Evals(rt, Cfg(cx, TExpand(spec, env), s), o, s2) <==>
              Ev(rt, cx, |s.w.graphs|, id, env, State(World(s.w.frames, s.w.codes, s.w.graphs + [graph], s.w.log), s.alloc), o, s2)
  {
    hide Evals, Run, Insert, SpecOf, NamesOk, Size;
    EmptyForest();
    InsertRoundTrip(EMPTY, spec);
    var r := Insert(EMPTY, spec, None);
    id, graph := r.id, ExpansionGraph(spec).value.0;
    SameReading(r.g, graph, id);
    GotoRule(rt, Cfg(cx, TExpand(spec, env), s),
             Cfg(cx, TEval(|s.w.graphs|, id, env), State(World(s.w.frames, s.w.codes, s.w.graphs + [graph], s.w.log), s.alloc)), o, s2);
  }

  lemma EmptyForest()
    ensures Forest(EMPTY)
  {
    RankedIsAcyclic(EMPTY.parents, map[]);
  }

  lemma SameReading(g: Tables, g2: Tables, id: NodeId)
    requires Forest(g) && id in g.nodes && g2.nodes == g.nodes && g2.spans == g.spans
    ensures SpecOf(g2, id) == SpecOf(g, id)
  {
    assert SameOn(g, g2, g.nodes.Keys) by {
      forall x, c | x in g.nodes && c in g.nodes[x].Children() ensures c in g.nodes {
        assert IsChild(g, x, c);
        ChildIsNode(g, x, c);
      }
    }
    SpecFrame(g, g2, g.nodes.Keys, id, |g.nodes| + 1);
  }

  /** A macro whose arguments cannot be quoted or do not fit is refused. */
  lemma MacroRefused(rt: Registry, cx: Ctx, g: nat, call: Node, env: nat, addr: nat, s: State)
    requires call.Call? && g < |s.w.graphs| && addr < |s.w.codes|
    requires forall vs, vars | Quoted(s.w.graphs[g], call.args, vs) :: !Binds(s.w.codes[addr].params, vs, vars)
    ensures Refused(rt, Cfg(cx, TApply(g, call, env, Macro(addr)), s))
  {
    hide Evals, Run, Binds, BindArgs, Quoted, QuoteAll;
    var c, c2 := Cfg(cx, TApply(g, call, env, Macro(addr)), s), Cfg(cx, TMacro(g, call, env, addr), s);
    var q := QuoteAll(s.w.graphs[g], call.args);
    if q.Some? {
      QuotedExactly(s.w.graphs[g], call.args, q.value);
      BindsExactly(s.w.codes[addr].params, q.value);
    }
    RefusedRule(rt, c2);
    var msg :| Evals(rt, c2, Err(Error(msg)), s);
    GotoRule(rt, c, c2, Err(Error(msg)), s);
  }

  /** So is an expansion that cannot be inserted into an empty graph. */
  lemma ExpandRefused(rt: Registry, cx: Ctx, spec: ExprSpec, env: nat, s: State)
    requires !(NamesOk(spec) && EMPTY.next + Size(spec) <= MAX_ID)
    ensures Refused(rt, Cfg(cx, TExpand(spec, env), s))
  {
    hide Evals, Run, Insert, NamesOk, Size;
    EmptyForest();
    InsertRoundTrip(EMPTY, spec);
    RefusedRule(rt, Cfg(cx, TExpand(spec, env), s));
  }

  // ---- Conditionals, sequences, code --------------------------------------------------------

  ghost predicate IsForm(rt: Registry, call: Node, name: string, h: Handler, operands: nat) {
    call.Call? && name in rt.builtins && rt.builtins[name].handler == h && |call.args| >= operands
  }

  /** With too few operands, which the registered arities rule out, a form is refused. */
  lemma TooFewLaw(rt: Registry, cx: Ctx, g: nat, call: Node, env: nat, name: string, s: State)
    requires call.Call? && name in rt.builtins && |call.args| < 2
    requires var h := rt.builtins[name].handler;
      || h.If? || h.Bind? || h.Lambda? || h.MacroForm? || h.SequenceMap?
      || (|call.args| == 0 && (h.Match? || h.Try? || h.Throw? || h.Block? || h.LeaveForm? || h.EffectScope?))
    ensures Refused(rt, Cfg(cx, TForm(g, call, env, name), s))
  {
    RefusedRule(rt, Cfg(cx, TForm(g, call, env, name), s));
  }

  /** A true condition selects the second operand; a false one the third, or null without one. */
  lemma IfLaw(rt: Registry, cx: Ctx, g: nat, call: Node, env: nat, name: string, s: State, o: Outcome, s2: State)
    requires IsForm(rt, call, name, If, 2)
    ensures Form(rt, cx, g, call, env, name, s, o, s2) <==>
              exists o1, s1 :: Ev(rt, cx, g, call.args[0], env, s, o1, s1) && ThenBranch(rt, cx, g, call, env, o1, s1, o, s2)
  {
    hide Evals, Run, Truthy, IsFalse;
    var c := Cfg(cx, TForm(g, call, env, name), s);
    FirstRule(rt, c, Cfg(cx, TEval(g, call.args[0], env), s), o, s2);
    forall o1, s1 ensures Finishes(rt, After(rt, c, o1, s1), o, s2) <==> ThenBranch(rt, cx, g, call, env, o1, s1, o, s2) {
      if o1.Ok? { TruthyExactly(o1.v); }
    }
  }

  ghost predicate ThenBranch(rt: Registry, cx: Ctx, g: nat, call: Node, env: nat, o1: Outcome, s1: State, o: Outcome, s2: State)
    requires call.Call? && |call.args| >= 2
  {
    if !o1.Ok? then o == o1 && s2 == s1
    else if !IsFalse(o1.v) then Ev(rt, cx, g, call.args[1], env, s1, o, s2)
    else if |call.args| == 3 then Ev(rt, cx, g, call.args[2], env, s1, o, s2)
    else o == Ok(Null) && s2 == s1
  }

  lemma DoLaw(rt: Registry, cx: Ctx, g: nat, call: Node, env: nat, name: string, s: State, o: Outcome, s2: State)
    requires IsForm(rt, call, name, Do, 0)
    ensures Form(rt, cx, g, call, env, name, s, o, s2) <==> EvSeq(rt, cx, g, call.args, env, s, o, s2)
  {
    GotoRule(rt, Cfg(cx, TForm(g, call, env, name), s), Cfg(cx, TSeq(g, call.args, env), s), o, s2);
  }

  /** A lambda or macro form gives a new piece of code that remembers where it was made. */
  lemma CodeLaw(rt: Registry, cx: Ctx, g: nat, call: Node, env: nat, name: string, s: State, o: Outcome, s2: State)
    requires IsForm(rt, call, name, Lambda, 2) || IsForm(rt, call, name, MacroForm, 2)
    ensures forall params | Params(s.w, g, call.args[0], params) ::
              Form(rt, cx, g, call, env, name, s, o, s2) <==>
                && o == Ok(if rt.builtins[name].handler.Lambda? then Closure(|s.w.codes|) else Macro(|s.w.codes|))
                && s2 == Coded(s, params, call.args[1..], env, g)
    ensures (forall params :: !Params(s.w, g, call.args[0], params)) ==> Refused(rt, Cfg(cx, TForm(g, call, env, name), s))
  {
    hide Evals, Run, Params, ParamNames;
    var c := Cfg(cx, TForm(g, call, env, name), s);
    forall params ensures ParamNames(s.w, g, call.args[0]) == Some(params) <==> Params(s.w, g, call.args[0], params) {
      ParamsExactly(s.w, g, call.args[0], params);
    }
    match ParamNames(s.w, g, call.args[0])
    case Some(params) =>
      ReturnRule(rt, c, Ok(if rt.builtins[name].handler.Lambda? then Closure(|s.w.codes|) else Macro(|s.w.codes|)),
                 Coded(s, params, call.args[1..], env, g), o, s2);
    case None => RefusedRule(rt, c);
  }

  // ---- Bind ---------------------------------------------------------------------------------

  /** (bind x e body ...) binds x here and now. */
  lemma BindHereLaw(rt: Registry, cx: Ctx, g: nat, call: Node, env: nat, name: string, x: string, s: State, o: Outcome, s2: State)
    requires IsForm(rt, call, name, Bind, 2) && NameIs(s.w, g, call.args[0], x) && env < |s.w.frames|
    ensures Form(rt, cx, g, call, env, name, s, o, s2) <==>
              exists o1, s1 :: Ev(rt, cx, g, call.args[1], env, s, o1, s1) && env < |s1.w.frames|
                               && ThenBound(rt, cx, g, call, env, x, o1, s1, o, s2)
  {
    hide Evals, Run, BindShapeOf, NameIs, Scope;
    var c, c1 := Cfg(cx, TForm(g, call, env, name), s), Cfg(cx, TEval(g, call.args[1], env), s);
    BindShapeExactly(s.w, g, call.args);
    FirstRule(rt, c, c1, o, s2);
    forall o1, s1 | Evals(rt, c1, o1, s1)
      ensures env < |s1.w.frames| && (Finishes(rt, After(rt, c, o1, s1), o, s2) <==> ThenBound(rt, cx, g, call, env, x, o1, s1, o, s2))
    {
      FramesStay(rt, c1, o1, s1);
    }
  }

  ghost predicate ThenBound(rt: Registry, cx: Ctx, g: nat, call: Node, env: nat, x: string, o1: Outcome, s1: State, o: Outcome, s2: State)
    requires call.Call? && |call.args| >= 2 && env < |s1.w.frames|
  {
    if !o1.Ok? then o == o1 && s2 == s1
    else if |call.args| == 2 then o == Ok(Null) && s2 == Assigned(s1, env, x, o1.v)
    else EvSeq(rt, cx, g, call.args[2..], env, Assigned(s1, env, x, o1.v), o, s2)
  }

  lemma FramesStay(rt: Registry, c: Cfg, o: Outcome, s: State)
    requires Evals(rt, c, o, s)
    ensures |c.s.w.frames| <= |s.w.frames|
  {
    hide Run;
    var k: nat :| Run(rt, k, c) == Done(o, s);
    Safety.RunSafe(rt, k, c);
  }

  /** The names of the pairs, all null. */
  ghost predicate AllNull(pairs: seq<(string, NodeId)>, vars: map<string, Value>) {
    && (forall i | 0 <= i < |pairs| :: pairs[i].0 in vars)
    && (forall x | x in vars :: vars[x] == Null && exists i :: 0 <= i < |pairs| && pairs[i].0 == x)
  }

  lemma NullVarsExactly(pairs: seq<(string, NodeId)>, vars: map<string, Value>)
    ensures vars == NullVars(pairs) <==> AllNull(pairs, vars)
  {
    var n := NullVars(pairs);
    forall i | 0 <= i < |pairs| ensures pairs[i].0 in n { assert pairs[i] in pairs; }
    forall x | x in n ensures exists i :: 0 <= i < |pairs| && pairs[i].0 == x {
      var p :| p in pairs && p.0 == x;
      var i :| 0 <= i < |pairs| && pairs[i] == p;
    }
    if AllNull(pairs, vars) { assert vars.Keys == n.Keys; }
  }

  /** (bind ((x e) ...) body ...) works in a new frame in which all names exist before the first value is computed. */
  lemma BindScopeLaw(rt: Registry, cx: Ctx, g: nat, call: Node, env: nat, name: string, pairs: seq<(string, NodeId)>, body: seq<NodeId>,
                     vars: map<string, Value>, s: State, o: Outcome, s2: State)
    requires IsForm(rt, call, name, Bind, 2) && Scope(s.w, g, call.args, pairs, body) && AllNull(pairs, vars)
    ensures Form(rt, cx, g, call, env, name, s, o, s2) <==>
              Evals(rt, Cfg(cx, TLetrec(g, pairs, body, |s.w.frames|), Entered(s, vars, env)), o, s2)
  {
    hide Evals, Run, BindShapeOf, NameIs, Scope, AllNull, NullVars;
    BindShapeExactly(s.w, g, call.args);
    NullVarsExactly(pairs, vars);
    GotoRule(rt, Cfg(cx, TForm(g, call, env, name), s), Cfg(cx, TLetrec(g, pairs, body, |s.w.frames|), Entered(s, vars, env)), o, s2);
  }

  /** The pairs are evaluated and bound in order, then the body runs, all in the frame env. */
  lemma LetrecLaw(rt: Registry, cx: Ctx, g: nat, pairs: seq<(string, NodeId)>, body: seq<NodeId>, env: nat, s: State, o: Outcome, s2: State)
    requires env < |s.w.frames|
    ensures pairs == [] ==>
              (Evals(rt, Cfg(cx, TLetrec(g, pairs, body, env), s), o, s2) <==> EvSeq(rt, cx, g, body, env, s, o, s2))
    ensures pairs != [] ==>
              (Evals(rt, Cfg(cx, TLetrec(g, pairs, body, env), s), o, s2) <==>
               exists o1, s1 :: Ev(rt, cx, g, pairs[0].1, env, s, o1, s1) && env < |s1.w.frames|
                                && ThenLetrec(rt, cx, g, pairs, body, env, o1, s1, o, s2))
  {
    hide Evals, Run;
    var c := Cfg(cx, TLetrec(g, pairs, body, env), s);
    if pairs == [] {
      GotoRule(rt, c, Cfg(cx, TSeq(g, body, env), s), o, s2);
    } else {
      var c1 := Cfg(cx, TEval(g, pairs[0].1, env), s);
      FirstRule(rt, c, c1, o, s2);
      forall o1, s1 | Evals(rt, c1, o1, s1)
        ensures env < |s1.w.frames| && (Finishes(rt, After(rt, c, o1, s1), o, s2) <==> ThenLetrec(rt, cx, g, pairs, body, env, o1, s1, o, s2))
      {
        FramesStay(rt, c1, o1, s1);
      }
    }
  }

  ghost predicate ThenLetrec(rt: Registry, cx: Ctx, g: nat, pairs: seq<(string, NodeId)>, body: seq<NodeId>, env: nat,
                             o1: Outcome, s1: State, o: Outcome, s2: State)
    requires pairs != [] && env < |s1.w.frames|
  {
    if !o1.Ok? then o == o1 && s2 == s1
    else Evals(rt, Cfg(cx, TLetrec(g, pairs[1..], body, env), Assigned(s1, env, pairs[0].0, o1.v)), o, s2)
  }

  /** (bind null body ...) binds nothing; every other first operand is refused. */
  lemma BindRestLaw(rt: Registry, cx: Ctx, g: nat, call: Node, env: nat, name: string, s: State, o: Outcome, s2: State)
    requires IsForm(rt, call, name, Bind, 2)
    ensures IsNull(s.w, g, call.args[0]) ==>
              (Form(rt, cx, g, call, env, name, s, o, s2) <==> EvSeq(rt, cx, g, call.args[1..], env, s, o, s2))
    ensures (&& !IsNull(s.w, g, call.args[0])
             && (forall x :: !NameIs(s.w, g, call.args[0], x))
             && (forall pairs, body :: !Scope(s.w, g, call.args, pairs, body))) ==>
              Refused(rt, Cfg(cx, TForm(g, call, env, name), s))
  {
    hide Evals, Run, BindShapeOf, NameIs, Scope, IsNull;
    var c := Cfg(cx, TForm(g, call, env, name), s);
    BindShapeExactly(s.w, g, call.args);
    match BindShapeOf(s.w, g, call.args)
    case BindNothing => GotoRule(rt, c, Cfg(cx, TSeq(g, call.args[1..], env), s), o, s2);
    case BindBad => RefusedRule(rt, c);
    case _ =>
  }

  // ---- Match --------------------------------------------------------------------------------

  /** The first clause whose pattern fits is taken, with what the pattern binds in a new frame. */
  lemma MatchLaw(rt: Registry, cx: Ctx, g: nat, call: Node, env: nat, name: string, s: State, o: Outcome, s2: State)
    requires IsForm(rt, call, name, Match, 1)
    ensures Form(rt, cx, g, call, env, name, s, o, s2) <==>
              exists o1, s1 :: Ev(rt, cx, g, call.args[0], env, s, o1, s1) && ThenMatched(rt, cx, g, call, env, o1, s1, o, s2)
  {
    hide Evals, Run, MatchChoice, Takes, NoneFits;
    var c := Cfg(cx, TForm(g, call, env, name), s);
    FirstRule(rt, c, Cfg(cx, TEval(g, call.args[0], env), s), o, s2);
    forall o1, s1 ensures Finishes(rt, After(rt, c, o1, s1), o, s2) <==> ThenMatched(rt, cx, g, call, env, o1, s1, o, s2) {
      if o1.Ok? { MatchChoiceExactly(s1.w, g, call.args[1..], o1.v); }
    }
  }

  ghost predicate ThenMatched(rt: Registry, cx: Ctx, g: nat, call: Node, env: nat, o1: Outcome, s1: State, o: Outcome, s2: State)
    requires call.Call? && |call.args| >= 1
  {
    if !o1.Ok? then o == o1 && s2 == s1
    else if vars, body :| Takes(s1.w, g, call.args[1..], o1.v, vars, body)
      then EvSeq(rt, cx, g, body, |s1.w.frames|, Entered(s1, vars, env), o, s2)
    else if NoneFits(s1.w, g, call.args[1..], o1.v) then o == Ok(Null) && s2 == s1
    else exists msg :: MatchChoice(s1.w, g, call.args[1..], o1.v) == BadClause(msg) && o == Err(Error(msg)) && s2 == s1
  }

  lemma MatchChoiceExactly(w: World, g: nat, ids: seq<NodeId>, v: Value)
    ensures forall vars, body :: MatchChoice(w, g, ids, v) == Clause(vars, body) <==> Takes(w, g, ids, v, vars, body)
    ensures MatchChoice(w, g, ids, v) == NoClause <==> NoneFits(w, g, ids, v)
  {
    hide MatchClauses, Clauses, ChooseClause, AllMiss;
    forall clauses ensures MatchClauses(w, g, ids) == Some(clauses) <==> Clauses(w, g, ids, clauses) { ClausesExactly(w, g, ids, clauses); }
    forall clauses, vars, body
      ensures ChooseClause(w, g, clauses, v) == Clause(vars, body) <==> TakesFrom(w, g, clauses, v, vars, body)
      ensures ChooseClause(w, g, clauses, v) == NoClause <==> AllMiss(w, g, clauses, v)
    {
      ChoiceExactly(w, g, clauses, v, vars, body);
    }
    hide TakesFrom;
    var m := MatchClauses(w, g, ids);
    if m.Some? {
      assert Clauses(w, g, ids, m.value);
      assert ChooseClause(w, g, m.value, v) == NoClause <==> AllMiss(w, g, m.value, v) by { ChoiceExactly(w, g, m.value, v, map[], []); }
    }
  }

  ghost predicate TakesFrom(w: World, g: nat, clauses: seq<(NodeId, seq<NodeId>)>, v: Value, vars: map<string, Value>, body: seq<NodeId>) {
    exists i: nat :: FitsFirst(w, g, clauses, v, i, vars) && clauses[i].1 == body
  }

  ghost predicate Takes(w: World, g: nat, ids: seq<NodeId>, v: Value, vars: map<string, Value>, body: seq<NodeId>) {
    exists clauses :: Clauses(w, g, ids, clauses) && TakesFrom(w, g, clauses, v, vars, body)
  }

  ghost predicate NoneFits(w: World, g: nat, ids: seq<NodeId>, v: Value) {
    exists clauses :: Clauses(w, g, ids, clauses) && AllMiss(w, g, clauses, v)
  }

  // ---- Exits --------------------------------------------------------------------------------

  /** What `try` catches: thrown values as they are, and errors as a map; nothing else. */
  ghost predicate CaughtAs(sig: Signal, v: Value) {
    || (sig.Exception? && v == sig.v)
    || (sig.Error? && v == Map([("message", Str(sig.msg)), ("category", Null)]))
  }

  ghost predicate Catchable(o: Outcome) {
    o.Err? && exists v :: CaughtAs(o.sig, v)
  }

  /** Without a catch clause, what is caught becomes null. */
  lemma TryLaw(rt: Registry, cx: Ctx, g: nat, call: Node, env: nat, name: string, s: State, o: Outcome, s2: State)
    requires IsForm(rt, call, name, Try, 1) && |call.args| != 2
    ensures Form(rt, cx, g, call, env, name, s, o, s2) <==>
              exists o1 :: Ev(rt, cx, g, call.args[0], env, s, o1, s2) && o == if Catchable(o1) then Ok(Null) else o1
  {
    hide Evals, Run, Catchable;
    var c, c1 := Cfg(cx, TForm(g, call, env, name), s), Cfg(cx, TEval(g, call.args[0], env), s);
    FirstRule(rt, c, c1, o, s2);
    forall o1, s1
      ensures Finishes(rt, After(rt, c, o1, s1), o, s2) <==> s2 == s1 && o == if Catchable(o1) then Ok(Null) else o1
    {
      CaughtExactly(o1);
    }
  }

  /** With one, its body runs in a new frame that holds what was caught under its name. */
  lemma TryCatchLaw(rt: Registry, cx: Ctx, g: nat, call: Node, env: nat, name: string, x: string, body: seq<NodeId>,
                    s: State, o: Outcome, s2: State)
    requires IsForm(rt, call, name, Try, 2) && |call.args| == 2
    ensures CatchesWith(s.w, g, call.args[1], x, body) ==>
              (Form(rt, cx, g, call, env, name, s, o, s2) <==>
               exists o1, s1 :: Ev(rt, cx, g, call.args[0], env, s, o1, s1) && ThenCaught(rt, cx, g, x, body, env, o1, s1, o, s2))
    ensures (forall y, b :: !CatchesWith(s.w, g, call.args[1], y, b)) ==> Refused(rt, Cfg(cx, TForm(g, call, env, name), s))
  {
    hide Evals, Run, CatchOf, CatchesWith, Catchable;
    var c, c1 := Cfg(cx, TForm(g, call, env, name), s), Cfg(cx, TEval(g, call.args[0], env), s);
    CatchExactly(s.w, g, call.args);
    match CatchOf(s.w, g, call.args)
    case BadCatch => RefusedRule(rt, c);
    case Catch(y, b) =>
      FirstRule(rt, c, c1, o, s2);
      forall o1, s1 ensures Finishes(rt, After(rt, c, o1, s1), o, s2) <==> ThenCaught(rt, cx, g, y, b, env, o1, s1, o, s2) {
        CaughtExactly(o1);
      }
    case NoCatch =>
  }

  ghost predicate ThenCaught(rt: Registry, cx: Ctx, g: nat, x: string, body: seq<NodeId>, env: nat, o1: Outcome, s1: State, o: Outcome, s2: State) {
    if Catchable(o1)
    then exists v :: CaughtAs(o1.sig, v) && EvSeq(rt, cx, g, body, |s1.w.frames|, Entered(s1, map[x := v], env), o, s2)
    else o == o1 && s2 == s1
  }

  lemma CaughtExactly(o: Outcome)
    ensures Catchable(o) <==> o.Err? && Caught(o.sig).Some?
    ensures o.Err? ==> forall v :: Caught(o.sig) == Some(v) <==> CaughtAs(o.sig, v)
  {
    if o.Err? && Caught(o.sig).Some? { assert CaughtAs(o.sig, Caught(o.sig).value); }
  }

  lemma ThrowLaw(rt: Registry, cx: Ctx, g: nat, call: Node, env: nat, name: string, s: State, o: Outcome, s2: State)
    requires IsForm(rt, call, name, Throw, 1)
    ensures Form(rt, cx, g, call, env, name, s, o, s2) <==>
              exists o1 :: Ev(rt, cx, g, call.args[0], env, s, o1, s2) && o == if o1.Ok? then Err(Exception(o1.v)) else o1
  {
    hide Evals, Run;
    var c, c1 := Cfg(cx, TForm(g, call, env, name), s), Cfg(cx, TEval(g, call.args[0], env), s);
    FirstRule(rt, c, c1, o, s2);
    forall o1, s1 | Evals(rt, c1, o1, s1)
      ensures Finishes(rt, After(rt, c, o1, s1), o, s2) <==> s2 == s1 && o == if o1.Ok? then Err(Exception(o1.v)) else o1
    {
      NoList(rt, c1, o1, s1);
    }
  }

  /** A block ends with its last value, or with the value of a leave that is meant for it. */
  lemma BlockLaw(rt: Registry, cx: Ctx, g: nat, call: Node, env: nat, name: string, s: State, o: Outcome, s2: State)
    requires IsForm(rt, call, name, Block, 1)
    ensures Form(rt, cx, g, call, env, name, s, o, s2) <==>
              exists o1 :: EvSeq(rt, cx, g, call.args, env, s, o1, s2)
                           && o == if o1.Err? && o1.sig.Leave? && o1.sig.target == call.id then Ok(o1.sig.v) else o1
  {
    hide Evals, Run;
    var c, c1 := Cfg(cx, TForm(g, call, env, name), s), Cfg(cx, TSeq(g, call.args, env), s);
    FirstRule(rt, c, c1, o, s2);
    forall o1, s1 | Evals(rt, c1, o1, s1)
      ensures Finishes(rt, After(rt, c, o1, s1), o, s2) <==>
                s2 == s1 && o == if o1.Err? && o1.sig.Leave? && o1.sig.target == call.id then Ok(o1.sig.v) else o1
    {
      NoList(rt, c1, o1, s1);
    }
  }

  lemma LeaveLaw(rt: Registry, cx: Ctx, g: nat, call: Node, env: nat, name: string, target: int, s: State, o: Outcome, s2: State)
    requires IsForm(rt, call, name, LeaveForm, 1)
    ensures LeavesTo(s.w, g, call.args[0], target) && |call.args| != 2 ==>
              (Form(rt, cx, g, call, env, name, s, o, s2) <==> o == Err(Leave(target, Null)) && s2 == s)
    ensures LeavesTo(s.w, g, call.args[0], target) && |call.args| == 2 ==>
              (Form(rt, cx, g, call, env, name, s, o, s2) <==>
               exists o1 :: Ev(rt, cx, g, call.args[1], env, s, o1, s2) && o == if o1.Ok? then Err(Leave(target, o1.v)) else o1)
    ensures (forall t :: !LeavesTo(s.w, g, call.args[0], t)) ==> Refused(rt, Cfg(cx, TForm(g, call, env, name), s))
  {
    hide Evals, Run, LeaveTarget, LeavesTo;
    var c := Cfg(cx, TForm(g, call, env, name), s);
    forall t ensures LeaveTarget(s.w, g, call.args[0]) == Some(t) <==> LeavesTo(s.w, g, call.args[0], t) {
      LeaveTargetExactly(s.w, g, call.args[0], t);
    }
    match LeaveTarget(s.w, g, call.args[0])
    case None => RefusedRule(rt, c);
    case Some(t) =>
      if |call.args| != 2 {
        ReturnRule(rt, c, Err(Leave(t, Null)), s, o, s2);
      } else {
        var c1 := Cfg(cx, TEval(g, call.args[1], env), s);
        FirstRule(rt, c, c1, o, s2);
        forall o1, s1 | Evals(rt, c1, o1, s1)
          ensures Finishes(rt, After(rt, c, o1, s1), o, s2) <==> s2 == s1 && o == if o1.Ok? then Err(Leave(t, o1.v)) else o1
        {
          NoList(rt, c1, o1, s1);
        }
      }
  }
}
