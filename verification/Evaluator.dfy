/**
 * The evaluator as it runs: tail tokens, the trampoline, the depth and step limits, the effect scope
 * and the shared allocation budget.  Every method is proved against `Semantics`, in which closure
 * calls simply recurse.
 */
module Evaluator {
  import opened Ir
  import opened Tables
  import opened Semantics
  import opened Runs
  import opened Depth
  import opened DepthRuns
  import opened Safety

  /** The allocation budget, one cell shared by an evaluator and all its sub-evaluators. */
  class AllocCell {
    var remaining: Option<nat>

    constructor (budget: Option<nat>)
      ensures remaining == budget
    {
      remaining := budget;
    }

    /** Exhaustion leaves the budget as it was. */
    method Charge(units: nat, w: World) returns (ok: bool, w2: World)
      modifies this
      ensures ok == ChargeAlloc(State(w, old(remaining)), units).Some?
      ensures ok ==> State(w2, remaining) == ChargeAlloc(State(w, old(remaining)), units).value
      ensures !ok ==> w2 == w && remaining == old(remaining)
    {
      match remaining
      case None => return true, w;
      case Some(b) =>
        if units > b { return false, w; }
        remaining := Some(b - units);
        return true, w.(log := w.log + [Event.Charge(units)]);
    }
  }

  class Evaluator {
    const rt: Registry
    const graph: nat
    const phase: Phase
    const maxDepth: nat
    const cell: AllocCell
    var effectScope: Option<set<string>>
    var evalDepth: nat
    var stepBudget: Option<nat>
    /** Token of the closure whose tail position is being evaluated right now; 0 when unarmed. */
    var tailArmed: nat
    /** Nodes entered so far, counting one refused for its depth. */
    ghost var entered: nat
    /** The token a special form may hand on to its own tail subexpression. */
    var handlerTail: nat

    constructor (rt: Registry, graph: nat, phase: Phase, maxDepth: nat, cell: AllocCell,
                 scope: Option<set<string>>, steps: Option<nat>)
      ensures this.rt == rt && this.graph == graph && this.phase == phase && this.maxDepth == maxDepth && this.cell == cell
      ensures effectScope == scope && stepBudget == steps
      ensures evalDepth == 0 && tailArmed == 0 && handlerTail == 0 && entered == 0
    {
      this.rt, this.graph, this.phase, this.maxDepth, this.cell := rt, graph, phase, maxDepth, cell;
      effectScope, stepBudget := scope, steps;
      evalDepth, tailArmed, handlerTail, entered := 0, 0, 0, 0;
    }

    ghost function St(w: World): State
      reads cell
    {
      State(w, cell.remaining)
    }

    ghost function Cx(): Ctx
      reads this
    {
      Ctx(phase, effectScope)
    }

    /** Where t starts when this evaluator starts it, in the given tail position. */
    ghost function At(t: Task, tail: Tail, w: World): Spot
      reads this, cell
    {
      Spot(Here(graph, maxDepth - evalDepth, maxDepth, tail), Cfg(Cx(), t, St(w)))
    }

    /** What every call leaves as it found it, on every outcome; steps are paid for node by node. */
    twostate predicate Restored()
      reads this
    {
      && evalDepth == old(evalDepth)
      && effectScope == old(effectScope)
      && handlerTail == old(handlerTail)
      && (tailArmed == 0 || tailArmed == old(tailArmed))
      && entered >= old(entered)
      && stepBudget.Some? == old(stepBudget).Some?
      && (stepBudget.Some? ==> stepBudget.value + entered == old(stepBudget).value + old(entered))
    }

    /**
     * The contract of evaluating p: state restored, result a correct one for the run from p, every
     * effect inside the scope and every allocation paid for, and a tail-call signal only for the
     * closure whose tail position p is in.
     */
    twostate predicate Correct(p: Spot, fuel: nat, o: Outcome, w2: World)
      reads this, cell
    {
      && Restored()
      && Behaves(rt, p, fuel, o, St(w2))
      && Safe(p.c.cx.scope, p.c.s, St(w2))
      && (o == Err(Fatal(StepsExhausted)) ==> old(stepBudget).Some?)
    }

    /** One step is paid first, then one level of depth is taken. */
    method EnterEval() returns (limit: Option<FatalKind>)
      modifies this`stepBudget, this`evalDepth, this`entered
      ensures limit == Some(StepsExhausted) <==> old(stepBudget) == Some(0)
      ensures limit == Some(DepthExceeded) <==> old(stepBudget) != Some(0) && old(evalDepth) >= maxDepth
      ensures limit != Some(AllocExhausted)
      ensures evalDepth == old(evalDepth) + if limit == None then 1 else 0
      ensures entered == old(entered) + if limit == Some(StepsExhausted) then 0 else 1
      ensures stepBudget.Some? == old(stepBudget).Some?
      ensures stepBudget.Some? ==> stepBudget.value + entered == old(stepBudget).value + old(entered)
    {
      if stepBudget.Some? {
        if stepBudget.value == 0 { return Some(StepsExhausted); }
        stepBudget := Some(stepBudget.value - 1);
      }
      entered := entered + 1;
      if evalDepth >= maxDepth { return Some(DepthExceeded); }
      evalDepth := evalDepth + 1;
      return None;
    }

    method ExitEval()
      modifies this`evalDepth
      ensures evalDepth == if old(evalDepth) > 0 then old(evalDepth) - 1 else 0
    {
      evalDepth := if evalDepth > 0 then evalDepth - 1 else 0;
    }

    method Eval(fuel: nat, n: NodeId, env: nat, w: World, ghost tail: Tail) returns (o: Outcome, w2: World)
      requires TokenOf(tail) == tailArmed
      modifies this, cell
      ensures Correct(old(At(TEval(graph, n, env), tail, w)), fuel, o, w2)
      decreases fuel, 9
    {
      hide DepthRun, Ends, Leads, NotDoneBy, Safe, PlanForm, AfterForm, PlanApply, PlanCallback, PlanMacro;
      ghost var p := At(TEval(graph, n, env), tail, w);
      SafeSelf(p.c.cx.scope, p.c.s);
      NothingLeft(rt, p, 0);
      if fuel == 0 { return Err(Suspended), w; }
      var limit := EnterEval();
      if limit == Some(DepthExceeded) { Returns(rt, p, TOO_DEEP, p.c.s); }
      if limit.Some? { return Err(Fatal(limit.value)), w; }
      match NodeAt(w, graph, n)
      case None =>
        ExitEval();
        o, w2 := Err(Error("unknown node id")), w;
        Returns(rt, p, o, p.c.s);
      case Some(Lit(_, value)) =>
        ExitEval();
        o, w2 := Ok(FromLiteral(value)), w;
        Returns(rt, p, o, p.c.s);
      case Some(Name(_, name)) =>
        ExitEval();
        o, w2 := EvalName(rt, w, name, env), w;
        Returns(rt, p, o, p.c.s);
      case Some(Call(id, callee, args)) =>
        ghost var q := Deeper(p, TCall(graph, Call(id, callee, args), env), p.c.s);
        GoesOn(rt, p, q);
        o, w2 := EvalCall(fuel - 1, Call(id, callee, args), env, w, tail);
        ExitEval();
        BehavesVia(rt, p, q, 1, fuel, o, St(w2));
    }

    /**
     * Evaluating a node from outside, without a step limit.  The outcome is that of the depth-limited
     * run, whenever fuel covers its levels.  An outcome that is no limit is plain recursion's.  Too deep
     * is reported only if the depth-limited run is too deep.
     */
    method EvalNode(fuel: nat, n: NodeId, env: nat, w: World) returns (o: Outcome, w2: World)
      requires tailArmed == 0 && stepBudget.None?
      modifies this, cell
      ensures Restored() && Safe(old(effectScope), old(St(w)), St(w2))
      ensures forall k: nat | k <= fuel && DepthRun(rt, k, old(At(TEval(graph, n, env), NoTail, w))).Done? ::
                DepthRun(rt, k, old(At(TEval(graph, n, env), NoTail, w))) == Done(o, St(w2))
      ensures o != Err(Suspended) ==> Ends(rt, old(At(TEval(graph, n, env), NoTail, w)), o, St(w2))
      ensures !Unsettled(o) ==> Evals(rt, old(At(TEval(graph, n, env), NoTail, w)).c, o, St(w2))
      ensures !CutShort(o) || o == Err(Suspended)
      decreases fuel, 10
    {
      ghost var p := At(TEval(graph, n, env), NoTail, w);
      o, w2 := Eval(fuel, n, env, w, NoTail);
      forall k: nat | k <= fuel && DepthRun(rt, k, p).Done? ensures DepthRun(rt, k, p) == Done(o, St(w2)) {
        BehavesExactly(rt, p, fuel, o, St(w2), k);
      }
      if !Unsettled(o) {
        hide DepthRun, Run;
        ghost var k: nat :| DepthRun(rt, k, p) == Done(o, St(w2));
        DepthAgrees(rt, k, p);
      }
    }

    method EvalCall(fuel: nat, call: Node, env: nat, w: World, ghost tail: Tail) returns (o: Outcome, w2: World)
      requires call.Call?
      requires TokenOf(tail) == tailArmed
      modifies this, cell
      ensures Correct(old(At(TCall(graph, call, env), tail, w)), fuel, o, w2)
      decreases fuel, 9
    {
      hide DepthRun, Ends, Leads, NotDoneBy, Safe, PlanForm, AfterForm, PlanApply, PlanCallback, PlanMacro;
      ghost var p := At(TCall(graph, call, env), tail, w);
      SafeSelf(p.c.cx.scope, p.c.s);
      NothingLeft(rt, p, 0);
      if fuel == 0 { return Err(Suspended), w; }
      // Only this call may act on the token: callee and arguments run unarmed.
      var token := tailArmed;
      tailArmed := 0;
      o, w2 := Err(Error("missing callee node")), w;
      match NodeAt(w, graph, call.callee) {
        case None =>
          Returns(rt, p, o, p.c.s);
          return;
        case Some(Name(_, name)) =>
          o := ResolveCallee(rt, w, graph, call.callee, name, env);
          if !o.Ok? {
            Returns(rt, p, o, p.c.s);
            return;
          }
          GoesOn(rt, p, Same(p, TApply(graph, call, env, o.v), p.c.s));
        case Some(_) =>
          o, w2 := Eval(fuel - 1, call.callee, env, w, NoTail);
          FirstBehaves(rt, p, Apart(p, TEval(graph, call.callee, env), p.c.s), fuel, o, St(w2));
          if !o.Ok? { return; }
      }
      ghost var q := Same(p, TApply(graph, call, env, o.v), St(w2));
      o, w2 := Apply(fuel - 1, call, env, o.v, token, w2, tail);
      BehavesVia(rt, p, q, 1, fuel, o, St(w2));
      SafeTrans(p.c.cx.scope, p.c.s, q.c.s, St(w2));
    }

    method Apply(fuel: nat, call: Node, env: nat, callee: Value, token: nat, w: World, ghost tail: Tail) returns (o: Outcome, w2: World)
      requires call.Call? && tailArmed == 0
      requires token == TokenOf(tail)
      modifies this, cell
      ensures Correct(old(At(TApply(graph, call, env, callee), tail, w)), fuel, o, w2)
      decreases fuel, 9
    {
      hide DepthRun, Ends, Leads, NotDoneBy, Safe, PlanForm, AfterForm, PlanCallback, PlanMacro;
      ghost var p := At(TApply(graph, call, env, callee), tail, w);
      SafeSelf(p.c.cx.scope, p.c.s);
      NothingLeft(rt, p, 0);
      if fuel == 0 { return Err(Suspended), w; }
      match callee
      case Builtin(name) => o, w2 := ApplyBuiltin(fuel, call, env, name, token, w, tail);
      case Closure(addr) =>
        o, w2 := EvalArgs(fuel - 1, call.args, env, w);
        FirstBehaves(rt, p, Apart(p, TArgs(graph, call.args, env, []), p.c.s), fuel, o, St(w2));
        if !o.OkAll? { return; }
        if token != 0 && token == addr + 1 {
          // A tail self-call: unwind to the trampoline instead of recursing.
          o := Err(TailCall(token, o.vs));
          return;
        }
        ghost var q := Apart(p, TInvoke(addr, o.vs), St(w2));
        o, w2 := InvokeClosure(fuel - 1, addr, o.vs, w2);
        BehavesVia(rt, p, q, 1, fuel, o, St(w2));
        SafeTrans(p.c.cx.scope, p.c.s, q.c.s, St(w2));
      case Macro(addr) =>
        ghost var q := Apart(p, TMacro(graph, call, env, addr), p.c.s);
        GoesOn(rt, p, q);
        o, w2 := InvokeMacro(fuel - 1, call, env, addr, w);
        BehavesVia(rt, p, q, 1, fuel, o, St(w2));
      case HostFunction(name) => o, w2 := ApplyHost(fuel, call, env, name, w, tail);
      case _ =>
        o, w2 := Err(Error("value is not callable")), w;
        Returns(rt, p, o, p.c.s);
    }

    method ApplyBuiltin(fuel: nat, call: Node, env: nat, name: string, token: nat, w: World, ghost tail: Tail) returns (o: Outcome, w2: World)
      requires call.Call? && tailArmed == 0 && fuel > 0
      requires token == TokenOf(tail)
      modifies this, cell
      ensures Correct(old(At(TApply(graph, call, env, Builtin(name)), tail, w)), fuel, o, w2)
      decreases fuel, 8
    {
      hide DepthRun, Ends, Leads, NotDoneBy, Safe, PlanForm, AfterForm, PlanCallback, PlanMacro;
      ghost var p := At(TApply(graph, call, env, Builtin(name)), tail, w);
      SafeSelf(p.c.cx.scope, p.c.s);
      if name !in rt.builtins {
        o, w2 := Err(Error("not callable")), w;
        Returns(rt, p, o, p.c.s);
        return;
      }
      var b := rt.builtins[name];
      var refused := Admission(phase, effectScope, b.phase, b.effects, |call.args|, b.minArity, b.maxArity);
      if refused.Some? {
        o, w2 := Err(Error(refused.value)), w;
        Returns(rt, p, o, p.c.s);
        return;
      }
      w2 := LogEffect(w, name, b.effects);
      SafeEffect(p.c.cx.scope, p.c.s, name, b.effects);
      ghost var q := Same(p, TForm(graph, call, env, name), St(w2));
      GoesOn(rt, p, q);
      // The transparent forms may re-arm the token for their own tail subexpressions.
      var previous := handlerTail;
      handlerTail := token;
      o, w2 := InvokeHandler(fuel - 1, call, env, name, w2, tail);
      handlerTail := previous;
      BehavesVia(rt, p, q, 1, fuel, o, St(w2));
      SafeTrans(p.c.cx.scope, p.c.s, q.c.s, St(w2));
    }

    method ApplyHost(fuel: nat, call: Node, env: nat, name: string, w: World, ghost tail: Tail) returns (o: Outcome, w2: World)
      requires call.Call? && tailArmed == 0 && fuel > 0
      modifies this, cell
      ensures Correct(old(At(TApply(graph, call, env, HostFunction(name)), tail, w)), fuel, o, w2)
      decreases fuel, 8
    {
      hide DepthRun, Ends, Leads, NotDoneBy, Safe, PlanForm, AfterForm, PlanCallback, PlanMacro;
      ghost var p := At(TApply(graph, call, env, HostFunction(name)), tail, w);
      SafeSelf(p.c.cx.scope, p.c.s);
      if name !in rt.hosts {
        o, w2 := Err(Error("not callable")), w;
        Returns(rt, p, o, p.c.s);
        return;
      }
      var h := rt.hosts[name];
      var refused := Admission(phase, effectScope, h.phase, h.effects, |call.args|, h.minArity, h.maxArity);
      if refused.Some? {
        o, w2 := Err(Error(refused.value)), w;
        Returns(rt, p, o, p.c.s);
        return;
      }
      o, w2 := EvalArgs(fuel - 1, call.args, env, w);
      FirstBehaves(rt, p, Apart(p, TArgs(graph, call.args, env, []), p.c.s), fuel, o, St(w2));
      if !o.OkAll? { return; }
      SafeEffect(p.c.cx.scope, St(w2), name, h.effects);
      ghost var s1 := St(w2);
      o := Answered(h.f(w2.log, o.vs));
      w2 := LogEffect(w2, name, h.effects);
      SafeTrans(p.c.cx.scope, p.c.s, s1, St(w2));
    }

    // ---- Sequences and arguments ------------------------------------------------------------

    method EvalArgs(fuel: nat, ids: seq<NodeId>, env: nat, w: World) returns (o: Outcome, w2: World)
      requires tailArmed == 0
      modifies this, cell
      ensures Correct(old(At(TArgs(graph, ids, env, []), NoTail, w)), fuel, o, w2)
      decreases fuel, 7
    {
      hide DepthRun, Ends, Leads, NotDoneBy, Safe, PlanForm, AfterForm, PlanApply, PlanCallback, PlanMacro;
      ghost var p := At(TArgs(graph, ids, env, []), NoTail, w);
      SafeSelf(p.c.cx.scope, p.c.s);
      LeadsSelf(rt, p);
      w2 := w;
      var i, acc := 0, [];
      assert ids[0..] == ids;
      while i < |ids|
        invariant 0 <= i <= |ids| && i <= fuel
        invariant Restored() && tailArmed == 0 && Safe(p.c.cx.scope, p.c.s, St(w2))
        invariant Leads(rt, p, Same(p, TArgs(graph, ids[i..], env, acc), St(w2)), i)
      {
        ghost var pi := Same(p, TArgs(graph, ids[i..], env, acc), St(w2));
        if i == fuel {
          o := Err(Suspended);
          NothingLeft(rt, pi, 0);
          BehavesVia(rt, p, pi, i, fuel, o, St(w2));
          return;
        }
        o, w2 := Eval(fuel - i - 1, ids[i], env, w2, NoTail);
        SafeTrans(p.c.cx.scope, p.c.s, pi.c.s, St(w2));
        FirstBehaves(rt, pi, Apart(pi, TEval(graph, ids[i], env), pi.c.s), fuel - i, o, St(w2));
        if !o.Ok? {
          BehavesVia(rt, p, pi, i, fuel, o, St(w2));
          return;
        }
        assert ids[i..][1..] == ids[i + 1..];
        ghost var next := Same(p, TArgs(graph, ids[i + 1..], env, acc + [o.v]), St(w2));
        LeadsTrans(rt, p, pi, next, i, 1);
        i, acc := i + 1, acc + [o.v];
      }
      ghost var pi := Same(p, TArgs(graph, [], env, acc), St(w2));
      assert ids[i..] == [];
      o := OkAll(acc);
      Returns(rt, pi, o, St(w2));
      BehavesVia(rt, p, pi, i, fuel, o, St(w2));
    }

    /** All but the last form run unarmed; the last one runs with the given token. */
    method EvalSequenceWithTailToken(fuel: nat, ids: seq<NodeId>, env: nat, token: nat, w: World, ghost tail: Tail) returns (o: Outcome, w2: World)
      requires tailArmed == 0
      requires token == TokenOf(tail)
      modifies this, cell
      ensures Correct(old(At(TSeq(graph, ids, env), tail, w)), fuel, o, w2)
      ensures tailArmed == 0
      decreases fuel, 7
    {
      hide DepthRun, Ends, Leads, NotDoneBy, Safe, PlanForm, AfterForm, PlanApply, PlanCallback, PlanMacro;
      ghost var p := At(TSeq(graph, ids, env), tail, w);
      SafeSelf(p.c.cx.scope, p.c.s);
      LeadsSelf(rt, p);
      w2 := w;
      if ids == [] {
        o := Ok(Null);
        Returns(rt, p, o, p.c.s);
        return;
      }
      var i := 0;
      assert ids[0..] == ids;
      while i < |ids| - 1
        invariant 0 <= i < |ids| && i <= fuel
        invariant Restored() && tailArmed == 0 && Safe(p.c.cx.scope, p.c.s, St(w2))
        invariant Leads(rt, p, Same(p, TSeq(graph, ids[i..], env), St(w2)), i)
      {
        ghost var pi := Same(p, TSeq(graph, ids[i..], env), St(w2));
        if i == fuel {
          o := Err(Suspended);
          NothingLeft(rt, pi, 0);
          BehavesVia(rt, p, pi, i, fuel, o, St(w2));
          return;
        }
        o, w2 := Eval(fuel - i - 1, ids[i], env, w2, NoTail);
        SafeTrans(p.c.cx.scope, p.c.s, pi.c.s, St(w2));
        FirstBehaves(rt, pi, Apart(pi, TEval(graph, ids[i], env), pi.c.s), fuel - i, o, St(w2));
        if !o.Ok? {
          BehavesVia(rt, p, pi, i, fuel, o, St(w2));
          return;
        }
        assert ids[i..][1..] == ids[i + 1..];
        LeadsTrans(rt, p, pi, Same(p, TSeq(graph, ids[i + 1..], env), St(w2)), i, 1);
        i := i + 1;
      }
      ghost var pi := Same(p, TSeq(graph, ids[i..], env), St(w2));
      if i == fuel {
        o := Err(Suspended);
        NothingLeft(rt, pi, 0);
        BehavesVia(rt, p, pi, i, fuel, o, St(w2));
        return;
      }
      ghost var last := Same(p, TEval(graph, ids[i], env), St(w2));
      GoesOn(rt, pi, last);
      o, w2 := EvalWithTailToken(fuel - i - 1, ids[i], env, token, w2, tail);
      LeadsTrans(rt, p, pi, last, i, 1);
      BehavesVia(rt, p, last, i + 1, fuel, o, St(w2));
      SafeTrans(p.c.cx.scope, p.c.s, last.c.s, St(w2));
    }

    method EvalSequence(fuel: nat, ids: seq<NodeId>, env: nat, w: World) returns (o: Outcome, w2: World)
      requires tailArmed == 0
      modifies this, cell
      ensures Correct(old(At(TSeq(graph, ids, env), NoTail, w)), fuel, o, w2)
      decreases fuel, 8
    {
      o, w2 := EvalSequenceWithTailToken(fuel, ids, env, 0, w, NoTail);
    }

    method EvalWithTailToken(fuel: nat, n: NodeId, env: nat, token: nat, w: World, ghost tail: Tail) returns (o: Outcome, w2: World)
      requires tailArmed == 0
      requires token == TokenOf(tail)
      modifies this, cell
      ensures Correct(old(At(TEval(graph, n, env), tail, w)), fuel, o, w2)
      ensures tailArmed == 0
      decreases fuel, 10
    {
      tailArmed := token;
      o, w2 := Eval(fuel, n, env, w, tail);
      tailArmed := 0;
    }

    /** For the transparent forms: their tail subexpression inherits the tail status of the form. */
    method EvalInTailPosition(fuel: nat, n: NodeId, env: nat, w: World, ghost tail: Tail) returns (o: Outcome, w2: World)
      requires tailArmed == 0
      requires TokenOf(tail) == handlerTail
      modifies this, cell
      ensures Correct(old(At(TEval(graph, n, env), tail, w)), fuel, o, w2)
      ensures tailArmed == 0
      decreases fuel, 11
    {
      o, w2 := EvalWithTailToken(fuel, n, env, handlerTail, w, tail);
    }

    method EvalSequenceInTailPosition(fuel: nat, ids: seq<NodeId>, env: nat, w: World, ghost tail: Tail) returns (o: Outcome, w2: World)
      requires tailArmed == 0
      requires TokenOf(tail) == handlerTail
      modifies this, cell
      ensures Correct(old(At(TSeq(graph, ids, env), tail, w)), fuel, o, w2)
      ensures tailArmed == 0
      decreases fuel, 8
    {
      o, w2 := EvalSequenceWithTailToken(fuel, ids, env, handlerTail, w, tail);
    }

    // ---- Closures, macros, callbacks --------------------------------------------------------

    /**
     * The trampoline.  A tail self-call inside the body comes back as a signal with the new arguments;
     * rebinding and looping runs every round at the depth of the first, as the depth-limited run does.
     */
    method InvokeClosure(fuel: nat, addr: nat, args: seq<Value>, w: World) returns (o: Outcome, w2: World)
      requires tailArmed == 0
      modifies this, cell
      ensures Correct(old(At(TInvoke(addr, args), NoTail, w)), fuel, o, w2)
      ensures tailArmed == 0
      decreases fuel, 9
    {
      hide DepthRun, Ends, Leads, NotDoneBy, Safe, PlanForm, AfterForm, PlanApply, PlanCallback, PlanMacro;
      ghost var p := At(TInvoke(addr, args), NoTail, w);
      SafeSelf(p.c.cx.scope, p.c.s);
      LeadsSelf(rt, p);
      w2 := w;
      if addr >= |w.codes| {
        o := Err(Error("not callable"));
        Returns(rt, p, o, p.c.s);
        return;
      }
      var code := w.codes[addr];
      var args, f := args, fuel;
      while f > 0
        invariant 0 <= f <= fuel
        invariant Restored() && tailArmed == 0 && Safe(p.c.cx.scope, p.c.s, St(w2))
        invariant Leads(rt, p, Same(p, TInvoke(addr, args), St(w2)), fuel - f)
        decreases f
      {
        ghost var pi := Same(p, TInvoke(addr, args), St(w2));
        SafeCodes(p.c.cx.scope, p.c.s, pi.c.s, addr);
        o, w2 := InvokeOnce(f, addr, code, args, w2);
        SafeTrans(p.c.cx.scope, p.c.s, pi.c.s, St(w2));
        if o.Err? && o.sig.TailCall? && o.sig.token == addr + 1 {
          LeadsTrans(rt, p, pi, Same(p, TInvoke(addr, o.sig.args), St(w2)), fuel - f, 1);
          args, f := o.sig.args, f - 1;
        } else {
          BehavesVia(rt, p, pi, fuel - f, fuel, o, St(w2));
          return;
        }
      }
      o := Err(Suspended);
      NothingLeft(rt, Same(p, TInvoke(addr, args), St(w2)), 0);
      BehavesVia(rt, p, Same(p, TInvoke(addr, args), St(w2)), fuel, fuel, o, St(w2));
    }

    /**
     * One round of the trampoline: bind the arguments in a fresh frame and run the body, its last form
     * armed.  A signal that comes back is this closure's, and stands for the next round at the same depth.
     */
    method InvokeOnce(fuel: nat, addr: nat, code: Code, args: seq<Value>, w: World) returns (o: Outcome, w2: World)
      requires tailArmed == 0 && fuel > 0 && addr < |w.codes| && w.codes[addr] == code
      modifies this, cell
      ensures !Signals(o) ==> Correct(old(At(TInvoke(addr, args), NoTail, w)), fuel, o, w2)
      ensures Signals(o) ==> Restored() && Safe(old(effectScope), old(St(w)), St(w2)) && o.sig.token == addr + 1
      ensures Signals(o) ==> Leads(rt, old(At(TInvoke(addr, args), NoTail, w)), At(TInvoke(addr, o.sig.args), NoTail, w2), 1)
      ensures tailArmed == 0
      decreases fuel, 8
    {
      hide DepthRun, Ends, Leads, NotDoneBy, Safe, PlanForm, AfterForm, PlanApply, PlanCallback, PlanMacro;
      ghost var p := At(TInvoke(addr, args), NoTail, w);
      SafeSelf(p.c.cx.scope, p.c.s);
      var bound := BindArgs(code.params, args);
      if bound.BindError? {
        o, w2 := Err(Error(bound.msg)), w;
        Returns(rt, p, o, p.c.s);
        return;
      }
      w2 := PushFrame(w, bound.vars, code.env);
      ghost var tail := Tail(addr, graph, p.h.room);
      ghost var q := Spot(Into(p.h.(tail := tail), code.graph), Cfg(p.c.cx, TSeq(code.graph, code.body, |w.frames|), St(w2)));
      GoesOn(rt, p, q);
      SafeQuiet(p.c.cx.scope, p.c.s, q.c.s);
      o, w2 := EvalCapturedBody(fuel - 1, code.graph, code.body, |w.frames|, addr + 1, w2, tail);
      SafeTrans(p.c.cx.scope, p.c.s, q.c.s, St(w2));
      if Signals(o) {
        ghost var next := Same(p, TInvoke(addr, o.sig.args), St(w2));
        LeadsTrans(rt, p, q, next, 1, 1);
        LeadsLess(rt, p, next, 2, 1);
      } else {
        BehavesVia(rt, p, q, 1, fuel, o, St(w2));
      }
    }

    /** A body that lives in another graph runs in a sub-evaluator, which shares the allocation cell. */
    method EvalCapturedBody(fuel: nat, g: nat, ids: seq<NodeId>, env: nat, token: nat, w: World, ghost tail: Tail)
      returns (o: Outcome, w2: World)
      requires tailArmed == 0 && token == TokenOf(tail)
      modifies this, cell
      ensures Correct(old(BodyAt(g, ids, env, tail, w)), fuel, o, w2)
      ensures tailArmed == 0
      decreases fuel, 8
    {
      if g == graph {
        o, w2 := EvalSequenceWithTailToken(fuel, ids, env, token, w, tail);
        return;
      }
      hide DepthRun, Ends, Leads, NotDoneBy, Safe;
      var sub := new Evaluator(rt, g, phase, maxDepth, cell, effectScope, stepBudget);
      o, w2 := sub.EvalSequenceWithTailToken(fuel, ids, env, token, w, tail);
    }

    /** Where a body of graph g starts: over, if g is another graph. */
    ghost function BodyAt(g: nat, ids: seq<NodeId>, env: nat, tail: Tail, w: World): Spot
      reads this, cell
    {
      var p := At(TSeq(g, ids, env), tail, w);
      Spot(Into(p.h, g), p.c)
    }

    method InvokeMacro(fuel: nat, call: Node, env: nat, addr: nat, w: World) returns (o: Outcome, w2: World)
      requires call.Call? && tailArmed == 0
      modifies this, cell
      ensures Correct(old(At(TMacro(graph, call, env, addr), NoTail, w)), fuel, o, w2)
      decreases fuel, 9
    {
      hide DepthRun, Ends, Leads, NotDoneBy, Safe, PlanForm, AfterForm, PlanApply, PlanCallback, QuoteAll, BindArgs;
      ghost var p := At(TMacro(graph, call, env, addr), NoTail, w);
      SafeSelf(p.c.cx.scope, p.c.s);
      o, w2 := Err(Suspended), w;
      NothingLeft(rt, p, 0);
      if fuel == 0 { return; }
      if graph >= |w.graphs| || addr >= |w.codes| {
        o := Err(Error("not callable"));
        Returns(rt, p, o, p.c.s);
        return;
      }
      var code := w.codes[addr];
      var quoted := QuoteAll(w.graphs[graph], call.args);
      if quoted.None? {
        o := Err(Error("cannot quote argument"));
        Returns(rt, p, o, p.c.s);
        return;
      }
      var bound := BindArgs(code.params, quoted.value);
      if bound.BindError? {
        o := Err(Error(bound.msg));
        Returns(rt, p, o, p.c.s);
        return;
      }
      var childEnv := |w.frames|;
      w2 := PushFrame(w, bound.vars, code.env);
      ghost var p1 := BodyAt(code.graph, code.body, childEnv, NoTail, w2);
      SafeQuiet(p.c.cx.scope, p.c.s, p1.c.s);
      o, w2 := EvalCapturedBody(fuel - 1, code.graph, code.body, childEnv, 0, w2, NoTail);
      SafeTrans(p.c.cx.scope, p.c.s, p1.c.s, St(w2));
      FirstBehaves(rt, p, p1, fuel, o, St(w2));
      if !o.Ok? { return; }
      if !o.v.Syntax? {
        o := Err(Error("macro expansion must return syntax"));
        return;
      }
      ghost var q := Same(p, TExpand(o.v.spec, env), St(w2));
      o, w2 := EvalExpansion(fuel - 1, o.v.spec, env, w2);
      BehavesVia(rt, p, q, 1, fuel, o, St(w2));
      SafeTrans(p.c.cx.scope, p.c.s, q.c.s, St(w2));
    }

    /** An expansion runs in a sub-evaluator over a fresh graph; the step budget is not carried over. */
    method EvalExpansion(fuel: nat, spec: ExprSpec, env: nat, w: World) returns (o: Outcome, w2: World)
      requires tailArmed == 0
      modifies this, cell
      ensures Correct(old(At(TExpand(spec, env), NoTail, w)), fuel, o, w2)
      decreases fuel, 9
    {
      hide DepthRun, Ends, Leads, NotDoneBy, Safe, PlanForm, AfterForm, PlanApply, PlanCallback, PlanMacro;
      ghost var p := At(TExpand(spec, env), NoTail, w);
      SafeSelf(p.c.cx.scope, p.c.s);
      o, w2 := Err(Suspended), w;
      NothingLeft(rt, p, 0);
      if fuel == 0 { return; }
      var inserted := ExpansionGraph(spec);
      if inserted.None? {
        o := Err(Error("cannot insert expansion"));
        Returns(rt, p, o, p.c.s);
        return;
      }
      w2 := w.(graphs := w.graphs + [inserted.value.0]);
      ghost var q := Spot(Here(|w.graphs|, maxDepth, maxDepth, NoTail), Cfg(p.c.cx, TEval(|w.graphs|, inserted.value.1, env), St(w2)));
      GoesOn(rt, p, q);
      SafeQuiet(p.c.cx.scope, p.c.s, q.c.s);
      var sub := new Evaluator(rt, |w.graphs|, phase, maxDepth, cell, effectScope, None);
      o, w2 := sub.Eval(fuel - 1, inserted.value.1, env, w2, NoTail);
      BehavesVia(rt, p, q, 1, fuel, o, St(w2));
      SafeTrans(p.c.cx.scope, p.c.s, q.c.s, St(w2));
    }

    method InvokeCallback(fuel: nat, cb: Value, args: seq<Value>, w: World) returns (o: Outcome, w2: World)
      requires tailArmed == 0
      modifies this, cell
      ensures Correct(old(At(TCallback(cb, args), NoTail, w)), fuel, o, w2)
      ensures tailArmed == 0
      decreases fuel, 9
    {
      hide DepthRun, Ends, Leads, NotDoneBy, Safe, PlanForm, AfterForm, PlanApply, PlanMacro;
      ghost var p := At(TCallback(cb, args), NoTail, w);
      SafeSelf(p.c.cx.scope, p.c.s);
      o, w2 := Err(Suspended), w;
      NothingLeft(rt, p, 0);
      if fuel == 0 { return; }
      if cb.Closure? {
        ghost var q := Same(p, TInvoke(cb.addr, args), p.c.s);
        GoesOn(rt, p, q);
        o, w2 := InvokeClosure(fuel - 1, cb.addr, args, w);
        BehavesVia(rt, p, q, 1, fuel, o, St(w2));
      } else if cb.HostFunction? && cb.name in rt.hosts {
        var h := rt.hosts[cb.name];
        var refused := Admission(phase, effectScope, h.phase, h.effects, |args|, h.minArity, h.maxArity);
        if refused.Some? {
          o := Err(Error(refused.value));
        } else {
          o, w2 := Answered(h.f(w.log, args)), LogEffect(w, cb.name, h.effects);
          SafeEffect(p.c.cx.scope, p.c.s, cb.name, h.effects);
        }
        Returns(rt, p, o, St(w2));
      } else if cb.Builtin? && cb.name in rt.builtins {
        var b := rt.builtins[cb.name];
        var refused := Admission(phase, effectScope, b.phase, b.effects, 0, 0, None);
        if refused.Some? {
          o := Err(Error(refused.value));
        } else if !b.eagerArgs {
          o := Err(Error("cannot be invoked as a callback"));
        } else if !ArityOk(|args|, b.minArity, b.maxArity) {
          o := Err(Error("wrong number of arguments"));
        } else if !b.handler.Eager? {
          o := Err(Error("does not support callback dispatch"));
        } else {
          o, w2 := Answered(b.handler.f(args)), LogEffect(w, cb.name, b.effects);
          SafeEffect(p.c.cx.scope, p.c.s, cb.name, b.effects);
        }
        Returns(rt, p, o, St(w2));
      } else {
        o := Err(Error(if cb.HostFunction? || cb.Builtin? then "not callable" else "not a callable callback"));
        Returns(rt, p, o, p.c.s);
      }
    }

    // ---- Builtin handlers -------------------------------------------------------------------

    /** The configuration of a special form that has been let through. */
    ghost function FormAt(call: Node, env: nat, name: string, tail: Tail, w: World): Spot
      reads this, cell
    {
      At(TForm(graph, call, env, name), tail, w)
    }

    ghost predicate FormReady(call: Node, name: string, h: Handler)
      reads this
    {
      call.Call? && tailArmed == 0 && name in rt.builtins && rt.builtins[name].handler == h && |call.args| >= MinArgs(h)
    }

    method InvokeHandler(fuel: nat, call: Node, env: nat, name: string, w: World, ghost tail: Tail) returns (o: Outcome, w2: World)
      requires call.Call? && tailArmed == 0 && name in rt.builtins
      requires TokenOf(tail) == handlerTail
      modifies this, cell
      ensures Correct(old(FormAt(call, env, name, tail, w)), fuel, o, w2)
      decreases fuel, 9
    {
      hide DepthRun, Ends, Leads, NotDoneBy, Safe, ChargeAlloc, FloatEq, Lookup, PlanApply, PlanCallback, PlanMacro, CatchOf, LeaveTarget, MatchChoice, BindShapeOf, EffectTags, ParamNames;
      ghost var p := FormAt(call, env, name, tail, w);
      SafeSelf(p.c.cx.scope, p.c.s);
      o, w2 := Err(Suspended), w;
      NothingLeft(rt, p, 0);
      if fuel == 0 { return; }
      var h := rt.builtins[name].handler;
      if |call.args| < MinArgs(h) {
        o := Err(Error("wrong number of arguments"));
        Returns(rt, p, o, p.c.s);
        return;
      }
      match h
      case If => o, w2 := FormIf(fuel, call, env, name, w, tail);
      case Do =>
        ghost var q := Same(p, TSeq(graph, call.args, env), p.c.s);
        GoesOn(rt, p, q);
        o, w2 := EvalSequenceInTailPosition(fuel - 1, call.args, env, w, tail);
        BehavesVia(rt, p, q, 1, fuel, o, St(w2));
      case Bind => o, w2 := FormBind(fuel, call, env, name, w, tail);
      case Match => o, w2 := FormMatch(fuel, call, env, name, w, tail);
      case Lambda => o, w2 := FormCode(fuel, call, env, name, w, tail);
      case MacroForm => o, w2 := FormCode(fuel, call, env, name, w, tail);
      case Try => o, w2 := FormTry(fuel, call, env, name, w, tail);
      case Throw => o, w2 := FormThrow(fuel, call, env, name, w, tail);
      case Block => o, w2 := FormBlock(fuel, call, env, name, w, tail);
      case LeaveForm => o, w2 := FormLeave(fuel, call, env, name, w, tail);
      case EffectScope => o, w2 := FormEffectScope(fuel, call, env, name, w, tail);
      case ListOf => o, w2 := FormListOf(fuel, call, env, name, w, tail);
      case SequenceMap => o, w2 := FormSequenceMap(fuel, call, env, name, w, tail);
      case Eager(f) =>
        o, w2 := EvalArgs(fuel - 1, call.args, env, w);
        FirstBehaves(rt, p, Apart(p, TArgs(graph, call.args, env, []), p.c.s), fuel, o, St(w2));
        if o.OkAll? { o := Answered(f(o.vs)); }
    }

    /** A closure or macro is a new piece of code, known by its address. */
    method FormCode(fuel: nat, call: Node, env: nat, name: string, w: World, ghost tail: Tail) returns (o: Outcome, w2: World)
      requires (FormReady(call, name, Lambda) || FormReady(call, name, MacroForm)) && fuel > 0
      modifies this, cell
      ensures Correct(old(FormAt(call, env, name, tail, w)), fuel, o, w2)
      decreases fuel, 8
    {
      hide DepthRun, Ends, Leads, NotDoneBy, Safe, PlanApply, PlanCallback, PlanMacro, BindShapeOf, CatchOf, LeaveTarget, EffectTags, MatchChoice, ParamNames;
      ghost var p := FormAt(call, env, name, tail, w);
      w2 := w;
      var ps := ParamNames(w, graph, call.args[0]);
      if ps.None? {
        o := Err(Error("malformed parameters"));
      } else {
        w2 := w.(codes := w.codes + [Code(ps.value, call.args[1..], env, graph)]);
        o := Ok(if rt.builtins[name].handler.Lambda? then Closure(|w.codes|) else Macro(|w.codes|));
      }
      SafeQuiet(p.c.cx.scope, p.c.s, St(w2));
      Returns(rt, p, o, St(w2));
    }

    method FormThrow(fuel: nat, call: Node, env: nat, name: string, w: World, ghost tail: Tail) returns (o: Outcome, w2: World)
      requires FormReady(call, name, Throw) && fuel > 0
      modifies this, cell
      ensures Correct(old(FormAt(call, env, name, tail, w)), fuel, o, w2)
      decreases fuel, 8
    {
      hide DepthRun, Ends, Leads, NotDoneBy, Safe, PlanApply, PlanCallback, PlanMacro, BindShapeOf, CatchOf, LeaveTarget, EffectTags, MatchChoice, ParamNames;
      ghost var p := FormAt(call, env, name, tail, w);
      o, w2 := Eval(fuel - 1, call.args[0], env, w, NoTail);
      FirstBehaves(rt, p, Apart(p, TEval(graph, call.args[0], env), p.c.s), fuel, o, St(w2));
      if o.Ok? { o := Err(Exception(o.v)); }
    }

    method FormBlock(fuel: nat, call: Node, env: nat, name: string, w: World, ghost tail: Tail) returns (o: Outcome, w2: World)
      requires FormReady(call, name, Block) && fuel > 0
      modifies this, cell
      ensures Correct(old(FormAt(call, env, name, tail, w)), fuel, o, w2)
      decreases fuel, 8
    {
      hide DepthRun, Ends, Leads, NotDoneBy, Safe, PlanApply, PlanCallback, PlanMacro, BindShapeOf, CatchOf, LeaveTarget, EffectTags, MatchChoice, ParamNames;
      ghost var p := FormAt(call, env, name, tail, w);
      o, w2 := EvalSequence(fuel - 1, call.args, env, w);
      FirstBehaves(rt, p, Apart(p, TSeq(graph, call.args, env), p.c.s), fuel, o, St(w2));
      if o.Err? && o.sig.Leave? && o.sig.target == call.id { o := Ok(o.sig.v); }
    }

    method FormIf(fuel: nat, call: Node, env: nat, name: string, w: World, ghost tail: Tail) returns (o: Outcome, w2: World)
      requires FormReady(call, name, If) && fuel > 0
      requires TokenOf(tail) == handlerTail
      modifies this, cell
      ensures Correct(old(FormAt(call, env, name, tail, w)), fuel, o, w2)
      decreases fuel, 8
    {
      hide DepthRun, Ends, Leads, NotDoneBy, Safe, ChargeAlloc, FloatEq, Lookup, PlanApply, PlanCallback, PlanMacro, BindShapeOf, CatchOf, LeaveTarget, EffectTags, MatchChoice, ParamNames;
      ghost var p := FormAt(call, env, name, tail, w);
      o, w2 := Eval(fuel - 1, call.args[0], env, w, NoTail);
      FirstBehaves(rt, p, Apart(p, TEval(graph, call.args[0], env), p.c.s), fuel, o, St(w2));
      if !o.Ok? { return; }
      if !Truthy(o.v) && |call.args| != 3 {
        o := Ok(Null);
        return;
      }
      var branch := if Truthy(o.v) then call.args[1] else call.args[2];
      ghost var q := Same(p, TEval(graph, branch, env), St(w2));
      o, w2 := EvalInTailPosition(fuel - 1, branch, env, w2, tail);
      BehavesVia(rt, p, q, 1, fuel, o, St(w2));
      SafeTrans(p.c.cx.scope, p.c.s, q.c.s, St(w2));
    }

    method FormBind(fuel: nat, call: Node, env: nat, name: string, w: World, ghost tail: Tail) returns (o: Outcome, w2: World)
      requires FormReady(call, name, Bind) && fuel > 0
      requires TokenOf(tail) == handlerTail
      modifies this, cell
      ensures Correct(old(FormAt(call, env, name, tail, w)), fuel, o, w2)
      decreases fuel, 8
    {
      hide DepthRun, Ends, Leads, NotDoneBy, Safe, PlanApply, PlanCallback, PlanMacro, CatchOf, LeaveTarget, EffectTags, MatchChoice, ParamNames;
      ghost var p := FormAt(call, env, name, tail, w);
      SafeSelf(p.c.cx.scope, p.c.s);
      match BindShapeOf(w, graph, call.args)
      case BindBad =>
        o, w2 := Err(Error("malformed bind")), w;
        Returns(rt, p, o, p.c.s);
      case BindNothing =>
        ghost var q := Same(p, TSeq(graph, call.args[1..], env), p.c.s);
        GoesOn(rt, p, q);
        o, w2 := EvalSequenceInTailPosition(fuel - 1, call.args[1..], env, w, tail);
        BehavesVia(rt, p, q, 1, fuel, o, St(w2));
      case BindInPlace(bound) =>
        o, w2 := BindHere(fuel, call, env, name, bound, w, tail);
      case BindScope(pairs, body) =>
        w2 := PushFrame(w, NullVars(pairs), env);
        ghost var q := Same(p, TLetrec(graph, pairs, body, |w.frames|), St(w2));
        GoesOn(rt, p, q);
        SafeQuiet(p.c.cx.scope, p.c.s, q.c.s);
        o, w2 := EvalBindPairs(fuel - 1, pairs, body, |w.frames|, w2, tail);
        BehavesVia(rt, p, q, 1, fuel, o, St(w2));
        SafeTrans(p.c.cx.scope, p.c.s, q.c.s, St(w2));
    }

    method BindHere(fuel: nat, call: Node, env: nat, name: string, bound: string, w: World, ghost tail: Tail) returns (o: Outcome, w2: World)
      requires FormReady(call, name, Bind) && fuel > 0 && BindShapeOf(w, graph, call.args) == BindInPlace(bound)
      requires TokenOf(tail) == handlerTail
      modifies this, cell
      ensures Correct(old(FormAt(call, env, name, tail, w)), fuel, o, w2)
      decreases fuel, 7
    {
      hide DepthRun, Ends, Leads, NotDoneBy, Safe, ChargeAlloc, FloatEq, Lookup, PlanApply, PlanCallback, PlanMacro, CatchOf, LeaveTarget, EffectTags, MatchChoice, ParamNames, BindShapeOf;
      ghost var p := FormAt(call, env, name, tail, w);
      o, w2 := Eval(fuel - 1, call.args[1], env, w, NoTail);
      FirstBehaves(rt, p, Apart(p, TEval(graph, call.args[1], env), p.c.s), fuel, o, St(w2));
      if !o.Ok? { return; }
      ghost var s1 := St(w2);
      w2 := Define(w2, env, bound, o.v);
      SafeQuiet(p.c.cx.scope, s1, St(w2));
      SafeTrans(p.c.cx.scope, p.c.s, s1, St(w2));
      if |call.args| == 2 {
        o := Ok(Null);
        return;
      }
      ghost var q := Same(p, TSeq(graph, call.args[2..], env), St(w2));
      o, w2 := EvalSequenceInTailPosition(fuel - 1, call.args[2..], env, w2, tail);
      BehavesVia(rt, p, q, 1, fuel, o, St(w2));
      SafeTrans(p.c.cx.scope, p.c.s, q.c.s, St(w2));
    }

    method FormMatch(fuel: nat, call: Node, env: nat, name: string, w: World, ghost tail: Tail) returns (o: Outcome, w2: World)
      requires FormReady(call, name, Match) && fuel > 0
      requires TokenOf(tail) == handlerTail
      modifies this, cell
      ensures Correct(old(FormAt(call, env, name, tail, w)), fuel, o, w2)
      decreases fuel, 8
    {
      hide DepthRun, Ends, Leads, NotDoneBy, Safe, SpotPlan, SpotAfter, MatchChoice;
      ghost var p := FormAt(call, env, name, tail, w);
      MatchPlan(rt, p, call, env, name);
      o, w2 := Eval(fuel - 1, call.args[0], env, w, NoTail);
      MatchAfter(rt, p, call, env, name, o, St(w2));
      FirstBehaves(rt, p, Apart(p, TEval(graph, call.args[0], env), p.c.s), fuel, o, St(w2));
      if !o.Ok? { return; }
      var choice := PickClause(call.args[1..], o.v, w2);
      if choice.BadClause? {
        o := Err(Error(choice.msg));
        return;
      }
      if choice.NoClause? {
        o := Ok(Null);
        return;
      }
      ghost var s1 := St(w2);
      var inner := |w2.frames|;
      w2 := PushFrame(w2, choice.vars, env);
      SafeQuiet(p.c.cx.scope, s1, St(w2));
      SafeTrans(p.c.cx.scope, p.c.s, s1, St(w2));
      ghost var q := Same(p, TSeq(graph, choice.body, inner), St(w2));
      o, w2 := EvalSequenceInTailPosition(fuel - 1, choice.body, inner, w2, tail);
      BehavesVia(rt, p, q, 1, fuel, o, St(w2));
      SafeTrans(p.c.cx.scope, p.c.s, q.c.s, St(w2));
    }

    /** Tries the clauses in order. */
    method PickClause(ids: seq<NodeId>, v: Value, w: World) returns (r: Chosen)
      ensures r == MatchChoice(w, graph, ids, v)
    {
      hide MatchClauses, MatchPattern;
      var clauses := MatchClauses(w, graph, ids);
      if clauses.None? { return BadClause("malformed match clause"); }
      var rest := clauses.value;
      for i := 0 to |rest|
        invariant ChooseClause(w, graph, rest[i..], v) == ChooseClause(w, graph, rest, v)
      {
        assert rest[i..][1..] == rest[i + 1..];
        match MatchPattern(w, graph, rest[i].0, v) {
          case NoMatch =>
          case BadPattern(msg) => return BadClause(msg);
          case MatchedWith(vars) => return Clause(vars, rest[i].1);
        }
      }
      return NoClause;
    }

    method EvalBindPairs(fuel: nat, pairs: seq<(string, NodeId)>, body: seq<NodeId>, env: nat, w: World, ghost tail: Tail) returns (o: Outcome, w2: World)
      requires tailArmed == 0
      requires TokenOf(tail) == handlerTail
      modifies this, cell
      ensures Correct(old(At(TLetrec(graph, pairs, body, env), tail, w)), fuel, o, w2)
      decreases fuel, 9
    {
      hide DepthRun, Ends, Leads, NotDoneBy, Safe, PlanForm, AfterForm, PlanApply, PlanCallback, PlanMacro;
      ghost var p := At(TLetrec(graph, pairs, body, env), tail, w);
      SafeSelf(p.c.cx.scope, p.c.s);
      LeadsSelf(rt, p);
      w2 := w;
      var i := 0;
      assert pairs[0..] == pairs;
      while i < |pairs|
        invariant 0 <= i <= |pairs| && i <= fuel
        invariant Restored() && tailArmed == 0 && Safe(p.c.cx.scope, p.c.s, St(w2))
        invariant Leads(rt, p, Same(p, TLetrec(graph, pairs[i..], body, env), St(w2)), i)
      {
        ghost var pi := Same(p, TLetrec(graph, pairs[i..], body, env), St(w2));
        if i == fuel {
          o := Err(Suspended);
          NothingLeft(rt, pi, 0);
          BehavesVia(rt, p, pi, i, fuel, o, St(w2));
          return;
        }
        o, w2 := Eval(fuel - i - 1, pairs[i].1, env, w2, NoTail);
        ghost var s1 := St(w2);
        SafeTrans(p.c.cx.scope, p.c.s, pi.c.s, s1);
        FirstBehaves(rt, pi, Apart(pi, TEval(graph, pairs[i].1, env), pi.c.s), fuel - i, o, s1);
        if !o.Ok? {
          BehavesVia(rt, p, pi, i, fuel, o, s1);
          return;
        }
        w2 := Define(w2, env, pairs[i].0, o.v);
        SafeQuiet(p.c.cx.scope, s1, St(w2));
        SafeTrans(p.c.cx.scope, p.c.s, s1, St(w2));
        assert pairs[i..][1..] == pairs[i + 1..];
        LeadsTrans(rt, p, pi, Same(p, TLetrec(graph, pairs[i + 1..], body, env), St(w2)), i, 1);
        i := i + 1;
      }
      assert pairs[i..] == [];
      ghost var pi := Same(p, TLetrec(graph, [], body, env), St(w2));
      if i == fuel {
        o := Err(Suspended);
        NothingLeft(rt, pi, 0);
        BehavesVia(rt, p, pi, i, fuel, o, St(w2));
        return;
      }
      ghost var q := Same(p, TSeq(graph, body, env), St(w2));
      GoesOn(rt, pi, q);
      LeadsTrans(rt, p, pi, q, i, 1);
      o, w2 := EvalSequenceInTailPosition(fuel - i - 1, body, env, w2, tail);
      BehavesVia(rt, p, q, i + 1, fuel, o, St(w2));
      SafeTrans(p.c.cx.scope, p.c.s, q.c.s, St(w2));
    }

    method FormTry(fuel: nat, call: Node, env: nat, name: string, w: World, ghost tail: Tail) returns (o: Outcome, w2: World)
      requires FormReady(call, name, Try) && fuel > 0
      modifies this, cell
      ensures Correct(old(FormAt(call, env, name, tail, w)), fuel, o, w2)
      decreases fuel, 8
    {
      hide DepthRun, Ends, Leads, NotDoneBy, Safe, ChargeAlloc, Lookup, PlanApply, PlanCallback, PlanMacro, LeaveTarget, EffectTags, MatchChoice, ParamNames, BindShapeOf, CatchOf;
      ghost var p := FormAt(call, env, name, tail, w);
      SafeSelf(p.c.cx.scope, p.c.s);
      var clause := CatchOf(w, graph, call.args);
      if clause.BadCatch? {
        o, w2 := Err(Error("malformed catch clause")), w;
        Returns(rt, p, o, p.c.s);
        return;
      }
      o, w2 := Eval(fuel - 1, call.args[0], env, w, NoTail);
      FirstBehaves(rt, p, Apart(p, TEval(graph, call.args[0], env), p.c.s), fuel, o, St(w2));
      if !o.Err? || Caught(o.sig).None? { return; }
      if clause.NoCatch? {
        o := Ok(Null);
        return;
      }
      ghost var s1 := St(w2);
      var catchEnv := |w2.frames|;
      w2 := PushFrame(w2, map[clause.name := Caught(o.sig).value], env);
      ghost var q := Apart(p, TSeq(graph, clause.body, catchEnv), St(w2));
      SafeQuiet(p.c.cx.scope, s1, q.c.s);
      SafeTrans(p.c.cx.scope, p.c.s, s1, q.c.s);
      o, w2 := EvalSequence(fuel - 1, clause.body, catchEnv, w2);
      BehavesVia(rt, p, q, 1, fuel, o, St(w2));
      SafeTrans(p.c.cx.scope, p.c.s, q.c.s, St(w2));
    }

    method FormLeave(fuel: nat, call: Node, env: nat, name: string, w: World, ghost tail: Tail) returns (o: Outcome, w2: World)
      requires FormReady(call, name, LeaveForm) && fuel > 0
      modifies this, cell
      ensures Correct(old(FormAt(call, env, name, tail, w)), fuel, o, w2)
      decreases fuel, 8
    {
      hide DepthRun, Ends, Leads, NotDoneBy, Safe, PlanApply, PlanCallback, PlanMacro, CatchOf, EffectTags, MatchChoice, ParamNames, BindShapeOf, LeaveTarget;
      ghost var p := FormAt(call, env, name, tail, w);
      SafeSelf(p.c.cx.scope, p.c.s);
      var target := LeaveTarget(w, graph, call.args[0]);
      w2 := w;
      if target.None? {
        o := Err(Error("malformed leave target"));
        Returns(rt, p, o, p.c.s);
      } else if |call.args| != 2 {
        o := Err(Leave(target.value, Null));
        Returns(rt, p, o, p.c.s);
      } else {
        o, w2 := Eval(fuel - 1, call.args[1], env, w, NoTail);
        FirstBehaves(rt, p, Apart(p, TEval(graph, call.args[1], env), p.c.s), fuel, o, St(w2));
        if o.Ok? { o := Err(Leave(target.value, o.v)); }
      }
    }

    method FormEffectScope(fuel: nat, call: Node, env: nat, name: string, w: World, ghost tail: Tail) returns (o: Outcome, w2: World)
      requires FormReady(call, name, EffectScope) && fuel > 0
      modifies this, cell
      ensures Correct(old(FormAt(call, env, name, tail, w)), fuel, o, w2)
      decreases fuel, 8
    {
      hide DepthRun, Ends, Leads, NotDoneBy, Safe, PlanApply, PlanCallback, PlanMacro, CatchOf, LeaveTarget, MatchChoice, ParamNames, BindShapeOf, EffectTags;
      ghost var p := FormAt(call, env, name, tail, w);
      o, w2 := Eval(fuel - 1, call.args[0], env, w, NoTail);
      FirstBehaves(rt, p, Apart(p, TEval(graph, call.args[0], env), p.c.s), fuel, o, St(w2));
      if !o.Ok? { return; }
      var tags := EffectTags(o.v);
      if tags.None? {
        o := Err(Error("expected a list of effect tags"));
        return;
      }
      ghost var q := Apart(p, TScoped(tags.value, graph, call.args[1..], env), St(w2));
      o, w2 := WithEffectScope(fuel - 1, tags.value, call.args[1..], env, w2);
      BehavesVia(rt, p, q, 1, fuel, o, St(w2));
      SafeTrans(p.c.cx.scope, p.c.s, q.c.s, St(w2));
    }

    /** Runs the body in a scope no wider than the active one, under a default allocation budget if none is active. */
    method WithEffectScope(fuel: nat, requested: set<string>, ids: seq<NodeId>, env: nat, w: World) returns (o: Outcome, w2: World)
      requires tailArmed == 0
      modifies this, cell
      ensures Correct(old(At(TScoped(requested, graph, ids, env), NoTail, w)), fuel, o, w2)
      decreases fuel, 9
    {
      hide DepthRun, Ends, Leads, NotDoneBy, Safe, PlanForm, AfterForm, PlanApply, PlanCallback, PlanMacro;
      ghost var p := At(TScoped(requested, graph, ids, env), NoTail, w);
      SafeSelf(p.c.cx.scope, p.c.s);
      o, w2 := Err(Suspended), w;
      NothingLeft(rt, p, 0);
      if fuel == 0 { return; }
      if effectScope.Some? && !(requested <= effectScope.value) {
        o := Err(Error("effect-scope cannot grant effects"));
        Returns(rt, p, o, p.c.s);
        return;
      }
      var unbounded := cell.remaining.None?;
      if unbounded { cell.remaining := Some(DEFAULT_ALLOC_BUDGET); }
      var previous := effectScope;
      effectScope := Some(requested);
      ghost var p1 := At(TSeq(graph, ids, env), NoTail, w);
      o, w2 := EvalSequence(fuel - 1, ids, env, w);
      ghost var s1 := St(w2);
      effectScope := previous;
      if unbounded { cell.remaining := None; }
      FirstBehaves(rt, p, p1, fuel, o, s1);
      SafeLeaveScope(p.c.cx.scope, requested, p.c.s, s1);
    }

    method FormListOf(fuel: nat, call: Node, env: nat, name: string, w: World, ghost tail: Tail) returns (o: Outcome, w2: World)
      requires FormReady(call, name, ListOf) && fuel > 0
      modifies this, cell
      ensures Correct(old(FormAt(call, env, name, tail, w)), fuel, o, w2)
      decreases fuel, 8
    {
      hide DepthRun, Ends, Leads, NotDoneBy, Safe, ChargeAlloc, FloatEq, Lookup, PlanApply, PlanCallback, PlanMacro, CatchOf, LeaveTarget, MatchChoice, ParamNames, BindShapeOf, EffectTags;
      ghost var p := FormAt(call, env, name, tail, w);
      o, w2 := EvalArgs(fuel - 1, call.args, env, w);
      ghost var s1 := St(w2);
      FirstBehaves(rt, p, Apart(p, TArgs(graph, call.args, env, []), p.c.s), fuel, o, s1);
      if !o.OkAll? { return; }
      if |o.vs| > rt.collectionLimit {
        o := Err(Error("size limit exceeded"));
        return;
      }
      var ok;
      ok, w2 := cell.Charge(|o.vs|, w2);
      if ok {
        SafeCharge(p.c.cx.scope, s1, |o.vs|);
        SafeTrans(p.c.cx.scope, p.c.s, s1, St(w2));
      }
      o := if ok then Ok(List(o.vs)) else Err(Fatal(AllocExhausted));
    }

    method FormSequenceMap(fuel: nat, call: Node, env: nat, name: string, w: World, ghost tail: Tail) returns (o: Outcome, w2: World)
      requires FormReady(call, name, SequenceMap) && fuel > 0
      modifies this, cell
      ensures Correct(old(FormAt(call, env, name, tail, w)), fuel, o, w2)
      decreases fuel, 8
    {
      hide DepthRun, Ends, Leads, NotDoneBy, Safe, SpotPlan, SpotAfter, ChargeAlloc;
      ghost var p := FormAt(call, env, name, tail, w);
      o, w2 := EvalArgs(fuel - 1, call.args, env, w);
      ghost var s1 := St(w2);
      SequenceMapSteps(rt, p, call, env, name, o, s1);
      FirstBehaves(rt, p, Apart(p, TArgs(graph, call.args, env, []), p.c.s), fuel, o, s1);
      if !o.OkAll? { return; }
      var vs := o.vs;
      if |vs| < 2 || !(vs[0].List? || vs[0].Tuple?) {
        o := Err(Error("expected sequence"));
        return;
      }
      if |vs[0].items| > rt.collectionLimit {
        o := Err(Error("size limit exceeded"));
        return;
      }
      var ok;
      ok, w2 := cell.Charge(|vs[0].items|, w2);
      if !ok {
        o := Err(Fatal(AllocExhausted));
        return;
      }
      SafeCharge(p.c.cx.scope, s1, |vs[0].items|);
      SafeTrans(p.c.cx.scope, p.c.s, s1, St(w2));
      ghost var q := Apart(p, TMap(vs[1], vs[0].items, []), St(w2));
      o, w2 := MapItems(fuel - 1, vs[1], vs[0].items, w2);
      BehavesVia(rt, p, q, 1, fuel, o, St(w2));
      SafeTrans(p.c.cx.scope, p.c.s, q.c.s, St(w2));
    }

    method MapItems(fuel: nat, cb: Value, items: seq<Value>, w: World) returns (o: Outcome, w2: World)
      requires tailArmed == 0
      modifies this, cell
      ensures Correct(old(At(TMap(cb, items, []), NoTail, w)), fuel, o, w2)
      decreases fuel, 10
    {
      hide DepthRun, Ends, Leads, NotDoneBy, Safe, PlanForm, AfterForm, PlanApply, PlanCallback, PlanMacro;
      ghost var p := At(TMap(cb, items, []), NoTail, w);
      SafeSelf(p.c.cx.scope, p.c.s);
      LeadsSelf(rt, p);
      w2 := w;
      var i, acc := 0, [];
      assert items[0..] == items;
      while i < |items|
        invariant 0 <= i <= |items| && i <= fuel
        invariant Restored() && tailArmed == 0 && Safe(p.c.cx.scope, p.c.s, St(w2))
        invariant Leads(rt, p, Same(p, TMap(cb, items[i..], acc), St(w2)), i)
      {
        ghost var pi := Same(p, TMap(cb, items[i..], acc), St(w2));
        if i == fuel {
          o := Err(Suspended);
          NothingLeft(rt, pi, 0);
          BehavesVia(rt, p, pi, i, fuel, o, St(w2));
          return;
        }
        o, w2 := InvokeCallback(fuel - i - 1, cb, [items[i]], w2);
        SafeTrans(p.c.cx.scope, p.c.s, pi.c.s, St(w2));
        FirstBehaves(rt, pi, Apart(pi, TCallback(cb, [items[i]]), pi.c.s), fuel - i, o, St(w2));
        if !o.Ok? {
          BehavesVia(rt, p, pi, i, fuel, o, St(w2));
          return;
        }
        assert items[i..][1..] == items[i + 1..];
        LeadsTrans(rt, p, pi, Same(p, TMap(cb, items[i + 1..], acc + [o.v]), St(w2)), i, 1);
        i, acc := i + 1, acc + [o.v];
      }
      assert items[i..] == [];
      ghost var pi := Same(p, TMap(cb, [], acc), St(w2));
      o := Ok(List(acc));
      Returns(rt, pi, o, St(w2));
      BehavesVia(rt, p, pi, i, fuel, o, St(w2));
    }
  }
}
