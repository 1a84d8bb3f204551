/** What it means for an evaluator to be right about a spot, and how that is put together from parts. */
module DepthRuns {
  import opened Ir
  import opened Semantics
  import opened Depth

  /** p ends with outcome o in state s. */
  ghost predicate Ends(rt: Registry, p: Spot, o: Outcome, s: State) {
    exists k: nat :: DepthRun(rt, k, p) == Done(o, s)
  }

  /** p does not end within b nested levels. */
  ghost predicate NotDoneBy(rt: Registry, p: Spot, b: int) {
    forall k: nat :: DepthRun(rt, k, p).Done? ==> k > b
  }

  /** p comes down to q, which needs at least d levels fewer. */
  ghost predicate Leads(rt: Registry, p: Spot, q: Spot, d: nat) {
    && (forall k: nat :: DepthRun(rt, k, p).Done? ==> k >= d && DepthRun(rt, k - d, q) == DepthRun(rt, k, p))
    && (forall o, s :: Ends(rt, q, o, s) ==> Ends(rt, p, o, s))
  }

  /** More levels never change a result. */
  lemma {:induction false} MoreLevels(rt: Registry, k: nat, more: nat, p: Spot)
    requires k <= more && DepthRun(rt, k, p).Done?
    ensures DepthRun(rt, more, p) == DepthRun(rt, k, p)
    decreases k
  {
    hide SpotPlan, SpotAfter;
    match SpotPlan(rt, p)
    case Straight(r) =>
      if r.On? { MoreLevels(rt, k - 1, more - 1, r.p); }
    case Inner(p1) =>
      MoreLevels(rt, k - 1, more - 1, p1);
      var Done(o, s) := DepthRun(rt, k - 1, p1);
      var r := SpotAfter(rt, p, o, s);
      if r.On? { MoreLevels(rt, k - 1, more - 1, r.p); }
  }

  lemma OneEnd(rt: Registry, p: Spot, o: Outcome, s: State, k: nat)
    requires Ends(rt, p, o, s) && DepthRun(rt, k, p).Done?
    ensures DepthRun(rt, k, p) == Done(o, s)
  {
    hide SpotPlan, SpotAfter;
    var k2: nat :| DepthRun(rt, k2, p) == Done(o, s);
    if k <= k2 { MoreLevels(rt, k, k2, p); } else { MoreLevels(rt, k2, k, p); }
  }

  lemma LeadsSelf(rt: Registry, p: Spot)
    ensures Leads(rt, p, p, 0)
  {
  }

  lemma LeadsTrans(rt: Registry, a: Spot, b: Spot, c: Spot, d: nat, e: nat)
    requires Leads(rt, a, b, d) && Leads(rt, b, c, e)
    ensures Leads(rt, a, c, d + e)
  {
    hide SpotPlan, SpotAfter;
    forall k: nat | DepthRun(rt, k, a).Done? ensures k >= d + e && DepthRun(rt, k - (d + e), c) == DepthRun(rt, k, a) {
      assert DepthRun(rt, k - d, b) == DepthRun(rt, k, a);
      assert DepthRun(rt, k - d - e, c) == DepthRun(rt, k, a);
    }
  }

  lemma LeadsLess(rt: Registry, a: Spot, b: Spot, d: nat, e: nat)
    requires Leads(rt, a, b, d) && e <= d
    ensures Leads(rt, a, b, e)
  {
    hide SpotPlan, SpotAfter;
    forall k: nat | DepthRun(rt, k, a).Done? ensures k >= e && DepthRun(rt, k - e, b) == DepthRun(rt, k, a) {
      MoreLevels(rt, k - d, k - e, b);
    }
  }

  lemma LeadsDown(rt: Registry, a: Spot, b: Spot, d: nat, k: nat)
    requires Leads(rt, a, b, d) && DepthRun(rt, k, a).Done?
    ensures k >= d && DepthRun(rt, k - d, b) == DepthRun(rt, k, a)
  {
    hide DepthRun, Ends;
  }

  lemma LeadsEnds(rt: Registry, p: Spot, q: Spot, d: nat, o: Outcome, s: State)
    requires Leads(rt, p, q, d)
    ensures Ends(rt, q, o, s) ==> Ends(rt, p, o, s)
  {
    hide DepthRun, Ends;
  }

  // ---- One step -----------------------------------------------------------------------------

  lemma Returns(rt: Registry, p: Spot, o: Outcome, s: State)
    requires SpotPlan(rt, p) == Straight(Back(o, s))
    ensures Ends(rt, p, o, s)
  {
    assert DepthRun(rt, 1, p) == Done(o, s);
  }

  lemma GoesOn(rt: Registry, p: Spot, q: Spot)
    requires SpotPlan(rt, p) == Straight(On(q))
    ensures Leads(rt, p, q, 1)
  {
    hide SpotPlan, SpotAfter;
    forall k: nat | DepthRun(rt, k, p).Done? ensures k >= 1 && DepthRun(rt, k - 1, q) == DepthRun(rt, k, p) {
      assert k >= 1 && DepthRun(rt, k, p) == DepthRest(rt, k - 1, On(q));
    }
    forall o, s | Ends(rt, q, o, s) ensures Ends(rt, p, o, s) {
      var k: nat :| DepthRun(rt, k, q) == Done(o, s);
      assert DepthRun(rt, k + 1, p) == Done(o, s);
    }
  }

  lemma InnerReturns(rt: Registry, p: Spot, p1: Spot, o: Outcome, s: State)
    requires SpotPlan(rt, p) == Inner(p1) && Ends(rt, p1, o, s) && SpotAfter(rt, p, o, s).Back?
    ensures Ends(rt, p, SpotAfter(rt, p, o, s).o, SpotAfter(rt, p, o, s).s)
  {
    hide SpotPlan, SpotAfter;
    var k: nat :| DepthRun(rt, k, p1) == Done(o, s);
    assert DepthRun(rt, k + 1, p) == Done(SpotAfter(rt, p, o, s).o, SpotAfter(rt, p, o, s).s);
  }

  lemma InnerGoesOn(rt: Registry, p: Spot, p1: Spot, o: Outcome, s: State, q: Spot)
    requires SpotPlan(rt, p) == Inner(p1) && Ends(rt, p1, o, s) && SpotAfter(rt, p, o, s) == On(q)
    ensures Leads(rt, p, q, 1)
  {
    hide SpotPlan, SpotAfter;
    var k1: nat :| DepthRun(rt, k1, p1) == Done(o, s);
    forall k: nat | DepthRun(rt, k, p).Done? ensures k >= 1 && DepthRun(rt, k - 1, q) == DepthRun(rt, k, p) {
      if k1 <= k - 1 { MoreLevels(rt, k1, k - 1, p1); } else { MoreLevels(rt, k - 1, k1, p1); }
    }
    forall o2, s2 | Ends(rt, q, o2, s2) ensures Ends(rt, p, o2, s2) {
      var k2: nat :| DepthRun(rt, k2, q) == Done(o2, s2);
      var m := if k1 >= k2 then k1 else k2;
      MoreLevels(rt, k1, m, p1);
      MoreLevels(rt, k2, m, q);
      assert DepthRun(rt, m + 1, p) == Done(o2, s2);
    }
  }

  lemma InnerNotDone(rt: Registry, p: Spot, p1: Spot, b: int)
    requires SpotPlan(rt, p) == Inner(p1) && NotDoneBy(rt, p1, b)
    ensures NotDoneBy(rt, p, b + 1)
  {
    hide SpotPlan, SpotAfter;
    forall k: nat | DepthRun(rt, k, p).Done? ensures k > b + 1 {
      assert DepthRun(rt, k - 1, p1).Done?;
    }
  }

  lemma LeadsNotDone(rt: Registry, p: Spot, q: Spot, d: nat, b: int)
    requires Leads(rt, p, q, d) && NotDoneBy(rt, q, b)
    ensures NotDoneBy(rt, p, b + d)
  {
    forall k: nat | DepthRun(rt, k, p).Done? ensures k > b + d {
      assert DepthRun(rt, k - d, q).Done?;
    }
  }

  /** Nothing ends within no levels. */
  lemma NothingLeft(rt: Registry, p: Spot, b: int)
    requires b <= 0
    ensures NotDoneBy(rt, p, b)
  {
  }

  // ---- Refinement ---------------------------------------------------------------------------

  /** Outcomes an evaluator may give that no run has. */
  predicate CutShort(o: Outcome) {
    o.Err? && (o.sig.Suspended? || o.sig.TailCall? || o.sig == Fatal(StepsExhausted))
  }

  predicate Signals(o: Outcome) { o.Err? && o.sig.TailCall? }

  /** Other work in the place of p: in the same tail position, in none, and one level deeper. */
  function Same(p: Spot, t: Task, s: State): Spot { Spot(p.h, Cfg(p.c.cx, t, s)) }

  function Apart(p: Spot, t: Task, s: State): Spot { Spot(NotTail(p.h), Cfg(p.c.cx, t, s)) }

  function Deeper(p: Spot, t: Task, s: State): Spot { Spot(p.h.(room := p.h.room - 1), Cfg(p.c.cx, t, s)) }

  /** The token that stands for a tail position while it is being evaluated; 0 for none. */
  function TokenOf(tail: Tail): nat { if tail.NoTail? then 0 else tail.addr + 1 }

  /** Where a tail self-call made at h runs: where its closure was invoked. */
  function Invoked(h: Here): Here
    requires h.tail.Tail?
  {
    Here(h.tail.graph, h.tail.room, h.max, NoTail)
  }

  /**
   * o in s is a correct result for p from an evaluator that was given `fuel` levels:
   *  - a tail-call signal stands for a call of the closure whose tail position this is, at the depth
   *    that closure was invoked at;
   *  - running out of fuel means that the run needs more levels too;
   *  - every other outcome but an exhausted step budget, too deep among them, is the outcome of the run.
   */
  ghost predicate Behaves(rt: Registry, p: Spot, fuel: nat, o: Outcome, s: State) {
    match o
    case Err(Suspended) => NotDoneBy(rt, p, fuel)
    case Err(Fatal(StepsExhausted)) => true
    case Err(TailCall(token, args)) =>
      p.h.tail.Tail? && token == p.h.tail.addr + 1
      && Leads(rt, p, Spot(Invoked(p.h), Cfg(p.c.cx, TInvoke(p.h.tail.addr, args), s)), 1)
    case _ => Ends(rt, p, o, s)
  }

  lemma BehavesVia(rt: Registry, p: Spot, q: Spot, d: nat, fuel: nat, o: Outcome, s: State)
    requires Leads(rt, p, q, d) && q.c.cx == p.c.cx && fuel >= d
    requires Signals(o) ==> q.h.tail == p.h.tail && q.h.max == p.h.max
    requires Behaves(rt, q, fuel - d, o, s)
    ensures Behaves(rt, p, fuel, o, s)
  {
    hide DepthRun, Leads, NotDoneBy, Ends;
    LeadsEnds(rt, p, q, d, o, s);
    match o
    case Err(Suspended) => LeadsNotDone(rt, p, q, d, fuel - d);
    case Err(Fatal(StepsExhausted)) =>
    case Err(TailCall(token, args)) =>
      var r := Spot(Invoked(p.h), Cfg(p.c.cx, TInvoke(p.h.tail.addr, args), s));
      LeadsTrans(rt, p, q, r, d, 1);
      LeadsLess(rt, p, r, d + 1, 1);
    case _ =>
  }

  /** How a correct result for the first part carries over to the whole. */
  lemma FirstBehaves(rt: Registry, p: Spot, p1: Spot, fuel: nat, o: Outcome, s: State)
    requires SpotPlan(rt, p) == Inner(p1) && fuel > 0
    requires Behaves(rt, p1, fuel - 1, o, s) && !Signals(o)
    ensures CutShort(o) ==> Behaves(rt, p, fuel, o, s)
    ensures !CutShort(o) && SpotAfter(rt, p, o, s).On? ==> Leads(rt, p, SpotAfter(rt, p, o, s).p, 1)
    ensures !CutShort(o) && SpotAfter(rt, p, o, s).Back? ==> Ends(rt, p, SpotAfter(rt, p, o, s).o, SpotAfter(rt, p, o, s).s)
  {
    hide SpotPlan, SpotAfter;
    if o == Err(Suspended) {
      InnerNotDone(rt, p, p1, fuel - 1);
    } else if !CutShort(o) {
      if SpotAfter(rt, p, o, s).On? {
        InnerGoesOn(rt, p, p1, o, s, SpotAfter(rt, p, o, s).p);
      } else {
        InnerReturns(rt, p, p1, o, s);
      }
    }
  }

  /** Where the depth-limited run ends within the fuel given, a correct result is its result. */
  lemma BehavesExactly(rt: Registry, p: Spot, fuel: nat, o: Outcome, s: State, k: nat)
    requires Behaves(rt, p, fuel, o, s) && DepthRun(rt, k, p).Done? && k <= fuel
    requires o != Err(Fatal(StepsExhausted)) && !Signals(o)
    ensures DepthRun(rt, k, p) == Done(o, s)
  {
    hide DepthRun, Ends;
    if o != Err(Suspended) { OneEnd(rt, p, o, s, k); }
  }

  // ---- Tail loops take no depth -------------------------------------------------------------

  /** One round of a loop by tail self-calls: it ends, not too deep, or comes down to the next round at the same depth. */
  ghost predicate RoundFits(rt: Registry, h: Here, cx: Ctx, addr: nat, args: seq<Value>, s: State, rounds: iset<(seq<Value>, State)>) {
    var p := Spot(h, Cfg(cx, TInvoke(addr, args), s));
    || (exists o, s2 :: Ends(rt, p, o, s2) && o != TOO_DEEP)
    || (exists args2, s2 :: (args2, s2) in rounds && Leads(rt, p, Spot(h, Cfg(cx, TInvoke(addr, args2), s2)), 1))
  }

  /** If every round of a loop fits in the depth there is, no number of rounds is too deep. */
  lemma {:induction false} TailLoopNeverTooDeep(rt: Registry, h: Here, cx: Ctx, addr: nat, rounds: iset<(seq<Value>, State)>,
                                                k: nat, args: seq<Value>, s: State)
    requires (args, s) in rounds && forall r | r in rounds :: RoundFits(rt, h, cx, addr, r.0, r.1, rounds)
    requires DepthRun(rt, k, Spot(h, Cfg(cx, TInvoke(addr, args), s))).Done?
    ensures DepthRun(rt, k, Spot(h, Cfg(cx, TInvoke(addr, args), s))).o != TOO_DEEP
    decreases k
  {
    hide DepthRun, Leads, Ends;
    var p := Spot(h, Cfg(cx, TInvoke(addr, args), s));
    assert RoundFits(rt, h, cx, addr, (args, s).0, (args, s).1, rounds);
    if o, s2 :| Ends(rt, p, o, s2) && o != TOO_DEEP {
      OneEnd(rt, p, o, s2, k);
    } else {
      var args2, s2 :| (args2, s2) in rounds && Leads(rt, p, Spot(h, Cfg(cx, TInvoke(addr, args2), s2)), 1);
      LeadsDown(rt, p, Spot(h, Cfg(cx, TInvoke(addr, args2), s2)), 1, k);
      TailLoopNeverTooDeep(rt, h, cx, addr, rounds, k - 1, args2, s2);
    }
  }

  // ---- What a match does --------------------------------------------------------------------

  lemma MatchPlan(rt: Registry, p: Spot, call: Node, env: nat, name: string)
    requires p.c.t == TForm(p.h.graph, call, env, name) && call.Call? && call.args != []
    requires name in rt.builtins && rt.builtins[name].handler == Match
    ensures SpotPlan(rt, p) == Inner(Apart(p, TEval(p.h.graph, call.args[0], env), p.c.s))
  {
  }

  function MatchOn(p: Spot, call: Node, env: nat, choice: Chosen, s: State): Onwards {
    match choice
    case NoClause => Back(Ok(Null), s)
    case BadClause(msg) => Back(Err(Error(msg)), s)
    case Clause(vars, body) => On(Same(p, TSeq(p.h.graph, body, |s.w.frames|), s.(w := PushFrame(s.w, vars, env))))
  }

  lemma MatchAfter(rt: Registry, p: Spot, call: Node, env: nat, name: string, o: Outcome, s: State)
    requires p.c.t == TForm(p.h.graph, call, env, name) && call.Call? && call.args != []
    requires name in rt.builtins && rt.builtins[name].handler == Match
    ensures !o.Ok? ==> SpotAfter(rt, p, o, s) == Back(o, s)
    ensures o.Ok? ==> SpotAfter(rt, p, o, s) == MatchOn(p, call, env, MatchChoice(s.w, p.h.graph, call.args[1..], o.v), s)
  {
    hide MatchChoice;
  }

  // ---- What a sequence map does -------------------------------------------------------------

  function SequenceMapOn(rt: Registry, p: Spot, vs: seq<Value>, s: State): Onwards {
    if |vs| < 2 || !(vs[0].List? || vs[0].Tuple?) then Back(Err(Error("expected sequence")), s)
    else if |vs[0].items| > rt.collectionLimit then Back(Err(Error("size limit exceeded")), s)
    else match ChargeAlloc(s, |vs[0].items|)
      case None => Back(Err(Fatal(AllocExhausted)), s)
      case Some(s1) => On(Apart(p, TMap(vs[1], vs[0].items, []), s1))
  }

  lemma SequenceMapSteps(rt: Registry, p: Spot, call: Node, env: nat, name: string, o: Outcome, s: State)
    requires p.c.t == TForm(p.h.graph, call, env, name) && call.Call? && |call.args| >= 2
    requires name in rt.builtins && rt.builtins[name].handler == SequenceMap
    ensures SpotPlan(rt, p) == Inner(Apart(p, TArgs(p.h.graph, call.args, env, []), p.c.s))
    ensures !o.OkAll? ==> SpotAfter(rt, p, o, s) == Back(o, s)
    ensures o.OkAll? ==> SpotAfter(rt, p, o, s) == SequenceMapOn(rt, p, o.vs, s)
  {
    hide ChargeAlloc;
  }
}
