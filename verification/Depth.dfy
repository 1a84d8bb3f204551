/**
 * Plain recursion under a depth limit.  Evaluating a node takes one level of depth for as long as it
 * lasts.  A body that belongs to another graph and a macro expansion get a fresh allowance.  A call a
 * closure makes to itself in tail position takes no depth: it runs at the depth its invocation ran at.
 *
 * This says how deep an evaluation gets without saying how: there are no tokens, signals or loops here.
 */
module Depth {
  import opened Ir
  import opened Semantics

  /** The closure whose tail position this is, and the graph and depth allowance it was invoked at. */
  datatype Tail = NoTail | Tail(addr: nat, graph: nat, room: int)

  /** Which graph is being evaluated, the levels of depth left there, and the allowance a fresh start gets. */
  datatype Here = Here(graph: nat, room: int, max: nat, tail: Tail)

  datatype Spot = Spot(h: Here, c: Cfg)

  datatype Onwards = Back(o: Outcome, s: State) | On(p: Spot)
  datatype Opening = Straight(r: Onwards) | Inner(p: Spot)

  const TOO_DEEP: Outcome := Err(Fatal(DepthExceeded))

  function NotTail(h: Here): Here { h.(tail := NoTail) }

  /** Work that belongs to another graph starts over with the full allowance. */
  function Into(h: Here, g: nat): Here {
    if g == h.graph then h else h.(graph := g, room := h.max)
  }

  /** Forms whose last subexpression is in tail position when they are. */
  predicate IsTransparent(h: Handler) {
    h.If? || h.Do? || h.Bind? || h.Match?
  }

  /** Whether what a piece of work goes on with is in tail position when the work is. */
  predicate KeepsTail(rt: Registry, t: Task) {
    match t
    case TEval(_, _, _) => true
    case TCall(_, _, _) => true
    case TApply(_, _, _, callee) => callee.Builtin?
    case TForm(_, _, _, name) => name in rt.builtins && IsTransparent(rt.builtins[name].handler)
    case TSeq(_, _, _) => true
    case TLetrec(_, _, _, _) => true
    case _ => false
  }

  /** Where the first part of some work runs: never in tail position. */
  function HereFirst(h: Here, t: Task, t1: Task): Here {
    if t.TMacro? && t1.TSeq? then Into(NotTail(h), t1.g) else NotTail(h)
  }

  /** Where the rest of some work runs. */
  function HereOn(rt: Registry, h: Here, t: Task, t2: Task): Here {
    match t
    case TEval(_, _, _) => h.(room := h.room - 1)
    case TApply(_, _, _, Closure(addr)) =>
      if h.tail.Tail? && h.tail.addr == addr then Here(h.tail.graph, h.tail.room, h.max, NoTail) else NotTail(h)
    case TInvoke(addr, _) => if t2.TSeq? then Into(h.(tail := Tail(addr, h.graph, h.room)), t2.g) else NotTail(h)
    case TExpand(_, _) => if t2.TEval? then Here(t2.g, h.max, h.max, NoTail) else NotTail(h)
    case _ => if KeepsTail(rt, t) then h else NotTail(h)
  }

  function Onto(rt: Registry, p: Spot, r: Rest): Onwards {
    match r
    case Return(o, s) => Back(o, s)
    case Goto(c) => On(Spot(HereOn(rt, p.h, p.c.t, c.t), c))
  }

  function SpotPlan(rt: Registry, p: Spot): Opening {
    if p.c.t.TEval? && p.h.room <= 0 then Straight(Back(TOO_DEEP, p.c.s))
    else match Plan(rt, p.c)
      case Now(r) => Straight(Onto(rt, p, r))
      case First(c1) => Inner(Spot(HereFirst(p.h, p.c.t, c1.t), c1))
  }

  function SpotAfter(rt: Registry, p: Spot, o: Outcome, s: State): Onwards {
    Onto(rt, p, After(rt, p.c, o, s))
  }

  ghost function DepthRun(rt: Registry, k: nat, p: Spot): Res
    decreases k, 0
  {
    if k == 0 then OutOfLevels
    else match SpotPlan(rt, p)
      case Straight(r) => DepthRest(rt, k - 1, r)
      case Inner(p1) =>
        match DepthRun(rt, k - 1, p1)
        case OutOfLevels => OutOfLevels
        case Done(o, s) => DepthRest(rt, k - 1, SpotAfter(rt, p, o, s))
  }

  ghost function DepthRest(rt: Registry, k: nat, r: Onwards): Res
    decreases k, 1
  {
    match r
    case Back(o, s) => Done(o, s)
    case On(p) => DepthRun(rt, k, p)
  }

  // ---- Against plain recursion ----------------------------------------------------------------

  /** Running out of depth cannot be caught. */
  lemma TooDeepPasses(rt: Registry, c: Cfg, s: State)
    ensures After(rt, c, TOO_DEEP, s).Return? && After(rt, c, TOO_DEEP, s).o == TOO_DEEP
  {
  }

  /** Wherever plain recursion ends, it ends under a depth limit too: in the same way, or too deep. */
  lemma {:induction false} SameOrTooDeep(rt: Registry, k: nat, p: Spot)
    requires Run(rt, k, p.c).Done?
    ensures DepthRun(rt, k, p).Done?
    ensures DepthRun(rt, k, p) == Run(rt, k, p.c) || DepthRun(rt, k, p).o == TOO_DEEP
    decreases k
  {
    hide Plan, After, HereOn, HereFirst;
    if !(p.c.t.TEval? && p.h.room <= 0) {
      match Plan(rt, p.c)
      case Now(r) => if r.Goto? { SameOrTooDeep(rt, k - 1, Spot(HereOn(rt, p.h, p.c.t, r.c.t), r.c)); }
      case First(c1) =>
        var p1 := Spot(HereFirst(p.h, p.c.t, c1.t), c1);
        SameOrTooDeep(rt, k - 1, p1);
        var Done(o, s) := DepthRun(rt, k - 1, p1);
        if o == TOO_DEEP {
          TooDeepPasses(rt, p.c, s);
        } else {
          var r := After(rt, p.c, o, s);
          if r.Goto? { SameOrTooDeep(rt, k - 1, Spot(HereOn(rt, p.h, p.c.t, r.c.t), r.c)); }
        }
    }
  }

  /** An outcome reached under a depth limit, other than too deep, is plain recursion's. */
  lemma {:induction false} DepthAgrees(rt: Registry, k: nat, p: Spot)
    requires DepthRun(rt, k, p).Done? && DepthRun(rt, k, p).o != TOO_DEEP
    ensures Run(rt, k, p.c) == DepthRun(rt, k, p)
    decreases k
  {
    hide Plan, After, HereOn, HereFirst;
    match Plan(rt, p.c)
    case Now(r) => if r.Goto? { DepthAgrees(rt, k - 1, Spot(HereOn(rt, p.h, p.c.t, r.c.t), r.c)); }
    case First(c1) =>
      var p1 := Spot(HereFirst(p.h, p.c.t, c1.t), c1);
      var Done(o, s) := DepthRun(rt, k - 1, p1);
      TooDeepPasses(rt, p.c, s);
      DepthAgrees(rt, k - 1, p1);
      var r := After(rt, p.c, o, s);
      if r.Goto? { DepthAgrees(rt, k - 1, Spot(HereOn(rt, p.h, p.c.t, r.c.t), r.c)); }
  }

  /** The same place with at least as much room everywhere. */
  predicate Roomier(a: Here, b: Here) {
    && a.graph == b.graph && a.room <= b.room && a.max <= b.max
    && (a.tail.NoTail? <==> b.tail.NoTail?)
    && (a.tail.Tail? ==> a.tail.addr == b.tail.addr && a.tail.graph == b.tail.graph && a.tail.room <= b.tail.room)
  }

  /** Whatever fits in some depth comes out the same in more. */
  lemma {:induction false} MoreRoom(rt: Registry, k: nat, p: Spot, h: Here)
    requires DepthRun(rt, k, p).Done? && DepthRun(rt, k, p).o != TOO_DEEP && Roomier(p.h, h)
    ensures DepthRun(rt, k, Spot(h, p.c)) == DepthRun(rt, k, p)
    decreases k, 1
  {
    hide Plan, After, KeepsTail;
    match Plan(rt, p.c)
    case Now(r) => if r.Goto? { MoreRoomOn(rt, k, p, h, r.c); }
    case First(c1) =>
      var p1 := Spot(HereFirst(p.h, p.c.t, c1.t), c1);
      var Done(o, s) := DepthRun(rt, k - 1, p1);
      TooDeepPasses(rt, p.c, s);
      MoreRoom(rt, k - 1, p1, HereFirst(h, p.c.t, c1.t));
      var r := After(rt, p.c, o, s);
      if r.Goto? { MoreRoomOn(rt, k, p, h, r.c); }
  }

  lemma {:induction false} MoreRoomOn(rt: Registry, k: nat, p: Spot, h: Here, c: Cfg)
    requires k > 0 && Roomier(p.h, h)
    requires var q := Spot(HereOn(rt, p.h, p.c.t, c.t), c); DepthRun(rt, k - 1, q).Done? && DepthRun(rt, k - 1, q).o != TOO_DEEP
    ensures DepthRun(rt, k - 1, Spot(HereOn(rt, h, p.c.t, c.t), c)) == DepthRun(rt, k - 1, Spot(HereOn(rt, p.h, p.c.t, c.t), c))
    decreases k, 0
  {
    hide DepthRun;
    MoreRoom(rt, k - 1, Spot(HereOn(rt, p.h, p.c.t, c.t), c), HereOn(rt, h, p.c.t, c.t));
  }

  /** As many levels of depth as plain recursion nests are enough. */
  lemma {:induction false} EnoughRoom(rt: Registry, k: nat, p: Spot)
    requires Run(rt, k, p.c).Done? && k <= p.h.room && k <= p.h.max && (p.h.tail.Tail? ==> k <= p.h.tail.room)
    ensures DepthRun(rt, k, p) == Run(rt, k, p.c)
    decreases k
  {
    hide Plan, After, KeepsTail;
    match Plan(rt, p.c)
    case Now(r) => if r.Goto? { EnoughRoom(rt, k - 1, Spot(HereOn(rt, p.h, p.c.t, r.c.t), r.c)); }
    case First(c1) =>
      EnoughRoom(rt, k - 1, Spot(HereFirst(p.h, p.c.t, c1.t), c1));
      var Done(o, s) := Run(rt, k - 1, c1);
      var r := After(rt, p.c, o, s);
      if r.Goto? { EnoughRoom(rt, k - 1, Spot(HereOn(rt, p.h, p.c.t, r.c.t), r.c)); }
  }
}
