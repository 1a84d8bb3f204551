/**
 * What a program means: evaluation in which every closure call simply recurses.  There are no
 * tail tokens, no trampoline, no depth and no step limit here.
 *
 * Each piece of work (`Task`) is described by what it does first (`Plan`) and by what it does with
 * the outcome of that first part (`After`).  `Run` drives them; its only recursion bound is the
 * number of nested levels it may use.
 */
module Semantics {
  import opened Ir
  import opened Tables
  import opened SpecInsert

  // ---- Values, environments, state ---------------------------------------------------------

  datatype Value =
    | Null
    | Bool(b: bool)
    | Int(i: int)
    | Float(bits: FloatBits)
    | Str(s: string)
    | Tuple(items: seq<Value>)
    | List(items: seq<Value>)
    | Map(entries: seq<(string, Value)>)
    | Closure(addr: nat)
    | Macro(addr: nat)
    | Builtin(name: string)
    | HostFunction(name: string)
    | Syntax(spec: ExprSpec)

  /** A closure or macro; its address is its identity. */
  datatype Code = Code(params: seq<string>, body: seq<NodeId>, env: nat, graph: nat)

  datatype Frame = Frame(vars: map<string, Value>, parent: Option<nat>)

  /** Effectful calls that were let through, and units charged to an active allocation budget. */
  datatype Event = Effect(name: string, effects: set<string>) | Charge(units: nat)

  datatype World = World(frames: seq<Frame>, codes: seq<Code>, graphs: seq<Tables>, log: seq<Event>)

  /** `alloc` is what remains of the active allocation budget, if one is active. */
  datatype State = State(w: World, alloc: Option<nat>)

  datatype FatalKind = AllocExhausted | DepthExceeded | StepsExhausted

  /** `Suspended` marks a run cut short by the level bound of the model; no program can observe it. */
  datatype Signal =
    | Error(msg: string)
    | Fatal(why: FatalKind)
    | Exception(v: Value)
    | Leave(target: int, v: Value)
    | TailCall(token: nat, args: seq<Value>)
    | Suspended

  datatype Outcome = Ok(v: Value) | OkAll(vs: seq<Value>) | Err(sig: Signal)

  // ---- The registry ------------------------------------------------------------------------

  datatype Phase = Runtime | CompileTime | Dual

  /** What an eager builtin or a host function gives back. */
  datatype Answer = Good(v: Value) | Fail(msg: string)

  datatype Handler =
    | If | Do | Bind | Match | Lambda | MacroForm | Try | Throw | Block | LeaveForm | EffectScope
    | ListOf | SequenceMap
    | Eager(f: seq<Value> -> Answer)

  datatype BuiltinInfo = BuiltinInfo(isPublic: bool, phase: Phase, effects: set<string>,
                                     minArity: nat, maxArity: Option<nat>, eagerArgs: bool, handler: Handler)

  /** A host function may answer differently depending on everything that happened before. */
  datatype HostInfo = HostInfo(phase: Phase, effects: set<string>,
                               minArity: nat, maxArity: Option<nat>, f: (seq<Event>, seq<Value>) -> Answer)

  datatype Registry = Registry(builtins: map<string, BuiltinInfo>, hosts: map<string, HostInfo>, collectionLimit: nat)

  const DEFAULT_ALLOC_BUDGET := 64_000_000

  // ---- Small steps shared by both evaluators -----------------------------------------------

  function FromLiteral(l: Literal): Value
    decreases l, 0
  {
    match l
    case LNull => Null
    case LBool(b) => Bool(b)
    case LInt(i) => Int(i)
    case LFloat(bits) => Float(bits)
    case LStr(s) => Str(s)
    case LTuple(items) => Tuple(FromLiterals(items))
    case LDict(entries) => Map(FromEntries(entries, []))
  }

  function FromLiterals(ls: seq<Literal>): seq<Value>
    decreases ls
  {
    if ls == [] then [] else [FromLiteral(ls[0])] + FromLiterals(ls[1..])
  }

  function FromEntries(es: seq<DictEntry>, acc: seq<(string, Value)>): seq<(string, Value)>
    decreases es
  {
    if es == [] then acc else FromEntries(es[1..], PutEntry(acc, es[0].key, FromLiteral(es[0].value)))
  }

  function PutEntry(es: seq<(string, Value)>, key: string, v: Value): seq<(string, Value)> {
    if es == [] then [(key, v)]
    else if es[0].0 == key then [(key, v)] + es[1..]
    else [es[0]] + PutEntry(es[1..], key, v)
  }

  predicate Truthy(v: Value) {
    match v
    case Null => false
    case Bool(b) => b
    case Int(i) => i != 0
    case Float(bits) => bits % 0x8000_0000_0000_0000 != 0  // both zeros are false
    case Str(s) => s != ""
    case Tuple(items) => items != []
    case List(items) => items != []
    case Map(entries) => entries != []
    case _ => true
  }

  function Lookup(frames: seq<Frame>, env: nat, name: string): Option<Value>
    decreases env
  {
    if env >= |frames| then None
    else if name in frames[env].vars then Some(frames[env].vars[name])
    else match frames[env].parent
      case None => None
      case Some(p) => if p < env then Lookup(frames, p, name) else None
  }

  function Define(w: World, env: nat, name: string, v: Value): World {
    if env < |w.frames| then w.(frames := w.frames[env := w.frames[env].(vars := w.frames[env].vars[name := v])]) else w
  }

  function PushFrame(w: World, vars: map<string, Value>, parent: nat): World {
    w.(frames := w.frames + [Frame(vars, Some(parent))])
  }

  function NodeAt(w: World, g: nat, n: NodeId): Option<Node> {
    if g < |w.graphs| && n in w.graphs[g].nodes then Some(w.graphs[g].nodes[n]) else None
  }

  function NameAt(w: World, g: nat, n: NodeId): Option<string> {
    match NodeAt(w, g, n)
    case Some(Name(_, identifier)) => Some(identifier)
    case _ => None
  }

  function EvalName(rt: Registry, w: World, name: string, env: nat): Outcome {
    match Lookup(w.frames, env, name)
    case Some(v) => Ok(v)
    case None => if name in rt.builtins && rt.builtins[name].isPublic then Ok(Builtin(name)) else Err(Error("unknown name"))
  }

  /** A callee that is a name: internal markers reach every builtin, other names only public ones. */
  function ResolveCallee(rt: Registry, w: World, g: nat, n: NodeId, name: string, env: nat): Outcome {
    if g < |w.graphs| && n in w.graphs[g].internal then
      if name in rt.builtins then Ok(Builtin(name)) else Err(Error("missing internal builtin"))
    else match Lookup(w.frames, env, name)
      case Some(v) => Ok(v)
      case None =>
        if name !in rt.builtins then Err(Error("unknown name"))
        else if rt.builtins[name].isPublic then Ok(Builtin(name))
        else Err(Error("internal builtin is not directly callable"))
  }

  predicate ArityOk(n: nat, min: nat, max: Option<nat>) {
    min <= n && (max.None? || n <= max.value)
  }

  predicate EffectsAllowed(effects: set<string>, scope: Option<set<string>>) {
    effects == {} || scope.None? || effects <= scope.value
  }

  /** The checks made before a builtin or host function may run, in order. */
  function Admission(phase: Phase, scope: Option<set<string>>, policy: Phase, effects: set<string>,
                     arity: nat, min: nat, max: Option<nat>): Option<string> {
    if !(policy == Dual || policy == phase) then Some("not available in phase")
    else if !EffectsAllowed(effects, scope) then Some("outside active effect scope")
    else if !ArityOk(arity, min, max) then Some("wrong number of arguments")
    else None
  }

  function LogEffect(w: World, name: string, effects: set<string>): World {
    if effects == {} then w else w.(log := w.log + [Effect(name, effects)])
  }

  function Answered(a: Answer): Outcome {
    match a case Good(v) => Ok(v) case Fail(msg) => Err(Error(msg))
  }

  /** None: the budget is exhausted. */
  function ChargeAlloc(s: State, units: nat): Option<State> {
    match s.alloc
    case None => Some(s)
    case Some(b) =>
      if units <= b then Some(State(s.w.(log := s.w.log + [Charge(units)]), Some(b - units))) else None
  }

  // ---- Reading the operands of special forms off the graph ----------------------------------

  predicate IsGroupName(name: string) {
    |name| >= 2 && name[..2] == "__" && name[|name| - 2..] == "__"
  }

  function CallItems(w: World, g: nat, call: Node): seq<NodeId>
    requires call.Call?
  {
    match NameAt(w, g, call.callee)
    case Some(name) => if IsGroupName(name) then call.args else [call.callee] + call.args
    case None => [call.callee] + call.args
  }

  function NamesAt(w: World, g: nat, ids: seq<NodeId>): Option<seq<string>> {
    if ids == [] then Some([])
    else match (NameAt(w, g, ids[0]), NamesAt(w, g, ids[1..]))
      case (Some(n), Some(ns)) => Some([n] + ns)
      case _ => None
  }

  function ParamLiterals(ls: seq<Literal>): Option<seq<string>> {
    if ls == [] then Some([])
    else if !ls[0].LStr? || ls[0].s == "" then None
    else match ParamLiterals(ls[1..])
      case None => None
      case Some(ns) => Some([ls[0].s] + ns)
  }

  function ParamNames(w: World, g: nat, id: NodeId): Option<seq<string>> {
    match NodeAt(w, g, id)
    case None => None
    case Some(Name(_, _)) => Some([])
    case Some(Lit(_, LNull)) => Some([])
    case Some(Lit(_, LTuple(items))) => ParamLiterals(items)
    case Some(Lit(_, _)) => None
    case Some(Call(i, c, a)) => NamesAt(w, g, CallItems(w, g, Call(i, c, a)))
  }

  /** The three shapes of `bind`: define in place, bind in a child scope, or nothing to bind. */
  datatype BindShape =
    | BindInPlace(name: string)
    | BindScope(pairs: seq<(string, NodeId)>, body: seq<NodeId>)
    | BindNothing
    | BindBad

  function BindPairs(w: World, g: nat, ids: seq<NodeId>): Option<seq<(string, NodeId)>> {
    if ids == [] then Some([])
    else match NodeAt(w, g, ids[0])
      case Some(Call(i, c, a)) =>
        var items := CallItems(w, g, Call(i, c, a));
        if |items| != 2 then None
        else (match (NameAt(w, g, items[0]), BindPairs(w, g, ids[1..]))
              case (Some(n), Some(ps)) => Some([(n, items[1])] + ps)
              case _ => None)
      case _ => None
  }

  function FlatPairs(w: World, g: nat, ids: seq<NodeId>): Option<seq<(string, NodeId)>> {
    if ids == [] then Some([])
    else if |ids| == 1 then None
    else match (NodeAt(w, g, ids[0]), FlatPairs(w, g, ids[2..]))
      case (Some(Lit(_, LStr(n))), Some(ps)) => if n == "" then None else Some([(n, ids[1])] + ps)
      case _ => None
  }

  function BindShapeOf(w: World, g: nat, args: seq<NodeId>): BindShape
    requires |args| >= 2
  {
    match NodeAt(w, g, args[0])
    case None => BindBad
    case Some(Name(_, name)) => BindInPlace(name)
    case Some(Lit(_, LStr(_))) =>
      if |args| < 3 || (|args| - 1) % 2 != 0 then BindBad
      else (match FlatPairs(w, g, args[..|args| - 1])
            case None => BindBad
            case Some(pairs) => BindScope(pairs, args[|args| - 1..]))
    case Some(Lit(_, LNull)) => BindNothing
    case Some(Lit(_, _)) => BindBad
    case Some(Call(i, c, a)) =>
      match BindPairs(w, g, CallItems(w, g, Call(i, c, a)))
      case None => BindBad
      case Some(pairs) => BindScope(pairs, args[1..])
  }

  function NullVars(pairs: seq<(string, NodeId)>): map<string, Value> {
    map p | p in pairs :: p.0 := Null
  }

  datatype CatchClause = NoCatch | Catch(name: string, body: seq<NodeId>) | BadCatch

  function CatchOf(w: World, g: nat, args: seq<NodeId>): CatchClause {
    if |args| != 2 then NoCatch
    else match NodeAt(w, g, args[1])
      case Some(Call(i, c, a)) =>
        var items := CallItems(w, g, Call(i, c, a));
        if |items| < 2 then BadCatch
        else if NameAt(w, g, items[0]) != Some("catch") then BadCatch
        else (match NameAt(w, g, items[1])
              case Some(name) => Catch(name, items[2..])
              case None => BadCatch)
      case _ => BadCatch
  }

  /** `try` catches thrown values and non-fatal errors; everything else passes through. */
  function Caught(sig: Signal): Option<Value> {
    match sig
    case Exception(v) => Some(v)
    case Error(msg) => Some(Map([("message", Str(msg)), ("category", Null)]))
    case _ => None
  }

  function LeaveTarget(w: World, g: nat, id: NodeId): Option<int> {
    match NodeAt(w, g, id)
    case Some(Lit(_, LInt(i))) => Some(i % 0x1_0000_0000)
    case _ => None
  }

  /** Equality of floats by their bits: a NaN equals nothing, and the two zeros are equal. */
  predicate FloatEq(a: FloatBits, b: FloatBits) {
    var m, n := a % 0x8000_0000_0000_0000, b % 0x8000_0000_0000_0000;
    m <= 0x7FF0_0000_0000_0000 && (a == b || (m == 0 && n == 0))
  }

  datatype Matched = NoMatch | BadPattern(msg: string) | MatchedWith(vars: map<string, Value>)

  function MatchLiteral(l: Literal, v: Value): Matched {
    match l
    case LNull => if v.Null? then MatchedWith(map[]) else NoMatch
    case LBool(b) => if v == Bool(b) then MatchedWith(map[]) else NoMatch
    case LInt(i) => if v == Int(i) then MatchedWith(map[]) else NoMatch
    case LFloat(bits) => if v.Float? && FloatEq(v.bits, bits) then MatchedWith(map[]) else NoMatch
    case LStr(str) => if v == Str(str) then MatchedWith(map[]) else NoMatch
    case _ => BadPattern("unsupported literal pattern type")
  }

  /** None: there is no such type guard. */
  function TypeGuard(guard: string, v: Value): Option<bool> {
    if guard == "null?" then Some(v.Null?)
    else if guard == "bool?" then Some(v.Bool?)
    else if guard == "int?" then Some(v.Int?)
    else if guard == "float?" then Some(v.Float?)
    else if guard == "str?" then Some(v.Str?)
    else if guard == "list?" then Some(v.List?)
    else if guard == "map?" then Some(v.Map?)
    else None
  }

  function MatchPattern(w: World, g: nat, id: NodeId, v: Value): Matched {
    match NodeAt(w, g, id)
    case None => BadPattern("missing pattern node")
    case Some(Name(_, name)) => MatchedWith(if name == "_" || name == "else" then map[] else map[name := v])
    case Some(Lit(_, l)) => MatchLiteral(l, v)
    case Some(Call(_, callee, args)) =>
      match NameAt(w, g, callee)
      case None => BadPattern("type-guard callee must be a name")
      case Some(guard) =>
        match TypeGuard(guard, v)
        case None => BadPattern("unknown type predicate")
        case Some(holds) =>
          if !holds then NoMatch
          else if args == [] then MatchedWith(map[])
          else match NameAt(w, g, args[0])
            case None => BadPattern("type-guard binding must be a name")
            case Some(name) => MatchedWith(map[name := v])
  }

  /** The clauses of a match, pattern and body; None when one is malformed. */
  function MatchClauses(w: World, g: nat, ids: seq<NodeId>): Option<seq<(NodeId, seq<NodeId>)>> {
    if ids == [] then Some([])
    else match (NodeAt(w, g, ids[0]), MatchClauses(w, g, ids[1..]))
      case (Some(Call(i, c, a)), Some(rest)) =>
        var items := CallItems(w, g, Call(i, c, a));
        if items == [] then None else Some([(items[0], items[1..])] + rest)
      case _ => None
  }

  datatype Chosen = NoClause | BadClause(msg: string) | Clause(vars: map<string, Value>, body: seq<NodeId>)

  /** The first clause whose pattern fits. */
  function ChooseClause(w: World, g: nat, clauses: seq<(NodeId, seq<NodeId>)>, v: Value): Chosen {
    if clauses == [] then NoClause
    else match MatchPattern(w, g, clauses[0].0, v)
      case NoMatch => ChooseClause(w, g, clauses[1..], v)
      case BadPattern(msg) => BadClause(msg)
      case MatchedWith(vars) => Clause(vars, clauses[0].1)
  }

  function MatchChoice(w: World, g: nat, ids: seq<NodeId>, v: Value): Chosen {
    match MatchClauses(w, g, ids)
    case None => BadClause("malformed match clause")
    case Some(clauses) => ChooseClause(w, g, clauses, v)
  }

  function EffectTags(v: Value): Option<set<string>> {
    if v.List? && (forall x | x in v.items :: x.Str?) && NoDup(v.items) then Some(set x | x in v.items :: x.s) else None
  }

  // ---- Binding arguments --------------------------------------------------------------------

  datatype Bound = BoundVars(vars: map<string, Value>) | BindError(msg: string)

  function Zip(names: seq<string>, vs: seq<Value>): map<string, Value>
    requires |names| == |vs|
  {
    if names == [] then map[] else Zip(names[..|names| - 1], vs[..|vs| - 1])[names[|names| - 1] := vs[|vs| - 1]]
  }

  function BindArgs(params: seq<string>, args: seq<Value>): Bound {
    var n := |params|;
    if n == 0 || params[n - 1] == "" || params[n - 1][0] != '&' then
      if |args| != n then BindError("lambda argument count") else BoundVars(Zip(params, args))
    else if params[n - 1] == "&" then BindError("rest parameter must include a name")
    else if |args| < n - 1 then BindError("lambda argument count")
    else BoundVars(Zip(params[..n - 1], args[..n - 1])[params[n - 1][1..] := List(args[n - 1..])])
  }

  function QuoteAll(g: Tables, ids: seq<NodeId>): Option<seq<Value>> {
    if ids == [] then Some([])
    else match (SpecOf(g, ids[0]), QuoteAll(g, ids[1..]))
      case (Spec(e), Some(vs)) => Some([Syntax(e)] + vs)
      case _ => None
  }

  /** The graph a macro expansion is evaluated in: just the expansion, as its one top-level form. */
  function ExpansionGraph(e: ExprSpec): Option<(Tables, NodeId)> {
    match Insert(EMPTY, e, None)
    case Failed(_) => None
    case Inserted(g, id) => Some((g.(root := id, top := [id], topSet := {id}), id))
  }

  // ---- Tasks --------------------------------------------------------------------------------

  datatype Ctx = Ctx(phase: Phase, scope: Option<set<string>>)

  datatype Task =
    | TEval(g: nat, n: NodeId, env: nat)
    | TCall(g: nat, call: Node, env: nat)
    | TApply(g: nat, call: Node, env: nat, callee: Value)
    | TForm(g: nat, call: Node, env: nat, name: string)
    | TSeq(g: nat, ids: seq<NodeId>, env: nat)
    | TArgs(g: nat, ids: seq<NodeId>, env: nat, acc: seq<Value>)
    | TLetrec(g: nat, pairs: seq<(string, NodeId)>, body: seq<NodeId>, env: nat)
    | TInvoke(addr: nat, args: seq<Value>)
    | TMacro(g: nat, call: Node, env: nat, addr: nat)
    | TExpand(spec: ExprSpec, env: nat)
    | TScoped(effects: set<string>, g: nat, ids: seq<NodeId>, env: nat)
    | TMap(cb: Value, items: seq<Value>, acc: seq<Value>)
    | TCallback(cb: Value, args: seq<Value>)

  datatype Cfg = Cfg(cx: Ctx, t: Task, s: State)

  datatype Rest = Return(o: Outcome, s: State) | Goto(c: Cfg)
  datatype Step = Now(r: Rest) | First(c: Cfg)

  function Failing(msg: string, s: State): Step { Now(Return(Err(Error(msg)), s)) }

  /** Operands a form must have; the registry fixes at least these as minimum arities. */
  function MinArgs(h: Handler): nat {
    match h
    case If => 2 case Bind => 2 case Lambda => 2 case MacroForm => 2 case SequenceMap => 2
    case Match => 1 case Try => 1 case Throw => 1 case Block => 1 case LeaveForm => 1 case EffectScope => 1
    case _ => 0
  }

  function PlanForm(cx: Ctx, g: nat, call: Node, env: nat, h: Handler, s: State): Step
    requires call.Call?
  {
    var args := call.args;
    if |args| < MinArgs(h) then Failing("wrong number of arguments", s)
    else match h
      case If => First(Cfg(cx, TEval(g, args[0], env), s))
      case Do => Now(Goto(Cfg(cx, TSeq(g, args, env), s)))
      case Bind =>
        (match BindShapeOf(s.w, g, args)
         case BindBad => Failing("malformed bind", s)
         case BindNothing => Now(Goto(Cfg(cx, TSeq(g, args[1..], env), s)))
         case BindInPlace(_) => First(Cfg(cx, TEval(g, args[1], env), s))
         case BindScope(pairs, body) =>
           Now(Goto(Cfg(cx, TLetrec(g, pairs, body, |s.w.frames|), s.(w := PushFrame(s.w, NullVars(pairs), env))))))
      case Lambda =>
        (match ParamNames(s.w, g, args[0])
         case None => Failing("malformed parameters", s)
         case Some(ps) => Now(Return(Ok(Closure(|s.w.codes|)), s.(w := s.w.(codes := s.w.codes + [Code(ps, args[1..], env, g)])))))
      case MacroForm =>
        (match ParamNames(s.w, g, args[0])
         case None => Failing("malformed parameters", s)
         case Some(ps) => Now(Return(Ok(Macro(|s.w.codes|)), s.(w := s.w.(codes := s.w.codes + [Code(ps, args[1..], env, g)])))))
      case Try =>
        if CatchOf(s.w, g, args).BadCatch? then Failing("malformed catch clause", s)
        else First(Cfg(cx, TEval(g, args[0], env), s))
      case Match => First(Cfg(cx, TEval(g, args[0], env), s))
      case Throw => First(Cfg(cx, TEval(g, args[0], env), s))
      case Block => First(Cfg(cx, TSeq(g, args, env), s))
      case LeaveForm =>
        (match LeaveTarget(s.w, g, args[0])
         case None => Failing("malformed leave target", s)
         case Some(t) => if |args| == 2 then First(Cfg(cx, TEval(g, args[1], env), s)) else Now(Return(Err(Leave(t, Null)), s)))
      case EffectScope => First(Cfg(cx, TEval(g, args[0], env), s))
      case ListOf => First(Cfg(cx, TArgs(g, args, env, []), s))
      case SequenceMap => First(Cfg(cx, TArgs(g, args, env, []), s))
      case Eager(_) => First(Cfg(cx, TArgs(g, args, env, []), s))
  }

  function AfterForm(rt: Registry, cx: Ctx, g: nat, call: Node, env: nat, h: Handler, s0: State, o: Outcome, s: State): Rest
    requires call.Call? && |call.args| >= MinArgs(h)
  {
    var args := call.args;
    match o
    case Err(sig) =>
      if h.Try? && Caught(sig).Some? then
        (match CatchOf(s0.w, g, args)
         case Catch(name, body) =>
           Goto(Cfg(cx, TSeq(g, body, |s.w.frames|), s.(w := PushFrame(s.w, map[name := Caught(sig).value], env))))
         case _ => Return(Ok(Null), s))
      else if h.Block? && sig.Leave? && sig.target == call.id then Return(Ok(sig.v), s)
      else Return(o, s)
    case OkAll(vs) =>
      (match h
       case Eager(f) => Return(Answered(f(vs)), s)
       case ListOf =>
         if |vs| > rt.collectionLimit then Return(Err(Error("size limit exceeded")), s)
         else (match ChargeAlloc(s, |vs|)
               case None => Return(Err(Fatal(AllocExhausted)), s)
               case Some(s1) => Return(Ok(List(vs)), s1))
       case SequenceMap =>
         if |vs| < 2 || !(vs[0].List? || vs[0].Tuple?) then Return(Err(Error("expected sequence")), s)
         else if |vs[0].items| > rt.collectionLimit then Return(Err(Error("size limit exceeded")), s)
         else (match ChargeAlloc(s, |vs[0].items|)
               case None => Return(Err(Fatal(AllocExhausted)), s)
               case Some(s1) => Goto(Cfg(cx, TMap(vs[1], vs[0].items, []), s1)))
       case _ => Return(o, s))
    case Ok(v) =>
      (match h
       case If =>
         if Truthy(v) then Goto(Cfg(cx, TEval(g, args[1], env), s))
         else if |args| == 3 then Goto(Cfg(cx, TEval(g, args[2], env), s))
         else Return(Ok(Null), s)
       case Bind =>
         (match BindShapeOf(s0.w, g, args)
          case BindInPlace(name) =>
            var s1 := s.(w := Define(s.w, env, name, v));
            if |args| > 2 then Goto(Cfg(cx, TSeq(g, args[2..], env), s1)) else Return(Ok(Null), s1)
          case _ => Return(Ok(Null), s))
       case Match =>
         (match MatchChoice(s.w, g, args[1..], v)
          case NoClause => Return(Ok(Null), s)
          case BadClause(msg) => Return(Err(Error(msg)), s)
          case Clause(vars, body) =>
            Goto(Cfg(cx, TSeq(g, body, |s.w.frames|), s.(w := PushFrame(s.w, vars, env)))))
       case Throw => Return(Err(Exception(v)), s)
       case LeaveForm =>
         (match LeaveTarget(s0.w, g, args[0]) case Some(t) => Return(Err(Leave(t, v)), s) case None => Return(o, s))
       case EffectScope =>
         (match EffectTags(v)
          case None => Return(Err(Error("expected a list of effect tags")), s)
          case Some(tags) => Goto(Cfg(cx, TScoped(tags, g, args[1..], env), s)))
       case _ => Return(o, s))
  }

  function PlanCallback(rt: Registry, cx: Ctx, cb: Value, args: seq<Value>, s: State): Step {
    match cb
    case Closure(addr) => Now(Goto(Cfg(cx, TInvoke(addr, args), s)))
    case HostFunction(name) =>
      if name !in rt.hosts then Failing("not callable", s)
      else
        var h := rt.hosts[name];
        (match Admission(cx.phase, cx.scope, h.phase, h.effects, |args|, h.minArity, h.maxArity)
         case Some(msg) => Failing(msg, s)
         case None => Now(Return(Answered(h.f(s.w.log, args)), s.(w := LogEffect(s.w, name, h.effects)))))
    case Builtin(name) =>
      if name !in rt.builtins then Failing("not callable", s)
      else
        var b := rt.builtins[name];
        (match Admission(cx.phase, cx.scope, b.phase, b.effects, 0, 0, None)
         case Some(msg) => Failing(msg, s)
         case None =>
           if !b.eagerArgs then Failing("cannot be invoked as a callback", s)
           else if !ArityOk(|args|, b.minArity, b.maxArity) then Failing("wrong number of arguments", s)
           else if !b.handler.Eager? then Failing("does not support callback dispatch", s)
           else Now(Return(Answered(b.handler.f(args)), s.(w := LogEffect(s.w, name, b.effects)))))
    case _ => Failing("not a callable callback", s)
  }

  function PlanApply(rt: Registry, cx: Ctx, g: nat, call: Node, env: nat, callee: Value, s: State): Step
    requires call.Call?
  {
    match callee
    case Builtin(name) =>
      if name !in rt.builtins then Failing("not callable", s)
      else
        var b := rt.builtins[name];
        (match Admission(cx.phase, cx.scope, b.phase, b.effects, |call.args|, b.minArity, b.maxArity)
         case Some(msg) => Failing(msg, s)
         case None => Now(Goto(Cfg(cx, TForm(g, call, env, name), s.(w := LogEffect(s.w, name, b.effects))))))
    case Closure(_) => First(Cfg(cx, TArgs(g, call.args, env, []), s))
    case Macro(addr) => Now(Goto(Cfg(cx, TMacro(g, call, env, addr), s)))
    case HostFunction(name) =>
      if name !in rt.hosts then Failing("not callable", s)
      else
        var h := rt.hosts[name];
        (match Admission(cx.phase, cx.scope, h.phase, h.effects, |call.args|, h.minArity, h.maxArity)
         case Some(msg) => Failing(msg, s)
         case None => First(Cfg(cx, TArgs(g, call.args, env, []), s)))
    case _ => Failing("value is not callable", s)
  }

  function PlanMacro(cx: Ctx, g: nat, call: Node, addr: nat, s: State): Step
    requires call.Call?
  {
    if g >= |s.w.graphs| || addr >= |s.w.codes| then Failing("not callable", s)
    else
      var code := s.w.codes[addr];
      match QuoteAll(s.w.graphs[g], call.args)
      case None => Failing("cannot quote argument", s)
      case Some(vs) =>
        match BindArgs(code.params, vs)
        case BindError(msg) => Failing(msg, s)
        case BoundVars(vars) =>
          First(Cfg(cx, TSeq(code.graph, code.body, |s.w.frames|), s.(w := PushFrame(s.w, vars, code.env))))
  }

  /** What a task does first. */
  function Plan(rt: Registry, c: Cfg): Step {
    var cx, s := c.cx, c.s;
    match c.t
    case TEval(g, n, env) =>
      (match NodeAt(s.w, g, n)
       case None => Failing("unknown node id", s)
       case Some(Lit(_, value)) => Now(Return(Ok(FromLiteral(value)), s))
       case Some(Name(_, name)) => Now(Return(EvalName(rt, s.w, name, env), s))
       case Some(Call(i, callee, a)) => Now(Goto(Cfg(cx, TCall(g, Call(i, callee, a), env), s))))
    case TCall(g, call, env) =>
      if !call.Call? then Failing("not a call", s)
      else (match NodeAt(s.w, g, call.callee)
            case None => Failing("missing callee node", s)
            case Some(Name(_, name)) =>
              (match ResolveCallee(rt, s.w, g, call.callee, name, env)
               case Ok(v) => Now(Goto(Cfg(cx, TApply(g, call, env, v), s)))
               case o => Now(Return(o, s)))
            case Some(_) => First(Cfg(cx, TEval(g, call.callee, env), s)))
    case TApply(g, call, env, callee) =>
      if !call.Call? then Failing("not a call", s) else PlanApply(rt, cx, g, call, env, callee, s)
    case TForm(g, call, env, name) =>
      if !call.Call? || name !in rt.builtins then Failing("not a form", s)
      else PlanForm(cx, g, call, env, rt.builtins[name].handler, s)
    case TSeq(g, ids, env) =>
      if ids == [] then Now(Return(Ok(Null), s))
      else if |ids| == 1 then Now(Goto(Cfg(cx, TEval(g, ids[0], env), s)))
      else First(Cfg(cx, TEval(g, ids[0], env), s))
    case TArgs(g, ids, env, acc) =>
      if ids == [] then Now(Return(OkAll(acc), s)) else First(Cfg(cx, TEval(g, ids[0], env), s))
    case TLetrec(g, pairs, body, env) =>
      if pairs == [] then Now(Goto(Cfg(cx, TSeq(g, body, env), s))) else First(Cfg(cx, TEval(g, pairs[0].1, env), s))
    case TInvoke(addr, args) =>
      if addr >= |s.w.codes| then Failing("not callable", s)
      else
        var code := s.w.codes[addr];
        (match BindArgs(code.params, args)
         case BindError(msg) => Failing(msg, s)
         case BoundVars(vars) =>
           Now(Goto(Cfg(cx, TSeq(code.graph, code.body, |s.w.frames|), s.(w := PushFrame(s.w, vars, code.env))))))
    case TMacro(g, call, env, addr) =>
      if !call.Call? then Failing("not a call", s) else PlanMacro(cx, g, call, addr, s)
    case TExpand(spec, env) =>
      (match ExpansionGraph(spec)
       case None => Failing("cannot insert expansion", s)
       case Some(p) =>
         Now(Goto(Cfg(cx, TEval(|s.w.graphs|, p.1, env), s.(w := s.w.(graphs := s.w.graphs + [p.0]))))))
    case TScoped(effects, g, ids, env) =>
      if cx.scope.Some? && !(effects <= cx.scope.value) then Failing("effect-scope cannot grant effects", s)
      else First(Cfg(cx.(scope := Some(effects)), TSeq(g, ids, env),
                     if s.alloc.None? then s.(alloc := Some(DEFAULT_ALLOC_BUDGET)) else s))
    case TMap(cb, items, acc) =>
      if items == [] then Now(Return(Ok(List(acc)), s)) else First(Cfg(cx, TCallback(cb, [items[0]]), s))
    case TCallback(cb, args) => PlanCallback(rt, cx, cb, args, s)
  }

  /** What a task does once its first part ended with `o` in state `s`. */
  function After(rt: Registry, c: Cfg, o: Outcome, s: State): Rest {
    var cx := c.cx;
    match c.t
    case TForm(g, call, env, name) =>
      if !call.Call? || name !in rt.builtins || |call.args| < MinArgs(rt.builtins[name].handler) then Return(o, s)
      else AfterForm(rt, cx, g, call, env, rt.builtins[name].handler, c.s, o, s)
    case TScoped(_, _, _, _) => Return(o, if c.s.alloc.None? then s.(alloc := None) else s)
    case TCall(g, call, env) => if o.Ok? then Goto(Cfg(cx, TApply(g, call, env, o.v), s)) else Return(o, s)
    case TApply(g, call, env, callee) =>
      if !o.OkAll? then Return(o, s)
      else (match callee
            case Closure(addr) => Goto(Cfg(cx, TInvoke(addr, o.vs), s))
            case HostFunction(name) =>
              if name !in rt.hosts then Return(o, s)
              else Return(Answered(rt.hosts[name].f(s.w.log, o.vs)), s.(w := LogEffect(s.w, name, rt.hosts[name].effects)))
            case _ => Return(o, s))
    case TSeq(g, ids, env) => if o.Ok? && |ids| > 1 then Goto(Cfg(cx, TSeq(g, ids[1..], env), s)) else Return(o, s)
    case TArgs(g, ids, env, acc) => if o.Ok? && ids != [] then Goto(Cfg(cx, TArgs(g, ids[1..], env, acc + [o.v]), s)) else Return(o, s)
    case TLetrec(g, pairs, body, env) =>
      if o.Ok? && pairs != [] then Goto(Cfg(cx, TLetrec(g, pairs[1..], body, env), s.(w := Define(s.w, env, pairs[0].0, o.v))))
      else Return(o, s)
    case TMacro(_, _, env, _) =>
      if !o.Ok? then Return(o, s)
      else if !o.v.Syntax? then Return(Err(Error("macro expansion must return syntax")), s)
      else Goto(Cfg(cx, TExpand(o.v.spec, env), s))
    case TMap(cb, items, acc) => if o.Ok? && items != [] then Goto(Cfg(cx, TMap(cb, items[1..], acc + [o.v]), s)) else Return(o, s)
    case _ => Return(o, s)
  }

  // ---- Runs ---------------------------------------------------------------------------------

  datatype Res = OutOfLevels | Done(o: Outcome, s: State)

  ghost function Run(rt: Registry, k: nat, c: Cfg): Res
    decreases k, 0
  {
    if k == 0 then OutOfLevels
    else match Plan(rt, c)
      case Now(r) => RunRest(rt, k - 1, r)
      case First(c1) =>
        match Run(rt, k - 1, c1)
        case OutOfLevels => OutOfLevels
        case Done(o, s) => RunRest(rt, k - 1, After(rt, c, o, s))
  }

  ghost function RunRest(rt: Registry, k: nat, r: Rest): Res
    decreases k, 1
  {
    match r
    case Return(o, s) => Done(o, s)
    case Goto(c) => Run(rt, k, c)
  }
}
