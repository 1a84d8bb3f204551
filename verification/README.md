# A verified model of the CAAP core

CAAP is a small language kernel written in Rust. This project models its evaluator, its IR graph, the value
boundary of its runtime library and the stateful parts of its runtime and language server. It proves what
those parts promise for all inputs and all runs.

`dafny verify dfyconfig.toml` checks everything.

## How it is laid out

**Evaluation.** `Semantics` says what a program means: closure calls simply recurse, and there are no tail tokens, no
trampoline, no depth and no step limit. Each piece of work is a `Task` with a first part (`Plan`) and a continuation
(`After`). `Run` drives them and takes a number of nested levels as its only bound. `Depth` adds the depth limit to
that, and nothing else: evaluating a node takes one level while it lasts, work that belongs to another graph starts
over, and a call a closure makes to itself in tail position runs at the depth of its invocation.

`Laws`, `FormLaws` and `ScopeLaws` are the rules of the language. Each says, for one kind of node, call or form, that
it ends with a given outcome in a given state if and only if its parts end in a stated way. They do not mention `Plan`
or `After`: a law speaks of how the parts end, of the new state written out, and of the notions of `Reading` (which
binding a name has, which values are false, what a literal denotes, which names an invocation binds to which
arguments) and of `Operands` (the shapes of parameter lists, bindings, clauses, patterns and targets on the graph),
and these are stated without the functions that compute them.

`Evaluator` is the evaluator as it runs: one object with `tailArmed`, `handlerTail`, `evalDepth`, `stepBudget` and
`effectScope`, a trampoline, sub-evaluators, and an allocation cell they share. Every method of it meets one contract,
`Correct`:

- an outcome that is no fuel or step limit and no tail signal is the outcome of the depth-limited run, in the same
  final state (environments, closures, graphs, log of effects and charges, remaining budget); too deep is one of
  these outcomes, so it is reported exactly when the depth-limited run is too deep;
- a fuel limit is reported only if that run needs more levels;
- a tail signal is the one of the closure whose tail position is being evaluated, and stands for calling it at the
  depth it was invoked at;
- depth, scope and tokens are as they were at entry, and each node entered has taken one step from the step budget;
- each effect let through lies inside the active scope, and each charge is taken from the shared budget.

`Runs` and `DepthRuns` hold the theory of runs (determinism, monotonicity, refinement), `TailLoops` which places take
depth, an endless loop in one level of it, and nested calls that exhaust any depth. `Safety` proves effect-scope
safety and conservation of the allocation budget for whole runs. Methods of the evaluator take `fuel`, since an
evaluation may not end; `Suspended` marks a run cut short by it, and `EvalNode` states the result without it.

**The graph.** `Tables` has the tables of a graph as a value, the notions of forest and integrity, and expressions
read back from nodes. `SpecInsert` and `GraphEdit` define inserting, erasing and replacing on tables and prove what
they keep and what they mean; `InsertLaws` and `GraphFrames` say, table by table, which entries are new, gone or the
same afterwards. `Graph` is the mutable object, whose methods update its fields in place and are proved against those
definitions. `Acyclicity` is the three-colour walk, `Checks` the validator's checks, `Template` the sorted snapshots.

**The value boundary.** `DirectAbi` says which heap blocks a raw value owns when it encodes a value, and how it
decodes; `AbiLaws` is the layout and what each raw value is read as. `Leaks` adds to a value the order in which each
of its maps yields its entries, and says what a refused encoding leaves allocated. `DirectHeap` is the heap that
encoding and freeing change. `Base64` and `Json` are the second encoding.

**Runtime and language server.** `Rand` (rejection sampling), `LexPath` (lexical normalisation on path text),
`FileLines` (chunked line reading), `FsHandles` and `NetHandles` (handle tables), `Positions` and `TextSync`
(incremental edits), `Outline` (document symbols). `Encodings` has UTF-8 and UTF-16 by what their code units decode
to.

## Where the code differs from what is said about it

- `replace_subtree` does not check whether the new tree is an ancestor of the old one. `GraphEdit.ReplaceKeepsForest`
  proves that the forest is kept exactly when it is not, and `GraphEdit.ReplaceByAncestorInstance` shows one where it is.
- A comment in `caap-sys-runtime/src/ffi.rs` says that an encoded byte string never collides with a map. A map whose
  only entry is `$caap_b64` with a string does. `Json.RoundTripExactly` gives the exact condition and
  `Json.TagMapComesBackAsBytes` an instance.
- A comment in `caap-sys-runtime/src/net.rs` calls the handle ranges disjoint. Neighbouring ranges overlap in 24 ids.
  `NetHandles.FreeOfAboveExactly` and `NetHandles.FreeOfBelowExactly` say exactly when a new id cannot be in a
  neighbouring table, and the `Store` methods when handles stay in one table each. `NetHandles.RangesOverlap`,
  `NetHandles.StaleOverlap` and `NetHandles.HoleIsReused` are instances.
- A comment in `caap-sys-runtime/src/rand.rs` allows a span of 2^64. The upper bound is exclusive, so a span is at most
  2^64 - 1 and the branch for the full range is never taken.
- Encoding a map for the C boundary returns early on a key with a NUL byte, without releasing entries encoded before
  it. `DirectHeap.Heap.Encode` states exactly what stays allocated, `Leaks.LeaksExactly` for which values some order
  of entries leaves anything, and `Leaks.LeakInstance` shows it for a map of two entries.

## Model

| member | source | states |
|---|---|---|
| Runs.Mono | caap/src/eval.rs:447-503 | giving plain recursion more levels never changes a result it reached |
| Runs.Deterministic | caap/src/eval.rs:447-503 | a configuration has at most one outcome and final state |
| Runs.RunSettles | caap/src/error.rs:170-172 | tail signals and depth or step limits are never outcomes of plain recursion |
| Reading.LookupExactly | caap/src/eval.rs:563-608 | a name has a value exactly if that is its binding in the nearest frame outwards that binds it |
| Reading.BindsExactly | caap/src/eval.rs:1277-1321 | an invocation is accepted exactly if its arguments fit its parameters; then each name has the argument at the last position with that name, and a rest parameter has the list of all arguments from its position on |
| Reading.ParameterInScope | caap/src/eval.rs:841-843 | in the frame of an invocation, the i-th parameter stands for the i-th argument unless a later one has the same name |
| Reading.RestInScope | caap/src/eval.rs:1296-1321 | a rest parameter stands for the list of the remaining arguments |
| Reading.OtherNamesInScope | caap/src/eval.rs:841-843 | every other name stands for what it stood for where the closure was made |
| Reading.TruthyExactly | caap/src/values.rs:236-256 | false are null, false, 0, both float zeros and empty strings, tuples, lists and maps, and nothing else |
| Reading.FloatEqExactly | caap/src/builtins/control_flow.rs:620-627 | two floats match if they are the same number: NaN matches nothing, and the zeros each other |
| Reading.LiteralDenotes | caap/src/values.rs:262-287 | a literal denotes the value of its kind, tuples item by item, maps with the last value of a repeated key |
| Operands.ListedExactly | caap/src/builtins/control_flow.rs:528-542 | the items of a group are its arguments, or callee and arguments where the callee is no `__group__` name |
| Operands.ParamsExactly | caap/src/builtins/control_flow.rs:397-436 | the parameter names read from each accepted shape, and exactly these shapes are accepted |
| Operands.BindShapeExactly | caap/src/builtins/control_flow.rs:440-508 | which first operands bind a name in place, bind nothing, or bind a list of pairs in a scope |
| Operands.CatchExactly | caap/src/builtins/control_flow.rs:679-724 | a second operand is a catch clause exactly if it is a group of `catch`, a name and a body |
| Operands.LeaveTargetExactly | caap/src/builtins/control_flow.rs:546-558 | a target is an integer literal, taken modulo 2^32 |
| Operands.PatternExactly | caap/src/builtins/control_flow.rs:595-676 | what each pattern fits and binds, what it misses, and that anything else is malformed |
| Operands.ClausesExactly | caap/src/builtins/control_flow.rs:561-593 | clauses are non-empty groups: a pattern and a body |
| Operands.ChoiceExactly | caap/src/builtins/control_flow.rs:308-320 | the chosen clause is the first whose pattern fits, all earlier ones missing; none is chosen exactly if all miss |
| Laws.LiteralLaw | caap/src/eval.rs:447-480 | a literal node ends with the value it denotes, and nothing happens |
| Laws.NameLaw | caap/src/eval.rs:563-608 | a name node ends with its nearest binding, else with the public builtin of that name, else refused |
| Laws.NamedCallLaw | caap/src/eval.rs:619-661 | a call whose callee is a name does what calling what that name stands for does: any builtin for an internal marker, else a binding, else a public builtin; else refused |
| Laws.CallLaw | caap/src/eval.rs:661-664 | any other callee is evaluated first, and its value called |
| Laws.SequenceLaw | caap/src/eval.rs:506-512 | a sequence ends with the outcome of its last node, or of the first that is no value; an empty one is null |
| Laws.ArgsLaw | caap/src/eval.rs:1326-1336 | arguments end with their values from left to right, or with the first that is no value |
| FormLaws.AdmissionExactly | caap/src/eval.rs:1166-1201 | a call is admitted exactly in the right phase, with all its effects in the active scope and with a fitting number of arguments |
| FormLaws.ChargeExactly | caap/src/eval.rs:394-407 | a charge is refused exactly if it exceeds an active budget, and otherwise reduces it by that much |
| FormLaws.BuiltinLaw | caap/src/eval.rs:666-692 | an admitted builtin leaves its trace and does what its form does; any other call of it is refused |
| FormLaws.HostLaw | caap/src/eval.rs:718-741 | an admitted host function answers to the values of its arguments |
| FormLaws.ClosureLaw | caap/src/eval.rs:693-716 | a closure is invoked with the values of its arguments, evaluated where it is called |
| FormLaws.InvokeLaw | caap/src/eval.rs:828-900 | an invocation is its body run in a new frame with its arguments, inside the frame the closure was made in; refused if they do not fit |
| FormLaws.NotCallableLaw | caap/src/eval.rs:742 | nothing else can be called |
| FormLaws.MacroLaw | caap/src/eval.rs:902-918 | a macro gets its arguments as syntax; the syntax it returns is expanded where it was called |
| FormLaws.MacroRefused | caap/src/eval.rs:902-918 | arguments that cannot be quoted or do not fit are refused |
| FormLaws.ExpandLaw | caap/src/eval.rs:971-991 | an expansion ends as its root node in a new graph, which reads as the expansion and has no internal markers |
| FormLaws.ExpandRefused | caap/src/eval.rs:971-976 | an expansion that cannot be inserted is refused |
| FormLaws.TooFewLaw | caap/src/builtins/control_flow.rs:18-388 | a form with fewer operands than it reads is refused |
| FormLaws.IfLaw | caap/src/builtins/control_flow.rs:20-38 | `if` ends as its second operand after a condition that is not false, else as its third, or with null |
| FormLaws.DoLaw | caap/src/builtins/control_flow.rs:81-95 | `do` ends as the sequence of its operands |
| FormLaws.CodeLaw | caap/src/builtins/control_flow.rs:97-138 | `lambda` and `macro` end with new code of these parameters, body, environment and graph, or are refused |
| FormLaws.BindHereLaw | caap/src/builtins/control_flow.rs:144-194 | `bind` of a name binds the value in the current frame, then runs the body there, or is null without one |
| FormLaws.BindScopeLaw | caap/src/builtins/control_flow.rs:144-194 | `bind` of pairs works in one new frame that starts with every name null |
| FormLaws.LetrecLaw | caap/src/builtins/control_flow.rs:510-526 | the pairs are evaluated and bound in order in that frame, then the body runs in it |
| FormLaws.BindRestLaw | caap/src/builtins/control_flow.rs:144-194 | `bind` of null just runs its body; every other first operand is refused |
| FormLaws.MatchLaw | caap/src/builtins/control_flow.rs:295-323 | `match` ends as the body of the clause it takes, in a new frame with what the pattern binds; null if none fits, an error if one is malformed |
| FormLaws.TryLaw | caap/src/builtins/control_flow.rs:345-387 | without a clause, a thrown value or error becomes null, and anything else passes |
| FormLaws.TryCatchLaw | caap/src/builtins/control_flow.rs:345-387 | with one, its body runs in a new frame with the thrown value, or a map of the message, under its name |
| FormLaws.ThrowLaw | caap/src/builtins/control_flow.rs:326-336 | `throw` throws the value of its operand |
| FormLaws.BlockLaw | caap/src/builtins/control_flow.rs:225-245 | `block` ends as its sequence, except that a leave for this very block ends it with the value carried |
| FormLaws.LeaveLaw | caap/src/builtins/control_flow.rs:250-268 | `leave` leaves for its target with the value of its second operand, or null |
| ScopeLaws.EffectScopeLaw | caap/src/builtins/effects.rs:5-42 | the tags must be a list of different strings; then the body runs under exactly these, refused if one is not active already |
| ScopeLaws.ScopedLaw | caap/src/eval.rs:305-322 | the same for given tags: on the active budget, or on a new one of 64000000 that is gone afterwards |
| ScopeLaws.ListLaw | caap/src/builtins/mutable.rs:14-26 | `list` gives the values of its operands if the size limit and the budget allow it, and pays for them |
| ScopeLaws.SequenceMapLaw | caap/src/builtins/sequences.rs:98-116 | `map` checks and pays for the whole result first, and then maps |
| ScopeLaws.MapLaw | caap/src/builtins/sequences.rs:110-114 | the result lists the callback's answers in order; the first that is no value ends it |
| ScopeLaws.EagerLaw | caap/src/eval.rs:1132-1164 | a plain builtin answers to the values of its operands |
| ScopeLaws.CallbackLaw | caap/src/eval.rs:789-826 | a closure called back is invoked; a host function or plain eager builtin answers exactly if admitted; all else is refused |
| ScopeLaws.FormCallLaw | caap/src/eval.rs:619-692 | the node of an admitted builtin call ends as its form does |
| ScopeLaws.MissingLaw | caap/src/eval.rs:447-503 | a node that is not there, or whose callee is not, is refused |
| Depth.SameOrTooDeep | caap/src/eval.rs:409-440 | wherever plain recursion ends, it ends under a depth limit too, in the same way or too deep |
| Depth.DepthAgrees | caap/src/eval.rs:409-440 | an outcome under a depth limit other than too deep is plain recursion's, in the same state |
| Depth.MoreRoom | caap/src/eval.rs:324-330 | whatever fits in some depth comes out the same in more |
| Depth.EnoughRoom | caap/src/eval.rs:409-440 | as many levels of depth as plain recursion nests are enough |
| DepthRuns.BehavesVia | caap/src/eval.rs:619-744 | a correct result for what some piece of work comes down to is one for that work, for values, failures, limits and tail signals alike |
| DepthRuns.FirstBehaves | caap/src/eval.rs:619-744 | a result for the first part of some work carries over to all of it: cut short in the same way, or continued, or returned |
| DepthRuns.BehavesExactly | caap/src/eval.rs:523-561 | where the depth-limited run ends within the fuel given, the trampolining evaluator gives the same outcome in the same state, too deep included |
| DepthRuns.TailLoopNeverTooDeep | caap/src/eval.rs:828-859 | if every round of a loop by tail self-calls fits in the depth there is, no number of rounds is too deep |
| TailLoops.OneRound | caap/src/eval.rs:693-707 | a round of a closure that only calls itself takes one level and comes down to the next round with none taken |
| TailLoops.SelfLoopNeverTooDeep | caap/src/eval.rs:834-838 | with one level of depth that loop goes on for any number of levels and is never too deep |
| TailLoops.NodeTakesOneLevel | caap/src/eval.rs:409-440 | evaluating a node is too deep without a level left, and otherwise goes on with one less |
| TailLoops.FormPlaces | caap/src/eval.rs:527-537 | what a form ends with stays in tail position for if, do, bind and match and for no other; what comes before is never in it |
| TailLoops.BodyPlace | caap/src/eval.rs:920-950 | a closure's body runs at the depth of the call in its own graph, and with the full allowance in another |
| TailLoops.NestedCallsAreTooDeep | caap/src/eval.rs:409-440 | a closure that calls itself and has more to do afterwards runs out of any depth |
| Safety.RunSafe | caap/src/eval.rs:305-322 | over a whole run, through closures, callbacks, macros and nested scopes: effects stay inside the scope, code and graphs are only added to, and budget plus charges stay constant |
| Safety.EffectsStayInside | caap/src/eval.rs:1181-1201 | each effectful call let through during a run lies inside the scope the run started under |
| Safety.BudgetHolds | caap/src/eval.rs:361-407 | what a run charges is exactly what leaves the active budget, so never more than was there |
| Safety.ScopedSafe | caap/src/eval.rs:378-392 | a nested scope is safe for the outer one; a default budget it installs is gone afterwards and an outer budget is never raised |
| Evaluator.AllocCell.Charge | caap/src/eval.rs:394-407 | charges only what the budget covers, and leaves it alone otherwise |
| Evaluator.Evaluator.EnterEval | caap/src/eval.rs:409-440 | one step is paid first, then one level of depth is taken; each limit is reported exactly when it is met, and nodes entered plus remaining steps stay constant |
| Evaluator.Evaluator.Eval | caap/src/eval.rs:447-503 | Correct: the outcome of the depth-limited run from the node, with depth, scope and tokens restored on every outcome and every node entered paid for |
| Evaluator.Evaluator.EvalNode | caap/src/eval.rs:447-503 | unarmed and without a step limit: exactly the depth-limited run's outcome whenever that fits in the fuel; an outcome that is no limit is plain recursion's; no tail signal escapes |
| Evaluator.Evaluator.EvalCall | caap/src/eval.rs:619-744 | Correct for calls: only the call itself acts on the armed token, callee and arguments run unarmed |
| Evaluator.Evaluator.Apply | caap/src/eval.rs:665-744 | Correct for applying a callee; a tail self-call becomes a signal that stands for the call at the depth of the invocation |
| Evaluator.Evaluator.ApplyBuiltin | caap/src/eval.rs:666-692 | Correct: phase, effect and arity checks before the handler; the token is handed to the handler and taken back |
| Evaluator.Evaluator.ApplyHost | caap/src/eval.rs:718-741 | Correct for host functions, whose effects are checked against the scope before arguments are evaluated |
| Evaluator.Evaluator.EvalArgs | caap/src/eval.rs:1326-1336 | Correct: arguments left to right, unarmed, the first failure ends it |
| Evaluator.Evaluator.EvalSequenceWithTailToken | caap/src/eval.rs:546-561 | Correct: only the last form may answer with the token's signal |
| Evaluator.Evaluator.EvalSequence | caap/src/eval.rs:506-512 | Correct, and no tail signal comes out |
| Evaluator.Evaluator.EvalWithTailToken | caap/src/eval.rs:539-544 | Correct with the given token, and disarmed afterwards |
| Evaluator.Evaluator.EvalInTailPosition | caap/src/eval.rs:527-532 | Correct with the token of the enclosing transparent form |
| Evaluator.Evaluator.EvalSequenceInTailPosition | caap/src/eval.rs:534-537 | Correct with the token of the enclosing transparent form, for its last expression only |
| Evaluator.Evaluator.InvokeClosure | caap/src/eval.rs:828-859 | the trampoline loop is the recursive call in the depth-limited run, where every round runs at the depth of the first; no signal escapes |
| Evaluator.Evaluator.InvokeOnce | caap/src/eval.rs:841-900 | one round in a fresh frame that binds the parameters as `Reading.BindsExactly` says; a signal that comes back is this closure's and stands for the next round at the same depth |
| Evaluator.Evaluator.EvalCapturedBody | caap/src/eval.rs:920-950 | Correct when the body belongs to another graph: a sub-evaluator with the same scope and budget cell runs it with the full depth allowance |
| Evaluator.Evaluator.InvokeMacro | caap/src/eval.rs:902-918 | Correct: unevaluated arguments in, syntax out, expansion evaluated in the caller's environment |
| Evaluator.Evaluator.EvalExpansion | caap/src/eval.rs:971-991 | Correct for an expansion inserted into a fresh graph and run under the same scope and budget with the full depth allowance |
| Evaluator.Evaluator.InvokeCallback | caap/src/eval.rs:789-826 | Correct: callbacks meet the same phase, effect and arity checks as calls |
| Evaluator.Evaluator.InvokeHandler | caap/src/builtins/control_flow.rs:18-388 | Correct for every modelled form; only if, do, bind and match pass the token on |
| Evaluator.Evaluator.FormCode | caap/src/builtins/control_flow.rs:97-138 | Correct for lambda and macro: a new piece of code with its parameters, body and environment |
| Evaluator.Evaluator.FormThrow | caap/src/builtins/control_flow.rs:326-336 | Correct: the value is evaluated unarmed and thrown |
| Evaluator.Evaluator.FormBlock | caap/src/builtins/control_flow.rs:225-245 | Correct: a leave for this block ends here, any other passes |
| Evaluator.Evaluator.FormIf | caap/src/builtins/control_flow.rs:20-38 | Correct, the chosen branch in tail position; which branch that is says `FormLaws.IfLaw` |
| Evaluator.Evaluator.FormBind | caap/src/builtins/control_flow.rs:144-194 | Correct for the three shapes of bind |
| Evaluator.Evaluator.BindHere | caap/src/builtins/control_flow.rs:144-194 | Correct for defining in place, the body in tail position |
| Evaluator.Evaluator.EvalBindPairs | caap/src/builtins/control_flow.rs:510-526 | Correct for recursive bindings: all names exist before the first value is computed |
| Evaluator.Evaluator.FormMatch | caap/src/builtins/control_flow.rs:295-323 | Correct, the chosen arm in tail position with its bindings in a child scope |
| Evaluator.Evaluator.PickClause | caap/src/builtins/control_flow.rs:308-320 | all clauses are checked for shape first, then the first fitting pattern is chosen |
| Evaluator.Evaluator.FormTry | caap/src/builtins/control_flow.rs:345-388 | Correct: thrown values and plain errors are caught, limits, leave and tail signals pass |
| Evaluator.Evaluator.FormLeave | caap/src/builtins/control_flow.rs:250-268 | Correct for leaving an enclosing block with a value |
| Evaluator.Evaluator.FormEffectScope | caap/src/builtins/effects.rs:5-25 | Correct: the tags are evaluated, then the body runs under the narrower scope and a budget |
| Evaluator.Evaluator.WithEffectScope | caap/src/eval.rs:305-322 | Correct: refuses to widen, and the previous scope and budget are back on success and on error |
| Evaluator.Evaluator.FormListOf | caap/src/builtins/mutable.rs:14-26 | Correct: the size limit first, then the allocation is charged |
| Evaluator.Evaluator.FormSequenceMap | caap/src/builtins/sequences.rs:98-116 | Correct: limit and charge before the first callback |
| Evaluator.Evaluator.MapItems | caap/src/builtins/sequences.rs:110-114 | Correct: callbacks in order, the first failure ends it |
| Tables.SpecTerminates | caap/src/graph.rs:533-551 | reading an expression back from a forest ends for every node, and no level bound changes the answer |
| Tables.UniqueRoot | caap/src/graph.rs:199-406 | every node of an accepted graph is under exactly one root |
| Tables.SpecFrame | caap/src/graph.rs:533-551 | graphs that agree on a closed set of nodes read the same expressions there |
| SpecInsert.InsertRoundTrip | caap/src/graph.rs:529-551 | insertion succeeds exactly with non-empty names and enough ids; then size-many consecutive ids are used, reading back gives the same expression with its spans, and every earlier node, link, span and expression is unchanged |
| SpecInsert.InsertGood | caap/src/graph.rs:1047-1088 | the same below any parent and on any tables whose keys are below the next id |
| SpecInsert.GrewForest | caap/src/graph.rs:1047-1088 | a forest stays a forest, with the inserted tree as one more detached root |
| InsertLaws.InsertKeeps | caap/src/graph.rs:1047-1088 | whether it succeeds or fails, an insertion changes no node, parent, span, form or marker that was there, and adds only under ids handed out since |
| InsertLaws.InsertKeepsExpressions | caap/src/graph.rs:529-551 | so every expression that was there still reads as it did |
| InsertLaws.InsertOrder | caap/src/graph.rs:1069-1082 | ids follow reading order: the call, its callee, then each argument after all nodes of the one before |
| InsertLaws.NamesMean | caap/src/graph.rs:1053-1060 | an insertion is refused for a name exactly if some part of the expression is an empty name |
| Acyclicity.Climb | caap/src/graph.rs:329-362 | one climb either finishes every node on its chain or has found a cycle |
| Acyclicity.ParentsAcyclic | caap/src/graph.rs:329-362 | the three-colour walk ends and accepts exactly the tables without a cycle of parents |
| Checks.ChecksAreIntegrity | caap/src/graph.rs:199-406 | the validator's checks together are exactly: a forest whose parentless nodes are the roots, with spans and marks on live nodes and all ids below the next |
| Checks.EmptyIntegrity | caap/src/graph.rs:199-216 | what the validator demands of a graph without nodes is exactly integrity |
| Checks.IntegrityMeans | caap/src/graph.rs:199-406 | integrity field by field: ids, distinct children, links both ways, no cycle, spans and markers on live nodes, forms listed once, parentless nodes and roots the same |
| GraphFrames.DropIsWithout | caap/src/graph.rs:455-484 | removing nodes keeps every entry, span and marker of the others, the order of the remaining forms, the next id, and the root unless it is gone |
| GraphFrames.ReplacedIsSwapped | caap/src/graph.rs:496-527 | replacing puts the new tree below the same parent at the same place, or at the same place among the forms and as root; all else stays |
| GraphEdit.EraseKeepsForest | caap/src/graph.rs:486-494 | erasing a detached tree keeps the forest |
| GraphEdit.EraseKeepsExpressions | caap/src/graph.rs:486-494 | every other node still denotes what it denoted |
| GraphEdit.EraseKeepsIntegrity | caap/src/graph.rs:486-494 | erasing a root of an accepted graph leaves an accepted graph |
| GraphEdit.ReplaceKeepsForest | caap/src/graph.rs:496-527 | replacing keeps the forest if and only if the new tree is not an ancestor of the old |
| GraphEdit.ReplaceByAncestorCycle | caap/src/graph.rs:496-527 | with an ancestor as replacement the parent links end in a cycle |
| GraphEdit.ReplaceByAncestorInstance | caap/src/graph.rs:496-527 | replacing the callee x of the accepted graph (x) by that call passes all checks and leaves no forest |
| GraphEdit.ReplaceMeaning | caap/src/graph.rs:496-527 | afterwards every node denotes its old expression with the old tree's expression replaced by the new tree's |
| GraphEdit.SpecWithSelf | caap/src/graph.rs:533-551 | putting an expression in place of itself changes nothing, so that replacement is substitution |
| GraphEdit.ReplaceGivesIntegrity | caap/src/graph.rs:496-527 | replacing by the one stray tree of an otherwise accepted graph gives an accepted graph |
| GraphEdit.RewriteChildren | caap/src/graph.rs:571-603 | the rewritten parent has the new child exactly where the old one was, and still no child twice |
| Graph.IRGraph.AllocateId | caap/src/graph.rs:48-55 | hands out the next id, or refuses at the end of the 32-bit range and changes nothing |
| Graph.IRGraph.InsertExprSpec | caap/src/graph.rs:1047-1088 | the recursive insertion on the object does what the specification does on tables |
| Graph.IRGraph.InsertTree | caap/src/graph.rs:529-531 | on a forest: succeeds exactly with non-empty names and enough 32-bit ids, then reads back as the expression; on success and on failure everything that was there is unchanged |
| Graph.IRGraph.AddTopLevelForm | caap/src/graph.rs:117-126 | accepts exactly detached nodes, lists each once and nothing else changes |
| Graph.IRGraph.TopLevelIndex | caap/src/graph.rs:646-651 | the index of a top-level form, if there is one |
| Graph.IRGraph.RemoveTopLevelForm | caap/src/graph.rs:175-183 | removes exactly that form from list and set; the others keep their order |
| Graph.IRGraph.ReplaceTopLevelForm | caap/src/graph.rs:163-173 | swaps a form in place, for a detached new one only |
| Graph.IRGraph.RemoveNodeStorage | caap/src/graph.rs:455-470 | the node leaves every table; all entries, spans and markers of others stay, as does the order of the forms and the next id; a root that is gone is replaced by the first form, else the least node, else 0 |
| Graph.IRGraph.RemoveSubtreeStorage | caap/src/graph.rs:472-484 | the stack loop removes exactly the nodes of the tree and returns each once |
| Graph.IRGraph.EraseDetachedSubtree | caap/src/graph.rs:486-494 | refuses attached nodes; otherwise exactly that tree leaves every table and all else stays as it was; the forest, accepted graphs and all other expressions are kept |
| Graph.IRGraph.RewriteParentChild | caap/src/graph.rs:571-603 | the parent with the child swapped, exactly when it owns that child |
| Graph.IRGraph.ReplaceSubtree | caap/src/graph.rs:496-527 | succeeds exactly when the checks pass, and never fails later; the new tree stands where the old stood, below its parent or among the forms, the old tree leaves every table, all else stays; keeps the forest exactly when the new tree is no ancestor, and then substitutes expressions at every node |
| Graph.IRGraph.ValidateIntegrity | caap/src/graph.rs:199-406 | accepts if and only if the tables have integrity, also stated field by field |
| Template.ListsUnique | caap/src/graph.rs:653-685 | a map has only one sorted listing |
| Template.ListEntries | caap/src/graph.rs:653-685 | sorting the entries met in any order gives that listing |
| Template.SequenceChecks | caap/src/graph.rs:751-947 | the template's own checks over its sequences hold exactly when no key repeats and the graph it stands for has integrity |
| Template.CollectIds | caap/src/graph.rs:713-723 | inserting into a set finds a repeated id exactly if there is one, and otherwise gives the set of ids |
| Template.CheckParentEntries | caap/src/graph.rs:778-804 | the loop accepts exactly when every entry is about live nodes and every node has one entry |
| Template.Validate | caap/src/graph.rs:711-950 | accepts exactly templates without repeated keys whose graph has integrity |
| Template.SnapshotUnique | caap/src/graph.rs:653-685 | the template does not depend on the order in which maps are walked |
| Template.SnapshotRoundTrip | caap/src/graph.rs:653-708 | a snapshot holds its graph, and the two validators agree on it |
| Template.TablesDescribed | caap/src/graph.rs:687-708 | the graph of a template without repeated keys has exactly its nodes, parents, spans, markers, forms, root and next id, in whatever order they are listed |
| Template.ToTemplate | caap/src/graph.rs:653-685 | writes exactly the fields of the graph, each listed by rising id |
| Template.FromTemplate | caap/src/graph.rs:687-708 | every graph it builds has integrity and says, field by field, what the template says; no template with an accepted graph is refused |
| Template.RoundTrip | caap/src/graph.rs:653-708 | writing and reading back is the identity on accepted graphs and fails on all others |
| DirectAbi.ClaimDecodes | caap-sys-runtime/src/ffi.rs:634-720 | whatever encodes a value decodes to it, for every value with valid text and NUL-free keys, in no more levels than there are blocks |
| DirectAbi.ClaimFrame | caap-sys-runtime/src/ffi.rs:634-720 | an encoding depends on the blocks it owns and on no other |
| AbiLaws.Layout | caap-sys-runtime/src/ffi.rs:732-867 | an encoding has the tag 0 to 7 of its kind, its number in the field for it, its length, and a block exactly if there is something to hold |
| AbiLaws.FlatReads | caap-sys-runtime/src/ffi.rs:634-720 | any integer but 0 reads as true; bytes are read as they are, texts if they are UTF-8; tags above 7 and missing blocks are refused |
| AbiLaws.ListReads | caap-sys-runtime/src/ffi.rs:665-688 | a list reads as the values of its items, exactly if all of them do |
| AbiLaws.MapReads | caap-sys-runtime/src/ffi.rs:689-717 | a map reads as its entries, keys up to the first NUL, a later entry replacing an earlier one with the same key |
| Leaks.NulFreePlain | caap-sys-runtime/src/ffi.rs:827-833 | whether a value is refused does not depend on the order of its maps |
| Leaks.LeaksExactly | caap-sys-runtime/src/ffi.rs:827-851 | some order of entries makes a refusal leave blocks if and only if the value may leak: a map with a NUL key and an encodable entry, or a first refused part that may leak |
| Leaks.LeakInstance | caap-sys-runtime/src/ffi.rs:831-833 | for {"a": null, "\0": null} met in this order, the entry for "a" stays |
| DirectHeap.Heap.Encode | caap-sys-runtime/src/ffi.rs:732-867 | succeeds exactly on values with NUL-free keys; adds exactly the blocks the result owns, each owned once; never touches other blocks; after a refusal exactly the entries before the offending key, in the map that has it, stay allocated, so the heap is as before if and only if there are none |
| DirectHeap.Heap.EncodeAll | caap-sys-runtime/src/ffi.rs:799-818 | the items one by one; on a refusal the earlier ones are released |
| DirectHeap.Heap.EncodeItem | caap-sys-runtime/src/ffi.rs:803-813 | one item; if it is refused, all earlier ones are released |
| DirectHeap.Heap.EncodeEntries | caap-sys-runtime/src/ffi.rs:827-857 | the entries in the map's order, with exactly what each kind of refusal leaves |
| DirectHeap.Heap.EncodeEntry | caap-sys-runtime/src/ffi.rs:831-851 | one key and value; if the value is refused, the key and all earlier entries are released |
| DirectHeap.Heap.FreeContents | caap-sys-runtime/src/ffi.rs:889-934 | releases exactly the owned blocks, each once, and leaves no pointer, so that a second call does nothing |
| DirectHeap.Heap.FreeAll | caap-sys-runtime/src/ffi.rs:906-916 | releases exactly what the items own and nulls every slot |
| DirectHeap.Heap.FreeEntries | caap-sys-runtime/src/ffi.rs:917-931 | releases exactly the keys and what the values own |
| DirectHeap.Heap.ThereAndBack | caap-sys-runtime/src/ffi.rs:625-934 | encoding, decoding and freeing, even twice, gives the value back and leaves the heap as it was |
| Base64.EncodesRfc4648 | caap-sys-runtime/src/ffi.rs:469-491 | the text is the one section 4 of RFC 4648 assigns to the bit string: for each six-bit group the character at that index of the 64-character table, then = up to a multiple of four |
| Base64.Encode | caap-sys-runtime/src/ffi.rs:469-491 | the chunk loop computes that text |
| Base64.Decode | caap-sys-runtime/src/ffi.rs:493-525 | accepts exactly texts of a length divisible by four over the 64 characters and =; each four characters then stand for the first bits of their table indices, = for zeros and for one byte fewer, but at least one |
| Base64.DecodeChunk | caap-sys-runtime/src/ffi.rs:508-523 | four characters give one to three bytes, depending on the padding among them |
| Base64.RoundTrip | caap-sys-runtime/src/ffi.rs:469-525 | decoding the encoding of any byte string gives it back |
| Base64.DecodesExactly | caap-sys-runtime/src/ffi.rs:493-525 | the same for the specification that the loop is proved against |
| Json.DocumentExactly | caap-sys-runtime/src/ffi.rs:532-564 | the document of each kind of value, byte strings as the one-entry object of `$caap_b64` and their RFC 4648 text, and no other |
| Json.RefusedExactly | caap-sys-runtime/src/ffi.rs:421-462 | documents are refused exactly for whole numbers beyond 63 bits and for tagged strings that are no Base64, anywhere in them |
| Json.TaggedReads | caap-sys-runtime/src/ffi.rs:446-454 | a tagged object is read as the bytes its string stands for |
| Json.EncodableExactly | caap-sys-runtime/src/ffi.rs:532-564 | a value has a JSON form if and only if all its floats are finite |
| Json.RoundTripExactly | caap-sys-runtime/src/ffi.rs:421-564 | a value comes back unchanged if and only if its floats are finite and no map in it is just the byte tag with a string |
| Json.TagMapComesBackAsBytes | caap-sys-runtime/src/ffi.rs:446-454 | such a map comes back as a byte string |
| Rand.RejectIsRemainder | caap-sys-runtime/src/rand.rs:69-72 | the 64-bit expression computes 2^64 modulo the span |
| Rand.AcceptedBelow | caap-sys-runtime/src/rand.rs:73-78 | the accepted draws are those below the largest multiple of the span |
| Rand.MostAccepted | caap-sys-runtime/src/rand.rs:73-78 | more than half of all draws are accepted |
| Rand.ExactlyUniform | caap-sys-runtime/src/rand.rs:68-79 | every residue has exactly floor(2^64 / span) accepted draws |
| Rand.UniformBelow | caap-sys-runtime/src/rand.rs:68-79 | the loop uses the first accepted draw, and fails only if there is none |
| Rand.RandInt | caap-sys-runtime/src/rand.rs:31-50 | rejects exactly empty ranges; otherwise a value of [lo, hi) for all 64-bit bounds, without overflow |
| Rand.RandIntUniform | caap-sys-runtime/src/rand.rs:31-50 | every integer of the range stands for equally many accepted draws |
| LexPath.NormalizeLexically | caap-sys-runtime/src/path.rs:100-130 | the loop over the path buffer computes the text of the normal form, "." for nothing |
| LexPath.RenderParses | caap-sys-runtime/src/path.rs:100-130 | the components of the text of a normal form are that normal form |
| LexPath.NormalComponents | caap-sys-runtime/src/path.rs:100-130 | the output is "." or some ".." then names, or the root then names |
| LexPath.NormalKeepsMeaning | caap-sys-runtime/src/path.rs:98-130 | from every directory the normalised path leads where the path leads |
| LexPath.NormalTwice | caap-sys-runtime/src/path.rs:100-130 | normalising twice changes nothing |
| LexPath.NormalIsCanonical | caap-sys-runtime/src/path.rs:98-130 | two paths have the same normal text if and only if they lead to the same place from every directory |
| LexPath.NormalLeads | caap-sys-runtime/src/path.rs:98-130 | on the text alone, split at its separators: the normalised path leads from every directory to the same place and to no other |
| LexPath.OnlySplit | caap-sys-runtime/src/path.rs:100-130 | a text has only one split at its separators |
| FileLines.OpenFile.ReadLine | caap-sys-runtime/src/fs.rs:454-491 | whatever the short reads, the line is the content from here through the first newline or to the end; the file stands behind it even when it is not text |
| FileLines.OpenFile.Gather | caap-sys-runtime/src/fs.rs:464-484 | the chunk loop with seeking back gathers what reading byte by byte gathers |
| FileLines.LinesPartition | caap-sys-runtime/src/fs.rs:454-491 | repeated calls split the rest of the file into lines and lose nothing |
| FileLines.OnlySplit | caap-sys-runtime/src/fs.rs:454-491 | there is no other way to split it into lines |
| FsHandles.FsState.AllocFile | caap-sys-runtime/src/fs.rs:70-82 | fails exactly at 1024 live handles, and otherwise returns the least unused id, as a scan would |
| FsHandles.FsState.AllocDir | caap-sys-runtime/src/fs.rs:85-97 | the same for directories, in their own range |
| FsHandles.FsState.OpenFile | caap-sys-runtime/src/fs.rs:399-429 | a full table is refused before the system is asked; otherwise only the new entry is added; live and freed ids still partition the range |
| FsHandles.FsState.CloseFile | caap-sys-runtime/src/fs.rs:431-439 | removes exactly that handle and recycles it, or reports it unknown |
| FsHandles.FsState.OpenDir | caap-sys-runtime/src/fs.rs:565-571 | the least unused directory id, only that entry added |
| FsHandles.FsState.CloseDir | caap-sys-runtime/src/fs.rs:573-581 | removes exactly that handle and recycles it, or reports it unknown |
| FsHandles.FsState.Disjoint | caap-sys-runtime/src/fs.rs:12-15 | no id is a file handle and a directory handle |
| FsHandles.FreedIsLeast | caap-sys-runtime/src/fs.rs:70-73 | the lowest freed id is the least unused one, and the cap is not reached |
| NetHandles.AllocateNetHandle | caap-sys-runtime/src/net.rs:70-82 | fails exactly at the cap, since below it the scan always finds the least free id |
| NetHandles.NetState.StoreListener | caap-sys-runtime/src/net.rs:53-57 | adds only the least free id; handles stay in one table each exactly when it is in no other; with fewer than 1000 entries ids stay in their own range |
| NetHandles.NetState.StoreSocket | caap-sys-runtime/src/net.rs:59-63 | the same for sockets |
| NetHandles.NetState.StoreUdp | caap-sys-runtime/src/net.rs:47-51 | the same for UDP sockets |
| NetHandles.NetState.Close | caap-sys-runtime/src/net.rs:347-358 | closes in the first table that has the handle; every entry for it goes exactly when at most one table held it, and nothing else ever goes |
| NetHandles.NetState.OneTable | caap-sys-runtime/src/net.rs:17-21 | while ids are in their own ranges no handle is in two tables |
| NetHandles.FreeOfAboveExactly | caap-sys-runtime/src/net.rs:17-21 | a new id cannot be in the next table up exactly when one of the first thousand ids is free |
| NetHandles.FreeOfBelowExactly | caap-sys-runtime/src/net.rs:17-21 | it cannot be in the next table down exactly when all of the first 24 ids are in use |
| NetHandles.RangesOverlap | caap-sys-runtime/src/net.rs:17-21 | with listeners 1001 to 2000 open, the next listener gets 2001, as does the first socket |
| NetHandles.StaleOverlap | caap-sys-runtime/src/net.rs:59-63 | with only listener 2001 left open, the first socket gets 2001 too |
| NetHandles.HoleIsReused | caap-sys-runtime/src/net.rs:65-82 | the number of open handles does not decide it: with 1000 open the next id can be 1500 |
| Positions.IndexPoints | caap-lsp/src/main.rs:342-368 | a position always leads to the one boundary it points to: no earlier boundary reaches it, and this one does or ends the line or the text |
| Positions.PointsToOne | caap-lsp/src/main.rs:342-368 | there is only one such boundary |
| Positions.IndexInverts | caap-lsp/src/main.rs:342-368 | looking up the position of a boundary gives the boundary back |
| Positions.IndexMonotone | caap-lsp/src/main.rs:342-368 | later positions lead to later boundaries |
| Positions.PosMeans | caap-lsp/src/main.rs:342-368 | the position of a boundary counts the newlines before it and the UTF-16 units since the last of them |
| Positions.OffsetMeans | caap-lsp/src/main.rs:342-368 | its byte offset counts the UTF-8 bytes before it |
| Encodings.Utf16Exactly | caap-lsp/src/main.rs:361-365 | a character has one UTF-16 form: itself, or the surrogate pair that recombines to it |
| Encodings.Utf8Exactly | caap-lsp/src/main.rs:361-365 | a character has one UTF-8 form: the bytes that carry its bits and are no longer than needed |
| Encodings.Utf8Accepts | caap-sys-runtime/src/ffi.rs:648-651 | bytes are accepted as text if and only if they are the UTF-8 form of a text |
| Positions.PositionToByte | caap-lsp/src/main.rs:345-368 | the two loops compute the number of UTF-8 bytes before the boundary the position points to |
| TextSync.ApplyContentChange | caap-lsp/src/main.rs:328-340 | splicing at byte offsets is replacing between boundaries |
| TextSync.ReplacesRange | caap-lsp/src/main.rs:328-340 | a range between two boundaries replaces exactly the text between them, so the reverse change undoes it |
| TextSync.BackwardsInserts | caap-lsp/src/main.rs:333-337 | a range with its ends the wrong way round only inserts |
| TextSync.AppliesInOrder | caap-lsp/src/main.rs:328-340 | changes apply one after the other, each to what the ones before it left; a full change leaves nothing of them |
| TextSync.BurstMeans | caap-lsp/src/main.rs:263-326 | after a burst each document is its own changes, in order, applied to it, an unknown one starting out empty; the others stay |
| TextSync.Server.HandleChange | caap-lsp/src/main.rs:919-935 | one notification by itself applies its changes in order to that document and refreshes it once |
| TextSync.Server.ApplyNotification | caap-lsp/src/main.rs:297-326 | gathering one more notification keeps order and texts as first-seen order and as if applied |
| TextSync.Server.CoalesceChanges | caap-lsp/src/main.rs:263-295 | a burst leaves every document as handling the notifications one by one does, and the documents refreshed are each changed one, once, in first-seen order |
| TextSync.FirstSeenOnce | caap-lsp/src/main.rs:314-322 | each changed document is listed, and once |
| TextSync.FirstSeenOrder | caap-lsp/src/main.rs:314-322 | a document listed before another is changed at a point up to which the other is not |
| Outline.SortedOk | caap-lsp/src/symbols.rs:36-44 | the sort orders by start and then by descending end, and loses nothing |
| Outline.SortedStable | caap-lsp/src/symbols.rs:36-44 | definitions with equal spans keep their order |
| Outline.DocumentSymbols | caap-lsp/src/symbols.rs:31-72 | the pre-order walk of the outline is the sorted definitions; siblings never overlap; children lie inside their parents if and only if all spans are nested or apart |
| Outline.NestedIsLaminar | caap-lsp/src/symbols.rs:46-72 | in an outline whose children lie inside their parents, any two spans are nested or apart |
| Outline.Attach | caap-lsp/src/symbols.rs:74-82 | the finished symbol becomes the last child of the innermost open one, or the last root |

## Left out

- Evaluator.Evaluator.Eval: fuel bounds the model's own recursion; a run it cuts short is `Suspended`, which implies that the depth-limited run is not done within that many levels. Environments are plain maps, so lexical-address caches and dotted names are not modelled. Error values carry short fixed messages instead of the original wording and call frames.
- Evaluator.Evaluator.EvalExpansion: nothing is claimed about the step budget end to end, since sub-evaluators get a copy or none.
- DepthRuns.BehavesVia: an exhausted step budget is allowed as an outcome of any work; what is stated about steps is the bound per evaluator, in `Correct`: nodes entered plus remaining steps stay constant.
- FormLaws.MatchLaw: that a malformed clause or pattern is an error is stated, not which of the short messages it carries.
- Forms `while`, `or`, `and`, lexical assignment and named blocks beyond their identifier: they run unarmed like `block` and would add easy members.
- Mutable lists and maps as shared objects: values are immutable here.
- Validation of effect tag names and the set of all builtins: a builtin is its metadata plus an arbitrary function of its arguments.
- Debug hooks, live tracing, stack growth, the PEG parser, the query engine and the `.caap` standard library.
- Graph.IRGraph.PutNode: the raw storage write trusts its caller, as the original does; it is used only inside insertion.
- `delete_node`, `insert_top_level_before`, `insert_top_level_after` and marker setters of the graph: single writes around the operations modelled.
- DirectAbi.Decode: alignment checks of the decoder are not modelled.
- DirectHeap.Heap.FreeList: slots of the freed array are written back once after the loop, not one by one; the blocks released are the same.
- DirectAbi.ClaimDecodes: reading outside a live block, which is undefined in the original, counts as a decoding failure.
- Json.RoundTripExactly: starts from JSON documents as trees; their text form is the JSON library's.
- Base64.DecodeChunk: the shifted digits are added where the original combines bits; they never overlap.
- Rand.UniformBelow: draws are an arbitrary finite supply; nothing is said about their source.
- `rand.bytes`, `rand.float` and `rand.bool`; the other path functions; reading and writing files as a whole.
- LexPath.NormalizeLexically: Unix paths; removing the last component is modelled for buffers without doubled or trailing separators, the only ones that arise.
- FileLines.OpenFile.Read: the content does not change during a call.
- Positions.PositionToByte: the 32-bit unit counter does not wrap here; it could on a line of 2^32 - 2 or more units.
- TextSync.Server.Refresh: storing the text only; analysis, diagnostics and connection errors are not modelled.
- Outline.DocumentSymbols: the stable sort is a library call and appears as the function it computes.
- Operating system calls, sockets, processes, clocks and plugin loading; message plumbing of the language and debug servers.
