/** The three-node IR: names, literals and calls, as stored nodes and as trees. */
module Ir {

  datatype Option<+T> = None | Some(value: T)

  /** Node ids are 32-bit; `MAX_ID` is never handed out because `next_id` must exceed every id. */
  const MAX_ID := 0xFFFF_FFFF

  type NodeId = n: int | 0 <= n <= MAX_ID

  /** Floats are 64-bit patterns: no result here depends on their arithmetic. */
  type FloatBits = n: int | 0 <= n < 0x1_0000_0000_0000_0000

  datatype Literal =
    | LNull
    | LBool(b: bool)
    | LInt(i: int)
    | LFloat(bits: FloatBits)
    | LStr(s: string)
    | LTuple(items: seq<Literal>)
    | LDict(entries: seq<DictEntry>)

  datatype DictEntry = DictEntry(key: string, value: Literal)

  datatype Span = Span(file: Option<nat>, start: nat, end: nat, path: Option<string>,
                       startLine: nat, startCol: nat, endLine: nat, endCol: nat)

  datatype Node =
    | Name(id: NodeId, identifier: string)
    | Lit(id: NodeId, value: Literal)
    | Call(id: NodeId, callee: NodeId, args: seq<NodeId>)
  {
    /** Callee first, then the arguments in order. */
    function Children(): seq<NodeId> {
      if Call? then [callee] + args else []
    }
  }

  datatype ExprSpec =
    | NameSpec(identifier: string, span: Option<Span>)
    | LitSpec(value: Literal, span: Option<Span>)
    | CallSpec(callee: ExprSpec, args: seq<ExprSpec>, span: Option<Span>)

  /** Number of nodes a tree occupies once inserted. */
  function Size(e: ExprSpec): (n: nat)
    ensures n > 0
    decreases e, 0
  {
    match e
    case NameSpec(_, _) => 1
    case LitSpec(_, _) => 1
    case CallSpec(callee, args, _) => 1 + Size(callee) + SizeAll(args)
  }

  function SizeAll(es: seq<ExprSpec>): (n: nat)
    decreases es
  {
    if es == [] then 0 else Size(es[0]) + SizeAll(es[1..])
  }

  /** Every identifier in the tree is non-empty, as the node constructors demand. */
  predicate NamesOk(e: ExprSpec)
    decreases e, 0
  {
    match e
    case NameSpec(identifier, _) => identifier != ""
    case LitSpec(_, _) => true
    case CallSpec(callee, args, _) => NamesOk(callee) && AllNamesOk(args)
  }

  predicate AllNamesOk(es: seq<ExprSpec>)
    decreases es
  {
    es == [] || (NamesOk(es[0]) && AllNamesOk(es[1..]))
  }

  predicate NoDup<T(==)>(s: seq<T>) {
    forall i, j :: 0 <= i < j < |s| ==> s[i] != s[j]
  }

  lemma {:induction false} SubsetSize<T>(a: set<T>, b: set<T>)
    requires a <= b
    ensures |a| <= |b| && (|a| == |b| ==> a == b)
    decreases a
  {
    if a == {} {
      if b != {} { assert |b| > 0; }
    } else {
      var x :| x in a;
      SubsetSize(a - {x}, b - {x});
      assert |a| == |a - {x}| + 1 && |b| == |b - {x}| + 1;
      assert a == (a - {x}) + {x} && b == (b - {x}) + {x};
    }
  }
}
