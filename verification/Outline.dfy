/** The outline of a document: definitions nested by their spans. */
module Outline {

  datatype Def = Def(name: string, start: nat, end: nat)
  datatype Symbol = Symbol(def: Def, children: seq<Symbol>)

  // ---- The order of definitions -------------------------------------------------------------------------

  /** Containers first: an earlier start, or on a tie a later end. */
  predicate Earlier(a: Def, b: Def) {
    a.start < b.start || (a.start == b.start && a.end > b.end)
  }

  /** Inserts d behind everything that is not later, so that equal spans keep their order. */
  function Insert(d: Def, ds: seq<Def>): seq<Def> {
    if ds != [] && Earlier(d, ds[|ds| - 1]) then Insert(d, ds[..|ds| - 1]) + [ds[|ds| - 1]] else ds + [d]
  }

  /** The stable sort of the definitions. */
  function Sorted(ds: seq<Def>): seq<Def> {
    if ds == [] then [] else Insert(ds[|ds| - 1], Sorted(ds[..|ds| - 1]))
  }

  ghost predicate Ordered(ds: seq<Def>) {
    forall i, j | 0 <= i < j < |ds| :: !Earlier(ds[j], ds[i])
  }

  /** The definitions with this span, in order. */
  function WithSpan(ds: seq<Def>, start: nat, end: nat): seq<Def> {
    if ds == [] then []
    else WithSpan(ds[..|ds| - 1], start, end) + if ds[|ds| - 1].start == start && ds[|ds| - 1].end == end then [ds[|ds| - 1]] else []
  }

  lemma Unsnoc(ds: seq<Def>)
    requires ds != []
    ensures ds == ds[..|ds| - 1] + [ds[|ds| - 1]]
  {
  }

  lemma {:induction false} InsertMembers(d: Def, ds: seq<Def>)
    ensures multiset(Insert(d, ds)) == multiset(ds) + multiset{d}
    ensures forall i | 0 <= i < |Insert(d, ds)| :: Insert(d, ds)[i] == d || Insert(d, ds)[i] in ds
  {
    hide Earlier;
    if ds != [] && Earlier(d, ds[|ds| - 1]) {
      InsertMembers(d, ds[..|ds| - 1]);
      Unsnoc(ds);
    }
  }

  lemma {:induction false} InsertOrdered(d: Def, ds: seq<Def>)
    requires Ordered(ds)
    ensures Ordered(Insert(d, ds))
  {
    if ds != [] && Earlier(d, ds[|ds| - 1]) {
      var front, last := ds[..|ds| - 1], ds[|ds| - 1];
      assert Ordered(front);
      InsertOrdered(d, front);
      InsertMembers(d, front);
      forall i | 0 <= i < |Insert(d, front)| ensures !Earlier(last, Insert(d, front)[i]) {
        NotBefore(ds, d, Insert(d, front)[i]);
      }
      hide Insert;
      OrderedSnoc(Insert(d, front), last);
    } else {
      forall i | 0 <= i < |ds| ensures !Earlier(d, ds[i]) {
        assert i < |ds| - 1 ==> !Earlier(ds[|ds| - 1], ds[i]);
      }
      OrderedSnoc(ds, d);
    }
  }

  lemma NotBefore(ds: seq<Def>, d: Def, x: Def)
    requires Ordered(ds) && ds != [] && Earlier(d, ds[|ds| - 1]) && (x == d || x in ds[..|ds| - 1])
    ensures !Earlier(ds[|ds| - 1], x)
  {
    if x != d {
      var k :| 0 <= k < |ds| - 1 && ds[..|ds| - 1][k] == x;
      assert ds[k] == x;
    }
  }

  lemma OrderedSnoc(ds: seq<Def>, d: Def)
    requires Ordered(ds) && forall i | 0 <= i < |ds| :: !Earlier(d, ds[i])
    ensures Ordered(ds + [d])
  {
  }

  /** Sorting orders the definitions and loses none. */
  lemma {:induction false} SortedOk(ds: seq<Def>)
    ensures Ordered(Sorted(ds)) && multiset(Sorted(ds)) == multiset(ds)
  {
    hide Insert, Ordered;
    if ds == [] {
      NothingOrdered();
    } else {
      SortedOk(ds[..|ds| - 1]);
      InsertMembers(ds[|ds| - 1], Sorted(ds[..|ds| - 1]));
      InsertOrdered(ds[|ds| - 1], Sorted(ds[..|ds| - 1]));
      Unsnoc(ds);
    }
  }

  lemma NothingOrdered()
    ensures Ordered([])
  {
  }

  /** The definition d, if this is its span. */
  function IfSpan(d: Def, start: nat, end: nat): seq<Def> {
    if d.start == start && d.end == end then [d] else []
  }

  lemma WithSpanAppend(ds: seq<Def>, d: Def, start: nat, end: nat)
    ensures WithSpan(ds + [d], start, end) == WithSpan(ds, start, end) + IfSpan(d, start, end)
  {
    assert (ds + [d])[..|ds|] == ds;
  }

  lemma {:induction false} InsertStable(d: Def, ds: seq<Def>, start: nat, end: nat)
    ensures WithSpan(Insert(d, ds), start, end) == WithSpan(ds, start, end) + IfSpan(d, start, end)
  {
    hide WithSpan;
    if ds != [] && Earlier(d, ds[|ds| - 1]) {
      var front, last := ds[..|ds| - 1], ds[|ds| - 1];
      InsertStable(d, front, start, end);
      WithSpanAppend(front, last, start, end);
      WithSpanAppend(Insert(d, front), last, start, end);
      Unsnoc(ds);
      assert IfSpan(d, start, end) == [] || IfSpan(last, start, end) == [];
      Swap(WithSpan(front, start, end), IfSpan(d, start, end), IfSpan(last, start, end));
    } else {
      WithSpanAppend(ds, d, start, end);
    }
  }

  lemma Swap(a: seq<Def>, b: seq<Def>, c: seq<Def>)
    requires b == [] || c == []
    ensures a + b + c == a + c + b
  {
  }

  /** Definitions with the same span keep their order. */
  lemma {:induction false} SortedStable(ds: seq<Def>, start: nat, end: nat)
    ensures WithSpan(Sorted(ds), start, end) == WithSpan(ds, start, end)
  {
    hide WithSpan, Insert, IfSpan;
    if ds != [] {
      var front, last := ds[..|ds| - 1], ds[|ds| - 1];
      SortedStable(front, start, end);
      InsertStable(last, Sorted(front), start, end);
      WithSpanAppend(front, last, start, end);
      Unsnoc(ds);
    }
  }

  // ---- Forests ------------------------------------------------------------------------------------------

  function Pre(s: Symbol): seq<Def>
    decreases s, 0
  {
    [s.def] + PreAll(s.children)
  }

  /** The definitions of a forest, each before its children. */
  function PreAll(fs: seq<Symbol>): seq<Def>
    decreases fs, 0, |fs|
  {
    if fs == [] then [] else PreAll(fs[..|fs| - 1]) + Pre(fs[|fs| - 1])
  }

  predicate Inside(a: Def, b: Def) { b.start <= a.start && a.end <= b.end }

  predicate Apart(a: Def, b: Def) { a.end <= b.start || b.end <= a.start }

  predicate Compatible(a: Def, b: Def) { Inside(a, b) || Inside(b, a) || Apart(a, b) }

  ghost predicate Laminar(ds: seq<Def>) {
    forall a, b | a in ds && b in ds :: Compatible(a, b)
  }

  /** Every child lies inside its parent. */
  ghost predicate Nests(s: Symbol)
    decreases s
  {
    forall c | c in s.children :: Inside(c.def, s.def) && Nests(c)
  }

  ghost predicate AllNest(fs: seq<Symbol>) {
    forall f | f in fs :: Nests(f)
  }

  /** Each sibling ends before the next begins, at every level. */
  ghost predicate Spaced(fs: seq<Symbol>)
    decreases fs
  {
    && (forall i, j | 0 <= i < j < |fs| :: fs[i].def.end <= fs[j].def.start)
    && (forall f | f in fs :: Spaced(f.children))
  }

  ghost predicate SpansOk(ds: seq<Def>) {
    forall d | d in ds :: d.start <= d.end
  }

  // ---- A spaced forest nests exactly when its spans are laminar -----------------------------------------

  lemma {:induction false} PreAllMembers(fs: seq<Symbol>, d: Def)
    ensures d in PreAll(fs) <==> exists f | f in fs :: d in Pre(f)
    decreases |fs|
  {
    hide Pre;
    if fs != [] {
      var front, last := fs[..|fs| - 1], fs[|fs| - 1];
      PreAllMembers(front, d);
      if d in PreAll(front) {
        var f :| f in front && d in Pre(f);
        assert f in fs;
      } else if d in Pre(last) {
        assert last in fs;
      } else {
        assert forall f | f in fs :: f == last || f in front;
      }
    }
  }

  lemma {:induction false} InsideRoot(s: Symbol, d: Def)
    requires Nests(s) && d in Pre(s)
    ensures Inside(d, s.def)
    decreases s
  {
    if d != s.def {
      PreAllMembers(s.children, d);
      var c :| c in s.children && d in Pre(c);
      InsideRoot(c, d);
    }
  }

  lemma {:induction false} NestedIsLaminar(fs: seq<Symbol>, a: Def, b: Def)
    requires AllNest(fs) && Spaced(fs) && a in PreAll(fs) && b in PreAll(fs)
    ensures Compatible(a, b)
    decreases fs
  {
    PreAllMembers(fs, a);
    PreAllMembers(fs, b);
    var f :| f in fs && a in Pre(f);
    var g :| g in fs && b in Pre(g);
    InsideRoot(f, a);
    InsideRoot(g, b);
    var i :| 0 <= i < |fs| && fs[i] == f;
    var j :| 0 <= j < |fs| && fs[j] == g;
    if i == j && a != f.def && b != f.def {
      NestedIsLaminar(f.children, a, b);
    }
  }

  // ---- Building the forest ------------------------------------------------------------------------------

  /** The definitions on the stack and below, in the order in which they were read. */
  function StackPre(stack: seq<Symbol>): seq<Def> {
    if stack == [] then [] else StackPre(stack[..|stack| - 1]) + Pre(stack[|stack| - 1])
  }

  function Flat(roots: seq<Symbol>, stack: seq<Symbol>): seq<Def> {
    PreAll(roots) + StackPre(stack)
  }

  /** The finished siblings before the i-th open symbol, or the finished children of the innermost one. */
  function Siblings(roots: seq<Symbol>, stack: seq<Symbol>, i: nat): seq<Symbol>
    requires i <= |stack|
  {
    if i == 0 then roots else stack[i - 1].children
  }

  ghost predicate EndBy(fs: seq<Symbol>, at: nat) {
    forall f | f in fs :: f.def.end <= at
  }

  ghost predicate Open(roots: seq<Symbol>, stack: seq<Symbol>) {
    && (forall i: nat | i <= |stack| :: Spaced(Siblings(roots, stack, i)))
    && (forall i: nat | i < |stack| :: EndBy(Siblings(roots, stack, i), stack[i].def.start))
  }

  ghost predicate ClosedBy(roots: seq<Symbol>, stack: seq<Symbol>, at: nat) {
    forall i: nat | i <= |stack| :: EndBy(Siblings(roots, stack, i), at)
  }

  ghost predicate NestedOpen(roots: seq<Symbol>, stack: seq<Symbol>) {
    && AllNest(roots)
    && (forall i | 0 <= i < |stack| :: Nests(stack[i]))
    && (forall i, j | 0 <= i < j < |stack| :: Inside(stack[j].def, stack[i].def))
  }

  /** Appends sym to the innermost open symbol. */
  function WithChild(stack: seq<Symbol>, sym: Symbol): (r: seq<Symbol>)
    ensures |r| == |stack|
  {
    if stack == [] then []
    else stack[..|stack| - 1] + [Symbol(stack[|stack| - 1].def, stack[|stack| - 1].children + [sym])]
  }

  /** Appends sym to the roots if nothing is open. */
  function WithRoot(roots: seq<Symbol>, stack: seq<Symbol>, sym: Symbol): seq<Symbol> {
    if stack == [] then roots + [sym] else roots
  }

  method Attach(roots: seq<Symbol>, stack: seq<Symbol>, sym: Symbol) returns (roots2: seq<Symbol>, stack2: seq<Symbol>)
    ensures stack2 == WithChild(stack, sym)
    ensures roots2 == WithRoot(roots, stack, sym)
  {
    if stack != [] {
      var parent := stack[|stack| - 1];
      return roots, stack[..|stack| - 1] + [parent.(children := parent.children + [sym])];
    }
    return roots + [sym], stack;
  }

  lemma PreAllAppend(fs: seq<Symbol>, s: Symbol)
    ensures PreAll(fs + [s]) == PreAll(fs) + Pre(s)
  {
    hide Pre;
    assert (fs + [s])[..|fs|] == fs;
  }

  lemma StackPreAppend(stack: seq<Symbol>, s: Symbol)
    ensures StackPre(stack + [s]) == StackPre(stack) + Pre(s)
  {
    hide Pre;
    assert (stack + [s])[..|stack|] == stack;
  }

  lemma PreWithChild(p: Symbol, s: Symbol)
    ensures Pre(Symbol(p.def, p.children + [s])) == Pre(p) + Pre(s)
  {
    PreAllAppend(p.children, s);
    hide PreAll;
    assert Pre(p) == [p.def] + PreAll(p.children);
  }

  lemma AttachFlat(roots: seq<Symbol>, stack: seq<Symbol>, sym: Symbol)
    ensures Flat(WithRoot(roots, stack, sym), WithChild(stack, sym)) == Flat(roots, stack + [sym])
  {
    StackPreAppend(stack, sym);
    if stack == [] {
      PreAllAppend(roots, sym);
      hide PreAll, Pre;
    } else {
      ParentFlat(stack, sym);
      hide PreAll, Pre, StackPre, WithChild;
    }
  }

  lemma ParentFlat(stack: seq<Symbol>, sym: Symbol)
    requires stack != []
    ensures StackPre(WithChild(stack, sym)) == StackPre(stack) + Pre(sym)
  {
    hide StackPre, Pre;
    var front, parent := stack[..|stack| - 1], stack[|stack| - 1];
    assert front + [parent] == stack;
    LastWithChild(front, parent, sym);
  }

  lemma LastWithChild(front: seq<Symbol>, parent: Symbol, sym: Symbol)
    ensures StackPre(front + [Symbol(parent.def, parent.children + [sym])]) == StackPre(front + [parent]) + Pre(sym)
  {
    hide *;
    StackPreAppend(front, parent);
    StackPreAppend(front, Symbol(parent.def, parent.children + [sym]));
    PreWithChild(parent, sym);
    Grouped(StackPre(front), Pre(parent), Pre(sym));
  }

  lemma Grouped(a: seq<Def>, b: seq<Def>, c: seq<Def>)
    ensures a + (b + c) == a + b + c
  {
  }

  lemma PushFlat(roots: seq<Symbol>, stack: seq<Symbol>, d: Def)
    ensures Flat(roots, stack + [Symbol(d, [])]) == Flat(roots, stack) + [d]
  {
    StackPreAppend(stack, Symbol(d, []));
    assert Pre(Symbol(d, [])) == [d];
    hide Pre, PreAll, StackPre;
  }

  lemma SpacedAppend(fs: seq<Symbol>, s: Symbol)
    requires Spaced(fs) && EndBy(fs, s.def.start) && Spaced(s.children)
    ensures Spaced(fs + [s])
  {
  }

  lemma SiblingsAfter(roots: seq<Symbol>, stack: seq<Symbol>, sym: Symbol, i: nat)
    requires i <= |stack|
    ensures var before := Siblings(roots, stack + [sym], i);
            Siblings(WithRoot(roots, stack, sym), WithChild(stack, sym), i) == if i < |stack| then before else before + [sym]
    ensures i < |stack| ==> WithChild(stack, sym)[i].def == (stack + [sym])[i].def
  {
  }

  lemma AttachOpen(roots: seq<Symbol>, stack: seq<Symbol>, sym: Symbol, at: nat)
    requires Open(roots, stack + [sym])
    ensures Open(WithRoot(roots, stack, sym), WithChild(stack, sym))
    ensures ClosedBy(roots, stack + [sym], at) && sym.def.end <= at
            ==> ClosedBy(WithRoot(roots, stack, sym), WithChild(stack, sym), at)
  {
    var n := |stack|;
    var was, roots2, stack2 := stack + [sym], WithRoot(roots, stack, sym), WithChild(stack, sym);
    assert Siblings(roots, was, n + 1) == sym.children && was[n] == sym;
    SpacedAppend(Siblings(roots, was, n), sym);
    hide Spaced, Siblings, WithChild, WithRoot;
    forall i: nat | i <= n
      ensures Spaced(Siblings(roots2, stack2, i))
      ensures i < n ==> EndBy(Siblings(roots2, stack2, i), stack2[i].def.start)
    {
      SiblingsAfter(roots, stack, sym, i);
    }
    if ClosedBy(roots, was, at) && sym.def.end <= at {
      forall i: nat | i <= n ensures EndBy(Siblings(roots2, stack2, i), at) {
        SiblingsAfter(roots, stack, sym, i);
        assert EndBy(Siblings(roots, was, i), at);
      }
    }
  }

  lemma PushOpen(roots: seq<Symbol>, stack: seq<Symbol>, d: Def)
    requires Open(roots, stack) && ClosedBy(roots, stack, d.start)
    ensures Open(roots, stack + [Symbol(d, [])]) && ClosedBy(roots, stack + [Symbol(d, [])], d.start)
  {
    var stack2 := stack + [Symbol(d, [])];
    assert Spaced([]);
    forall i: nat | i <= |stack2|
      ensures Siblings(roots, stack2, i) == if i <= |stack| then Siblings(roots, stack, i) else []
    {
    }
    hide Spaced, Siblings;
  }

  lemma AttachNested(roots: seq<Symbol>, stack: seq<Symbol>, sym: Symbol)
    requires NestedOpen(roots, stack + [sym])
    ensures NestedOpen(WithRoot(roots, stack, sym), WithChild(stack, sym))
  {
    var was := stack + [sym];
    var n := |stack|;
    assert Nests(was[n]);
    if n > 0 {
      assert Inside(was[n].def, was[n - 1].def) && Nests(was[n - 1]);
      ParentNests(stack[n - 1], sym);
    }
    hide Nests, Inside;
    assert forall i | 0 <= i < n :: was[i] == stack[i];
  }

  lemma ParentNests(p: Symbol, sym: Symbol)
    requires Nests(p) && Nests(sym) && Inside(sym.def, p.def)
    ensures Nests(Symbol(p.def, p.children + [sym]))
  {
  }

  /** A definition that starts inside the innermost open one lies inside it, if their spans fit together. */
  lemma LiesInside(top: Def, d: Def)
    requires !Earlier(d, top) && d.start < top.end && d.start <= d.end && Compatible(d, top)
    ensures Inside(d, top)
  {
  }

  lemma PushNested(roots: seq<Symbol>, stack: seq<Symbol>, d: Def)
    requires NestedOpen(roots, stack) && (stack != [] ==> Inside(d, stack[|stack| - 1].def))
    ensures NestedOpen(roots, stack + [Symbol(d, [])])
  {
    assert Nests(Symbol(d, []));
    hide Nests;
  }

  lemma TopIsRead(roots: seq<Symbol>, stack: seq<Symbol>)
    requires stack != []
    ensures stack[|stack| - 1].def in Flat(roots, stack)
  {
    assert stack[|stack| - 1].def in Pre(stack[|stack| - 1]);
    hide Pre, PreAll;
  }

  /**
   * The outline lists every definition once, in sorted order. Siblings never overlap. Every child lies inside its
   * parent if and only if all spans are pairwise nested or apart.
   */
  method DocumentSymbols(defs: seq<Def>) returns (roots: seq<Symbol>)
    ensures PreAll(roots) == Sorted(defs)
    ensures Spaced(roots)
    ensures SpansOk(defs) ==> (AllNest(roots) <==> Laminar(defs))
  {
    var sorted := Sorted(defs);
    SortedOk(defs);
    SameMembers(defs, sorted);
    hide *;
    roots := [];
    var stack: seq<Symbol> := [];
    var spans: seq<(nat, nat)> := [];
    ghost var fits := SpansOk(sorted) && Laminar(sorted);
    NothingRead();
    for i := 0 to |sorted|
      invariant Built(roots, stack, spans, sorted[..i], fits)
      invariant i > 0 ==> ClosedBy(roots, stack, sorted[i - 1].start)
      invariant i == 0 ==> roots == [] && stack == []
    {
      var def := sorted[i];
      StartsLater(roots, stack, sorted, i);
      while spans != [] && def.start >= spans[|spans| - 1].1
        invariant Built(roots, stack, spans, sorted[..i], fits)
        invariant ClosedBy(roots, stack, def.start)
        decreases |spans|
      {
        SameLength(roots, stack, spans, sorted[..i], fits);
        roots, stack, spans := CloseInnermost(roots, stack, spans, sorted[..i], fits, def.start);
      }
      PushDef(roots, stack, spans, sorted, i, fits);
      stack := stack + [Symbol(def, [])];
      spans := spans + [(def.start, def.end)];
    }
    assert sorted[..|sorted|] == sorted;
    while stack != []
      invariant Built(roots, stack, spans, sorted, fits)
      decreases |stack|
    {
      SameLength(roots, stack, spans, sorted, fits);
      roots, stack, spans := CloseInnermost(roots, stack, spans, sorted, fits, 0);
    }
    AllClosed(roots, spans, sorted, fits);
    NestsExactly(roots, sorted, fits);
  }

  /** Takes the innermost open symbol off the stack and attaches it. */
  method CloseInnermost(roots: seq<Symbol>, stack: seq<Symbol>, spans: seq<(nat, nat)>, ghost read: seq<Def>,
                        ghost fits: bool, ghost at: nat)
    returns (roots2: seq<Symbol>, stack2: seq<Symbol>, spans2: seq<(nat, nat)>)
    requires Built(roots, stack, spans, read, fits) && stack != [] && |spans| == |stack|
    ensures Built(roots2, stack2, spans2, read, fits)
    ensures |stack2| == |stack| - 1 && |spans2| == |spans| - 1
    ensures ClosedBy(roots, stack, at) && stack[|stack| - 1].def.end <= at ==> ClosedBy(roots2, stack2, at)
  {
    hide *;
    var rest, finished := stack[..|stack| - 1], stack[|stack| - 1];
    Rejoined(stack);
    CloseLast(roots, rest, finished, spans, read, fits, at);
    spans2 := spans[..|spans| - 1];
    roots2, stack2 := Attach(roots, rest, finished);
  }

  /** The state of the builder after reading these definitions. */
  ghost predicate Built(roots: seq<Symbol>, stack: seq<Symbol>, spans: seq<(nat, nat)>, read: seq<Def>, fits: bool) {
    && SpansOf(stack, spans)
    && Flat(roots, stack) == read
    && Open(roots, stack)
    && (fits ==> NestedOpen(roots, stack))
  }

  lemma Rejoined(stack: seq<Symbol>)
    requires stack != []
    ensures stack[..|stack| - 1] + [stack[|stack| - 1]] == stack
  {
  }

  lemma NothingRead()
    ensures Built([], [], [], [], true) && Built([], [], [], [], false)
  {
    assert Spaced([]);
  }

  lemma SameLength(roots: seq<Symbol>, stack: seq<Symbol>, spans: seq<(nat, nat)>, read: seq<Def>, fits: bool)
    requires Built(roots, stack, spans, read, fits)
    ensures |spans| == |stack|
    ensures stack != [] ==> spans[|spans| - 1].1 == stack[|stack| - 1].def.end
  {
  }

  lemma StartsLater(roots: seq<Symbol>, stack: seq<Symbol>, ds: seq<Def>, i: nat)
    requires Ordered(ds) && i < |ds| && (i > 0 ==> ClosedBy(roots, stack, ds[i - 1].start))
    requires i == 0 ==> roots == [] && stack == []
    ensures ClosedBy(roots, stack, ds[i].start)
  {
    hide Siblings;
    if i > 0 {
      assert !Earlier(ds[i], ds[i - 1]);
    } else {
      assert Siblings([], [], 0) == [] by { NoSiblings(); }
    }
  }

  lemma NoSiblings()
    ensures Siblings([], [], 0) == []
  {
  }

  lemma CloseLast(roots: seq<Symbol>, front: seq<Symbol>, top: Symbol, spans: seq<(nat, nat)>, read: seq<Def>, fits: bool, at: nat)
    requires Built(roots, front + [top], spans, read, fits) && |spans| == |front| + 1
    ensures Built(WithRoot(roots, front, top), WithChild(front, top), spans[..|front|], read, fits)
    ensures ClosedBy(roots, front + [top], at) && top.def.end <= at ==> ClosedBy(WithRoot(roots, front, top), WithChild(front, top), at)
  {
    hide *;
    BuiltParts(roots, front + [top], spans, read, fits);
    SpansAfter(front, top, spans);
    AttachFlat(roots, front, top);
    AttachOpen(roots, front, top, at);
    if fits { AttachNested(roots, front, top); }
    BuiltFrom(WithRoot(roots, front, top), WithChild(front, top), spans[..|front|], read, fits);
  }

  ghost predicate SpansOf(stack: seq<Symbol>, spans: seq<(nat, nat)>) {
    |spans| == |stack| && forall i | 0 <= i < |stack| :: spans[i] == (stack[i].def.start, stack[i].def.end)
  }

  lemma SpansAfter(front: seq<Symbol>, top: Symbol, spans: seq<(nat, nat)>)
    requires SpansOf(front + [top], spans)
    ensures SpansOf(WithChild(front, top), spans[..|front|])
  {
    var stack := front + [top];
    assert forall i | 0 <= i < |front| :: front[i] == stack[i];
  }

  lemma BuiltParts(roots: seq<Symbol>, stack: seq<Symbol>, spans: seq<(nat, nat)>, read: seq<Def>, fits: bool)
    requires Built(roots, stack, spans, read, fits)
    ensures SpansOf(stack, spans) && Flat(roots, stack) == read && Open(roots, stack) && (fits ==> NestedOpen(roots, stack))
  {
    hide SpansOf, Flat, Open, NestedOpen;
  }

  lemma BuiltFrom(roots: seq<Symbol>, stack: seq<Symbol>, spans: seq<(nat, nat)>, read: seq<Def>, fits: bool)
    requires SpansOf(stack, spans) && Flat(roots, stack) == read && Open(roots, stack) && (fits ==> NestedOpen(roots, stack))
    ensures Built(roots, stack, spans, read, fits)
  {
    hide SpansOf, Flat, Open, NestedOpen;
  }

  lemma PushDef(roots: seq<Symbol>, stack: seq<Symbol>, spans: seq<(nat, nat)>, ds: seq<Def>, i: nat, fits: bool)
    requires i < |ds| && Ordered(ds) && (fits ==> SpansOk(ds) && Laminar(ds))
    requires Built(roots, stack, spans, ds[..i], fits) && ClosedBy(roots, stack, ds[i].start)
    requires spans == [] || ds[i].start < spans[|spans| - 1].1
    ensures Built(roots, stack + [Symbol(ds[i], [])], spans + [(ds[i].start, ds[i].end)], ds[..i + 1], fits)
    ensures ClosedBy(roots, stack + [Symbol(ds[i], [])], ds[i].start)
  {
    var d := ds[i];
    SameLength(roots, stack, spans, ds[..i], fits);
    BuiltParts(roots, stack, spans, ds[..i], fits);
    PushSpans(stack, spans, d);
    hide *;
    if fits {
      if stack != [] { TopFits(roots, stack, ds, i); }
      PushNested(roots, stack, d);
    }
    PushFlat(roots, stack, d);
    PushOpen(roots, stack, d);
    assert ds[..i + 1] == ds[..i] + [d];
    BuiltFrom(roots, stack + [Symbol(d, [])], spans + [(d.start, d.end)], ds[..i + 1], fits);
  }

  lemma PushSpans(stack: seq<Symbol>, spans: seq<(nat, nat)>, d: Def)
    requires SpansOf(stack, spans)
    ensures SpansOf(stack + [Symbol(d, [])], spans + [(d.start, d.end)])
  {
  }

  lemma TopFits(roots: seq<Symbol>, stack: seq<Symbol>, ds: seq<Def>, i: nat)
    requires stack != [] && i < |ds| && Ordered(ds) && SpansOk(ds) && Laminar(ds)
    requires Flat(roots, stack) == ds[..i] && ds[i].start < stack[|stack| - 1].def.end
    ensures Inside(ds[i], stack[|stack| - 1].def)
  {
    var top := stack[|stack| - 1].def;
    TopIsRead(roots, stack);
    hide Flat;
    var k :| 0 <= k < i && ds[..i][k] == top;
    assert ds[k] == top && ds[k] in ds && ds[i] in ds;
    LiesInside(top, ds[i]);
  }

  lemma AllClosed(roots: seq<Symbol>, spans: seq<(nat, nat)>, read: seq<Def>, fits: bool)
    requires Built(roots, [], spans, read, fits)
    ensures PreAll(roots) == read && Spaced(roots) && (fits ==> AllNest(roots))
  {
    hide PreAll, Spaced, AllNest;
    assert Siblings(roots, [], 0) == roots;
  }

  lemma NestsExactly(roots: seq<Symbol>, ds: seq<Def>, fits: bool)
    requires PreAll(roots) == ds && Spaced(roots) && (fits ==> AllNest(roots))
    requires SpansOk(ds) && Laminar(ds) ==> fits
    ensures SpansOk(ds) ==> (AllNest(roots) <==> Laminar(ds))
  {
    hide PreAll, Spaced, AllNest, Compatible;
    if AllNest(roots) {
      forall a, b | a in ds && b in ds ensures Compatible(a, b) { NestedIsLaminar(roots, a, b); }
    }
  }

  lemma SameMembers(a: seq<Def>, b: seq<Def>)
    requires multiset(a) == multiset(b)
    ensures (SpansOk(a) <==> SpansOk(b)) && (Laminar(a) <==> Laminar(b))
  {
    forall x ensures x in a <==> x in b {
      assert x in a <==> x in multiset(a);
      assert x in b <==> x in multiset(b);
    }
    hide Compatible;
  }
}
