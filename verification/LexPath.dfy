/** Paths as text, their components, and lexical normalisation. */
module LexPath {

  datatype Component = Root | Cur | Up | Name(name: string)

  // ---- The components of a path -------------------------------------------------------------------------

  /** The pieces between separators, at least one. */
  function Pieces(s: string): (ps: seq<string>)
    ensures ps != []
  {
    if s == "" then [""]
    else
      var ps := Pieces(s[..|s| - 1]);
      var c := s[|s| - 1];
      if c == '/' then ps + [""] else ps[..|ps| - 1] + [ps[|ps| - 1] + [c]]
  }

  /** Empty and "." pieces are no components. */
  function One(p: string): seq<Component> {
    if p == "" || p == "." then [] else if p == ".." then [Up] else [Name(p)]
  }

  function Body(ps: seq<string>): seq<Component> {
    if ps == [] then [] else Body(ps[..|ps| - 1]) + One(ps[|ps| - 1])
  }

  predicate HasRoot(s: string) { s != "" && s[0] == '/' }

  /** A leading separator is the root; a leading "." piece is kept. */
  function Lead(s: string): seq<Component> {
    if HasRoot(s) then [Root] else if Pieces(s)[0] == "." then [Cur] else []
  }

  function Components(s: string): seq<Component> {
    Lead(s) + Body(Pieces(s))
  }

  // ---- A path under construction ------------------------------------------------------------------------

  function Text(c: Component): string {
    match c
    case Root => "/"
    case Cur => "."
    case Up => ".."
    case Name(n) => n
  }

  /** The root replaces the buffer; anything else goes after a separator, unless one is there or nothing is. */
  function Push(buf: string, c: Component): string {
    if c == Root then "/"
    else if buf == "" || buf[|buf| - 1] == '/' then buf + Text(c)
    else buf + "/" + Text(c)
  }

  function LastSlash(s: string): (i: int)
    ensures -1 <= i < |s|
    ensures i >= 0 ==> s[i] == '/'
    ensures forall j | i < j < |s| :: s[j] != '/'
  {
    if s == "" then -1 else if s[|s| - 1] == '/' then |s| - 1 else LastSlash(s[..|s| - 1])
  }

  /** Removes the last component of a buffer that ends in a name. */
  function Pop(buf: string): string {
    var i := LastSlash(buf);
    if i < 0 then "" else if i == 0 then "/" else buf[..i]
  }

  method NormalizeLexically(path: string) returns (out: string)
    ensures out == Normal(path)
  {
    var cs := Components(path);
    ComponentsWellFormed(path);
    var buf := "";
    var hadComponent := false;
    hide Components, Pop, Push, HasRoot, NormalForm, Render, Step, WellFormed;
    ghost var st: seq<Component> := [];
    NothingYet();
    for i := 0 to |cs|
      invariant st == Simplify(cs[..i]) && buf == Render(st)
      invariant !hadComponent ==> st == []
    {
      PrefixNormal(cs, i);
      StepRenders(st, cs[i]);
      CurChangesNothing(st);
      match cs[i] {
        case Cur =>
        case Up =>
          var back := Components(buf);
          if back != [] && back[|back| - 1].Name? {
            buf := Pop(buf);
          } else if !HasRoot(buf) {
            buf := Push(buf, Up);
          }
          hadComponent := true;
        case other =>
          buf := Push(buf, other);
          hadComponent := true;
      }
      st := Step(st, cs[i]);
    }
    assert cs[..|cs|] == cs;
    SimplifyNormal(cs);
    RenderParses(st);
    if !hadComponent || buf == "" { return "."; }
    return buf;
  }

  lemma NothingYet()
    ensures Render([]) == ""
  {
  }

  lemma CurChangesNothing(st: seq<Component>)
    ensures Step(st, Cur) == st
  {
  }

  lemma PrefixNormal(cs: seq<Component>, i: nat)
    requires WellFormed(cs) && i < |cs|
    ensures NormalForm(Simplify(cs[..i]))
    ensures Simplify(cs[..i + 1]) == Step(Simplify(cs[..i]), cs[i])
  {
    assert WellFormed(cs[..i]);
    hide WellFormed, NormalForm;
    SimplifyNormal(cs[..i]);
    assert cs[..i + 1][..i] == cs[..i];
  }

  // ---- What normalisation computes ----------------------------------------------------------------------

  function Step(st: seq<Component>, c: Component): seq<Component> {
    match c
    case Cur => st
    case Up =>
      if st != [] && st[|st| - 1].Name? then st[..|st| - 1]
      else if st != [] && st[0] == Root then st
      else st + [Up]
    case Root => [Root]
    case Name(_) => st + [c]
  }

  function Simplify(cs: seq<Component>): seq<Component> {
    if cs == [] then [] else Step(Simplify(cs[..|cs| - 1]), cs[|cs| - 1])
  }

  function Render(st: seq<Component>): string {
    if st == [] then "" else Push(Render(st[..|st| - 1]), st[|st| - 1])
  }

  function Normal(path: string): string {
    var st := Simplify(Components(path));
    if st == [] then "." else Render(st)
  }

  predicate GoodName(n: string) { n != "" && n != "." && n != ".." && '/' !in n }

  /** Names are real names, and the root comes first if at all. */
  predicate WellFormed(cs: seq<Component>) {
    && (forall i | 0 <= i < |cs| :: cs[i].Name? ==> GoodName(cs[i].name))
    && forall i | 0 < i < |cs| :: cs[i] != Root
  }

  /** Some ".." and then names, or the root and then names. */
  predicate NormalForm(cs: seq<Component>) {
    && WellFormed(cs)
    && (forall i | 0 <= i < |cs| :: cs[i] != Cur)
    && (forall i, j | 0 <= i < j < |cs| && cs[j] == Up :: cs[i] == Up)
  }

  lemma NormalSplit(st: seq<Component>)
    requires NormalForm(st) && st != []
    ensures var p, c := st[..|st| - 1], st[|st| - 1];
            && p + [c] == st && NormalForm(p)
            && (c == Root || c == Up || (c.Name? && GoodName(c.name)))
            && (c == Root ==> p == [])
            && (c == Up ==> p == Ups(|p|))
            && (p == [Root] ==> c.Name?)
  {
    var p, c := st[..|st| - 1], st[|st| - 1];
    assert forall i | 0 <= i < |p| :: p[i] == st[i];
    assert p == [Root] ==> st[0] == Root;
  }

  function Ups(k: nat): seq<Component> { seq(k, _ => Up) }

  // ---- Components are well formed -----------------------------------------------------------------------

  lemma {:induction false} PiecesNoSlash(s: string)
    ensures forall p | p in Pieces(s) :: '/' !in p
  {
    if s != "" {
      PiecesNoSlash(s[..|s| - 1]);
      var ps := Pieces(s[..|s| - 1]);
      assert ps[|ps| - 1] in ps;
    }
  }

  lemma {:induction false} BodyWellFormed(ps: seq<string>)
    requires forall p | p in ps :: '/' !in p
    ensures WellFormed(Body(ps)) && Root !in Body(ps) && Cur !in Body(ps)
  {
    if ps != [] {
      var front, last := Body(ps[..|ps| - 1]), ps[|ps| - 1];
      BodyWellFormed(ps[..|ps| - 1]);
      assert last in ps;
      assert forall i | 0 <= i < |front| :: (front + One(last))[i] == front[i];
    }
  }

  lemma ComponentsWellFormed(s: string)
    ensures WellFormed(Components(s))
  {
    PiecesNoSlash(s);
    BodyWellFormed(Pieces(s));
  }

  lemma {:induction false} SimplifyNormal(cs: seq<Component>)
    requires WellFormed(cs)
    ensures NormalForm(Simplify(cs))
  {
    if cs != [] {
      var p, c := cs[..|cs| - 1], cs[|cs| - 1];
      assert WellFormed(p) && (c == Root ==> p == []) && (c.Name? ==> GoodName(c.name));
      hide NormalForm, WellFormed, Step;
      SimplifyNormal(p);
      StepNormal(Simplify(p), c);
    }
  }

  lemma StepNormal(st: seq<Component>, c: Component)
    requires NormalForm(st) && (c == Root ==> st == []) && (c.Name? ==> GoodName(c.name))
    ensures NormalForm(Step(st, c))
  {
    match c
    case Cur =>
    case Root =>
    case Name(_) => SnocNormal(st, c);
    case Up =>
      if st != [] && st[|st| - 1].Name? {
        NormalSplit(st);
      } else if st == [] || st[0] != Root {
        AllUps(st);
        SnocNormal(st, c);
      }
  }

  /** A relative normal form that does not end in a name holds only "..". */
  lemma AllUps(st: seq<Component>)
    requires NormalForm(st) && (st == [] || (st[0] != Root && !st[|st| - 1].Name?))
    ensures forall i | 0 <= i < |st| :: st[i] == Up
  {
    if st != [] { assert st[|st| - 1] == Up; }
  }

  lemma SnocNormal(st: seq<Component>, c: Component)
    requires NormalForm(st) && c != Root && c != Cur && (c.Name? ==> GoodName(c.name))
    requires c == Up ==> forall i | 0 <= i < |st| :: st[i] == Up
    ensures NormalForm(st + [c])
  {
  }

  // ---- Rendering a normal form and reading it back ------------------------------------------------------

  lemma {:induction false} PiecesAppend(s: string, t: string)
    requires '/' !in t
    ensures Pieces(s + "/" + t) == Pieces(s) + [t]
    decreases |t|
  {
    if t == "" {
      assert (s + "/" + t)[..|s|] == s;
    } else {
      var t0 := t[..|t| - 1];
      PiecesAppend(s, t0);
      assert (s + "/" + t)[..|s| + |t|] == s + "/" + t0;
      assert t0 + [t[|t| - 1]] == t;
    }
  }

  lemma {:induction false} PiecesSingle(t: string)
    requires '/' !in t
    ensures Pieces(t) == [t]
  {
    if t != "" {
      PiecesSingle(t[..|t| - 1]);
      assert t[..|t| - 1] + [t[|t| - 1]] == t;
    }
  }

  lemma BodyAppend(ps: seq<string>, t: string)
    ensures Body(ps + [t]) == Body(ps) + One(t)
  {
    assert (ps + [t])[..|ps|] == ps;
  }

  lemma ComponentsSingle(c: Component)
    requires c == Up || (c.Name? && GoodName(c.name))
    ensures Components(Text(c)) == [c] && !HasRoot(Text(c))
  {
    var t := Text(c);
    PiecesSingle(t);
    BodyAppend([], t);
    assert [] + [t] == [t];
  }

  lemma OneOf(c: Component)
    requires c == Up || (c.Name? && GoodName(c.name))
    ensures One(Text(c)) == [c] && '/' !in Text(c) && Text(c) != ""
  {
  }

  lemma ComponentsAppend(s: string, c: Component)
    requires c == Up || (c.Name? && GoodName(c.name))
    requires s != ""
    ensures Components(s + "/" + Text(c)) == Components(s) + [c]
    ensures HasRoot(s + "/" + Text(c)) == HasRoot(s)
  {
    var t := Text(c);
    OneOf(c);
    PiecesAppend(s, t);
    BodyAppend(Pieces(s), t);
    hide Pieces, Body, One, Text;
    assert (s + "/" + t)[0] == s[0];
    assert (Pieces(s) + [t])[0] == Pieces(s)[0];
    assert Lead(s + "/" + t) == Lead(s);
  }

  lemma ComponentsUnderRoot(c: Component)
    requires c.Name? && GoodName(c.name)
    ensures Components("/" + Text(c)) == [Root, c] && HasRoot("/" + Text(c))
  {
    var t := Text(c);
    OneOf(c);
    PiecesAppend("", t);
    assert "" + "/" + t == "/" + t;
    BodyAppend([""], t);
    BodyAppend([], "");
    assert [] + [""] == [""] && Pieces("") == [""];
    hide Pieces, Body, Text;
    assert Lead("/" + t) == [Root];
  }

  lemma RootParses()
    ensures Components("/") == [Root] && HasRoot("/")
  {
    PiecesAppend("", "");
    BodyAppend([""], "");
    BodyAppend([], "");
    assert "" + "/" + "" == "/" && [] + [""] == [""];
  }

  lemma RenderPush(st: seq<Component>, c: Component)
    ensures Render(st + [c]) == Push(Render(st), c)
  {
    assert (st + [c])[..|st|] == st;
  }

  lemma PushShape(buf: string, c: Component)
    requires c != Root && Text(c) != "" && '/' !in Text(c)
    ensures buf == "" ==> Push(buf, c) == Text(c)
    ensures buf == "/" ==> Push(buf, c) == "/" + Text(c)
    ensures buf != "" && buf[|buf| - 1] != '/' ==> Push(buf, c) == buf + "/" + Text(c)
    ensures Push(buf, c) != "" && Push(buf, c)[|Push(buf, c)| - 1] != '/'
  {
    assert Text(c)[|Text(c)| - 1] in Text(c);
    assert "" + Text(c) == Text(c);
  }

  lemma {:induction false} RenderParses(st: seq<Component>)
    requires NormalForm(st)
    ensures Components(Render(st)) == st
    ensures Render(st) == "" <==> st == []
    ensures HasRoot(Render(st)) <==> st != [] && st[0] == Root
    ensures st != [] ==> (Render(st)[|Render(st)| - 1] == '/' <==> st == [Root])
  {
    hide *;
    if st == [] {
      NothingParses();
      NothingYet();
    } else {
      var p, c := st[..|st| - 1], st[|st| - 1];
      NormalSplit(st);
      RenderParses(p);
      RenderRoot();
      if c == Root { RootParses(); } else { PushParses(p, Render(p), c); }
      RenderPush(p, c);
    }
  }

  lemma PushParses(p: seq<Component>, buf: string, c: Component)
    requires c == Up || (c.Name? && GoodName(c.name))
    requires Components(buf) == p && (buf == "" <==> p == []) && (p == [Root] ==> c.Name? && buf == "/")
    requires HasRoot(buf) <==> p != [] && p[0] == Root
    requires buf != "" ==> (buf[|buf| - 1] == '/' <==> p == [Root])
    ensures Components(Push(buf, c)) == p + [c]
    ensures Push(buf, c) != "" && Push(buf, c)[|Push(buf, c)| - 1] != '/'
    ensures HasRoot(Push(buf, c)) == HasRoot(buf)
  {
    hide *;
    OneOf(c);
    PushShape(buf, c);
    if buf == "" {
      NothingParses();
      ComponentsSingle(c);
    } else if p == [Root] {
      ComponentsUnderRoot(c);
    } else {
      ComponentsAppend(buf, c);
    }
  }

  lemma NothingParses()
    ensures Components("") == [] && !HasRoot("")
  {
    BodyAppend([], "");
    assert [] + [""] == [""];
  }

  lemma RenderRoot()
    ensures Render([Root]) == "/"
  {
  }

  lemma PopAppended(buf: string, n: string)
    requires '/' !in n && n != ""
    ensures Pop(n) == "" && Pop("/" + n) == "/"
    ensures buf != "" ==> Pop(buf + "/" + n) == buf
  {
    hide LastSlash;
    assert LastSlash("/" + n) == 0 by { assert ("/" + n)[0] == '/'; }
    var s := buf + "/" + n;
    assert s[|buf|] == '/';
    assert forall j | |buf| < j < |s| :: s[j] == n[j - |buf| - 1];
    assert LastSlash(s) == |buf|;
    assert s[..|buf|] == buf;
  }

  lemma PopRenders(st: seq<Component>)
    requires NormalForm(st) && st != [] && st[|st| - 1].Name?
    ensures Pop(Render(st)) == Render(st[..|st| - 1])
  {
    var p, c := st[..|st| - 1], st[|st| - 1];
    hide *;
    NormalSplit(st);
    RenderParses(p);
    RenderPush(p, c);
    RenderRoot();
    OneOf(c);
    PopPush(Render(p), c);
  }

  lemma PopPush(buf: string, c: Component)
    requires c.Name? && Text(c) != "" && '/' !in Text(c)
    requires buf == "" || buf == "/" || buf[|buf| - 1] != '/'
    ensures Pop(Push(buf, c)) == buf
  {
    assert Text(c) == c.name;
    hide *;
    PushShape(buf, c);
    PopAppended(buf, c.name);
  }

  /** What one component does to the buffer. */
  function StepText(buf: string, c: Component): string {
    match c
    case Cur => buf
    case Up =>
      var back := Components(buf);
      if back != [] && back[|back| - 1].Name? then Pop(buf) else if HasRoot(buf) then buf else Push(buf, Up)
    case _ => Push(buf, c)
  }

  lemma StepRenders(st: seq<Component>, c: Component)
    requires NormalForm(st)
    ensures Render(Step(st, c)) == StepText(Render(st), c)
  {
    hide Components, Pop, HasRoot, NormalForm;
    RenderParses(st);
    RenderPush(st, c);
    RenderRoot();
    if st != [] && st[|st| - 1].Name? { PopRenders(st); }
  }

  // ---- Meaning: where a path leads from a directory -----------------------------------------------------

  /** One step from a directory, given as the names below the root; the root is its own parent. */
  function GoOne(dir: seq<string>, c: Component): seq<string> {
    match c
    case Root => []
    case Cur => dir
    case Up => if dir == [] then [] else dir[..|dir| - 1]
    case Name(n) => dir + [n]
  }

  function Go(dir: seq<string>, cs: seq<Component>): seq<string> {
    if cs == [] then dir else GoOne(Go(dir, cs[..|cs| - 1]), cs[|cs| - 1])
  }

  lemma StepKeepsMeaning(dir: seq<string>, st: seq<Component>, c: Component)
    requires NormalForm(st) && (c == Root ==> st == [])
    ensures Go(dir, Step(st, c)) == GoOne(Go(dir, st), c)
  {
    match c
    case Up =>
      if st != [] && st[|st| - 1].Name? {
      } else if st != [] && st[0] == Root {
        assert st == [Root];
        assert st[..0] == [];
      } else {
        assert (st + [Up])[..|st|] == st;
      }
    case Name(_) => assert (st + [c])[..|st|] == st;
    case Root => assert [Root][..0] == [];
    case Cur =>
  }

  lemma {:induction false} SimplifyKeepsMeaning(dir: seq<string>, cs: seq<Component>)
    requires WellFormed(cs)
    ensures Go(dir, Simplify(cs)) == Go(dir, cs)
  {
    if cs != [] {
      var p := cs[..|cs| - 1];
      SimplifyKeepsMeaning(dir, p);
      SimplifyNormal(p);
      assert cs[|cs| - 1] == Root ==> p == [];
      StepKeepsMeaning(dir, Simplify(p), cs[|cs| - 1]);
    }
  }

  lemma DotParses()
    ensures Components(".") == [Cur]
  {
    PiecesSingle(".");
    BodyAppend([], ".");
    assert [] + ["."] == ["."];
  }

  /** The components of a normalised path: a lone ".", or a normal form. */
  lemma NormalComponents(s: string)
    ensures var st := Simplify(Components(s));
            && NormalForm(st)
            && Components(Normal(s)) == if st == [] then [Cur] else st
  {
    ComponentsWellFormed(s);
    SimplifyNormal(Components(s));
    RenderParses(Simplify(Components(s)));
    DotParses();
  }

  /** From every directory, the normalised path leads where the path leads. */
  lemma NormalKeepsMeaning(s: string, dir: seq<string>)
    ensures Go(dir, Components(Normal(s))) == Go(dir, Components(s))
  {
    NormalComponents(s);
    ComponentsWellFormed(s);
    SimplifyKeepsMeaning(dir, Components(s));
    assert [Cur][..0] == [];
    assert Go(dir, [Cur]) == dir;
  }

  lemma {:induction false} SimplifyOfNormal(st: seq<Component>)
    requires NormalForm(st)
    ensures Simplify(st) == st
  {
    if st != [] {
      var p := st[..|st| - 1];
      NormalSplit(st);
      hide NormalForm;
      SimplifyOfNormal(p);
    }
  }

  lemma NormalTwice(s: string)
    ensures Normal(Normal(s)) == Normal(s)
  {
    NormalComponents(s);
    var st := Simplify(Components(s));
    SimplifyOfNormal(st);
    assert [Cur][..0] == [];
    assert Simplify([Cur]) == [];
  }

  // ---- The normal form is canonical ---------------------------------------------------------------------

  function Names(ns: seq<string>): seq<Component> { seq(|ns|, i requires 0 <= i < |ns| => Name(ns[i])) }

  /** A normal form is determined by whether it is rooted, by its number of ".." and by its names. */
  function Form(rooted: bool, k: nat, ns: seq<string>): seq<Component> {
    (if rooted then [Root] else Ups(k)) + Names(ns)
  }

  lemma {:induction false} FormOf(st: seq<Component>) returns (rooted: bool, k: nat, ns: seq<string>)
    requires NormalForm(st)
    ensures st == Form(rooted, k, ns)
  {
    if st == [] {
      rooted, k, ns := false, 0, [];
    } else {
      var p, c := st[..|st| - 1], st[|st| - 1];
      NormalSplit(st);
      hide NormalForm;
      match c {
        case Name(n) =>
          rooted, k, ns := FormOf(p);
          ns := ns + [n];
        case Up => rooted, k, ns := false, |st|, [];
        case Root => rooted, k, ns := true, 0, [];
      }
    }
  }

  lemma {:induction false} GoUps(dir: seq<string>, k: nat)
    requires k <= |dir|
    ensures Go(dir, Ups(k)) == dir[..|dir| - k]
  {
    if k > 0 {
      GoUps(dir, k - 1);
      assert Ups(k)[..k - 1] == Ups(k - 1);
    }
  }

  lemma {:induction false} GoNames(dir: seq<string>, cs: seq<Component>, ns: seq<string>)
    ensures Go(dir, cs + Names(ns)) == Go(dir, cs) + ns
    decreases |ns|
  {
    if ns == [] {
      assert cs + Names(ns) == cs;
    } else {
      var n := |ns| - 1;
      GoNames(dir, cs, ns[..n]);
      assert (cs + Names(ns))[..|cs| + n] == cs + Names(ns[..n]);
      assert ns[..n] + [ns[n]] == ns;
    }
  }

  lemma GoForm(f: string, n: nat, rooted: bool, k: nat, ns: seq<string>)
    requires k <= n
    ensures Go(Copies(f, n), Form(rooted, k, ns)) == Copies(f, if rooted then 0 else n - k) + ns
  {
    var dir := Copies(f, n);
    GoNames(dir, if rooted then [Root] else Ups(k), ns);
    if rooted {
      assert [Root][..0] == [];
      assert Go(dir, [Root]) == [];
    } else {
      GoUps(dir, k);
      assert dir[..n - k] == Copies(f, n - k);
    }
  }

  /** A name longer than all of these. */
  lemma {:induction false} FreshName(ns: seq<string>) returns (f: string)
    ensures forall i | 0 <= i < |ns| :: |ns[i]| < |f|
  {
    if ns == [] {
      f := "";
    } else {
      var n := |ns| - 1;
      var g := FreshName(ns[..n]);
      f := if |ns[n]| < |g| then g else ns[n] + "x";
      assert forall i | 0 <= i < n :: |ns[..n][i]| < |g|;
    }
  }

  /** Two normal forms that lead to the same place from every directory are the same. */
  lemma NormalFormsDiffer(a: seq<Component>, b: seq<Component>)
    requires NormalForm(a) && NormalForm(b)
    requires forall dir: seq<string> :: Go(dir, a) == Go(dir, b)
    ensures a == b
  {
    var ra, ka, na := FormOf(a);
    var rb, kb, nb := FormOf(b);
    var f := FreshName(na + nb);
    assert forall i | 0 <= i < |na| :: na[i] == (na + nb)[i];
    assert forall i | 0 <= i < |nb| :: nb[i] == (na + nb)[|na| + i];
    hide Go, NormalForm, Form;
    FormsDiffer(f, ra, ka, na, rb, kb, nb);
  }

  lemma FormsDiffer(f: string, ra: bool, ka: nat, na: seq<string>, rb: bool, kb: nat, nb: seq<string>)
    requires (forall i | 0 <= i < |na| :: na[i] != f) && (forall i | 0 <= i < |nb| :: nb[i] != f)
    requires forall dir: seq<string> :: Go(dir, Form(ra, ka, na)) == Go(dir, Form(rb, kb, nb))
    ensures Form(ra, ka, na) == Form(rb, kb, nb)
  {
    hide *;
    var n := ka + kb + 1;
    GoForm(f, n, ra, ka, na);
    GoForm(f, n, rb, kb, nb);
    assert Go(Copies(f, n), Form(ra, ka, na)) == Go(Copies(f, n), Form(rb, kb, nb));
    SameStarts(f, if ra then 0 else kb + 1, na, if rb then 0 else ka + 1, nb);
    SameForm(ra, ka, rb, kb, na);
  }

  lemma SameForm(ra: bool, ka: nat, rb: bool, kb: nat, ns: seq<string>)
    requires (if ra then 0 else kb + 1) == (if rb then 0 else ka + 1)
    ensures Form(ra, ka, ns) == Form(rb, kb, ns)
  {
  }

  function Copies(f: string, n: nat): seq<string> { seq(n, _ => f) }

  lemma SameStarts(f: string, m: nat, a: seq<string>, n: nat, b: seq<string>)
    requires (forall i | 0 <= i < |a| :: a[i] != f) && (forall i | 0 <= i < |b| :: b[i] != f)
    ensures Copies(f, m) + a == Copies(f, n) + b ==> m == n && a == b
  {
    var x, y := Copies(f, m) + a, Copies(f, n) + b;
    assert forall i | 0 <= i < |x| :: x[i] == f <==> i < m;
    assert forall i | 0 <= i < |y| :: y[i] == f <==> i < n;
    assert m < |x| ==> x[m] != f;
    assert n < |y| ==> y[n] != f;
    assert x[m..] == a && y[n..] == b;
  }

  ghost predicate SamePlace(s: string, t: string) {
    forall dir: seq<string> :: Go(dir, Components(s)) == Go(dir, Components(t))
  }

  /** Two paths have the same normal text if and only if they lead to the same place from every directory. */
  lemma NormalIsCanonical(s: string, t: string)
    ensures Normal(s) == Normal(t) <==> SamePlace(s, t)
  {
    hide Components, Go, Normal;
    if Normal(s) == Normal(t) {
      forall dir: seq<string> ensures Go(dir, Components(s)) == Go(dir, Components(t)) {
        NormalKeepsMeaning(s, dir);
        NormalKeepsMeaning(t, dir);
      }
      assert SamePlace(s, t);
    } else if SamePlace(s, t) {
      SamePlaceSameText(s, t);
    }
  }

  lemma SamePlaceSameText(s: string, t: string)
    requires SamePlace(s, t)
    ensures Normal(s) == Normal(t)
  {
    hide Components, Go, Simplify, NormalForm, WellFormed, Render;
    NormalComponents(s);
    NormalComponents(t);
    ComponentsWellFormed(s);
    ComponentsWellFormed(t);
    forall dir: seq<string> ensures Go(dir, Simplify(Components(s))) == Go(dir, Simplify(Components(t))) {
      SimplifyKeepsMeaning(dir, Components(s));
      SimplifyKeepsMeaning(dir, Components(t));
      assert Go(dir, Components(s)) == Go(dir, Components(t));
    }
    NormalFormsDiffer(Simplify(Components(s)), Simplify(Components(t)));
  }

  // ---- In terms of the text alone -----------------------------------------------------------------------

  function Joined(ps: seq<string>): string {
    if ps == [] then "" else if |ps| == 1 then ps[0] else Joined(ps[..|ps| - 1]) + "/" + ps[|ps| - 1]
  }

  /** ps are the texts between the separators of s. */
  predicate IsSplit(s: string, ps: seq<string>) {
    ps != [] && (forall i | 0 <= i < |ps| :: '/' !in ps[i]) && Joined(ps) == s
  }

  lemma {:induction false} PiecesSplit(s: string)
    ensures IsSplit(s, Pieces(s))
  {
    if s != "" {
      var rest, c := s[..|s| - 1], s[|s| - 1];
      PiecesSplit(rest);
      PiecesNoSlash(s);
      var ps := Pieces(rest);
      var n := |ps| - 1;
      if c == '/' {
        JoinOne(ps, "");
      } else {
        LastPiece(ps);
        JoinLonger(ps[..n], ps[n], c);
      }
      hide Joined, Pieces;
      assert rest + [c] == s;
    }
  }

  lemma LastPiece(ps: seq<string>)
    requires ps != []
    ensures ps[..|ps| - 1] + [ps[|ps| - 1]] == ps
  {
  }

  lemma JoinLonger(front: seq<string>, p: string, c: char)
    ensures Joined(front + [p + [c]]) == Joined(front + [p]) + [c]
  {
    if front == [] {
      assert front + [p + [c]] == [p + [c]] && front + [p] == [p];
    } else {
      JoinOne(front, p);
      JoinOne(front, p + [c]);
      hide Joined;
      assert Joined(front) + "/" + (p + [c]) == Joined(front) + "/" + p + [c];
    }
  }

  lemma JoinOne(ps: seq<string>, p: string)
    requires ps != []
    ensures Joined(ps + [p]) == Joined(ps) + "/" + p
  {
    assert (ps + [p])[..|ps|] == ps;
  }

  /** There is no other way to split it. */
  lemma {:induction false} OnlySplit(s: string, ps: seq<string>)
    requires IsSplit(s, ps)
    ensures ps == Pieces(s)
    decreases |s|
  {
    var n := |ps| - 1;
    if ps[n] == "" {
      if n == 0 {
        assert ps == [""];
      } else {
        var front := ps[..n];
        assert s == Joined(front) + "/" && s[..|s| - 1] == Joined(front);
        assert forall i | 0 <= i < |front| :: front[i] == ps[i];
        OnlySplit(s[..|s| - 1], front);
        assert ps == front + [""];
      }
    } else {
      var k := |ps[n]| - 1;
      var c, shorter := ps[n][k], ps[..n] + [ps[n][..k]];
      assert c in ps[n] && ps[n] == ps[n][..k] + [c];
      assert shorter[..n] == ps[..n];
      JoinLonger(ps[..n], ps[n][..k], c);
      LastPiece(ps);
      assert s == Joined(shorter) + [c] && s[..|s| - 1] == Joined(shorter);
      assert forall i | 0 <= i < n :: shorter[i] == ps[i];
      assert forall x | x in ps[n][..k] :: x in ps[n];
      OnlySplit(s[..|s| - 1], shorter);
    }
  }

  /** Where the texts between separators lead: "" and "." nowhere, ".." up, which has no effect at the top, others down. */
  function Follow(dir: seq<string>, ps: seq<string>): seq<string> {
    if ps == [] then dir
    else
      var d, p := Follow(dir, ps[..|ps| - 1]), ps[|ps| - 1];
      if p == "" || p == "." then d
      else if p == ".." then (if d == [] then [] else d[..|d| - 1])
      else d + [p]
  }

  /** Where a path leads from a directory; one that starts with a separator starts at the top. */
  ghost predicate LeadsTo(dir: seq<string>, s: string, place: seq<string>) {
    exists ps :: IsSplit(s, ps) && place == Follow(if s != "" && s[0] == '/' then [] else dir, ps)
  }

  lemma LeadsExactly(dir: seq<string>, s: string, place: seq<string>)
    ensures LeadsTo(dir, s, place) <==> place == Go(dir, Components(s))
  {
    hide IsSplit;
    PiecesSplit(s);
    forall ps | IsSplit(s, ps) ensures ps == Pieces(s) { OnlySplit(s, ps); }
    GoPieces(dir, s);
  }

  lemma GoPieces(dir: seq<string>, s: string)
    ensures Go(dir, Components(s)) == Follow(if HasRoot(s) then [] else dir, Pieces(s))
  {
    var lead := Lead(s);
    assert [Root][..0] == [] && [Cur][..0] == [];
    assert Go(dir, lead) == if HasRoot(s) then [] else dir;
    GoBody(dir, lead, Pieces(s));
  }

  lemma {:induction false} GoBody(dir: seq<string>, lead: seq<Component>, ps: seq<string>)
    ensures Go(dir, lead + Body(ps)) == Follow(Go(dir, lead), ps)
    decreases |ps|
  {
    hide Go;
    if ps == [] {
      assert lead + Body(ps) == lead;
    } else {
      var front, p := lead + Body(ps[..|ps| - 1]), ps[|ps| - 1];
      GoBody(dir, lead, ps[..|ps| - 1]);
      assert lead + Body(ps) == front + One(p);
      if One(p) == [] { assert front + One(p) == front; } else { GoNext(dir, front, One(p)[0]); }
    }
  }

  lemma GoNext(dir: seq<string>, cs: seq<Component>, c: Component)
    ensures Go(dir, cs + [c]) == GoOne(Go(dir, cs), c)
  {
    assert (cs + [c])[..|cs|] == cs;
  }

  /** From every directory the normalised text leads where the text leads, and to no other place. */
  lemma NormalLeads(dir: seq<string>, s: string, place: seq<string>)
    ensures LeadsTo(dir, Normal(s), place) <==> LeadsTo(dir, s, place)
    ensures LeadsTo(dir, s, Go(dir, Components(s)))
  {
    hide LeadsTo, Normal;
    LeadsExactly(dir, s, place);
    LeadsExactly(dir, Normal(s), place);
    LeadsExactly(dir, s, Go(dir, Components(s)));
    NormalKeepsMeaning(s, dir);
  }
}
