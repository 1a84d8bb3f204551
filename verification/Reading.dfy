/**
 * What the pieces a program is made of stand for, said as relations: names and frames, arguments,
 * literals, and the operands of forms.  Each relation is proved to be what `Semantics` computes.
 */
module Reading {
  import opened Ir
  import opened Tables
  import opened Semantics

  // ---- Names --------------------------------------------------------------------------------

  /** The n-th frame outwards from env; frames only enclose younger ones. */
  function Outwards(frames: seq<Frame>, env: nat, n: nat): Option<nat> {
    if n == 0 then (if env < |frames| then Some(env) else None)
    else match Outwards(frames, env, n - 1)
      case None => None
      case Some(f) =>
        if f < |frames| && frames[f].parent.Some? && frames[f].parent.value < f then frames[f].parent else None
  }

  /** The n-th frame outwards binds name to v, and no nearer frame binds it. */
  ghost predicate BindsAt(frames: seq<Frame>, env: nat, name: string, v: Value, n: nat) {
    && (match Outwards(frames, env, n)
        case None => false
        case Some(f) => f < |frames| && name in frames[f].vars && frames[f].vars[name] == v)
    && forall m: nat | m < n ::
         match Outwards(frames, env, m)
         case None => true
         case Some(f) => f < |frames| ==> name !in frames[f].vars
  }

  ghost predicate Nearest(frames: seq<Frame>, env: nat, name: string, v: Value) {
    exists n: nat :: BindsAt(frames, env, name, v, n)
  }

  lemma {:induction false} OutwardsStep(frames: seq<Frame>, env: nat, n: nat)
    requires env < |frames|
    ensures Outwards(frames, env, n + 1) ==
              if frames[env].parent.Some? && frames[env].parent.value < env then Outwards(frames, frames[env].parent.value, n) else None
  {
    if n > 0 { OutwardsStep(frames, env, n - 1); }
  }

  lemma {:induction false} OutwardsInside(frames: seq<Frame>, env: nat, n: nat)
    ensures match Outwards(frames, env, n) case None => true case Some(f) => f < |frames|
  {
    if n > 0 { OutwardsInside(frames, env, n - 1); }
  }

  /** Looking a name up finds the nearest binding of it, and nothing exactly when there is none. */
  lemma {:induction false} LookupExactly(frames: seq<Frame>, env: nat, name: string, v: Value)
    ensures Lookup(frames, env, name) == Some(v) <==> Nearest(frames, env, name, v)
    decreases env
  {
    if env >= |frames| {
      forall n: nat ensures !BindsAt(frames, env, name, v, n) { NoFrame(frames, env, n); }
    } else if name in frames[env].vars {
      assert BindsAt(frames, env, name, frames[env].vars[name], 0);
      forall n: nat | BindsAt(frames, env, name, v, n) ensures n == 0 {
        assert Outwards(frames, env, 0) == Some(env);
      }
    } else if frames[env].parent.Some? && frames[env].parent.value < env {
      LookupExactly(frames, frames[env].parent.value, name, v);
      NearestOutwards(frames, env, name, v);
    } else {
      forall n: nat ensures !BindsAt(frames, env, name, v, n) {
        if n > 0 { OutwardsStep(frames, env, n - 1); }
      }
    }
  }

  lemma {:induction false} NoFrame(frames: seq<Frame>, env: nat, n: nat)
    requires env >= |frames|
    ensures Outwards(frames, env, n) == None
  {
    if n > 0 { NoFrame(frames, env, n - 1); }
  }

  lemma NearestOutwards(frames: seq<Frame>, env: nat, name: string, v: Value)
    requires env < |frames| && name !in frames[env].vars && frames[env].parent.Some? && frames[env].parent.value < env
    ensures Nearest(frames, env, name, v) <==> Nearest(frames, frames[env].parent.value, name, v)
  {
    var p := frames[env].parent.value;
    forall n: nat ensures Outwards(frames, env, n + 1) == Outwards(frames, p, n) { OutwardsStep(frames, env, n); }
    if n: nat :| BindsAt(frames, p, name, v, n) {
      forall m: nat | m < n + 1
        ensures match Outwards(frames, env, m) case None => true case Some(f) => f < |frames| ==> name !in frames[f].vars
      {
        if m > 0 { assert Outwards(frames, env, (m - 1) + 1) == Outwards(frames, p, m - 1); }
      }
      assert BindsAt(frames, env, name, v, n + 1);
    }
    if n: nat :| BindsAt(frames, env, name, v, n) {
      assert n > 0;
      forall m: nat | m < n - 1
        ensures match Outwards(frames, p, m) case None => true case Some(f) => f < |frames| ==> name !in frames[f].vars
      {
        assert Outwards(frames, env, m + 1) == Outwards(frames, p, m);
      }
      assert Outwards(frames, env, (n - 1) + 1) == Outwards(frames, p, n - 1);
      assert BindsAt(frames, p, name, v, n - 1);
    }
  }

  lemma {:induction false} OlderFrames(frames: seq<Frame>, f: Frame, env: nat, name: string)
    requires env < |frames|
    ensures Lookup(frames + [f], env, name) == Lookup(frames, env, name)
    decreases env
  {
    if name !in frames[env].vars && frames[env].parent.Some? && frames[env].parent.value < env {
      OlderFrames(frames, f, frames[env].parent.value, name);
    }
  }

  /** In a new frame its own names are found first, and every other name as in the frame around it. */
  lemma NewFrame(w: World, vars: map<string, Value>, env: nat, name: string)
    requires env < |w.frames|
    ensures Lookup(PushFrame(w, vars, env).frames, |w.frames|, name) == if name in vars then Some(vars[name]) else Lookup(w.frames, env, name)
  {
    var frames := PushFrame(w, vars, env).frames;
    assert frames[|w.frames|] == Frame(vars, Some(env));
    OlderFrames(w.frames, Frame(vars, Some(env)), env, name);
  }

  // ---- Arguments ----------------------------------------------------------------------------

  predicate HasRest(params: seq<string>) {
    params != [] && params[|params| - 1] != "" && params[|params| - 1][0] == '&'
  }

  /** Each name is bound to the value at its last position, and no other name is bound. */
  ghost predicate Paired(names: seq<string>, vs: seq<Value>, vars: map<string, Value>) {
    && |names| == |vs|
    && (forall x :: x in vars <==> x in names)
    && forall i | 0 <= i < |names| && IsLast(names, i) :: names[i] in vars && vars[names[i]] == vs[i]
  }

  ghost predicate IsLast(names: seq<string>, i: nat)
    requires i < |names|
  {
    forall j | i < j < |names| :: names[j] != names[i]
  }

  /**
   * The frame a closure body starts in.  Without a rest parameter there are as many arguments as
   * parameters.  With one, which must have a name, there may be more; its bare name stands for the list of
   * the remaining arguments, also when another parameter has that name.
   */
  ghost predicate Binds(params: seq<string>, args: seq<Value>, vars: map<string, Value>) {
    if !HasRest(params) then Paired(params, args, vars)
    else
      var n := |params| - 1;
      var bare := params[n][1..];
      && bare != "" && |args| >= n
      && bare in vars && vars[bare] == List(args[n..])
      && exists others :: Paired(params[..n], args[..n], others) && vars == others[bare := List(args[n..])]
  }

  lemma {:induction false} ZipPairs(names: seq<string>, vs: seq<Value>)
    requires |names| == |vs|
    ensures Paired(names, vs, Zip(names, vs))
  {
    if names != [] {
      hide Paired;
      var n := |names| - 1;
      ZipPairs(names[..n], vs[..n]);
      PairedMore(names, vs, Zip(names[..n], vs[..n]));
    }
  }

  lemma PairedMore(names: seq<string>, vs: seq<Value>, vars: map<string, Value>)
    requires names != [] && |names| == |vs| && Paired(names[..|names| - 1], vs[..|vs| - 1], vars)
    ensures Paired(names, vs, vars[names[|names| - 1] := vs[|vs| - 1]])
  {
    var n := |names| - 1;
    var front, vars2 := names[..n], vars[names[n] := vs[n]];
    forall x ensures x in vars2 <==> x in names { FrontOrLast(names, x); }
    forall i | 0 <= i < |names| && IsLast(names, i) ensures names[i] in vars2 && vars2[names[i]] == vs[i] {
      if i < n {
        assert names[n] != names[i];
        assert IsLast(front, i) && front[i] == names[i];
      }
    }
  }

  lemma FrontOrLast(names: seq<string>, x: string)
    requires names != []
    ensures x in names <==> x in names[..|names| - 1] || x == names[|names| - 1]
  {
    if x in names {
      var i :| 0 <= i < |names| && names[i] == x;
      if i < |names| - 1 { assert names[..|names| - 1][i] == x; }
    }
  }

  lemma {:induction false} LastOf(names: seq<string>, x: string) returns (i: nat)
    requires x in names
    ensures i < |names| && names[i] == x && IsLast(names, i)
  {
    var n := |names| - 1;
    if names[n] == x {
      i := n;
    } else {
      FrontOrLast(names, x);
      i := LastOf(names[..n], x);
      assert forall j | i < j < |names| :: names[j] != x by {
        assert forall j | i < j < n :: names[..n][j] != x;
      }
    }
  }

  lemma PairedOnce(names: seq<string>, vs: seq<Value>, a: map<string, Value>, b: map<string, Value>)
    requires Paired(names, vs, a) && Paired(names, vs, b)
    ensures a == b
  {
    forall x | x in a ensures x in b && a[x] == b[x] {
      var i := LastOf(names, x);
    }
    assert a.Keys == b.Keys;
  }

  /** Binding succeeds exactly when the arguments fit the parameters, and then with that one frame. */
  lemma BindsExactly(params: seq<string>, args: seq<Value>)
    ensures forall vars :: BindArgs(params, args) == BoundVars(vars) <==> Binds(params, args, vars)
    ensures BindArgs(params, args).BindError? <==>
              if HasRest(params) then params[|params| - 1] == "&" || |args| < |params| - 1 else |args| != |params|
  {
    forall vars ensures BindArgs(params, args) == BoundVars(vars) <==> Binds(params, args, vars) {
      BindsOne(params, args, vars);
    }
    if HasRest(params) { assert params[|params| - 1] == "&" <==> params[|params| - 1][1..] == ""; }
  }

  lemma BindsOne(params: seq<string>, args: seq<Value>, vars: map<string, Value>)
    ensures BindArgs(params, args) == BoundVars(vars) <==> Binds(params, args, vars)
  {
    if !HasRest(params) {
      if |args| == |params| {
        ZipPairs(params, args);
        if Paired(params, args, vars) { PairedOnce(params, args, vars, Zip(params, args)); }
      }
    } else {
      var n := |params| - 1;
      assert params[n] == "&" <==> params[n][1..] == "";
      if |args| >= n {
        ZipPairs(params[..n], args[..n]);
        if others :| Paired(params[..n], args[..n], others) && vars == others[params[n][1..] := List(args[n..])] {
          PairedOnce(params[..n], args[..n], others, Zip(params[..n], args[..n]));
        }
      }
    }
  }

  /** The parameters that take one argument each. */
  function Singles(params: seq<string>): (r: seq<string>)
    ensures |r| <= |params|
  {
    if HasRest(params) then params[..|params| - 1] else params
  }

  /** The bare name of the rest parameter. */
  function RestName(params: seq<string>): string
    requires HasRest(params)
  {
    params[|params| - 1][1..]
  }

  /** A parameter is bound to its own argument, unless a later one or the rest parameter has the same name. */
  lemma OwnArgument(params: seq<string>, args: seq<Value>, vars: map<string, Value>, i: nat)
    requires Binds(params, args, vars) && i < |Singles(params)| && IsLast(Singles(params), i)
    requires HasRest(params) ==> Singles(params)[i] != RestName(params)
    ensures i < |args| && Singles(params)[i] in vars && vars[Singles(params)[i]] == args[i]
  {
    hide Binds, Paired, IsLast, Singles, RestName, HasRest;
    var others := SinglesPaired(params, args, vars);
    PairedAt(Singles(params), args[..|Singles(params)|], others, i);
  }

  lemma PairedAt(names: seq<string>, vs: seq<Value>, vars: map<string, Value>, i: nat)
    requires Paired(names, vs, vars) && i < |names| && IsLast(names, i)
    ensures i < |vs| && names[i] in vars && vars[names[i]] == vs[i]
  {
  }

  /** The frame without the rest parameter, and what that adds. */
  lemma SinglesPaired(params: seq<string>, args: seq<Value>, vars: map<string, Value>) returns (others: map<string, Value>)
    requires Binds(params, args, vars)
    ensures |Singles(params)| <= |args| && Paired(Singles(params), args[..|Singles(params)|], others)
    ensures vars == if HasRest(params) then others[RestName(params) := List(args[|Singles(params)|..])] else others
  {
    hide Paired;
    if HasRest(params) {
      var n := |params| - 1;
      others :| Paired(params[..n], args[..n], others) && vars == others[params[n][1..] := List(args[n..])];
    } else {
      others := vars;
      PairedLength(params, args, vars);
      assert args[..|params|] == args;
    }
  }

  lemma PairedLength(names: seq<string>, vs: seq<Value>, vars: map<string, Value>)
    requires Paired(names, vs, vars)
    ensures |names| == |vs|
  {
  }

  /** Inside a closure body, a parameter stands for its argument. */
  lemma ParameterInScope(w: World, code: Code, args: seq<Value>, vars: map<string, Value>, i: nat)
    requires Binds(code.params, args, vars) && code.env < |w.frames|
    requires i < |Singles(code.params)| && IsLast(Singles(code.params), i)
    requires HasRest(code.params) ==> Singles(code.params)[i] != RestName(code.params)
    ensures i < |args|
    ensures Lookup(PushFrame(w, vars, code.env).frames, |w.frames|, Singles(code.params)[i]) == Some(args[i])
  {
    hide *;
    OwnArgument(code.params, args, vars, i);
    NewFrame(w, vars, code.env, Singles(code.params)[i]);
  }

  /** The rest parameter stands for the list of the remaining arguments. */
  lemma RestInScope(w: World, code: Code, args: seq<Value>, vars: map<string, Value>)
    requires Binds(code.params, args, vars) && code.env < |w.frames| && HasRest(code.params)
    ensures |args| >= |code.params| - 1 >= 0
    ensures Lookup(PushFrame(w, vars, code.env).frames, |w.frames|, RestName(code.params)) == Some(List(args[|code.params| - 1..]))
  {
    hide Lookup, PushFrame;
    NewFrame(w, vars, code.env, RestName(code.params));
  }

  /** Any other name stands for what it stood for where the closure was made. */
  lemma OtherNamesInScope(w: World, code: Code, args: seq<Value>, vars: map<string, Value>, name: string)
    requires Binds(code.params, args, vars) && code.env < |w.frames|
    requires name !in Singles(code.params) && (HasRest(code.params) ==> name != RestName(code.params))
    ensures Lookup(PushFrame(w, vars, code.env).frames, |w.frames|, name) == Lookup(w.frames, code.env, name)
  {
    hide Lookup, PushFrame;
    NewFrame(w, vars, code.env, name);
  }

  // ---- Values -------------------------------------------------------------------------------

  /** The values an `if` takes for false. */
  predicate IsFalse(v: Value) {
    || v == Null || v == Bool(false) || v == Int(0) || v == Float(0) || v == Float(0x8000_0000_0000_0000)
    || v == Str("") || v == Tuple([]) || v == List([]) || v == Map([])
  }

  lemma TruthyExactly(v: Value)
    ensures Truthy(v) <==> !IsFalse(v)
  {
  }

  /** Equal as 64-bit floating-point numbers: the same pattern and no NaN, or both zeros. */
  predicate SameNumber(a: FloatBits, b: FloatBits) {
    var aNaN := a / 0x10_0000_0000_0000 % 0x800 == 0x7FF && a % 0x10_0000_0000_0000 != 0;
    (!aNaN && a == b) || ((a == 0 || a == 0x8000_0000_0000_0000) && (b == 0 || b == 0x8000_0000_0000_0000))
  }

  lemma FloatEqExactly(a: FloatBits, b: FloatBits)
    ensures FloatEq(a, b) <==> SameNumber(a, b)
  {
    var e, f := a / 0x10_0000_0000_0000, a % 0x10_0000_0000_0000;
    assert a == e * 0x10_0000_0000_0000 + f && 0 <= e < 0x1000;
    var m := a % 0x8000_0000_0000_0000;
    assert m == (e % 0x800) * 0x10_0000_0000_0000 + f;
  }

  /** v is the value of the literal l. */
  ghost predicate Denotes(l: Literal, v: Value)
    decreases l
  {
    match l
    case LNull => v == Null
    case LBool(b) => v == Bool(b)
    case LInt(i) => v == Int(i)
    case LFloat(bits) => v == Float(bits)
    case LStr(s) => v == Str(s)
    case LTuple(items) => v.Tuple? && |v.items| == |items| && forall i | 0 <= i < |items| :: Denotes(items[i], v.items[i])
    case LDict(es) =>
      && v.Map? && DictKeys(es, v.entries)
      && forall i, j | 0 <= i < |es| && 0 <= j < |v.entries| && v.entries[j].0 == es[i].key && LastKey(es, i) ::
           Denotes(es[i].value, v.entries[j].1)
  }

  ghost predicate LastKey(es: seq<DictEntry>, i: nat)
    requires i < |es|
  {
    forall k | i < k < |es| :: es[k].key != es[i].key
  }

  /** The keys of a dictionary, each once. */
  ghost predicate DictKeys(es: seq<DictEntry>, entries: seq<(string, Value)>) {
    && (forall i, j | 0 <= i < j < |entries| :: entries[i].0 != entries[j].0)
    && (forall i | 0 <= i < |es| :: HasKey(entries, es[i].key))
    && (forall j | 0 <= j < |entries| :: IsKeyOf(es, entries[j].0))
  }

  ghost predicate IsKeyOf(es: seq<DictEntry>, key: string) {
    exists i :: 0 <= i < |es| && es[i].key == key
  }

  ghost predicate HasKey(entries: seq<(string, Value)>, key: string) {
    exists j :: 0 <= j < |entries| && entries[j].0 == key
  }

  lemma {:induction false} LiteralDenotes(l: Literal)
    ensures Denotes(l, FromLiteral(l))
    decreases l, 0
  {
    match l
    case LTuple(items) => TupleDenotes(items);
    case LDict(es) =>
      DictDenotes(es, es, []);
      assert es[..0] == [];
    case _ =>
  }

  lemma {:induction false} TupleDenotes(ls: seq<Literal>)
    ensures |FromLiterals(ls)| == |ls| && forall i | 0 <= i < |ls| :: Denotes(ls[i], FromLiterals(ls)[i])
    decreases ls
  {
    if ls != [] {
      LiteralDenotes(ls[0]);
      TupleDenotes(ls[1..]);
      var vs := FromLiterals(ls[1..]);
      forall i | 0 <= i < |ls| ensures Denotes(ls[i], ([FromLiteral(ls[0])] + vs)[i]) {
        if i > 0 { assert ls[1..][i - 1] == ls[i]; }
      }
    }
  }

  /** acc holds the entries done: each key once, with the value of its last entry. */
  ghost predicate Collected(done: seq<DictEntry>, acc: seq<(string, Value)>) {
    && DictKeys(done, acc)
    && forall i, j | 0 <= i < |done| && 0 <= j < |acc| && acc[j].0 == done[i].key && LastKey(done, i) :: Denotes(done[i].value, acc[j].1)
  }

  lemma {:induction false} PutEntryAt(acc: seq<(string, Value)>, key: string, v: Value)
    requires forall i, j | 0 <= i < j < |acc| :: acc[i].0 != acc[j].0
    ensures var r := PutEntry(acc, key, v);
            && (HasKey(acc, key) ==> |r| == |acc|) && (!HasKey(acc, key) ==> r == acc + [(key, v)])
            && (HasKey(acc, key) ==> forall j | 0 <= j < |acc| :: r[j] == if acc[j].0 == key then (key, v) else acc[j])
  {
    if acc != [] && acc[0].0 != key {
      PutEntryAt(acc[1..], key, v);
      var r := PutEntry(acc[1..], key, v);
      assert PutEntry(acc, key, v) == [acc[0]] + r;
      if j :| 0 <= j < |acc| && acc[j].0 == key {
        assert acc[1..][j - 1].0 == key;
        assert HasKey(acc[1..], key);
      } else {
        assert !HasKey(acc[1..], key);
        assert acc == [acc[0]] + acc[1..];
      }
    } else if acc != [] {
      assert acc[0].0 == key && HasKey(acc, key);
      assert PutEntry(acc, key, v) == [(key, v)] + acc[1..];
    }
  }

  lemma CollectOne(done: seq<DictEntry>, acc: seq<(string, Value)>, e: DictEntry, v: Value)
    requires Collected(done, acc) && Denotes(e.value, v)
    ensures Collected(done + [e], PutEntry(acc, e.key, v))
  {
    hide Denotes, HasKey, IsKeyOf;
    PutEntryAt(acc, e.key, v);
    var done2, r := done + [e], PutEntry(acc, e.key, v);
    hide PutEntry, DictKeys;
    KeysAfter(done, acc, e, r, v);
    hide LastKey;
    forall i, j | 0 <= i < |done2| && 0 <= j < |r| && r[j].0 == done2[i].key && LastKey(done2, i) ensures Denotes(done2[i].value, r[j].1) {
      ValueAfter(done, acc, e, v, r, i, j);
    }
  }

  lemma ValueAfter(done: seq<DictEntry>, acc: seq<(string, Value)>, e: DictEntry, v: Value, r: seq<(string, Value)>, i: nat, j: nat)
    requires i < |done + [e]| && j < |r| && r[j].0 == (done + [e])[i].key && LastKey(done + [e], i)
    requires Denotes(e.value, v) && Collected(done, acc)
    requires if r[j].0 == e.key then r[j].1 == v else j < |acc| && r[j] == acc[j]
    ensures Denotes((done + [e])[i].value, r[j].1)
  {
    hide Denotes, DictKeys, LastKey;
    if i < |done| {
      StillLast(done, e, i);
      assert (done + [e])[i] == done[i];
    }
  }

  lemma StillLast(done: seq<DictEntry>, e: DictEntry, i: nat)
    requires i < |done| && LastKey(done + [e], i)
    ensures LastKey(done, i) && e.key != done[i].key
  {
    var done2 := done + [e];
    assert done2[|done|] == e && done2[i] == done[i];
    assert forall k | i < k < |done| :: done2[k] == done[k];
  }

  lemma KeysAfter(done: seq<DictEntry>, acc: seq<(string, Value)>, e: DictEntry, r: seq<(string, Value)>, v: Value)
    requires DictKeys(done, acc)
    requires HasKey(acc, e.key) ==> |r| == |acc| && forall j | 0 <= j < |acc| :: r[j] == if acc[j].0 == e.key then (e.key, v) else acc[j]
    requires !HasKey(acc, e.key) ==> r == acc + [(e.key, v)]
    ensures DictKeys(done + [e], r)
    ensures forall j | 0 <= j < |r| :: if r[j].0 == e.key then r[j].1 == v else j < |acc| && r[j] == acc[j]
  {
    KeysStay(acc, e.key, r, v);
    hide HasKey, IsKeyOf;
    var done2 := done + [e];
    forall i | 0 <= i < |done2| ensures HasKey(r, done2[i].key) {
      if i < |done| { KeyKept(acc, r, done[i].key); }
    }
    forall j | 0 <= j < |r| ensures IsKeyOf(done2, r[j].0) {
      MoreKeys(done, e, r[j].0);
      if j < |acc| { assert IsKeyOf(done, acc[j].0); }
    }
  }

  lemma KeyKept(acc: seq<(string, Value)>, r: seq<(string, Value)>, key: string)
    requires HasKey(acc, key) && |acc| <= |r| && forall j | 0 <= j < |acc| :: r[j].0 == acc[j].0
    ensures HasKey(r, key)
  {
    var j :| 0 <= j < |acc| && acc[j].0 == key;
    assert r[j].0 == key;
  }

  lemma MoreKeys(es: seq<DictEntry>, e: DictEntry, key: string)
    ensures IsKeyOf(es, key) || key == e.key ==> IsKeyOf(es + [e], key)
  {
    if i :| 0 <= i < |es| && es[i].key == key { assert (es + [e])[i].key == key; }
    assert (es + [e])[|es|] == e;
  }

  lemma KeysStay(acc: seq<(string, Value)>, key: string, r: seq<(string, Value)>, v: Value)
    requires forall i, j | 0 <= i < j < |acc| :: acc[i].0 != acc[j].0
    requires HasKey(acc, key) ==> |r| == |acc| && forall j | 0 <= j < |acc| :: r[j] == if acc[j].0 == key then (key, v) else acc[j]
    requires !HasKey(acc, key) ==> r == acc + [(key, v)]
    ensures |acc| <= |r| <= |acc| + 1 && HasKey(r, key)
    ensures forall j | 0 <= j < |acc| :: r[j].0 == acc[j].0
    ensures |r| > |acc| ==> r[|acc|].0 == key
    ensures forall i, j | 0 <= i < j < |r| :: r[i].0 != r[j].0
    ensures forall j | 0 <= j < |r| :: if r[j].0 == key then r[j].1 == v else j < |acc| && r[j] == acc[j]
  {
    if j :| 0 <= j < |acc| && acc[j].0 == key {
      assert HasKey(acc, key);
      assert r[j].0 == key;
    } else {
      assert !HasKey(acc, key);
      assert r[|acc|].0 == key;
    }
  }

  lemma {:induction false} DictDenotes(all: seq<DictEntry>, es: seq<DictEntry>, acc: seq<(string, Value)>)
    requires |es| <= |all| && es == all[|all| - |es|..] && Collected(all[..|all| - |es|], acc)
    ensures Collected(all, FromEntries(es, acc))
    decreases es
  {
    hide Collected;
    var n := |all| - |es|;
    if es == [] {
      assert all[..n] == all;
    } else {
      assert es[0] == all[n];
      LiteralDenotes(es[0].value);
      CollectOne(all[..n], acc, es[0], FromLiteral(es[0].value));
      assert all[..n] + [es[0]] == all[..n + 1];
      DictDenotes(all, es[1..], PutEntry(acc, es[0].key, FromLiteral(es[0].value)));
    }
  }
}
