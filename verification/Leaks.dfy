/** Values with an order of entries for every map in them, and what a refused encoding leaves allocated. */
module Leaks {
  import opened Ir
  import opened SysValues

  /** A value as encoding meets it: the entries of each map in the order in which that map yields them. */
  datatype Ordered = Leaf(v: SysValue) | Items(items: seq<Ordered>) | Entries(entries: seq<Entry>)
  datatype Entry = Entry(key: Text, value: Ordered)

  function Plain(o: Ordered): SysValue
    decreases o, 0
  {
    match o
    case Leaf(v) => v
    case Items(items) => List(PlainAll(items))
    case Entries(es) => Map(PlainMap(es))
  }

  function PlainAll(os: seq<Ordered>): (vs: seq<SysValue>)
    ensures |vs| == |os|
    decreases os, 0, |os|
  {
    if os == [] then [] else PlainAll(os[..|os| - 1]) + [Plain(os[|os| - 1])]
  }

  function PlainMap(es: seq<Entry>): map<Text, SysValue>
    decreases es, 0, |es|
  {
    if es == [] then map[] else PlainMap(es[..|es| - 1])[es[|es| - 1].key := Plain(es[|es| - 1].value)]
  }

  /** No map yields a key twice, and lists and maps are never hidden in a leaf. */
  ghost predicate Proper(o: Ordered)
    decreases o
  {
    match o
    case Leaf(v) => !v.List? && !v.Map?
    case Items(items) => forall x | x in items :: Proper(x)
    case Entries(es) => KeysOnce(es) && forall e | e in es :: Proper(e.value)
  }

  predicate KeysOnce(es: seq<Entry>) {
    forall i, j | 0 <= i < j < |es| :: es[i].key != es[j].key
  }

  /** No map key in o holds a NUL byte. */
  predicate NulFree(o: Ordered)
    decreases o
  {
    match o
    case Leaf(_) => true
    case Items(items) => forall x | x in items :: NulFree(x)
    case Entries(es) => forall e | e in es :: 0 !in e.key && NulFree(e.value)
  }

  // ---- What a refusal leaves behind ---------------------------------------------------------------------

  /** The entries left encoded when o is refused: those before the first key with a NUL, in the map that has it. */
  function LeftBehind(o: Ordered): seq<Entry>
    decreases o, 0
  {
    match o
    case Leaf(_) => []
    case Items(items) => LeftInList(items, 0)
    case Entries(es) => LeftInMap(es, 0)
  }

  function LeftInList(items: seq<Ordered>, i: nat): seq<Entry>
    requires i <= |items|
    decreases items, 1, |items| - i
  {
    if i == |items| then []
    else if NulFree(items[i]) then LeftInList(items, i + 1)
    else LeftBehind(items[i])
  }

  function LeftInMap(es: seq<Entry>, i: nat): seq<Entry>
    requires i <= |es|
    decreases es, 1, |es| - i
  {
    if i == |es| then []
    else if 0 in es[i].key then es[..i]
    else if NulFree(es[i].value) then LeftInMap(es, i + 1)
    else LeftBehind(es[i].value)
  }

  /** Some order of entries makes a refusal of v leave something allocated. */
  ghost predicate MayLeak(v: SysValue)
    decreases v
  {
    match v
    case List(items) => exists i | 0 <= i < |items| :: MayLeak(items[i]) && AllFree(items, i)
    case Map(m) =>
      || (exists k | k in m :: 0 !in k && MayLeak(m[k]))
      || ((exists k | k in m :: 0 in k) && (exists k | k in m :: 0 !in k && KeysNulFree(m[k])))
    case _ => false
  }

  ghost predicate AllFree(items: seq<SysValue>, i: nat)
    requires i <= |items|
  {
    forall j | 0 <= j < i :: KeysNulFree(items[j])
  }

  // ---- Facts about plain values -------------------------------------------------------------------------

  lemma {:induction false} PlainAllAt(os: seq<Ordered>, i: nat)
    requires i < |os|
    ensures PlainAll(os)[i] == Plain(os[i])
    decreases |os|
  {
    if i < |os| - 1 { PlainAllAt(os[..|os| - 1], i); }
  }

  lemma {:induction false} PlainMapKeys(es: seq<Entry>)
    ensures forall k :: k in PlainMap(es) <==> exists e | e in es :: e.key == k
    decreases |es|
  {
    if es != [] {
      var front, last := es[..|es| - 1], es[|es| - 1];
      PlainMapKeys(front);
      assert es == front + [last];
      forall k ensures k in PlainMap(es) <==> exists e | e in es :: e.key == k {
        if k in PlainMap(front) {
          var e :| e in front && e.key == k;
          assert e in es;
        } else if k == last.key {
          assert last in es;
        } else {
          assert forall e | e in es :: e in front || e == last;
        }
      }
    }
  }

  lemma {:induction false} PlainMapAt(es: seq<Entry>, i: nat)
    requires KeysOnce(es) && i < |es|
    ensures es[i].key in PlainMap(es) && PlainMap(es)[es[i].key] == Plain(es[i].value)
    decreases |es|
  {
    if i < |es| - 1 { PlainMapAt(es[..|es| - 1], i); }
  }

  /** Keys are NUL-free in o exactly when they are in the value it orders. */
  lemma {:induction false} NulFreePlain(o: Ordered)
    requires Proper(o)
    ensures NulFree(o) <==> KeysNulFree(Plain(o))
    decreases o
  {
    match o
    case Leaf(_) =>
    case Items(items) =>
      forall x | x in items ensures NulFree(x) <==> KeysNulFree(Plain(x)) { NulFreePlain(x); }
      NulFreeItems(items);
    case Entries(es) =>
      forall e | e in es ensures NulFree(e.value) <==> KeysNulFree(Plain(e.value)) { NulFreePlain(e.value); }
      NulFreeEntries(es);
  }

  lemma NulFreeItems(items: seq<Ordered>)
    requires forall x | x in items :: NulFree(x) <==> KeysNulFree(Plain(x))
    ensures NulFree(Items(items)) <==> KeysNulFree(List(PlainAll(items)))
  {
    hide Plain;
    forall i | 0 <= i < |items| ensures PlainAll(items)[i] == Plain(items[i]) { PlainAllAt(items, i); }
    hide PlainAll;
    if NulFree(Items(items)) {
      forall x | x in PlainAll(items) ensures KeysNulFree(x) {
        var i :| 0 <= i < |items| && PlainAll(items)[i] == x;
        assert items[i] in items;
      }
    } else {
      var i :| 0 <= i < |items| && !NulFree(items[i]);
      assert PlainAll(items)[i] in PlainAll(items);
    }
  }

  lemma NulFreeEntries(es: seq<Entry>)
    requires KeysOnce(es) && forall e | e in es :: NulFree(e.value) <==> KeysNulFree(Plain(e.value))
    ensures NulFree(Entries(es)) <==> KeysNulFree(Map(PlainMap(es)))
  {
    hide Plain;
    PlainMapKeys(es);
    forall i | 0 <= i < |es| ensures es[i].key in PlainMap(es) && PlainMap(es)[es[i].key] == Plain(es[i].value) {
      PlainMapAt(es, i);
    }
    hide PlainMap;
    if NulFree(Entries(es)) {
      forall k | k in PlainMap(es) ensures 0 !in k && KeysNulFree(PlainMap(es)[k]) {
        var e :| e in es && e.key == k;
        var i :| 0 <= i < |es| && es[i] == e;
      }
    } else {
      var i :| 0 <= i < |es| && !(0 !in es[i].key && NulFree(es[i].value));
    }
  }

  // ---- Every value has an order ------------------------------------------------------------------------

  lemma {:induction false} Arrange(v: SysValue) returns (o: Ordered)
    ensures Proper(o) && Plain(o) == v
    decreases v, 1
  {
    match v {
      case List(items) =>
        var os := ArrangeAll(items);
        o := Items(os);
      case Map(m) =>
        var es := Extend([], m, v);
        assert PlainMap([]) + m == m;
        o := Entries(es);
      case _ => o := Leaf(v);
    }
  }

  lemma {:induction false} ArrangeAll(vs: seq<SysValue>) returns (os: seq<Ordered>)
    ensures PlainAll(os) == vs && forall x | x in os :: Proper(x)
    decreases vs, 0, |vs|
  {
    if vs == [] {
      os := [];
    } else {
      var n := |vs| - 1;
      var front := ArrangeAll(vs[..n]);
      var last := Arrange(vs[n]);
      os := front + [last];
      assert os[..|os| - 1] == front && vs == vs[..n] + [vs[n]];
    }
  }

  /** pre can be followed by the entries of rest, a part of the map v. */
  ghost predicate CanExtend(pre: seq<Entry>, rest: map<Text, SysValue>, v: SysValue) {
    && v.Map? && (forall k | k in rest :: k in v.entries && rest[k] == v.entries[k])
    && KeysOnce(pre) && (forall i | 0 <= i < |pre| :: pre[i].key !in rest && Proper(pre[i].value))
  }

  lemma ExtendOne(pre: seq<Entry>, rest: map<Text, SysValue>, v: SysValue, k: Text, x: Ordered)
    requires CanExtend(pre, rest, v) && k in rest && Proper(x) && Plain(x) == rest[k]
    ensures CanExtend(pre + [Entry(k, x)], rest - {k}, v)
    ensures PlainMap(pre + [Entry(k, x)]) + (rest - {k}) == PlainMap(pre) + rest
  {
    hide Proper, Plain;
    var pre2 := pre + [Entry(k, x)];
    assert pre2[..|pre|] == pre;
  }

  lemma Extended(pre: seq<Entry>, v: SysValue)
    requires CanExtend(pre, map[], v)
    ensures Proper(Entries(pre)) && PlainMap(pre) + map[] == PlainMap(pre)
  {
  }

  lemma RestIsPart(pre: seq<Entry>, rest: map<Text, SysValue>, v: SysValue, k: Text)
    requires CanExtend(pre, rest, v) && k in rest
    ensures v.Map? && k in v.entries && rest[k] == v.entries[k] && rest[k] < v && |rest - {k}| < |rest|
  {
    assert (rest - {k}).Keys == rest.Keys - {k};
    assert |rest| == |rest.Keys| && |rest - {k}| == |(rest - {k}).Keys|;
  }

  /** The entries pre, followed by those of the map rest in some order. */
  lemma {:induction false} Extend(pre: seq<Entry>, rest: map<Text, SysValue>, v: SysValue) returns (es: seq<Entry>)
    requires CanExtend(pre, rest, v)
    ensures pre <= es && PlainMap(es) == PlainMap(pre) + rest && Proper(Entries(es))
    decreases v, 0, |rest|
  {
    hide *;
    if rest == map[] {
      es := pre;
      Extended(pre, v);
    } else {
      var k :| k in rest;
      RestIsPart(pre, rest, v, k);
      var x := Arrange(rest[k]);
      ExtendOne(pre, rest, v, k, x);
      es := Extend(pre + [Entry(k, x)], rest - {k}, v);
    }
  }

  // ---- Leaking exactly ---------------------------------------------------------------------------------

  lemma {:induction false} LeftMeansLeak(o: Ordered)
    requires Proper(o) && LeftBehind(o) != []
    ensures MayLeak(Plain(o))
    decreases o
  {
    match o
    case Items(items) =>
      var i := FirstInList(items, 0);
      LeftMeansLeak(items[i]);
      LeakInList(items, i);
    case Entries(es) =>
      var i := FirstInMap(es, 0);
      if 0 in es[i].key {
        PlainMapAt(es, i);
        PlainMapAt(es, 0);
        NulFreePlain(es[0].value);
      } else {
        LeftMeansLeak(es[i].value);
        PlainMapAt(es, i);
      }
    case Leaf(_) =>
  }

  lemma LeakInList(items: seq<Ordered>, i: nat)
    requires i < |items| && (forall x | x in items :: Proper(x)) && (forall j | 0 <= j < i :: NulFree(items[j]))
    requires MayLeak(Plain(items[i]))
    ensures MayLeak(List(PlainAll(items)))
  {
    hide NulFree, Proper, KeysNulFree;
    var vs := PlainAll(items);
    forall j | 0 <= j < i ensures KeysNulFree(vs[j]) {
      PlainAllAt(items, j);
      NulFreePlain(items[j]);
    }
    PlainAllAt(items, i);
    assert MayLeak(vs[i]) && AllFree(vs, i);
  }

  /** Where a list that leaves something behind is refused. */
  lemma {:induction false} FirstInList(items: seq<Ordered>, i: nat) returns (at: nat)
    requires i <= |items| && LeftInList(items, i) != [] && forall j | 0 <= j < i :: NulFree(items[j])
    ensures at < |items| && LeftBehind(items[at]) != [] && forall j | 0 <= j < at :: NulFree(items[j])
    decreases |items| - i
  {
    hide NulFree;
    if NulFree(items[i]) { at := FirstInList(items, i + 1); } else { at := i; }
  }

  lemma {:induction false} FirstInMap(es: seq<Entry>, i: nat) returns (at: nat)
    requires i <= |es| && LeftInMap(es, i) != [] && forall j | 0 <= j < i :: 0 !in es[j].key && NulFree(es[j].value)
    ensures at < |es| && forall j | 0 <= j < at :: 0 !in es[j].key && NulFree(es[j].value)
    ensures if 0 in es[at].key then at > 0 else LeftBehind(es[at].value) != []
    decreases |es| - i
  {
    hide NulFree;
    if 0 !in es[i].key && NulFree(es[i].value) { at := FirstInMap(es, i + 1); } else { at := i; }
  }

  lemma {:induction false} SomeOrderLeaks(v: SysValue) returns (o: Ordered)
    requires MayLeak(v)
    ensures Proper(o) && Plain(o) == v && LeftBehind(o) != []
    decreases v
  {
    match v {
      case List(items) =>
        var i :| 0 <= i < |items| && MayLeak(items[i]) && AllFree(items, i);
        var leaking := SomeOrderLeaks(items[i]);
        var os := LeakingList(items, i, leaking);
        o := Items(os);
      case Map(m) =>
        if k :| k in m && 0 !in k && MayLeak(m[k]) {
          var leaking := SomeOrderLeaks(m[k]);
          LeakRefused(leaking);
          var es := LeakingFirst(v, k, leaking);
          o := Entries(es);
        } else {
          var bad :| bad in m && 0 in bad;
          var good :| good in m && 0 !in good && KeysNulFree(m[good]);
          var es := NulSecond(v, good, bad);
          o := Entries(es);
        }
    }
  }

  /** What leaves something behind was refused. */
  lemma {:induction false} LeakRefused(o: Ordered)
    requires LeftBehind(o) != []
    ensures !NulFree(o)
    decreases o
  {
    match o
    case Items(items) =>
      var i := FirstInList(items, 0);
      LeakRefused(items[i]);
      assert items[i] in items;
    case Entries(es) =>
      var i := FirstInMap(es, 0);
      if 0 !in es[i].key { LeakRefused(es[i].value); }
      assert es[i] in es;
    case Leaf(_) =>
  }

  lemma LeakingList(items: seq<SysValue>, i: nat, leaking: Ordered) returns (os: seq<Ordered>)
    requires i < |items| && AllFree(items, i)
    requires Proper(leaking) && Plain(leaking) == items[i] && LeftBehind(leaking) != []
    ensures PlainAll(os) == items && (forall x | x in os :: Proper(x)) && LeftBehind(Items(os)) != []
  {
    hide Plain, NulFree, LeftBehind, KeysNulFree, Proper;
    var before := ArrangeAll(items[..i]);
    var after := ArrangeAll(items[i + 1..]);
    os := before + [leaking] + after;
    PlainAround(before, leaking, after);
    assert items == items[..i] + [items[i]] + items[i + 1..];
    FreeBefore(before, items[..i]);
    LeakRefused(leaking);
    SkipFree(os, 0, i);
    LeftIsInList(os);
  }

  lemma PlainAround(before: seq<Ordered>, o: Ordered, after: seq<Ordered>)
    ensures PlainAll(before + [o] + after) == PlainAll(before) + [Plain(o)] + PlainAll(after)
  {
    hide *;
    PlainAllCat(before + [o], after);
    PlainAllCat(before, [o]);
    PlainAllOne(o);
  }

  lemma FreeBefore(os: seq<Ordered>, vs: seq<SysValue>)
    requires PlainAll(os) == vs && (forall x | x in os :: Proper(x)) && forall j | 0 <= j < |vs| :: KeysNulFree(vs[j])
    ensures |os| == |vs| && forall j | 0 <= j < |os| :: NulFree(os[j])
  {
    hide Plain, NulFree, KeysNulFree, Proper, PlainAll;
    forall j | 0 <= j < |os| ensures NulFree(os[j]) {
      PlainAllAt(os, j);
      assert os[j] in os;
      NulFreePlain(os[j]);
    }
  }

  lemma LeftIsInList(os: seq<Ordered>)
    ensures LeftBehind(Items(os)) == LeftInList(os, 0)
  {
  }

  lemma {:induction false} SkipFree(os: seq<Ordered>, i: nat, at: nat)
    requires i <= at < |os| && (forall j | i <= j < at :: NulFree(os[j])) && !NulFree(os[at])
    ensures LeftInList(os, i) == LeftBehind(os[at])
    decreases at - i
  {
    hide NulFree, LeftBehind;
    if i < at { SkipFree(os, i + 1, at); }
  }

  lemma PlainAllOne(o: Ordered)
    ensures PlainAll([o]) == [Plain(o)]
  {
    hide Plain;
    assert [o][..0] == [];
  }

  lemma {:induction false} PlainAllCat(a: seq<Ordered>, b: seq<Ordered>)
    ensures PlainAll(a + b) == PlainAll(a) + PlainAll(b)
    decreases |b|
  {
    hide Plain;
    if b == [] {
      assert a + b == a;
    } else {
      var n := |b| - 1;
      assert (a + b)[..|a| + n] == a + b[..n];
      PlainAllCat(a, b[..n]);
    }
  }

  lemma LeakingFirst(v: SysValue, k: Text, leaking: Ordered) returns (es: seq<Entry>)
    requires v.Map? && k in v.entries && 0 !in k
    requires Proper(leaking) && Plain(leaking) == v.entries[k] && LeftBehind(leaking) != [] && !NulFree(leaking)
    ensures Proper(Entries(es)) && PlainMap(es) == v.entries && LeftBehind(Entries(es)) != []
  {
    var pre := [Entry(k, leaking)];
    es := Extend(pre, v.entries - {k}, v);
    assert pre[..0] == [];
    assert PlainMap(pre) == map[k := v.entries[k]];
    assert map[k := v.entries[k]] + (v.entries - {k}) == v.entries;
    assert es[0] == pre[0];
  }

  lemma NulSecond(v: SysValue, good: Text, bad: Text) returns (es: seq<Entry>)
    requires v.Map? && good in v.entries && bad in v.entries && 0 !in good && 0 in bad && KeysNulFree(v.entries[good])
    ensures Proper(Entries(es)) && PlainMap(es) == v.entries && LeftBehind(Entries(es)) != []
  {
    var m := v.entries;
    var x := Arrange(m[good]);
    var y := Arrange(m[bad]);
    NulFreePlain(x);
    var pre := [Entry(good, x), Entry(bad, y)];
    es := Extend(pre, m - {good, bad}, v);
    assert pre[..1] == [Entry(good, x)] && pre[..1][..0] == [];
    assert PlainMap(pre[..1]) == map[good := m[good]];
    assert PlainMap(pre) == map[good := m[good], bad := m[bad]];
    assert PlainMap(pre) + (m - {good, bad}) == m;
    assert es[0] == pre[0] && es[1] == pre[1];
    assert LeftInMap(es, 1) == es[..1];
  }

  /** A refusal of v can leave something allocated, for some order of its maps, exactly when v may leak. */
  lemma LeaksExactly(v: SysValue)
    ensures MayLeak(v) <==> exists o :: Proper(o) && Plain(o) == v && LeftBehind(o) != []
  {
    hide *;
    if MayLeak(v) {
      var o := SomeOrderLeaks(v);
    }
    if o :| Proper(o) && Plain(o) == v && LeftBehind(o) != [] {
      LeftMeansLeak(o);
    }
  }

  /** {"a": null, "\0": null}, with "a" first: the entry for "a" stays. */
  lemma LeakInstance()
    ensures var o := Entries([Entry([97], Leaf(Null)), Entry([0], Leaf(Null))]);
            Proper(o) && !NulFree(o) && LeftBehind(o) == [Entry([97], Leaf(Null))]
  {
    var es := [Entry([97], Leaf(Null)), Entry([0], Leaf(Null))];
    assert es[1] in es;
    assert LeftInMap(es, 1) == es[..1];
    assert LeftInMap(es, 0) == LeftInMap(es, 1);
  }
}
