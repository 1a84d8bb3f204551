/** The heap behind the direct ABI: encoding allocates exactly what the result owns, freeing releases it. */
module DirectHeap {
  import opened Ir
  import opened SysValues
  import opened DirectAbi
  import opened Leaks

  /** Every block of b0 is still there, unchanged. */
  ghost predicate Keeps(b0: Blocks, b1: Blocks) {
    forall a | a in b0 :: a in b1 && b1[a] == b0[a]
  }

  /** b1 is b0 plus blocks at the addresses own. */
  ghost predicate Grown(b0: Blocks, b1: Blocks, own: set<Addr>) {
    Keeps(b0, b1) && own == b1.Keys - b0.Keys
  }

  lemma {:induction false} Bounded(s: set<Addr>) returns (n: Addr)
    ensures forall a | a in s :: a < n
  {
    if s == {} {
      n := 0;
    } else {
      var x :| x in s;
      var rest := Bounded(s - {x});
      n := if x < rest then rest else x + 1;
      assert forall a | a in s :: a == x || a in s - {x};
    }
  }

  lemma SomeFreeAddress(b: Blocks)
    ensures exists p: Addr :: p != 0 && p !in b
  {
    var n := Bounded(b.Keys);
    assert n + 1 !in b;
  }

  lemma MinusTwice(b: Blocks, s: set<Addr>, t: set<Addr>)
    ensures (b - s) - t == b - (s + t)
  {
  }

  lemma GrownBack(b0: Blocks, b1: Blocks, own: set<Addr>)
    requires Grown(b0, b1, own)
    ensures b1 - own == b0
  {
    assert (b1 - own).Keys == b0.Keys;
  }

  lemma {:induction false} ClaimAllPrefix(b: Blocks, raws: seq<Raw>, items: seq<SysValue>, i: nat)
    requires ClaimAll(b, raws, items).Some? && i <= |raws|
    ensures |raws| == |items|
    ensures ClaimAll(b, raws[..i], items[..i]).Some?
    ensures ClaimAll(b, raws[..i], items[..i]).value <= ClaimAll(b, raws, items).value
    decreases |raws|
  {
    hide Claim;
    if i == |raws| {
      assert raws[..i] == raws && items[..i] == items;
    } else {
      var n := |raws| - 1;
      ClaimAllPrefix(b, raws[..n], items[..n], i);
      assert raws[..n][..i] == raws[..i] && items[..n][..i] == items[..i];
    }
  }

  /** Claims of the first i + 1 items: those of the first i, and item i's, apart. */
  lemma ClaimAllStep(b: Blocks, raws: seq<Raw>, items: seq<SysValue>, i: nat)
    requires ClaimAll(b, raws, items).Some? && i < |raws|
    ensures |raws| == |items|
    ensures ClaimAll(b, raws[..i], items[..i]).Some? && Claim(b, raws[i], items[i]).Some?
    ensures ClaimAll(b, raws[..i + 1], items[..i + 1]) == Join(ClaimAll(b, raws[..i], items[..i]), Claim(b, raws[i], items[i]))
    ensures ClaimAll(b, raws[..i + 1], items[..i + 1]).Some?
  {
    hide Claim;
    ClaimAllPrefix(b, raws, items, i + 1);
    assert raws[..i + 1][..i] == raws[..i] && items[..i + 1][..i] == items[..i];
  }

  /** The entries es[..i] hold. */
  ghost function Part(b: Blocks, es: seq<RawEntry>, m: map<Text, SysValue>, v: SysValue, i: nat): map<Text, SysValue>
    requires v.Map? && forall k | k in m :: k in v.entries && m[k] == v.entries[k]
    requires ClaimEntries(b, es, m, v).Some? && i <= |es|
    decreases |es|
  {
    if i == |es| then m else Part(b, es[..|es| - 1], m - {b[es[|es| - 1].key].bytes}, v, i)
  }

  ghost predicate PartOf(m: map<Text, SysValue>, v: SysValue) {
    v.Map? && forall k | k in m :: k in v.entries && m[k] == v.entries[k]
  }

  lemma {:induction false} PartClaimed(b: Blocks, es: seq<RawEntry>, m: map<Text, SysValue>, v: SysValue, i: nat)
    requires PartOf(m, v) && ClaimEntries(b, es, m, v).Some? && i <= |es|
    ensures PartOf(Part(b, es, m, v, i), v)
    ensures ClaimEntries(b, es[..i], Part(b, es, m, v, i), v).Some?
    ensures ClaimEntries(b, es[..i], Part(b, es, m, v, i), v).value <= ClaimEntries(b, es, m, v).value
    decreases |es|
  {
    hide Claim;
    if i == |es| {
      assert es[..i] == es;
    } else {
      var n := |es| - 1;
      PartClaimed(b, es[..n], m - {b[es[n].key].bytes}, v, i);
      assert es[..n][..i] == es[..i];
    }
  }

  lemma {:induction false} PartStep(b: Blocks, es: seq<RawEntry>, m: map<Text, SysValue>, v: SysValue, i: nat)
    requires PartOf(m, v) && ClaimEntries(b, es, m, v).Some? && i < |es|
    ensures es[i].key in b && es[i].key != 0 && b[es[i].key].CString?
    ensures Part(b, es, m, v, i) == Part(b, es, m, v, i + 1) - {b[es[i].key].bytes}
    decreases |es|
  {
    hide Claim;
    if i + 1 < |es| {
      var n := |es| - 1;
      PartStep(b, es[..n], m - {b[es[n].key].bytes}, v, i);
    }
  }

  lemma ClaimEntriesStep(b: Blocks, es: seq<RawEntry>, m: map<Text, SysValue>, v: SysValue, i: nat)
    requires PartOf(m, v) && ClaimEntries(b, es, m, v).Some? && i < |es|
    ensures PartOf(Part(b, es, m, v, i), v) && PartOf(Part(b, es, m, v, i + 1), v)
    ensures es[i].key in b && es[i].key != 0 && b[es[i].key].CString?
    ensures var k := b[es[i].key].bytes;
            && k in v.entries
            && var rest := ClaimEntries(b, es[..i], Part(b, es, m, v, i), v);
            && var mine := Claim(b, es[i].value, v.entries[k]);
            && rest.Some? && mine.Some? && es[i].key !in mine.value && rest.value !! mine.value && es[i].key !in rest.value
            && ClaimEntries(b, es[..i + 1], Part(b, es, m, v, i + 1), v) == Some(rest.value + ({es[i].key} + mine.value))
  {
    hide Claim;
    PartClaimed(b, es, m, v, i);
    PartClaimed(b, es, m, v, i + 1);
    PartStep(b, es, m, v, i);
    assert es[..i + 1][..i] == es[..i];
  }

  lemma EmptyClaim(b: Blocks)
    ensures ClaimAll(b, [], []) == Some({})
  {
  }

  lemma EmptyEntries(b: Blocks, m: map<Text, SysValue>, v: SysValue)
    requires PartOf(m, v) && ClaimEntries(b, [], m, v).Some?
    ensures m == map[] && ClaimEntries(b, [], m, v) == Some({})
  {
  }

  lemma NullOwnsNothing(b: Blocks, raw: Raw, v: SysValue)
    requires Claim(b, raw, v).Some? && raw.ptr == 0
    ensures Claim(b, raw, v).value == {}
  {
  }

  /** One more item encoded after the others. */
  lemma ClaimAllGrows(b0: Blocks, b1: Blocks, b2: Blocks, raws: seq<Raw>, items: seq<SysValue>, raw: Raw, v: SysValue)
    requires AllRemain(b0, b1, raws, items)
    requires Claim(b2, raw, v).Some? && Grown(b1, b2, Claim(b2, raw, v).value)
    ensures AllRemain(b0, b2, raws + [raw], items + [v])
  {
    hide Claim;
    ClaimAllInside(b1, raws, items);
    ClaimAllFrame(b1, b2, raws, items);
    assert (raws + [raw])[..|raws|] == raws && (items + [v])[..|raws|] == items by {
      assert |raws| == |items|;
    }
  }

  /** One more entry encoded after the others: its key block k0, then its value. */
  lemma ClaimEntriesGrows(b0: Blocks, b1: Blocks, b2: Blocks, es: seq<RawEntry>, m: map<Text, SysValue>, v: SysValue,
                          k: Text, p: Addr, raw: Raw)
    requires PartOf(m, v) && k in v.entries && k !in m && PartOf(m[k := v.entries[k]], v)
    requires ClaimEntries(b1, es, m, v).Some? && Grown(b0, b1, ClaimEntries(b1, es, m, v).value)
    requires p != 0 && p !in b1
    requires Claim(b2, raw, v.entries[k]).Some?
    requires Grown(b1[p := CString(k)], b2, Claim(b2, raw, v.entries[k]).value)
    ensures ClaimEntries(b2, es + [RawEntry(p, raw)], m[k := v.entries[k]], v).Some?
    ensures Grown(b0, b2, ClaimEntries(b2, es + [RawEntry(p, raw)], m[k := v.entries[k]], v).value)
  {
    hide Claim;
    var m2 := m[k := v.entries[k]];
    var es2 := es + [RawEntry(p, raw)];
    ClaimEntriesInside(b1, es, m, v);
    ClaimEntriesFrame(b1, b2, es, m, v);
    assert es2[..|es|] == es && m2 - {k} == m;
    assert p in b2 && b2[p] == CString(k) by { assert p in b1[p := CString(k)]; }
    var own1 := ClaimEntries(b1, es, m, v).value;
    var own2 := Claim(b2, raw, v.entries[k]).value;
    assert ClaimEntries(b2, es2, m2, v) == Some(own1 + ({p} + own2));
    assert own1 + ({p} + own2) == b2.Keys - b0.Keys;
  }

  /** What an encoding of entries owns does not depend on the map they are part of. */
  lemma {:induction false} ClaimEntriesAny(b: Blocks, es: seq<RawEntry>, m: map<Text, SysValue>, v: SysValue, v2: SysValue)
    requires PartOf(m, v) && PartOf(m, v2)
    ensures ClaimEntries(b, es, m, v) == ClaimEntries(b, es, m, v2)
    decreases |es|
  {
    hide Claim;
    if es != [] {
      var e := es[|es| - 1];
      if e.key in b && b[e.key].CString? && b[e.key].bytes in m {
        ClaimEntriesAny(b, es[..|es| - 1], m - {b[e.key].bytes}, v, v2);
      }
    }
  }

  /** b1 is b0 plus exactly the blocks raws own as the encoding of the entries es. */
  ghost predicate Remains(b0: Blocks, b1: Blocks, raws: seq<RawEntry>, es: seq<Entry>) {
    var m := PlainMap(es);
    ClaimEntries(b1, raws, m, Map(m)).Some? && Grown(b0, b1, ClaimEntries(b1, raws, m, Map(m)).value)
  }

  lemma NothingRemains(b: Blocks)
    ensures Remains(b, b, [], [])
  {
  }

  /** Every entry owns at least its key. */
  lemma RemainsNothing(b0: Blocks, b1: Blocks, raws: seq<RawEntry>, es: seq<Entry>)
    requires Remains(b0, b1, raws, es)
    ensures b1 == b0 <==> es == []
  {
    hide Claim;
    var m := PlainMap(es);
    var own := ClaimEntries(b1, raws, m, Map(m)).value;
    if es == [] {
      assert own == {};
      GrownBack(b0, b1, {});
      assert b1 - {} == b1;
    } else {
      assert es[|es| - 1].key in m;
      assert raws[|raws| - 1].key in own;
    }
  }

  /** Releasing own after a refusal gives back b0, plus exactly what the refusal itself left. */
  lemma Undone(b0: Blocks, b1: Blocks, b2: Blocks, own: set<Addr>, left: seq<RawEntry>, es: seq<Entry>)
    requires Grown(b0, b1, own) && Remains(b1, b2, left, es)
    ensures Remains(b0, b2 - own, left, es)
  {
    hide Claim, ClaimEntries, PlainMap;
    var m := PlainMap(es);
    var kept := ClaimEntries(b2, left, m, Map(m)).value;
    ClaimEntriesFrame(b2, b2 - own, left, m, Map(m));
    assert (b2 - own).Keys == b0.Keys + kept;
  }

  lemma PlainMapFront(es: seq<Entry>, i: nat)
    requires KeysOnce(es) && i < |es|
    ensures PlainMap(es[..i + 1]) == PlainMap(es[..i])[es[i].key := Plain(es[i].value)] && es[i].key !in PlainMap(es[..i])
  {
    hide Plain;
    assert es[..i + 1][..i] == es[..i];
    PlainMapKeys(es[..i]);
  }

  /** One more entry encoded after the first i. */
  lemma RemainsGrows(b0: Blocks, b1: Blocks, b2: Blocks, raws: seq<RawEntry>, es: seq<Entry>, i: nat, p: Addr, raw: Raw)
    requires KeysOnce(es) && i < |es| && Remains(b0, b1, raws, es[..i]) && p != 0 && p !in b1
    requires Claim(b2, raw, Plain(es[i].value)).Some?
    requires Grown(b1[p := CString(es[i].key)], b2, Claim(b2, raw, Plain(es[i].value)).value)
    ensures Remains(b0, b2, raws + [RawEntry(p, raw)], es[..i + 1])
  {
    hide Claim, ClaimEntries, Plain, Grown;
    PlainMapFront(es, i);
    var m, k := PlainMap(es[..i]), es[i].key;
    var v := Map(PlainMap(es[..i + 1]));
    ClaimEntriesAny(b1, raws, m, Map(m), v);
    ClaimEntriesGrows(b0, b1, b2, raws, m, v, k, p, raw);
  }

  class Heap {
    var blocks: Blocks

    method Alloc(block: Block) returns (p: Addr)
      modifies this
      ensures p != 0 && p !in old(blocks) && blocks == old(blocks)[p := block]
    {
      SomeFreeAddress(blocks);
      p :| p != 0 && p !in blocks;
      blocks := blocks[p := block];
    }

    /** Dropping a box: the block must be live, so a block cannot be released twice. */
    method Release(p: Addr)
      requires p in blocks
      modifies this
      ensures blocks == old(blocks) - {p}
    {
      blocks := blocks - {p};
    }

    /** Releases exactly the blocks raw owns and leaves it without a pointer, so that freeing again does nothing. */
    method FreeContents(raw: Raw, ghost v: SysValue) returns (r: Raw)
      requires raw.ptr != 0 ==> Claim(blocks, raw, v).Some?
      modifies this
      ensures raw.ptr != 0 ==> blocks == old(blocks) - Claim(old(blocks), raw, v).value
      ensures raw.ptr == 0 ==> blocks == old(blocks) && r == raw
      ensures r.ptr == 0 && r.tag == raw.tag
      decreases v, 3
    {
      r := raw;
      if raw.ptr == 0 { return; }
      if raw.tag == 4 || raw.tag == 7 {
        Release(raw.ptr);
        r := raw.(ptr := 0, len := 0);
      } else if raw.tag == 5 {
        FreeList(raw.ptr, v.items);
        r := raw.(ptr := 0, len := 0);
      } else if raw.tag == 6 {
        FreeMap(raw.ptr, v);
        r := raw.(ptr := 0, len := 0);
      }
    }

    method FreeList(p: Addr, ghost items: seq<SysValue>)
      requires p in blocks && blocks[p].ValueBlock?
      requires Join(Own(p), ClaimAll(blocks, blocks[p].items, items)).Some?
      modifies this
      ensures blocks == old(blocks) - Join(Own(p), ClaimAll(old(blocks), old(blocks)[p].items, items)).value
      decreases items, 2
    {
      hide ClaimAll;
      ghost var b0 := blocks;
      ghost var own := ClaimAll(blocks, blocks[p].items, items).value;
      var freed := FreeAll(blocks[p].items, items);
      blocks := blocks[p := ValueBlock(freed)];
      Release(p);
      assert blocks == b0 - ({p} + own);
    }

    method FreeMap(p: Addr, ghost v: SysValue)
      requires v.Map? && p in blocks && blocks[p].EntryBlock?
      requires Join(Own(p), ClaimEntries(blocks, blocks[p].entries, v.entries, v)).Some?
      modifies this
      ensures blocks == old(blocks) - Join(Own(p), ClaimEntries(old(blocks), old(blocks)[p].entries, v.entries, v)).value
      decreases v, 2
    {
      hide ClaimEntries;
      ghost var b0 := blocks;
      ghost var own := ClaimEntries(blocks, blocks[p].entries, v.entries, v).value;
      var freed := FreeEntries(blocks[p].entries, v.entries, v);
      blocks := blocks[p := EntryBlock(freed)];
      Release(p);
      assert blocks == b0 - ({p} + own);
    }

    method FreeAll(raws: seq<Raw>, ghost items: seq<SysValue>) returns (freed: seq<Raw>)
      requires ClaimAll(blocks, raws, items).Some?
      modifies this
      ensures blocks == old(blocks) - ClaimAll(old(blocks), raws, items).value
      ensures |freed| == |raws| && forall r | r in freed :: r.ptr == 0
      decreases items, 1
    {
      hide Claim, ClaimAll;
      ghost var b0 := blocks;
      freed := [];
      ClaimAllPrefix(b0, raws, items, 0);
      EmptyClaim(b0);
      for i := 0 to |raws|
        invariant |freed| == i && |raws| == |items|
        invariant forall r | r in freed :: r.ptr == 0
        invariant ClaimAll(b0, raws[..i], items[..i]).Some?
        invariant blocks == b0 - ClaimAll(b0, raws[..i], items[..i]).value
      {
        ClaimAllStep(b0, raws, items, i);
        ghost var done := ClaimAll(b0, raws[..i], items[..i]).value;
        ghost var mine := Claim(b0, raws[i], items[i]).value;
        ClaimInside(b0, raws[i], items[i]);
        ClaimFrame(b0, blocks, raws[i], items[i]);
        if raws[i].ptr == 0 { NullOwnsNothing(b0, raws[i], items[i]); }
        MinusTwice(b0, done, mine);
        var r := FreeContents(raws[i], items[i]);
        freed := freed + [r];
      }
      assert raws[..|raws|] == raws && items[..|raws|] == items;
    }

    method FreeEntries(es: seq<RawEntry>, ghost m: map<Text, SysValue>, ghost v: SysValue) returns (freed: seq<RawEntry>)
      requires PartOf(m, v) && ClaimEntries(blocks, es, m, v).Some?
      modifies this
      ensures blocks == old(blocks) - ClaimEntries(old(blocks), es, m, v).value
      ensures |freed| == |es| && forall e | e in freed :: e.key == 0 && e.value.ptr == 0
      decreases v, 1
    {
      hide Claim, ClaimEntries;
      ghost var b0 := blocks;
      freed := [];
      PartClaimed(b0, es, m, v, 0);
      EmptyEntries(b0, Part(b0, es, m, v, 0), v);
      for i := 0 to |es|
        invariant |freed| == i
        invariant forall e | e in freed :: e.key == 0 && e.value.ptr == 0
        invariant PartOf(Part(b0, es, m, v, i), v)
        invariant ClaimEntries(b0, es[..i], Part(b0, es, m, v, i), v).Some?
        invariant blocks == b0 - ClaimEntries(b0, es[..i], Part(b0, es, m, v, i), v).value
      {
        ClaimEntriesStep(b0, es, m, v, i);
        var e := es[i];
        ghost var x := v.entries[b0[e.key].bytes];
        ghost var done := ClaimEntries(b0, es[..i], Part(b0, es, m, v, i), v).value;
        ghost var mine := Claim(b0, e.value, x).value;
        if e.key != 0 {
          Release(e.key);
        }
        MinusTwice(b0, done, {e.key});
        ClaimInside(b0, e.value, x);
        ClaimFrame(b0, blocks, e.value, x);
        if e.value.ptr == 0 { NullOwnsNothing(b0, e.value, x); }
        MinusTwice(b0, done + {e.key}, mine);
        assert done + {e.key} + mine == done + ({e.key} + mine);
        var r := FreeContents(e.value, x);
        freed := freed + [RawEntry(0, r)];
      }
      assert es[..|es|] == es;
    }

    /**
     * Encodes a value if and only if no map key in it holds a NUL byte. On success the blocks added are exactly
     * those the result owns. Blocks that were there before are never touched. On a refusal exactly the entries
     * encoded before the offending key, in the map that has it, stay allocated; everything else is released.
     */
    method Encode(o: Ordered) returns (ok: bool, raw: Raw, ghost left: seq<RawEntry>)
      requires Proper(o)
      modifies this
      ensures ok <==> NulFree(o)
      ensures ok ==> Claim(blocks, raw, Plain(o)).Some? && Grown(old(blocks), blocks, Claim(blocks, raw, Plain(o)).value)
      ensures !ok ==> Remains(old(blocks), blocks, left, LeftBehind(o))
      ensures !ok ==> (blocks == old(blocks) <==> LeftBehind(o) == [])
      decreases o, 3
    {
      left := [];
      assert LeftBehind(o) == (match o case Leaf(_) => [] case Items(items) => LeftInList(items, 0) case Entries(es) => LeftInMap(es, 0));
      match o {
        case Leaf(v) =>
          ok := true;
          raw := EncodeLeaf(v);
        case Items(items) =>
          hide Claim, ClaimAll, Join, Remains, LeftInList, Grown, Keeps;
          var p;
          ok, p, left := EncodeList(items);
          if ok { ListClaimed(blocks, p, PlainAll(items)); } else { RemainsNothing(old(blocks), blocks, left, LeftBehind(o)); }
          NothingGrown(blocks);
          raw := Pointing(5, p, |items|);
        case Entries(es) =>
          hide Claim, ClaimEntries, Join, Remains, LeftInMap, Grown, Keeps;
          var p;
          ok, p, left := EncodeMap(es);
          MapSize(es);
          if ok { MapClaimed(blocks, p, PlainMap(es)); } else { RemainsNothing(old(blocks), blocks, left, LeftBehind(o)); }
          NothingGrown(blocks);
          raw := Pointing(6, p, |es|);
      }
    }

    method EncodeLeaf(v: SysValue) returns (raw: Raw)
      requires !v.List? && !v.Map?
      modifies this
      ensures Claim(blocks, raw, v).Some? && Grown(old(blocks), blocks, Claim(blocks, raw, v).value)
    {
      if v.Null? { return Flat(0, 0, 0); }
      if v.Bool? { return Flat(1, if v.b then 1 else 0, 0); }
      if v.Int? { return Flat(2, v.i, 0); }
      if v.Float? { return Flat(3, 0, v.bits); }
      var s := if v.Str? then v.text else v.bytes;
      var p := EncodeBytes(s);
      return Pointing(if v.Str? then 4 else 7, p, |s|);
    }

    method EncodeBytes(s: seq<Byte>) returns (p: Addr)
      modifies this
      ensures s == [] ==> p == 0 && blocks == old(blocks)
      ensures s != [] ==> p != 0 && p !in old(blocks) && blocks == old(blocks)[p := ByteBlock(s)]
    {
      p := 0;
      if s != [] { p := Alloc(ByteBlock(s)); }
    }

    method EncodeList(items: seq<Ordered>) returns (ok: bool, p: Addr, ghost left: seq<RawEntry>)
      requires forall x | x in items :: Proper(x)
      modifies this
      ensures ok <==> NulFree(Items(items))
      ensures ok && items == [] ==> p == 0 && blocks == old(blocks)
      ensures ok && items != [] ==> p != 0 && p in blocks && blocks[p].ValueBlock?
      ensures ok && items != [] ==> Join(Own(p), ClaimAll(blocks, blocks[p].items, PlainAll(items))).Some?
      ensures ok && items != [] ==>
                Grown(old(blocks), blocks, Join(Own(p), ClaimAll(blocks, blocks[p].items, PlainAll(items))).value)
      ensures !ok ==> Remains(old(blocks), blocks, left, LeftInList(items, 0))
      decreases items, 2
    {
      p, left := 0, [];
      if items == [] { return true, 0, []; }
      hide Claim, ClaimAll, NulFree, Remains, LeftInList, PlainAll, Proper;
      var raws;
      ok, raws, left := EncodeAll(items);
      if ok {
        ghost var b1 := blocks;
        p := Alloc(ValueBlock(raws));
        ClaimAllInside(b1, raws, PlainAll(items));
        ClaimAllFrame(b1, blocks, raws, PlainAll(items));
        assert Join(Own(p), ClaimAll(blocks, raws, PlainAll(items))) == Some({p} + ClaimAll(b1, raws, PlainAll(items)).value);
      }
    }

    method EncodeAll(items: seq<Ordered>) returns (ok: bool, raws: seq<Raw>, ghost left: seq<RawEntry>)
      requires forall x | x in items :: Proper(x)
      modifies this
      ensures ok <==> NulFree(Items(items))
      ensures ok ==> ClaimAll(blocks, raws, PlainAll(items)).Some?
      ensures ok ==> Grown(old(blocks), blocks, ClaimAll(blocks, raws, PlainAll(items)).value)
      ensures !ok ==> Remains(old(blocks), blocks, left, LeftInList(items, 0))
      decreases items, 1
    {
      ghost var b0 := blocks;
      raws, left := [], [];
      hide *;
      NoneRemain(b0, items);
      NulFreeList(items);
      for i := 0 to |items|
        invariant AllRemain(b0, blocks, raws, PlainAll(items[..i]))
        invariant forall j | 0 <= j < i :: NulFree(items[j])
        invariant LeftInList(items, 0) == LeftInList(items, i)
      {
        var good, raw;
        assert items[i] in items;
        LeftStep(items, i);
        good, raw, left := EncodeItem(items, i, raws, b0);
        if !good { return false, [], left; }
        raws := raws + [raw];
      }
      assert items[..|items|] == items;
      AllRemained(b0, blocks, raws, PlainAll(items));
      ok := true;
    }

    /** One item. If it is refused, all items before it are released. */
    method EncodeItem(items: seq<Ordered>, i: nat, raws: seq<Raw>, ghost b0: Blocks)
      returns (ok: bool, raw: Raw, ghost left: seq<RawEntry>)
      requires i < |items| && Proper(items[i]) && AllRemain(b0, blocks, raws, PlainAll(items[..i]))
      modifies this
      ensures ok <==> NulFree(items[i])
      ensures ok ==> AllRemain(b0, blocks, raws + [raw], PlainAll(items[..i + 1]))
      ensures !ok ==> Remains(b0, blocks, left, LeftBehind(items[i]))
      decreases items, 0
    {
      hide *;
      ghost var b1, done := blocks, PlainAll(items[..i]);
      ok, raw, left := Encode(items[i]);
      if ok {
        ClaimAllGrows(b0, b1, blocks, raws, done, raw, Plain(items[i]));
        PlainAllFront(items, i);
      } else {
        KeptClaims(b0, b1, blocks, raws, done, left, LeftBehind(items[i]));
        var _ := FreeAll(raws, done);
      }
    }

    method EncodeMap(es: seq<Entry>) returns (ok: bool, p: Addr, ghost left: seq<RawEntry>)
      requires Proper(Entries(es))
      modifies this
      ensures ok <==> NulFree(Entries(es))
      ensures ok && es == [] ==> p == 0 && blocks == old(blocks)
      ensures ok && es != [] ==> p != 0 && p in blocks && blocks[p].EntryBlock?
      ensures ok && es != [] ==> Join(Own(p), ClaimEntries(blocks, blocks[p].entries, PlainMap(es), Map(PlainMap(es)))).Some?
      ensures ok && es != [] ==>
                Grown(old(blocks), blocks, Join(Own(p), ClaimEntries(blocks, blocks[p].entries, PlainMap(es), Map(PlainMap(es)))).value)
      ensures !ok ==> Remains(old(blocks), blocks, left, LeftInMap(es, 0))
      decreases es, 2
    {
      p, left := 0, [];
      if es == [] { return true, 0, []; }
      hide Claim, ClaimEntries, NulFree, LeftInMap, PlainMap, Proper;
      var raws;
      ok, raws, left := EncodeEntries(es);
      if ok {
        ghost var b1, m := blocks, PlainMap(es);
        p := Alloc(EntryBlock(raws));
        ClaimEntriesInside(b1, raws, m, Map(m));
        ClaimEntriesFrame(b1, blocks, raws, m, Map(m));
        assert Join(Own(p), ClaimEntries(blocks, raws, m, Map(m))) == Some({p} + ClaimEntries(b1, raws, m, Map(m)).value);
      }
    }

    /** Entries in order. A key with a NUL ends the loop without releasing anything. */
    method EncodeEntries(es: seq<Entry>) returns (ok: bool, raws: seq<RawEntry>, ghost left: seq<RawEntry>)
      requires Proper(Entries(es))
      modifies this
      ensures ok <==> NulFree(Entries(es))
      ensures ok ==> Remains(old(blocks), blocks, raws, es)
      ensures !ok ==> Remains(old(blocks), blocks, left, LeftInMap(es, 0))
      decreases es, 1
    {
      ghost var b0 := blocks;
      raws, left := [], [];
      NothingRemains(b0);
      assert es[..0] == [];
      NulFreeMap(es);
      assert KeysOnce(es) && forall e | e in es :: Proper(e.value);
      hide NulFree, Remains, Proper, LeftBehind;
      for i := 0 to |es|
        invariant Remains(b0, blocks, raws, es[..i])
        invariant forall j | 0 <= j < i :: 0 !in es[j].key && NulFree(es[j].value)
        invariant LeftInMap(es, 0) == LeftInMap(es, i)
      {
        if 0 in es[i].key { return false, [], raws; }
        assert es[i] in es;
        var good, e;
        good, e, left := EncodeEntry(es, i, raws, b0);
        if !good { return false, [], left; }
        raws := raws + [e];
      }
      assert es[..|es|] == es;
      ok := true;
    }

    /** One key and value. If the value is refused, the key and all entries before it are released. */
    method EncodeEntry(es: seq<Entry>, i: nat, raws: seq<RawEntry>, ghost b0: Blocks)
      returns (ok: bool, e: RawEntry, ghost left: seq<RawEntry>)
      requires KeysOnce(es) && i < |es| && Proper(es[i].value) && Remains(b0, blocks, raws, es[..i])
      modifies this
      ensures ok <==> NulFree(es[i].value)
      ensures ok ==> Remains(b0, blocks, raws + [e], es[..i + 1])
      ensures !ok ==> Remains(b0, blocks, left, LeftBehind(es[i].value))
      decreases es, 0
    {
      hide Claim, ClaimEntries, NulFree, Proper, LeftBehind, Plain, PlainMap;
      ghost var b1 := blocks;
      ghost var m := PlainMap(es[..i]);
      ghost var own := ClaimEntries(b1, raws, m, Map(m)).value;
      var p := Alloc(CString(es[i].key));
      ghost var b2 := blocks;
      var raw;
      ok, raw, left := Encode(es[i].value);
      e := RawEntry(p, raw);
      if ok {
        RemainsGrows(b0, b1, blocks, raws, es, i, p, raw);
      } else {
        assert Grown(b0, b2, own + {p});
        Undone(b0, b2, blocks, own + {p}, left, LeftBehind(es[i].value));
        KeptEntries(b0, b1, b2, blocks, raws, m, p);
        MinusTwice(blocks, {p}, own);
        assert {p} + own == own + {p};
        Release(p);
        var _ := FreeEntries(raws, m, Map(m));
      }
    }

    /** A value goes over the boundary and back, and its encoding is freed, twice: the value and the heap are as before. */
    method ThereAndBack(o: Ordered) returns (r: Decoded)
      requires Proper(o) && NulFree(o) && TextsOk(Plain(o))
      modifies this
      ensures r == Good(Plain(o))
      ensures blocks == old(blocks)
    {
      hide Claim, NulFree, Proper, TextsOk, Plain, Decode;
      ghost var b0 := blocks;
      var _, raw, left := Encode(o);
      ghost var b1 := blocks;
      NulFreePlain(o);
      ClaimDecodes(blocks, raw, Plain(o));
      r := DecodeValue(blocks, raw);
      GrownBack(b0, b1, Claim(b1, raw, Plain(o)).value);
      if raw.ptr == 0 {
        NullOwnsNothing(b1, raw, Plain(o));
        assert b1 - {} == b1;
      }
      var freed := FreeContents(raw, Plain(o));
      freed := FreeContents(freed, Plain(o));
    }
  }

  lemma ListClaimed(b: Blocks, p: Addr, vs: seq<SysValue>)
    ensures vs == [] && p == 0 ==> Claim(b, Pointing(5, p, |vs|), List(vs)) == Some({})
    ensures vs != [] && p != 0 && p in b && b[p].ValueBlock? ==>
              Claim(b, Pointing(5, p, |vs|), List(vs)) == Join(Own(p), ClaimAll(b, b[p].items, vs))
  {
    hide ClaimAll;
  }

  lemma MapClaimed(b: Blocks, p: Addr, m: map<Text, SysValue>)
    ensures m == map[] && p == 0 ==> Claim(b, Pointing(6, p, |m|), Map(m)) == Some({})
    ensures m != map[] && p != 0 && p in b && b[p].EntryBlock? ==>
              Claim(b, Pointing(6, p, |m|), Map(m)) == Join(Own(p), ClaimEntries(b, b[p].entries, m, Map(m)))
  {
    hide ClaimEntries;
  }

  lemma NothingGrown(b: Blocks)
    ensures Grown(b, b, {})
  {
  }

  lemma NulFreeList(items: seq<Ordered>)
    ensures NulFree(Items(items)) <==> forall j | 0 <= j < |items| :: NulFree(items[j])
  {
    if forall j | 0 <= j < |items| :: NulFree(items[j]) {
      forall x | x in items ensures NulFree(x) { var j :| 0 <= j < |items| && items[j] == x; }
    }
  }

  lemma NulFreeMap(es: seq<Entry>)
    ensures NulFree(Entries(es)) <==> forall j | 0 <= j < |es| :: 0 !in es[j].key && NulFree(es[j].value)
  {
    if forall j | 0 <= j < |es| :: 0 !in es[j].key && NulFree(es[j].value) {
      forall e | e in es ensures 0 !in e.key && NulFree(e.value) { var j :| 0 <= j < |es| && es[j] == e; }
    }
  }

  lemma PlainAllFront(items: seq<Ordered>, i: nat)
    requires i < |items|
    ensures PlainAll(items[..i + 1]) == PlainAll(items[..i]) + [Plain(items[i])]
  {
    hide Plain;
    assert items[..i + 1][..i] == items[..i];
  }

  lemma {:induction false} MapSize(es: seq<Entry>)
    requires KeysOnce(es)
    ensures |PlainMap(es)| == |es| && (PlainMap(es) == map[] <==> es == [])
  {
    hide Plain;
    if es != [] {
      var n := |es| - 1;
      MapSize(es[..n]);
      PlainMapFront(es, n);
      assert es[..n + 1] == es;
      assert PlainMap(es).Keys == PlainMap(es[..n]).Keys + {es[n].key};
    }
  }

  /** b1 is b0 plus exactly the blocks raws own as the encoding of the values vs. */
  ghost predicate AllRemain(b0: Blocks, b1: Blocks, raws: seq<Raw>, vs: seq<SysValue>) {
    ClaimAll(b1, raws, vs).Some? && Grown(b0, b1, ClaimAll(b1, raws, vs).value)
  }

  lemma NoneRemain(b: Blocks, items: seq<Ordered>)
    ensures AllRemain(b, b, [], PlainAll(items[..0]))
  {
  }

  lemma AllRemained(b0: Blocks, b1: Blocks, raws: seq<Raw>, vs: seq<SysValue>)
    requires AllRemain(b0, b1, raws, vs)
    ensures ClaimAll(b1, raws, vs).Some? && Grown(b0, b1, ClaimAll(b1, raws, vs).value)
  {
    hide ClaimAll;
  }

  lemma LeftStep(items: seq<Ordered>, i: nat)
    requires i < |items|
    ensures LeftInList(items, i) == if NulFree(items[i]) then LeftInList(items, i + 1) else LeftBehind(items[i])
  {
    hide NulFree, LeftBehind;
  }

  /** When an item is refused, the ones before it are still there to be released. */
  lemma KeptClaims(b0: Blocks, b1: Blocks, b2: Blocks, raws: seq<Raw>, items: seq<SysValue>, left: seq<RawEntry>, es: seq<Entry>)
    requires AllRemain(b0, b1, raws, items) && Remains(b1, b2, left, es)
    ensures ClaimAll(b2, raws, items).Some? && Remains(b0, b2 - ClaimAll(b2, raws, items).value, left, es)
  {
    hide Claim, ClaimAll, ClaimEntries, PlainMap;
    ClaimAllInside(b1, raws, items);
    ClaimAllFrame(b1, b2, raws, items);
    Undone(b0, b1, b2, ClaimAll(b1, raws, items).value, left, es);
  }

  lemma KeptEntries(b0: Blocks, b1: Blocks, b2: Blocks, b3: Blocks, raws: seq<RawEntry>, m: map<Text, SysValue>, p: Addr)
    requires ClaimEntries(b1, raws, m, Map(m)).Some? && p !in b1 && Keeps(b1, b2) && Keeps(b2, b3)
    ensures ClaimEntries(b3 - {p}, raws, m, Map(m)) == ClaimEntries(b1, raws, m, Map(m))
  {
    hide Claim, ClaimEntries;
    ClaimEntriesInside(b1, raws, m, Map(m));
    ClaimEntriesFrame(b1, b3 - {p}, raws, m, Map(m));
  }
}
