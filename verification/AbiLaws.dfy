/** The layout of raw values, and what each of them is read as. */
module AbiLaws {
  import opened Ir
  import opened SysValues
  import opened DirectAbi

  // ---- Layout ---------------------------------------------------------------------------------

  /** The number of bytes, items or entries of v. */
  function Count(v: SysValue): nat {
    if v.Str? then |v.text| else if v.Bytes? then |v.bytes| else if v.List? then |v.items| else if v.Map? then |v.entries| else 0
  }

  /** An encoding of v has the tag of its kind, its number in the field for it, and a block exactly if there is something to hold. */
  lemma Layout(b: Blocks, raw: Raw, v: SysValue)
    requires Claim(b, raw, v).Some?
    ensures v.Null? <==> raw.tag == 0
    ensures v.Bool? <==> raw.tag == 1
    ensures v.Int? <==> raw.tag == 2
    ensures v.Float? <==> raw.tag == 3
    ensures v.Str? <==> raw.tag == 4
    ensures v.List? <==> raw.tag == 5
    ensures v.Map? <==> raw.tag == 6
    ensures v.Bytes? <==> raw.tag == 7
    ensures raw.intVal == if v.Int? then v.i else if v == Bool(true) then 1 else 0
    ensures raw.floatVal == if v.Float? then v.bits else 0
    ensures raw.len == Count(v) && (raw.ptr == 0 <==> Count(v) == 0)
    ensures raw.ptr != 0 ==> raw.ptr in b && raw.ptr in Claim(b, raw, v).value
    ensures v.Str? && raw.ptr != 0 ==> b[raw.ptr] == ByteBlock(v.text)
    ensures v.Bytes? && raw.ptr != 0 ==> b[raw.ptr] == ByteBlock(v.bytes)
    ensures v.List? && raw.ptr != 0 ==> b[raw.ptr].ValueBlock? && |b[raw.ptr].items| == |v.items|
    ensures v.Map? && raw.ptr != 0 ==> b[raw.ptr].EntryBlock?
  {
  }

  // ---- Reading --------------------------------------------------------------------------------

  /** raw points to at least as many bytes as it counts, and these are s. */
  predicate Holds(b: Blocks, raw: Raw, s: seq<Byte>) {
    |s| == raw.len && (s == [] || (raw.ptr != 0 && raw.ptr in b && b[raw.ptr].ByteBlock? && s <= b[raw.ptr].bytes))
  }

  lemma HoldsExactly(b: Blocks, raw: Raw, s: seq<Byte>)
    ensures ReadBytes(b, raw) == Some(s) <==> Holds(b, raw, s)
  {
    if Holds(b, raw, s) && s != [] { assert b[raw.ptr].bytes[..raw.len] == s; }
  }

  /** Values without parts: any integer but 0 is true, bytes are taken as they are, texts must be UTF-8, other tags are refused. */
  lemma FlatReads(b: Blocks, raw: Raw, fuel: nat)
    requires fuel > 0
    ensures raw.tag == 0 ==> Decode(b, raw, fuel) == Good(Null)
    ensures raw.tag == 1 ==> Decode(b, raw, fuel) == Good(Bool(if raw.intVal == 0 then false else true))
    ensures raw.tag == 2 ==> Decode(b, raw, fuel) == Good(Int(raw.intVal))
    ensures raw.tag == 3 ==> Decode(b, raw, fuel) == Good(Float(raw.floatVal))
    ensures raw.tag == 4 ==> forall s :: Decode(b, raw, fuel) == Good(Str(s)) <==> Holds(b, raw, s) && IsUtf8(s)
    ensures raw.tag == 4 ==> (Decode(b, raw, fuel) == Bad <==> forall s | Holds(b, raw, s) :: !IsUtf8(s))
    ensures raw.tag == 7 ==> forall s :: Decode(b, raw, fuel) == Good(Bytes(s)) <==> Holds(b, raw, s)
    ensures raw.tag == 7 ==> (Decode(b, raw, fuel) == Bad <==> forall s :: !Holds(b, raw, s))
    ensures raw.tag > 7 ==> Decode(b, raw, fuel) == Bad
  {
    forall s ensures ReadBytes(b, raw) == Some(s) <==> Holds(b, raw, s) { HoldsExactly(b, raw, s); }
    hide ReadBytes, Holds, IsUtf8;
    if ReadBytes(b, raw).Some? { assert Holds(b, raw, ReadBytes(b, raw).value); }
  }

  /** raw points to at least as many values as it counts. */
  predicate HasItems(b: Blocks, raw: Raw) {
    raw.ptr != 0 && raw.ptr in b && b[raw.ptr].ValueBlock? && raw.len <= |b[raw.ptr].items|
  }

  /** A list is read item by item. */
  lemma ListReads(b: Blocks, raw: Raw, fuel: nat, vs: seq<SysValue>)
    requires raw.tag == 5 && fuel > 0
    ensures Decode(b, raw, fuel) == Good(List(vs)) <==>
              && |vs| == raw.len
              && (raw.len > 0 ==> HasItems(b, raw) && forall i | 0 <= i < raw.len :: Decode(b, b[raw.ptr].items[i], fuel - 1) == Good(vs[i]))
    ensures raw.len > 0 && !HasItems(b, raw) ==> Decode(b, raw, fuel) == Bad
  {
    if raw.len > 0 && HasItems(b, raw) {
      AllReads(b, b[raw.ptr].items[..raw.len], fuel - 1, vs);
      hide DecodeAll;
    }
  }

  lemma {:induction false} AllReads(b: Blocks, raws: seq<Raw>, fuel: nat, vs: seq<SysValue>)
    ensures DecodeAll(b, raws, fuel) == AllGood(vs) <==>
              |vs| == |raws| && forall i | 0 <= i < |raws| :: Decode(b, raws[i], fuel) == Good(vs[i])
    decreases |raws|
  {
    hide Decode;
    if raws != [] {
      var n := |raws| - 1;
      var r := DecodeAll(b, raws[..n], fuel);
      if r.AllGood? { AllReads(b, raws[..n], fuel, r.vs); }
      if |vs| == |raws| { AllReads(b, raws[..n], fuel, vs[..n]); }
    }
  }

  /** k is the text at p: its bytes up to the first NUL, which must be UTF-8. */
  predicate KeyIs(b: Blocks, p: Addr, k: Text) {
    && p != 0 && p in b && b[p].CString? && IsUtf8(k)
    && 0 !in k && (k == b[p].bytes || k + [0] <= b[p].bytes)
  }

  lemma {:induction false} CStrExactly(s: seq<Byte>, k: seq<Byte>)
    ensures CStrRead(s) == k <==> 0 !in k && (k == s || k + [0] <= s)
    decreases s
  {
    if s == [] || s[0] == 0 {
      if k != [] && 0 !in k { assert k[0] != 0; }
      if k + [0] <= s && k != [] { assert (k + [0])[0] == k[0]; }
    } else if k != [] {
      CStrExactly(s[1..], k[1..]);
      assert s == [s[0]] + s[1..] && k == [k[0]] + k[1..];
      assert (k + [0])[1..] == k[1..] + [0] && (k + [0])[0] == k[0];
      assert k + [0] <= s <==> k[0] == s[0] && k[1..] + [0] <= s[1..];
    }
  }

  lemma KeyExactly(b: Blocks, p: Addr, k: Text)
    ensures KeyIs(b, p, k) <==> p != 0 && p in b && b[p].CString? && CStrRead(b[p].bytes) == k && IsUtf8(k)
  {
    hide IsUtf8;
    if p in b && b[p].CString? { CStrExactly(b[p].bytes, k); }
  }

  /** m holds, for every key among the entries, the value of the last entry with that key. */
  ghost predicate LastWins(b: Blocks, es: seq<RawEntry>, fuel: nat, m: map<Text, SysValue>) {
    && (forall i | 0 <= i < |es| :: HasKeyIn(b, es[i], m) && Decode(b, es[i].value, fuel).Good?)
    && (forall k | k in m :: Wins(b, es, fuel, k, m[k]))
  }

  ghost predicate HasKeyIn(b: Blocks, e: RawEntry, m: map<Text, SysValue>) {
    exists k :: k in m && KeyIs(b, e.key, k)
  }

  /** v is the value of the last entry with key k. */
  ghost predicate Wins(b: Blocks, es: seq<RawEntry>, fuel: nat, k: Text, v: SysValue) {
    exists i :: IsLastFor(b, es, i, k) && Decode(b, es[i].value, fuel) == Good(v)
  }

  ghost predicate IsLastFor(b: Blocks, es: seq<RawEntry>, i: int, k: Text) {
    0 <= i < |es| && KeyIs(b, es[i].key, k) && forall j | i < j < |es| :: !KeyIs(b, es[j].key, k)
  }

  predicate HasEntries(b: Blocks, raw: Raw) {
    raw.ptr != 0 && raw.ptr in b && b[raw.ptr].EntryBlock? && raw.len <= |b[raw.ptr].entries|
  }

  /** A map is read entry by entry; a later entry replaces an earlier one with the same key. */
  lemma MapReads(b: Blocks, raw: Raw, fuel: nat, m: map<Text, SysValue>)
    requires raw.tag == 6 && fuel > 0
    ensures Decode(b, raw, fuel) == Good(Map(m)) <==>
              if raw.len == 0 then m == map[] else HasEntries(b, raw) && LastWins(b, b[raw.ptr].entries[..raw.len], fuel - 1, m)
    ensures raw.len > 0 && !HasEntries(b, raw) ==> Decode(b, raw, fuel) == Bad
  {
    if raw.len > 0 && HasEntries(b, raw) {
      EntriesRead(b, b[raw.ptr].entries[..raw.len], fuel - 1, m);
      hide DecodeEntries, LastWins;
    }
  }

  lemma EntriesRead(b: Blocks, es: seq<RawEntry>, fuel: nat, m: map<Text, SysValue>)
    ensures DecodeEntries(b, es, fuel) == MapGood(m) <==> LastWins(b, es, fuel, m)
  {
    hide DecodeEntries, HasKeyIn, Wins, Decode;
    if LastWins(b, es, fuel, m) { EntriesGood(b, es, fuel, m); }
    hide LastWins;
    if DecodeEntries(b, es, fuel).MapGood? {
      EntriesWin(b, es, fuel);
      if LastWins(b, es, fuel, m) { LastWinsOnce(b, es, fuel, m, DecodeEntries(b, es, fuel).m); }
    }
  }

  lemma OneKey(b: Blocks, p: Addr, k: Text, k2: Text)
    requires KeyIs(b, p, k) && KeyIs(b, p, k2)
    ensures k == k2
  {
    KeyExactly(b, p, k);
    KeyExactly(b, p, k2);
  }

  lemma LastWinsOnce(b: Blocks, es: seq<RawEntry>, fuel: nat, m: map<Text, SysValue>, m2: map<Text, SysValue>)
    requires LastWins(b, es, fuel, m) && LastWins(b, es, fuel, m2)
    ensures m == m2
  {
    hide LastWins;
    forall k | k in m ensures k in m2 && m2[k] == m[k] { SameWinner(b, es, fuel, m, m2, k); }
    forall k | k in m2 ensures k in m { SameWinner(b, es, fuel, m2, m, k); }
    assert m.Keys == m2.Keys;
  }

  lemma SameWinner(b: Blocks, es: seq<RawEntry>, fuel: nat, m: map<Text, SysValue>, m2: map<Text, SysValue>, k: Text)
    requires LastWins(b, es, fuel, m) && LastWins(b, es, fuel, m2) && k in m
    ensures k in m2 && m2[k] == m[k]
  {
    hide HasKeyIn, Wins, Decode, KeyIs, IsLastFor;
    assert Wins(b, es, fuel, k, m[k]);
    var i := KeySeen(b, es, fuel, k, m[k]);
    assert HasKeyIn(b, es[i], m2);
    KeyFound(b, es[i], m2, k);
    assert Wins(b, es, fuel, k, m2[k]);
    OneWinner(b, es, fuel, k, m[k], m2[k]);
  }

  lemma KeySeen(b: Blocks, es: seq<RawEntry>, fuel: nat, k: Text, v: SysValue) returns (i: int)
    requires Wins(b, es, fuel, k, v)
    ensures 0 <= i < |es| && KeyIs(b, es[i].key, k)
  {
    hide KeyIs, Decode;
    i :| IsLastFor(b, es, i, k) && Decode(b, es[i].value, fuel) == Good(v);
  }

  lemma KeyFound(b: Blocks, e: RawEntry, m: map<Text, SysValue>, k: Text)
    requires HasKeyIn(b, e, m) && KeyIs(b, e.key, k)
    ensures k in m
  {
    hide KeyIs;
    var k2 :| k2 in m && KeyIs(b, e.key, k2);
    OneKey(b, e.key, k, k2);
  }

  lemma OneWinner(b: Blocks, es: seq<RawEntry>, fuel: nat, k: Text, v: SysValue, v2: SysValue)
    requires Wins(b, es, fuel, k, v) && Wins(b, es, fuel, k, v2)
    ensures v == v2
  {
    hide KeyIs, Decode;
    var i :| IsLastFor(b, es, i, k) && Decode(b, es[i].value, fuel) == Good(v);
    var j :| IsLastFor(b, es, j, k) && Decode(b, es[j].value, fuel) == Good(v2);
    assert i == j;
  }

  lemma {:induction false} EntriesGood(b: Blocks, es: seq<RawEntry>, fuel: nat, m: map<Text, SysValue>)
    requires forall i | 0 <= i < |es| :: HasKeyIn(b, es[i], m) && Decode(b, es[i].value, fuel).Good?
    ensures DecodeEntries(b, es, fuel).MapGood?
    decreases |es|
  {
    hide Decode, HasKeyIn, KeyIs, CStrRead, IsUtf8;
    if es != [] {
      var n := |es| - 1;
      EntriesGood(b, es[..n], fuel, m);
      KeyReadable(b, es[n], m);
    }
  }

  lemma KeyReadable(b: Blocks, e: RawEntry, m: map<Text, SysValue>)
    requires HasKeyIn(b, e, m)
    ensures e.key != 0 && e.key in b && b[e.key].CString? && IsUtf8(CStrRead(b[e.key].bytes))
  {
    hide KeyIs, CStrRead, IsUtf8;
    var k :| k in m && KeyIs(b, e.key, k);
    KeyExactly(b, e.key, k);
  }

  lemma {:induction false} EntriesWin(b: Blocks, es: seq<RawEntry>, fuel: nat)
    requires DecodeEntries(b, es, fuel).MapGood?
    ensures LastWins(b, es, fuel, DecodeEntries(b, es, fuel).m)
    decreases |es|
  {
    hide Decode, KeyIs, CStrRead, IsUtf8, LastWins;
    if es == [] {
      NothingWins(b, fuel);
    } else {
      var n := |es| - 1;
      EntriesWin(b, es[..n], fuel);
      var k := CStrRead(b[es[n].key].bytes);
      KeyExactly(b, es[n].key, k);
      OneMoreWins(b, es, fuel, DecodeEntries(b, es[..n], fuel).m, k, Decode(b, es[n].value, fuel).v);
    }
  }

  lemma NothingWins(b: Blocks, fuel: nat)
    ensures LastWins(b, [], fuel, map[])
  {
  }

  lemma OneMoreWins(b: Blocks, es: seq<RawEntry>, fuel: nat, m: map<Text, SysValue>, k: Text, v: SysValue)
    requires es != [] && LastWins(b, es[..|es| - 1], fuel, m)
    requires KeyIs(b, es[|es| - 1].key, k) && Decode(b, es[|es| - 1].value, fuel) == Good(v)
    ensures LastWins(b, es, fuel, m[k := v])
  {
    hide Decode, KeyIs, HasKeyIn, Wins;
    var n := |es| - 1;
    var m2 := m[k := v];
    forall i | 0 <= i < |es| ensures HasKeyIn(b, es[i], m2) && Decode(b, es[i].value, fuel).Good? {
      if i < n { assert es[..n][i] == es[i] && HasKeyIn(b, es[..n][i], m); }
      MoreKeys(b, es[i], m, k, v);
    }
    forall x | x in m2 ensures Wins(b, es, fuel, x, m2[x]) {
      if x == k { LastEntryWins(b, es, fuel, k, v); } else { StillWins(b, es, fuel, x, m[x], k); }
    }
  }

  lemma MoreKeys(b: Blocks, e: RawEntry, m: map<Text, SysValue>, k: Text, v: SysValue)
    ensures HasKeyIn(b, e, m) || KeyIs(b, e.key, k) ==> HasKeyIn(b, e, m[k := v])
  {
    hide KeyIs;
    if x :| x in m && KeyIs(b, e.key, x) { assert x in m[k := v]; }
    assert k in m[k := v];
  }

  lemma LastEntryWins(b: Blocks, es: seq<RawEntry>, fuel: nat, k: Text, v: SysValue)
    requires es != [] && KeyIs(b, es[|es| - 1].key, k) && Decode(b, es[|es| - 1].value, fuel) == Good(v)
    ensures Wins(b, es, fuel, k, v)
  {
    hide KeyIs, Decode;
    assert IsLastFor(b, es, |es| - 1, k);
  }

  lemma StillWins(b: Blocks, es: seq<RawEntry>, fuel: nat, x: Text, v: SysValue, k: Text)
    requires es != [] && Wins(b, es[..|es| - 1], fuel, x, v) && KeyIs(b, es[|es| - 1].key, k) && x != k
    ensures Wins(b, es, fuel, x, v)
  {
    hide KeyIs, Decode;
    var i :| IsLastFor(b, es[..|es| - 1], i, x) && Decode(b, es[..|es| - 1][i].value, fuel) == Good(v);
    forall j | i < j < |es| ensures !KeyIs(b, es[j].key, x) {
      if j < |es| - 1 { assert es[..|es| - 1][j] == es[j]; } else if KeyIs(b, es[j].key, x) { OneKey(b, es[j].key, x, k); }
    }
    assert IsLastFor(b, es, i, x);
  }
}
