/** The serialization-free boundary: values as raw structs that own heap blocks. */
module DirectAbi {
  import opened Ir
  import opened SysValues

  /** Address 0 is the null pointer. */
  type Addr = nat

  datatype Raw = Raw(tag: nat, intVal: Int64, floatVal: FloatBits, ptr: Addr, len: nat)
  datatype RawEntry = RawEntry(key: Addr, value: Raw)

  /** One allocation; a C string is stored without its terminator. */
  datatype Block =
    | ByteBlock(bytes: seq<Byte>)
    | CString(bytes: seq<Byte>)
    | ValueBlock(items: seq<Raw>)
    | EntryBlock(entries: seq<RawEntry>)

  type Blocks = map<Addr, Block>

  function Flat(tag: nat, i: Int64, f: FloatBits): Raw { Raw(tag, i, f, 0, 0) }

  function Pointing(tag: nat, ptr: Addr, len: nat): Raw { Raw(tag, 0, 0, ptr, len) }

  // ---- Which blocks a raw value owns -----------------------------------------------------------

  ghost function Join(a: Option<set<Addr>>, b: Option<set<Addr>>): Option<set<Addr>> {
    if a.Some? && b.Some? && a.value !! b.value then Some(a.value + b.value) else None
  }

  ghost function Own(p: Addr): Option<set<Addr>> { Some({p}) }

  /** The blocks raw owns if it is an encoding of v in b, each block owned once; None if it is not. */
  ghost function Claim(b: Blocks, raw: Raw, v: SysValue): Option<set<Addr>>
    decreases v, 0
  {
    match v
    case Null => if raw == Flat(0, 0, 0) then Some({}) else None
    case Bool(x) => if raw == Flat(1, if x then 1 else 0, 0) then Some({}) else None
    case Int(i) => if raw == Flat(2, i, 0) then Some({}) else None
    case Float(f) => if raw == Flat(3, 0, f) then Some({}) else None
    case Str(s) => ClaimBytes(b, raw, 4, s)
    case Bytes(s) => ClaimBytes(b, raw, 7, s)
    case List(items) =>
      if raw != Pointing(5, raw.ptr, |items|) then None
      else if items == [] then (if raw.ptr == 0 then Some({}) else None)
      else if raw.ptr == 0 || raw.ptr !in b || !b[raw.ptr].ValueBlock? then None
      else Join(Own(raw.ptr), ClaimAll(b, b[raw.ptr].items, items))
    case Map(m) =>
      if raw != Pointing(6, raw.ptr, |m|) then None
      else if m == map[] then (if raw.ptr == 0 then Some({}) else None)
      else if raw.ptr == 0 || raw.ptr !in b || !b[raw.ptr].EntryBlock? then None
      else Join(Own(raw.ptr), ClaimEntries(b, b[raw.ptr].entries, m, v))
  }

  ghost function ClaimBytes(b: Blocks, raw: Raw, tag: nat, s: seq<Byte>): Option<set<Addr>> {
    if raw != Pointing(tag, raw.ptr, |s|) then None
    else if s == [] then (if raw.ptr == 0 then Some({}) else None)
    else if raw.ptr != 0 && raw.ptr in b && b[raw.ptr] == ByteBlock(s) then Own(raw.ptr)
    else None
  }

  ghost function ClaimAll(b: Blocks, raws: seq<Raw>, items: seq<SysValue>): Option<set<Addr>>
    decreases items, 0, |raws|
  {
    if |raws| != |items| then None
    else if raws == [] then Some({})
    else
      var n := |raws| - 1;
      Join(ClaimAll(b, raws[..n], items[..n]), Claim(b, raws[n], items[n]))
  }

  /** The entries hold, in some order, exactly the entries of m, which is a part of the map v. */
  ghost function ClaimEntries(b: Blocks, es: seq<RawEntry>, m: map<Text, SysValue>, v: SysValue): Option<set<Addr>>
    requires v.Map? && forall k | k in m :: k in v.entries && m[k] == v.entries[k]
    decreases v, 0, |es|
  {
    if es == [] then (if m == map[] then Some({}) else None)
    else
      var n := |es| - 1;
      var e := es[n];
      if e.key == 0 || e.key !in b || !b[e.key].CString? || b[e.key].bytes !in m then None
      else
        var k := b[e.key].bytes;
        Join(ClaimEntries(b, es[..n], m - {k}, v), Join(Own(e.key), Claim(b, e.value, m[k])))
  }

  // ---- A claim depends on the claimed blocks only -------------------------------------------------

  ghost predicate Agree(b: Blocks, b2: Blocks, own: set<Addr>) {
    forall a | a in own :: a in b && a in b2 && b2[a] == b[a]
  }

  lemma {:induction false} ClaimFrame(b: Blocks, b2: Blocks, raw: Raw, v: SysValue)
    requires Claim(b, raw, v).Some? && Agree(b, b2, Claim(b, raw, v).value)
    ensures Claim(b2, raw, v) == Claim(b, raw, v)
    decreases v, 0
  {
    match v
    case List(items) =>
      if items != [] {
        assert raw.ptr in Claim(b, raw, v).value;
        ClaimAllFrame(b, b2, b[raw.ptr].items, items);
      }
    case Map(m) =>
      if m != map[] {
        assert raw.ptr in Claim(b, raw, v).value;
        ClaimEntriesFrame(b, b2, b[raw.ptr].entries, m, v);
      }
    case _ =>
  }

  lemma {:induction false} ClaimAllFrame(b: Blocks, b2: Blocks, raws: seq<Raw>, items: seq<SysValue>)
    requires ClaimAll(b, raws, items).Some? && Agree(b, b2, ClaimAll(b, raws, items).value)
    ensures ClaimAll(b2, raws, items) == ClaimAll(b, raws, items)
    decreases items, 0, |raws|
  {
    if raws != [] {
      var n := |raws| - 1;
      ClaimAllFrame(b, b2, raws[..n], items[..n]);
      ClaimFrame(b, b2, raws[n], items[n]);
    }
  }

  lemma {:induction false} ClaimEntriesFrame(b: Blocks, b2: Blocks, es: seq<RawEntry>, m: map<Text, SysValue>, v: SysValue)
    requires v.Map? && forall k | k in m :: k in v.entries && m[k] == v.entries[k]
    requires ClaimEntries(b, es, m, v).Some? && Agree(b, b2, ClaimEntries(b, es, m, v).value)
    ensures ClaimEntries(b2, es, m, v) == ClaimEntries(b, es, m, v)
    decreases v, 0, |es|
  {
    if es != [] {
      var n := |es| - 1;
      var k := b[es[n].key].bytes;
      assert es[n].key in ClaimEntries(b, es, m, v).value;
      ClaimEntriesFrame(b, b2, es[..n], m - {k}, v);
      ClaimFrame(b, b2, es[n].value, m[k]);
    }
  }

  lemma {:induction false} ClaimInside(b: Blocks, raw: Raw, v: SysValue)
    requires Claim(b, raw, v).Some?
    ensures Claim(b, raw, v).value <= b.Keys
    decreases v, 0
  {
    match v
    case List(items) => if items != [] { ClaimAllInside(b, b[raw.ptr].items, items); }
    case Map(m) => if m != map[] { ClaimEntriesInside(b, b[raw.ptr].entries, m, v); }
    case _ =>
  }

  lemma {:induction false} ClaimAllInside(b: Blocks, raws: seq<Raw>, items: seq<SysValue>)
    requires ClaimAll(b, raws, items).Some?
    ensures ClaimAll(b, raws, items).value <= b.Keys
    decreases items, 0, |raws|
  {
    if raws != [] {
      var n := |raws| - 1;
      ClaimAllInside(b, raws[..n], items[..n]);
      ClaimInside(b, raws[n], items[n]);
    }
  }

  lemma {:induction false} ClaimEntriesInside(b: Blocks, es: seq<RawEntry>, m: map<Text, SysValue>, v: SysValue)
    requires v.Map? && forall k | k in m :: k in v.entries && m[k] == v.entries[k]
    requires ClaimEntries(b, es, m, v).Some?
    ensures ClaimEntries(b, es, m, v).value <= b.Keys
    decreases v, 0, |es|
  {
    if es != [] {
      var n := |es| - 1;
      var k := b[es[n].key].bytes;
      ClaimEntriesInside(b, es[..n], m - {k}, v);
      ClaimInside(b, es[n].value, m[k]);
    }
  }

  // ---- Decoding ----------------------------------------------------------------------------------

  datatype Decoded = TooDeep | Bad | Good(v: SysValue)
  datatype DecodedAll = AllTooDeep | AllBad | AllGood(vs: seq<SysValue>)
  datatype DecodedMap = MapTooDeep | MapBad | MapGood(m: map<Text, SysValue>)

  /** What a C string read stops at: the first NUL, or the terminator. */
  function CStrRead(s: seq<Byte>): seq<Byte> {
    if s == [] || s[0] == 0 then [] else [s[0]] + CStrRead(s[1..])
  }

  /** `to_sys_value`, descending at most `fuel` levels. */
  function Decode(b: Blocks, raw: Raw, fuel: nat): Decoded
    decreases fuel, 0
  {
    if fuel == 0 then TooDeep
    else if raw.tag == 0 then Good(Null)
    else if raw.tag == 1 then Good(Bool(raw.intVal != 0))
    else if raw.tag == 2 then Good(Int(raw.intVal))
    else if raw.tag == 3 then Good(Float(raw.floatVal))
    else if raw.tag == 4 then
      (match ReadBytes(b, raw)
       case None => Bad
       case Some(s) => if IsUtf8(s) then Good(Str(s)) else Bad)
    else if raw.tag == 7 then
      (match ReadBytes(b, raw)
       case None => Bad
       case Some(s) => Good(Bytes(s)))
    else if raw.tag == 5 then
      if raw.len == 0 then Good(List([]))
      else if raw.ptr == 0 || raw.ptr !in b || !b[raw.ptr].ValueBlock? || raw.len > |b[raw.ptr].items| then Bad
      else (match DecodeAll(b, b[raw.ptr].items[..raw.len], fuel - 1)
            case AllTooDeep => TooDeep
            case AllBad => Bad
            case AllGood(vs) => Good(List(vs)))
    else if raw.tag == 6 then
      if raw.len == 0 then Good(Map(map[]))
      else if raw.ptr == 0 || raw.ptr !in b || !b[raw.ptr].EntryBlock? || raw.len > |b[raw.ptr].entries| then Bad
      else (match DecodeEntries(b, b[raw.ptr].entries[..raw.len], fuel - 1)
            case MapTooDeep => TooDeep
            case MapBad => Bad
            case MapGood(m) => Good(Map(m)))
    else Bad
  }

  function ReadBytes(b: Blocks, raw: Raw): Option<seq<Byte>> {
    if raw.len == 0 then Some([])
    else if raw.ptr != 0 && raw.ptr in b && b[raw.ptr].ByteBlock? && raw.len <= |b[raw.ptr].bytes| then Some(b[raw.ptr].bytes[..raw.len])
    else None
  }

  function DecodeAll(b: Blocks, raws: seq<Raw>, fuel: nat): DecodedAll
    decreases fuel, 1, |raws|
  {
    if raws == [] then AllGood([])
    else
      var n := |raws| - 1;
      match DecodeAll(b, raws[..n], fuel)
      case AllGood(vs) =>
        (match Decode(b, raws[n], fuel)
         case TooDeep => AllTooDeep
         case Bad => AllBad
         case Good(v) => AllGood(vs + [v]))
      case other => other
  }

  /** Entries are inserted one after the other; a repeated key would overwrite. */
  function DecodeEntries(b: Blocks, es: seq<RawEntry>, fuel: nat): DecodedMap
    decreases fuel, 1, |es|
  {
    if es == [] then MapGood(map[])
    else
      var n := |es| - 1;
      match DecodeEntries(b, es[..n], fuel)
      case MapGood(m) =>
        if es[n].key == 0 || es[n].key !in b || !b[es[n].key].CString? then MapBad
        else
          var k := CStrRead(b[es[n].key].bytes);
          if !IsUtf8(k) then MapBad
          else (match Decode(b, es[n].value, fuel)
                case TooDeep => MapTooDeep
                case Bad => MapBad
                case Good(v) => MapGood(m[k := v]))
      case other => other
  }

  lemma {:induction false} CStrWhole(s: seq<Byte>)
    requires 0 !in s
    ensures CStrRead(s) == s
  {
    if s != [] { CStrWhole(s[1..]); }
  }

  /** With n levels or more, decoding gives v. */
  ghost predicate DecodesFrom(b: Blocks, raw: Raw, v: SysValue, n: nat) {
    forall fuel: nat | fuel >= n :: Decode(b, raw, fuel) == Good(v)
  }

  ghost predicate AllDecodeFrom(b: Blocks, raws: seq<Raw>, vs: seq<SysValue>, n: nat) {
    forall fuel: nat | fuel >= n :: DecodeAll(b, raws, fuel) == AllGood(vs)
  }

  ghost predicate EntriesDecodeFrom(b: Blocks, es: seq<RawEntry>, m: map<Text, SysValue>, n: nat) {
    forall fuel: nat | fuel >= n :: DecodeEntries(b, es, fuel) == MapGood(m)
  }

  /** `to_sys_value` on a heap: there are never more levels than blocks. */
  function DecodeValue(b: Blocks, raw: Raw): Decoded { Decode(b, raw, |b| + 1) }

  /** Whatever encodes v decodes to v. */
  lemma ClaimDecodes(b: Blocks, raw: Raw, v: SysValue)
    requires Claim(b, raw, v).Some? && TextsOk(v) && KeysNulFree(v)
    ensures DecodeValue(b, raw) == Good(v)
  {
    hide Claim, TextsOk, KeysNulFree, Decode;
    var n := DecodingLevels(b, raw, v);
    ClaimInside(b, raw, v);
    SubsetSize(Claim(b, raw, v).value, b.Keys);
    assert |b| == |b.Keys|;
  }

  lemma {:induction false} DecodingLevels(b: Blocks, raw: Raw, v: SysValue) returns (n: nat)
    requires Claim(b, raw, v).Some? && TextsOk(v) && KeysNulFree(v)
    ensures DecodesFrom(b, raw, v, n) && n <= |Claim(b, raw, v).value| + 1
    decreases v, 2
  {
    match v {
      case List(items) => n := ListLevels(b, raw, items);
      case Map(m) => n := MapLevels(b, raw, v);
      case _ =>
        n := 1;
        forall fuel: nat | fuel >= 1 ensures Decode(b, raw, fuel) == Good(v) {
          DecodeFlat(b, raw, v, fuel);
        }
    }
  }

  lemma DecodeFlat(b: Blocks, raw: Raw, v: SysValue, fuel: nat)
    requires Claim(b, raw, v).Some? && TextsOk(v) && fuel >= 1 && !v.List? && !v.Map?
    ensures Decode(b, raw, fuel) == Good(v)
  {
    if v.Str? || v.Bytes? {
      var s := if v.Str? then v.text else v.bytes;
      if s != [] { assert b[raw.ptr].bytes[..raw.len] == s; }
    }
  }

  lemma JoinSize(a: Option<set<Addr>>, b: Option<set<Addr>>)
    requires Join(a, b).Some?
    ensures a.Some? && b.Some? && |Join(a, b).value| == |a.value| + |b.value|
  {
  }

  /** One level above what the contents of a list or map need. */
  lemma DecodeList(b: Blocks, raw: Raw, items: seq<SysValue>, fuel: nat)
    requires raw.tag == 5 && raw.len == |items| > 0 && raw.ptr != 0 && raw.ptr in b && b[raw.ptr].ValueBlock? && |b[raw.ptr].items| == |items|
    requires fuel > 0 && DecodeAll(b, b[raw.ptr].items, fuel - 1) == AllGood(items)
    ensures Decode(b, raw, fuel) == Good(List(items))
  {
    hide DecodeAll;
    assert b[raw.ptr].items[..raw.len] == b[raw.ptr].items;
  }

  lemma DecodeMap(b: Blocks, raw: Raw, m: map<Text, SysValue>, fuel: nat)
    requires raw.tag == 6 && raw.len > 0 && raw.ptr != 0 && raw.ptr in b && b[raw.ptr].EntryBlock? && |b[raw.ptr].entries| == raw.len
    requires fuel > 0 && DecodeEntries(b, b[raw.ptr].entries, fuel - 1) == MapGood(m)
    ensures Decode(b, raw, fuel) == Good(Map(m))
  {
    hide DecodeEntries;
    assert b[raw.ptr].entries[..raw.len] == b[raw.ptr].entries;
  }

  lemma {:induction false} ListLevels(b: Blocks, raw: Raw, items: seq<SysValue>) returns (n: nat)
    requires Claim(b, raw, List(items)).Some? && forall x | x in items :: TextsOk(x) && KeysNulFree(x)
    ensures DecodesFrom(b, raw, List(items), n) && n <= |Claim(b, raw, List(items)).value| + 1
    decreases items, 1
  {
    if items == [] {
      n := 1;
    } else {
      var raws := b[raw.ptr].items;
      assert |raws| == |items|;
      JoinSize(Own(raw.ptr), ClaimAll(b, raws, items));
      assert |Claim(b, raw, List(items)).value| == 1 + |ClaimAll(b, raws, items).value|;
      hide ClaimAll, Claim, DecodeAll, Decode, TextsOk, KeysNulFree;
      n := AllLevels(b, raws, items);
      forall fuel: nat | fuel >= n + 1 ensures Decode(b, raw, fuel) == Good(List(items)) {
        assert DecodeAll(b, raws, fuel - 1) == AllGood(items);
        DecodeList(b, raw, items, fuel);
      }
      n := n + 1;
    }
  }

  lemma {:induction false} AllLevels(b: Blocks, raws: seq<Raw>, items: seq<SysValue>) returns (n: nat)
    requires ClaimAll(b, raws, items).Some? && forall x | x in items :: TextsOk(x) && KeysNulFree(x)
    ensures AllDecodeFrom(b, raws, items, n) && n <= |ClaimAll(b, raws, items).value| + 1
    decreases items, 0, |raws|
  {
    hide Claim, Decode, TextsOk, KeysNulFree;
    if raws == [] {
      n := 0;
    } else {
      var l := |raws| - 1;
      JoinSize(ClaimAll(b, raws[..l], items[..l]), Claim(b, raws[l], items[l]));
      var n1 := AllLevels(b, raws[..l], items[..l]);
      var n2 := DecodingLevels(b, raws[l], items[l]);
      n := if n1 < n2 then n2 else n1;
      hide ClaimAll;
      forall fuel: nat | fuel >= n ensures DecodeAll(b, raws, fuel) == AllGood(items) {
        assert DecodeAll(b, raws[..l], fuel) == AllGood(items[..l]);
        assert Decode(b, raws[l], fuel) == Good(items[l]);
        assert items == items[..l] + [items[l]];
      }
    }
  }

  lemma {:induction false} MapLevels(b: Blocks, raw: Raw, v: SysValue) returns (n: nat)
    requires v.Map? && Claim(b, raw, v).Some? && TextsOk(v) && KeysNulFree(v)
    ensures DecodesFrom(b, raw, v, n) && n <= |Claim(b, raw, v).value| + 1
    decreases v, 1
  {
    var m := v.entries;
    if m == map[] {
      n := 1;
    } else {
      var es := b[raw.ptr].entries;
      EntriesCount(b, es, m, v);
      JoinSize(Own(raw.ptr), ClaimEntries(b, es, m, v));
      assert |Claim(b, raw, v).value| == 1 + |ClaimEntries(b, es, m, v).value|;
      hide ClaimEntries, Claim, DecodeEntries, Decode, TextsOk, KeysNulFree;
      n := EntryLevels(b, es, m, v);
      forall fuel: nat | fuel >= n + 1 ensures Decode(b, raw, fuel) == Good(v) {
        assert DecodeEntries(b, es, fuel - 1) == MapGood(m);
        DecodeMap(b, raw, m, fuel);
      }
      n := n + 1;
    }
  }

  lemma {:induction false} EntriesCount(b: Blocks, es: seq<RawEntry>, m: map<Text, SysValue>, v: SysValue)
    requires v.Map? && forall k | k in m :: k in v.entries && m[k] == v.entries[k]
    requires ClaimEntries(b, es, m, v).Some?
    ensures |es| == |m|
    decreases |es|
  {
    if es != [] {
      var n := |es| - 1;
      var k := b[es[n].key].bytes;
      EntriesCount(b, es[..n], m - {k}, v);
      assert (m - {k}).Keys == m.Keys - {k};
      assert |m| == |m.Keys| && |m - {k}| == |(m - {k}).Keys|;
    }
  }

  lemma {:induction false} EntryLevels(b: Blocks, es: seq<RawEntry>, m: map<Text, SysValue>, v: SysValue) returns (n: nat)
    requires v.Map? && TextsOk(v) && KeysNulFree(v) && forall k | k in m :: k in v.entries && m[k] == v.entries[k]
    requires ClaimEntries(b, es, m, v).Some?
    ensures EntriesDecodeFrom(b, es, m, n) && n <= |ClaimEntries(b, es, m, v).value| + 1
    decreases v, 0, |es|
  {
    if es == [] {
      n := 0;
    } else {
      var l := |es| - 1;
      var key := b[es[l].key].bytes;
      assert m[key] == v.entries[key];
      assert IsUtf8(key) && 0 !in key && TextsOk(m[key]) && KeysNulFree(m[key]);
      var rest, mine := ClaimEntries(b, es[..l], m - {key}, v), Claim(b, es[l].value, m[key]);
      JoinSize(rest, Join(Own(es[l].key), mine));
      JoinSize(Own(es[l].key), mine);
      hide Claim, ClaimEntries, Decode, TextsOk, KeysNulFree, IsUtf8;
      var n1 := EntryLevels(b, es[..l], m - {key}, v);
      var n2 := DecodingLevels(b, es[l].value, m[key]);
      n := if n1 < n2 then n2 else n1;
      forall fuel: nat | fuel >= n ensures DecodeEntries(b, es, fuel) == MapGood(m) {
        DecodeLastEntry(b, es, m, fuel);
      }
    }
  }

  lemma DecodeLastEntry(b: Blocks, es: seq<RawEntry>, m: map<Text, SysValue>, fuel: nat)
    requires es != [] && es[|es| - 1].key in b && es[|es| - 1].key != 0 && b[es[|es| - 1].key].CString?
    requires var k := b[es[|es| - 1].key].bytes;
             && IsUtf8(k) && 0 !in k && k in m
             && DecodeEntries(b, es[..|es| - 1], fuel) == MapGood(m - {k})
             && Decode(b, es[|es| - 1].value, fuel) == Good(m[k])
    ensures DecodeEntries(b, es, fuel) == MapGood(m)
  {
    hide Decode, IsUtf8;
    var k := b[es[|es| - 1].key].bytes;
    CStrWhole(k);
    assert (m - {k})[k := m[k]] == m;
  }
}
