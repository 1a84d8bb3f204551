/** The JSON boundary: values to JSON documents and back. */
module Json {
  import opened Ir
  import opened SysValues
  import Base64

  /** Whole numbers a JSON document can hold exactly: i64 and u64. */
  type Whole = i: int | -0x8000_0000_0000_0000 <= i < 0x1_0000_0000_0000_0000

  datatype Json =
    | JNull
    | JBool(b: bool)
    | JInt(i: Whole)
    | JFloat(bits: FloatBits)
    | JStr(text: Text)
    | JArr(items: seq<Json>)
    | JObj(entries: map<Text, Json>)

  /** "$caap_b64" */
  const BYTES_TAG: Text := [36, 99, 97, 97, 112, 95, 98, 54, 52]

  /** Neither an infinity nor a NaN. */
  predicate Finite(f: FloatBits) { f / 0x10_0000_0000_0000 % 0x800 != 0x7FF }

  function ToJson(v: SysValue): Option<Json>
    decreases v
  {
    match v
    case Null => Some(JNull)
    case Bool(b) => Some(JBool(b))
    case Int(i) => Some(JInt(i))
    case Float(f) => if Finite(f) then Some(JFloat(f)) else None
    case Str(s) => Some(JStr(s))
    case Bytes(s) => Some(JObj(map[BYTES_TAG := JStr(Base64.EncodeText(s))]))
    case List(items) =>
      if forall x | x in items :: ToJson(x).Some? then
        Some(JArr(seq(|items|, i requires 0 <= i < |items| => ToJson(items[i]).value)))
      else None
    case Map(m) =>
      if forall k | k in m :: ToJson(m[k]).Some? then Some(JObj(map k | k in m :: ToJson(m[k]).value)) else None
  }

  /** A one-entry object that carries the tag with a string is a byte string, whatever it was meant to be. */
  predicate IsTagged(m: map<Text, Json>) { m.Keys == {BYTES_TAG} && m[BYTES_TAG].JStr? }

  function FromJson(j: Json): Option<SysValue>
    decreases j
  {
    match j
    case JNull => Some(Null)
    case JBool(b) => Some(Bool(b))
    case JInt(i) => if i < 0x8000_0000_0000_0000 then Some(Int(i)) else None
    case JFloat(f) => Some(Float(f))
    case JStr(s) => Some(Str(s))
    case JArr(items) =>
      if forall x | x in items :: FromJson(x).Some? then
        Some(List(seq(|items|, i requires 0 <= i < |items| => FromJson(items[i]).value)))
      else None
    case JObj(m) =>
      if IsTagged(m) then
        (match Base64.DecodeText(m[BYTES_TAG].text)
         case None => None
         case Some(s) => Some(Bytes(s)))
      else if forall k | k in m :: FromJson(m[k]).Some? then Some(Map(map k | k in m :: FromJson(m[k]).value))
      else None
  }

  // ---- Kind by kind -------------------------------------------------------------------------------------

  /** k is the text s, which is ASCII. */
  predicate Spells(k: Text, s: string) {
    |k| == |s| && forall i | 0 <= i < |s| :: k[i] == s[i] as int
  }

  lemma TagSpelled(k: Text)
    ensures Spells(k, "$caap_b64") <==> k == BYTES_TAG
  {
    var s := "$caap_b64";
    assert Spells(BYTES_TAG, s);
    if Spells(k, s) { assert forall i | 0 <= i < 9 :: k[i] == BYTES_TAG[i]; }
  }

  /** j is the document of v. */
  ghost predicate Document(v: SysValue, j: Json)
    decreases v
  {
    match v
    case Null => j.JNull?
    case Bool(b) => j == JBool(b)
    case Int(i) => j == JInt(i)
    case Float(f) => Finite(f) && j == JFloat(f)
    case Str(s) => j == JStr(s)
    case Bytes(s) => j.JObj? && exists tag, text :: Spells(tag, "$caap_b64") && Base64.IsBase64(s, text) && j.entries == map[tag := JStr(text)]
    case List(items) => j.JArr? && |j.items| == |items| && forall i | 0 <= i < |items| :: Document(items[i], j.items[i])
    case Map(m) => j.JObj? && j.entries.Keys == m.Keys && forall k | k in m :: Document(m[k], j.entries[k])
  }

  lemma {:induction false} DocumentExactly(v: SysValue, j: Json)
    ensures ToJson(v) == Some(j) <==> Document(v, j)
    decreases v
  {
    match v {
      case Bytes(s) => BytesDocument(s, j);
      case List(items) =>
        forall x, y | x in items ensures ToJson(x) == Some(y) <==> Document(x, y) { DocumentExactly(x, y); }
        ListDocument(items, j);
      case Map(m) =>
        forall k, y | k in m ensures ToJson(m[k]) == Some(y) <==> Document(m[k], y) { DocumentExactly(m[k], y); }
        MapDocument(m, j);
      case _ =>
    }
  }

  lemma BytesDocument(s: seq<Byte>, j: Json)
    ensures ToJson(Bytes(s)) == Some(j) <==> Document(Bytes(s), j)
  {
    hide Base64.EncodeText, Base64.IsBase64, Spells;
    var text := Base64.EncodeText(s);
    Base64.EncodesRfc4648(s);
    TagSpelled(BYTES_TAG);
    if Document(Bytes(s), j) {
      var tag, t :| Spells(tag, "$caap_b64") && Base64.IsBase64(s, t) && j.entries == map[tag := JStr(t)];
      TagSpelled(tag);
      Base64.OnlyBase64(s, t, text);
    }
  }

  lemma ListForm(items: seq<SysValue>)
    ensures ToJson(List(items)).Some? <==> forall i | 0 <= i < |items| :: ToJson(items[i]).Some?
    ensures var r := ToJson(List(items));
            r.Some? ==> r.value.JArr? && |r.value.items| == |items| && forall i | 0 <= i < |items| :: r.value.items[i] == ToJson(items[i]).value
  {
    assert (forall x | x in items :: ToJson(x).Some?) <==> forall i | 0 <= i < |items| :: ToJson(items[i]).Some?;
  }

  lemma ListDocument(items: seq<SysValue>, j: Json)
    requires forall x, y | x in items :: ToJson(x) == Some(y) <==> Document(x, y)
    ensures ToJson(List(items)) == Some(j) <==> Document(List(items), j)
  {
    ListForm(items);
    assert Document(List(items), j) <==> j.JArr? && |j.items| == |items| && forall i | 0 <= i < |items| :: Document(items[i], j.items[i]);
    hide ToJson, Document;
    if Document(List(items), j) {
      forall i | 0 <= i < |items| ensures ToJson(items[i]) == Some(j.items[i]) { assert Document(items[i], j.items[i]); }
      assert ToJson(List(items)).value.items == j.items;
    }
    if ToJson(List(items)) == Some(j) {
      forall i | 0 <= i < |items| ensures Document(items[i], j.items[i]) { assert ToJson(items[i]) == Some(j.items[i]); }
    }
  }

  lemma MapForm(m: map<Text, SysValue>)
    ensures ToJson(Map(m)).Some? <==> forall k | k in m :: ToJson(m[k]).Some?
    ensures var r := ToJson(Map(m));
            r.Some? ==> r.value.JObj? && r.value.entries.Keys == m.Keys && forall k | k in m :: r.value.entries[k] == ToJson(m[k]).value
  {
  }

  lemma MapDocument(m: map<Text, SysValue>, j: Json)
    requires forall k, y | k in m :: ToJson(m[k]) == Some(y) <==> Document(m[k], y)
    ensures ToJson(Map(m)) == Some(j) <==> Document(Map(m), j)
  {
    hide ToJson;
    if j.JObj? && j.entries.Keys == m.Keys {
      hide Document;
      EntriesDocument(m, j.entries);
      EntriesForm(m, j.entries);
    } else {
      MapForm(m);
    }
  }

  lemma EntriesForm(m: map<Text, SysValue>, o: map<Text, Json>)
    requires o.Keys == m.Keys
    ensures ToJson(Map(m)) == Some(JObj(o)) <==> forall k | k in m :: ToJson(m[k]) == Some(o[k])
  {
    hide ToJson;
    MapForm(m);
    var r := ToJson(Map(m));
    if forall k | k in m :: ToJson(m[k]) == Some(o[k]) { assert r.value.entries == o; }
  }

  lemma EntriesDocument(m: map<Text, SysValue>, o: map<Text, Json>)
    requires o.Keys == m.Keys && forall k, y | k in m :: ToJson(m[k]) == Some(y) <==> Document(m[k], y)
    ensures Document(Map(m), JObj(o)) <==> forall k | k in m :: ToJson(m[k]) == Some(o[k])
  {
    hide ToJson;
  }

  /** A tagged object whose string is no Base64, and a whole number too large, are refused; so is anything that holds one. */
  ghost predicate Refused(j: Json)
    decreases j
  {
    match j
    case JInt(i) => i >= 0x8000_0000_0000_0000
    case JArr(items) => exists x | x in items :: Refused(x)
    case JObj(m) =>
      if exists tag :: Spells(tag, "$caap_b64") && m.Keys == {tag} && m[tag].JStr?
      then exists tag :: Spells(tag, "$caap_b64") && tag in m && m[tag].JStr? && !Base64.Readable(m[tag].text)
      else exists k | k in m :: Refused(m[k])
    case _ => false
  }

  lemma {:induction false} RefusedExactly(j: Json)
    ensures FromJson(j).None? <==> Refused(j)
    decreases j
  {
    match j {
      case JArr(items) => forall x | x in items ensures FromJson(x).None? <==> Refused(x) { RefusedExactly(x); }
      case JObj(m) =>
        TagSpelled(BYTES_TAG);
        forall tag | Spells(tag, "$caap_b64") ensures tag == BYTES_TAG { TagSpelled(tag); }
        hide Spells;
        if IsTagged(m) { Base64.DecodesExactly(m[BYTES_TAG].text); }
        forall k | k in m ensures FromJson(m[k]).None? <==> Refused(m[k]) { RefusedExactly(m[k]); }
      case _ =>
    }
  }

  /** A tagged object is read as the bytes its string stands for, also where padding is out of place. */
  lemma TaggedReads(m: map<Text, Json>, tag: Text)
    requires Spells(tag, "$caap_b64") && m.Keys == {tag} && m[tag].JStr? && Base64.Readable(m[tag].text)
    ensures FromJson(JObj(m)).Some? && FromJson(JObj(m)).value.Bytes? && Base64.StandsFor(m[tag].text, FromJson(JObj(m)).value.bytes)
  {
    hide Base64.DecodeText, Base64.StandsFor;
    TagSpelled(tag);
    Base64.DecodesExactly(m[tag].text);
  }

  ghost predicate FloatsFinite(v: SysValue) {
    match v
    case Float(f) => Finite(f)
    case List(items) => forall x | x in items :: FloatsFinite(x)
    case Map(m) => forall k | k in m :: FloatsFinite(m[k])
    case _ => true
  }

  /** No map anywhere in v is exactly the tag with a string. */
  ghost predicate NoTagMap(v: SysValue) {
    match v
    case List(items) => forall x | x in items :: NoTagMap(x)
    case Map(m) => !(m.Keys == {BYTES_TAG} && m[BYTES_TAG].Str?) && forall k | k in m :: NoTagMap(m[k])
    case _ => true
  }

  /** v survives the trip to JSON and back. */
  ghost predicate Survives(v: SysValue) {
    ToJson(v).Some? && FromJson(ToJson(v).value) == Some(v)
  }

  lemma {:induction false} EncodableExactly(v: SysValue)
    ensures ToJson(v).Some? <==> FloatsFinite(v)
  {
    match v {
      case List(items) => forall x | x in items { EncodableExactly(x); }
      case Map(m) => forall k | k in m { EncodableExactly(m[k]); }
      case _ =>
    }
  }

  /** A value comes back unchanged if and only if its floats are finite and no map in it looks like a byte string. */
  lemma {:induction false} RoundTripExactly(v: SysValue)
    ensures Survives(v) <==> FloatsFinite(v) && NoTagMap(v)
  {
    EncodableExactly(v);
    match v {
      case Bytes(s) => TaggedBytes(s);
      case List(items) =>
        forall x | x in items { RoundTripExactly(x); }
        if FloatsFinite(v) { ListSurvives(items); }
      case Map(m) =>
        forall k | k in m { RoundTripExactly(m[k]); }
        if FloatsFinite(v) { MapSurvives(m); }
      case _ =>
    }
  }

  lemma TaggedBytes(s: seq<Byte>)
    ensures Survives(Bytes(s))
  {
    Base64.RoundTrip(s);
    hide Base64.EncodeText, Base64.DecodeText;
    var m: map<Text, Json> := map[BYTES_TAG := JStr(Base64.EncodeText(s))];
    assert m.Keys == {BYTES_TAG};
  }

  lemma ArrayForm(js: seq<Json>)
    ensures FromJson(JArr(js)).Some? <==> forall i | 0 <= i < |js| :: FromJson(js[i]).Some?
    ensures var r := FromJson(JArr(js));
            r.Some? ==> r.value.List? && |r.value.items| == |js| && forall i | 0 <= i < |js| :: r.value.items[i] == FromJson(js[i]).value
  {
    assert (forall x | x in js :: FromJson(x).Some?) <==> forall i | 0 <= i < |js| :: FromJson(js[i]).Some?;
  }

  lemma ListSurvives(items: seq<SysValue>)
    requires forall x | x in items :: ToJson(x).Some?
    ensures Survives(List(items)) <==> forall x | x in items :: Survives(x)
  {
    hide ToJson, FromJson;
    ListForm(items);
    var js := ToJson(List(items)).value.items;
    ArrayForm(js);
    if forall x | x in items :: Survives(x) {
      forall i | 0 <= i < |items| ensures FromJson(js[i]) == Some(items[i]) { assert Survives(items[i]); }
      assert FromJson(JArr(js)).value.items == items;
    } else {
      var i :| 0 <= i < |items| && !Survives(items[i]);
      assert FromJson(js[i]) != Some(items[i]);
    }
  }

  lemma MapSurvives(m: map<Text, SysValue>)
    requires forall k | k in m :: ToJson(m[k]).Some?
    ensures Survives(Map(m)) <==> (forall k | k in m :: Survives(m[k])) && !(m.Keys == {BYTES_TAG} && m[BYTES_TAG].Str?)
  {
    var o := ToJson(Map(m)).value.entries;
    assert o.Keys == m.Keys && forall k | k in m :: o[k] == ToJson(m[k]).value;
    StringsStay(m, o);
    if IsTagged(o) {
    } else if forall k | k in m :: Survives(m[k]) {
      assert FromJson(JObj(o)).value.entries == m;
    } else {
      var k :| k in m && !Survives(m[k]);
      assert FromJson(o[k]) != Some(m[k]);
    }
  }

  lemma StringsStay(m: map<Text, SysValue>, o: map<Text, Json>)
    requires o.Keys == m.Keys && forall k | k in m :: ToJson(m[k]) == Some(o[k])
    ensures IsTagged(o) <==> m.Keys == {BYTES_TAG} && m[BYTES_TAG].Str?
  {
  }

  /** The exception is real: this map comes back as a byte string. */
  lemma TagMapComesBackAsBytes()
    ensures var v := Map(map[BYTES_TAG := Str([])]);
            ToJson(v).Some? && FromJson(ToJson(v).value) == Some(Bytes([]))
  {
    var m: map<Text, SysValue> := map[BYTES_TAG := Str([])];
    assert forall k | k in m :: ToJson(m[k]) == Some(JStr([])) by { assert ToJson(Str([])) == Some(JStr([])); }
    var o: map<Text, Json> := ToJson(Map(m)).value.entries;
    assert o.Keys == {BYTES_TAG} && o[BYTES_TAG] == JStr([]);
    assert Base64.DecodeText([]) == Some([]);
  }
}
