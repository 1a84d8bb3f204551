/** The values that cross the runtime boundary. */
module SysValues {
  import opened Ir

  type Byte = b: int | 0 <= b < 256

  type Int64 = i: int | -0x8000_0000_0000_0000 <= i < 0x8000_0000_0000_0000

  /** Strings are held as their UTF-8 bytes. */
  type Text = seq<Byte>

  datatype SysValue =
    | Null
    | Bool(b: bool)
    | Int(i: Int64)
    | Float(bits: FloatBits)
    | Str(text: Text)
    | Bytes(bytes: seq<Byte>)
    | List(items: seq<SysValue>)
    | Map(entries: map<Text, SysValue>)

  /** Length of the well-formed UTF-8 sequence s starts with, or 0 (RFC 3629, section 4). */
  function Utf8Head(s: seq<Byte>): (n: nat)
    ensures n <= |s| && n <= 4
  {
    if s == [] then 0
    else if s[0] < 0x80 then 1
    else if 0xC2 <= s[0] < 0xE0 && |s| >= 2 && IsTail(s[1]) then 2
    else if 0xE0 <= s[0] < 0xF0 && |s| >= 3 && IsTail(s[1]) && IsTail(s[2])
            && (s[0] == 0xE0 ==> s[1] >= 0xA0) && (s[0] == 0xED ==> s[1] < 0xA0) then 3
    else if 0xF0 <= s[0] < 0xF5 && |s| >= 4 && IsTail(s[1]) && IsTail(s[2]) && IsTail(s[3])
            && (s[0] == 0xF0 ==> s[1] >= 0x90) && (s[0] == 0xF4 ==> s[1] < 0x90) then 4
    else 0
  }

  predicate IsTail(b: Byte) { 0x80 <= b < 0xC0 }

  predicate IsUtf8(s: seq<Byte>) {
    s == [] || (Utf8Head(s) > 0 && IsUtf8(s[Utf8Head(s)..]))
  }

  /** Strings and keys are valid UTF-8, as the language guarantees of every value it builds. */
  ghost predicate TextsOk(v: SysValue) {
    match v
    case Str(text) => IsUtf8(text)
    case List(items) => forall x | x in items :: TextsOk(x)
    case Map(m) => forall k | k in m :: IsUtf8(k) && TextsOk(m[k])
    case _ => true
  }

  /** No map key contains a NUL byte. */
  ghost predicate KeysNulFree(v: SysValue) {
    match v
    case List(items) => forall x | x in items :: KeysNulFree(x)
    case Map(m) => forall k | k in m :: 0 !in k && KeysNulFree(m[k])
    case _ => true
  }
}
