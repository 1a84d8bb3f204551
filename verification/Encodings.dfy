/** UTF-16 and UTF-8, by what their code units decode to. */
module Encodings {
  import opened SysValues

  /** What a code unit carries beyond its marker bits. */
  function Past(unit: int, marker: int): int { unit - marker }

  // ---- UTF-16 ---------------------------------------------------------------------------------------------

  type Unit = u: int | 0 <= u < 0x10000

  /** u is c itself, or the surrogate pair that recombines to c. */
  predicate EncodesAs16(c: char, u: seq<Unit>) {
    || (|u| == 1 && u[0] == c as int)
    || (|u| == 2 && 0xD800 <= u[0] < 0xDC00 && 0xDC00 <= u[1] < 0xE000
        && c as int == 0x10000 + Past(u[0], 0xD800) * 0x400 + Past(u[1], 0xDC00))
  }

  function Utf16(c: char): seq<Unit> {
    var n := c as int;
    if n < 0x10000 then [n] else [0xD800 + (n - 0x10000) / 0x400, 0xDC00 + (n - 0x10000) % 0x400]
  }

  lemma Utf16Exactly(c: char, u: seq<Unit>)
    ensures u == Utf16(c) <==> EncodesAs16(c, u)
  {
    if |u| == 2 && EncodesAs16(c, u) {
      var q, r := Past(u[0], 0xD800), Past(u[1], 0xDC00);
      assert (q * 0x400 + r) / 0x400 == q && (q * 0x400 + r) % 0x400 == r;
    }
  }

  function Utf16Text(text: string): seq<Unit> {
    if text == "" then [] else Utf16Text(text[..|text| - 1]) + Utf16(text[|text| - 1])
  }

  // ---- UTF-8 ----------------------------------------------------------------------------------------------

  /** The bytes of a sequence of the given length carry the bits of c, and a shorter one could not (RFC 3629, section 3). */
  predicate EncodesAs8(c: char, b: seq<Byte>) {
    var n := c as int;
    || (|b| == 1 && b[0] < 0x80 && n == b[0])
    || (|b| == 2 && 0xC0 <= b[0] < 0xE0 && IsTail(b[1]) && n >= 0x80
        && n == Past(b[0], 0xC0) * 0x40 + Past(b[1], 0x80))
    || (|b| == 3 && 0xE0 <= b[0] < 0xF0 && IsTail(b[1]) && IsTail(b[2]) && n >= 0x800
        && n == Past(b[0], 0xE0) * 0x1000 + Past(b[1], 0x80) * 0x40 + Past(b[2], 0x80))
    || (|b| == 4 && 0xF0 <= b[0] < 0xF8 && IsTail(b[1]) && IsTail(b[2]) && IsTail(b[3]) && n >= 0x10000
        && n == Past(b[0], 0xF0) * 0x40000 + Past(b[1], 0x80) * 0x1000 + Past(b[2], 0x80) * 0x40 + Past(b[3], 0x80))
  }

  function Utf8(c: char): (b: seq<Byte>)
    ensures 1 <= |b| <= 4
  {
    var n := c as int;
    if n < 0x80 then [n]
    else if n < 0x800 then [0xC0 + n / 0x40, 0x80 + n % 0x40]
    else if n < 0x10000 then [0xE0 + n / 0x40 / 0x40, 0x80 + n / 0x40 % 0x40, 0x80 + n % 0x40]
    else [0xF0 + n / 0x40 / 0x40 / 0x40, 0x80 + n / 0x40 / 0x40 % 0x40, 0x80 + n / 0x40 % 0x40, 0x80 + n % 0x40]
  }

  lemma Utf8Exactly(c: char, b: seq<Byte>)
    ensures b == Utf8(c) <==> EncodesAs8(c, b)
  {
    if EncodesAs8(c, b) { OnlyUtf8(c, b); }
  }

  lemma OnlyUtf8(c: char, b: seq<Byte>)
    requires EncodesAs8(c, b)
    ensures b == Utf8(c)
  {
    var n := c as int;
    if |b| == 2 {
      Digits(Past(b[0], 0xC0), Past(b[1], 0x80));
    } else if |b| == 3 {
      Digits(Past(b[0], 0xE0), Past(b[1], 0x80));
      Digits(Past(b[0], 0xE0) * 0x40 + Past(b[1], 0x80), Past(b[2], 0x80));
    } else if |b| == 4 {
      Digits(Past(b[0], 0xF0), Past(b[1], 0x80));
      Digits(Past(b[0], 0xF0) * 0x40 + Past(b[1], 0x80), Past(b[2], 0x80));
      Digits((Past(b[0], 0xF0) * 0x40 + Past(b[1], 0x80)) * 0x40 + Past(b[2], 0x80), Past(b[3], 0x80));
    }
  }

  lemma Digits(q: nat, r: nat)
    requires r < 0x40
    ensures (q * 0x40 + r) / 0x40 == q && (q * 0x40 + r) % 0x40 == r
  {
  }

  function Utf8Text(text: string): seq<Byte> {
    if text == "" then [] else Utf8Text(text[..|text| - 1]) + Utf8(text[|text| - 1])
  }

  // ---- The bytes that are texts ---------------------------------------------------------------------------

  /** What a byte string starts with is accepted as a character exactly when it is one. */
  lemma HeadExactly(s: seq<Byte>, n: nat)
    ensures n > 0 ==> (Utf8Head(s) == n <==> n <= |s| && exists c: char :: EncodesAs8(c, s[..n]))
  {
    if n > 0 && Utf8Head(s) == n { var c := HeadChar(s); }
    if 0 < n <= |s| {
      if c: char :| EncodesAs8(c, s[..n]) { CharHead(c, s, n); }
    }
  }

  lemma HeadChar(s: seq<Byte>) returns (c: char)
    requires Utf8Head(s) > 0
    ensures EncodesAs8(c, s[..Utf8Head(s)])
  {
    var n := Utf8Head(s);
    if n == 1 {
      c := s[0] as char;
    } else if n == 2 {
      c := (Past(s[0], 0xC0) * 0x40 + Past(s[1], 0x80)) as char;
    } else if n == 3 {
      c := (Past(s[0], 0xE0) * 0x1000 + Past(s[1], 0x80) * 0x40 + Past(s[2], 0x80)) as char;
    } else {
      c := (Past(s[0], 0xF0) * 0x40000 + Past(s[1], 0x80) * 0x1000 + Past(s[2], 0x80) * 0x40 + Past(s[3], 0x80)) as char;
    }
  }

  lemma CharHead(c: char, s: seq<Byte>, n: nat)
    requires 0 < n <= |s| && EncodesAs8(c, s[..n])
    ensures Utf8Head(s) == n
  {
    assert forall i | 0 <= i < n :: s[..n][i] == s[i];
  }

  /** A byte string is accepted exactly when it is the encoding of a text. */
  lemma Utf8Accepts(s: seq<Byte>)
    ensures IsUtf8(s) <==> exists text: string :: Utf8Text(text) == s
  {
    if IsUtf8(s) { var text := DecodeUtf8(s); }
    if text: string :| Utf8Text(text) == s { TextAccepted(text, []); assert s + [] == s; }
  }

  lemma {:induction false} DecodeUtf8(s: seq<Byte>) returns (text: string)
    requires IsUtf8(s)
    ensures Utf8Text(text) == s
    decreases |s|
  {
    text := "";
    if s != [] {
      var n := Utf8Head(s);
      var c := HeadChar(s);
      OnlyUtf8(c, s[..n]);
      var rest := DecodeUtf8(s[n..]);
      text := [c] + rest;
      TextCons(c, rest);
      assert s == s[..n] + s[n..];
    }
  }

  lemma {:induction false} TextCons(c: char, rest: string)
    ensures Utf8Text([c] + rest) == Utf8(c) + Utf8Text(rest)
    decreases |rest|
  {
    hide Utf8;
    var text := [c] + rest;
    if rest == "" {
      assert text[..0] == "" && Utf8Text(text[..0]) == [];
    } else {
      var m := |rest| - 1;
      TextCons(c, rest[..m]);
      assert text[..|text| - 1] == [c] + rest[..m] && text[|text| - 1] == rest[m];
      Regroup(Utf8(c), Utf8Text(rest[..m]), Utf8(rest[m]));
    }
  }

  lemma Regroup(a: seq<Byte>, b: seq<Byte>, c: seq<Byte>)
    ensures a + b + c == a + (b + c)
  {
  }

  lemma {:induction false} TextAccepted(text: string, rest: seq<Byte>)
    requires IsUtf8(rest)
    ensures IsUtf8(Utf8Text(text) + rest)
    decreases |text|
  {
    hide Utf8, IsUtf8;
    if text == "" {
      assert Utf8Text(text) + rest == rest;
    } else {
      var p, c := text[..|text| - 1], text[|text| - 1];
      CharAccepted(c, rest);
      TextAccepted(p, Utf8(c) + rest);
      Regroup(Utf8Text(p), Utf8(c), rest);
    }
  }

  lemma CharAccepted(c: char, rest: seq<Byte>)
    requires IsUtf8(rest)
    ensures IsUtf8(Utf8(c) + rest)
  {
    hide Utf8, EncodesAs8, Utf8Head;
    var b := Utf8(c);
    Utf8Exactly(c, b);
    var s := b + rest;
    assert s[..|b|] == b && s[|b|..] == rest;
    CharHead(c, s, |b|);
  }
}
