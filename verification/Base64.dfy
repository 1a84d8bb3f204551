/** Base64 as section 4 of RFC 4648 defines it, and the lenient decoder that goes with it. */
module Base64 {
  import opened Ir
  import opened SysValues

  const PAD: Byte := 61

  /** The alphabet A-Z, a-z, 0-9, + and /. */
  function Letter(v: nat): Byte
    requires v < 64
  {
    if v < 26 then 65 + v else if v < 52 then 97 + (v - 26) else if v < 62 then 48 + (v - 52) else if v == 62 then 43 else 47
  }

  function Val(c: Byte): Option<nat> {
    if 65 <= c <= 90 then Some(c - 65)
    else if 97 <= c <= 122 then Some(c - 97 + 26)
    else if 48 <= c <= 57 then Some(c - 48 + 52)
    else if c == 43 then Some(62)
    else if c == 47 then Some(63)
    else None
  }

  // ---- The text of a byte string, bit by bit -----------------------------------------------------------

  /** Bit k of the byte string, most significant first; zero past the end. */
  function Bit(b: seq<Byte>, k: nat): nat {
    if k / 8 < |b| then BitOf(b[k / 8], k % 8) else 0
  }

  function BitOf(x: Byte, k: nat): (r: nat)
    requires k < 8
    ensures r < 2
  {
    if k == 0 then x / 128 else if k == 1 then x / 64 % 2 else if k == 2 then x / 32 % 2 else if k == 3 then x / 16 % 2
    else if k == 4 then x / 8 % 2 else if k == 5 then x / 4 % 2 else if k == 6 then x / 2 % 2 else x % 2
  }

  /** The j-th group of six bits. */
  function Sextet(b: seq<Byte>, j: nat): (r: nat)
    ensures r < 64
  {
    32 * Bit(b, 6 * j) + 16 * Bit(b, 6 * j + 1) + 8 * Bit(b, 6 * j + 2)
    + 4 * Bit(b, 6 * j + 3) + 2 * Bit(b, 6 * j + 4) + Bit(b, 6 * j + 5)
  }

  /** The alphabet of RFC 4648, in the order of its values. */
  const TABLE := "ABCDEFGHIJKLMNOPQRSTUVWXYZ" + "abcdefghijklmnopqrstuvwxyz" + "0123456789+/"

  /** c is the character for the six-bit value v. */
  predicate Stands(c: Byte, v: nat) {
    v < |TABLE| && c == TABLE[v] as int
  }

  /** The text RFC 4648 assigns to b: a character for each group that holds a bit of b, then = up to a multiple of four. */
  ghost predicate IsBase64(b: seq<Byte>, t: seq<Byte>) {
    && |t| == (|b| + 2) / 3 * 4
    && forall j | 0 <= j < |t| :: if 6 * j < 8 * |b| then Stands(t[j], Sextet(b, j)) else t[j] == '=' as int
  }

  lemma OnlyBase64(b: seq<Byte>, t: seq<Byte>, t2: seq<Byte>)
    requires IsBase64(b, t) && IsBase64(b, t2)
    ensures t == t2
  {
    hide Sextet;
    forall j | 0 <= j < |t| ensures t[j] == t2[j] {}
  }

  lemma LetterStands(v: nat)
    requires v < 64
    ensures |TABLE| == 64 && Stands(Letter(v), v)
  {
    if v < 26 { UpperRow(v); } else if v < 52 { LowerRow(v - 26); } else { DigitRow(v - 52); }
  }

  lemma UpperRow(v: nat)
    requires v < 26
    ensures |TABLE| == 64 && TABLE[v] == (65 + v) as char
  {
    var row := "ABCDEFGHIJKLMNOPQRSTUVWXYZ";
    assert row[v] == (65 + v) as char;
  }

  lemma LowerRow(v: nat)
    requires v < 26
    ensures |TABLE| == 64 && TABLE[26 + v] == (97 + v) as char
  {
    var row := "abcdefghijklmnopqrstuvwxyz";
    assert row[v] == (97 + v) as char;
  }

  lemma DigitRow(v: nat)
    requires v < 12
    ensures |TABLE| == 64 && TABLE[52 + v] == (if v < 10 then 48 + v else if v == 10 then 43 else 47) as char
  {
    var row := "0123456789+/";
    assert row[v] == (if v < 10 then 48 + v else if v == 10 then 43 else 47) as char;
  }

  lemma ValStands(c: Byte, v: nat)
    ensures Val(c) == Some(v) <==> Stands(c, v)
  {
    UpperRow(0);
    if v < 64 {
      LetterStands(v);
      hide Stands;
      assert Stands(c, v) <==> c == Letter(v) by { assert Stands(c, v) ==> c == TABLE[v] as int; }
    }
  }

  // ---- Encoding -----------------------------------------------------------------------------------------

  function At(b: seq<Byte>, i: nat): Byte {
    if i < |b| then b[i] else 0
  }

  /** The four characters of one chunk of at most three bytes. */
  function Quad(c: seq<Byte>): (q: seq<Byte>)
    requires 0 < |c| <= 3
    ensures |q| == 4
  {
    var n: nat := At(c, 0) * 65536 + At(c, 1) * 256 + At(c, 2);
    [Letter(n / 262144 % 64), Letter(n / 4096 % 64),
     if |c| > 1 then Letter(n / 64 % 64) else PAD,
     if |c| > 2 then Letter(n % 64) else PAD]
  }

  lemma QuadIsBase64(c: seq<Byte>)
    requires 0 < |c| <= 3
    ensures IsBase64(c, Quad(c))
  {
    hide Sextet, Letter, Stands, Quad;
    LetterStands(Sextet(c, 0));
    LetterStands(Sextet(c, 1));
    LetterStands(Sextet(c, 2));
    LetterStands(Sextet(c, 3));
    QuadLetters(c);
  }

  lemma QuadLetters(c: seq<Byte>)
    requires 0 < |c| <= 3
    ensures Quad(c) == [Letter(Sextet(c, 0)), Letter(Sextet(c, 1)),
                        if |c| > 1 then Letter(Sextet(c, 2)) else '=' as int,
                        if |c| > 2 then Letter(Sextet(c, 3)) else '=' as int]
  {
    hide Sextet, Letter;
    ChunkGroups(At(c, 0), At(c, 1), At(c, 2));
    ChunkSextets(c);
  }

  lemma ChunkSextets(c: seq<Byte>)
    requires 0 < |c| <= 3
    ensures Sextet(c, 0) == At(c, 0) / 4
    ensures Sextet(c, 1) == At(c, 0) % 4 * 16 + At(c, 1) / 16
    ensures Sextet(c, 2) == At(c, 1) % 16 * 4 + At(c, 2) / 64
    ensures Sextet(c, 3) == At(c, 2) % 64
  {
    Bits(At(c, 0));
    Bits(At(c, 1));
    Bits(At(c, 2));
    ByteBits(c, 0);
    ByteBits(c, 1);
    ByteBits(c, 2);
    hide Bit, BitOf;
  }

  lemma ByteBits(b: seq<Byte>, i: nat)
    ensures forall t: nat | t < 8 :: Bit(b, 8 * i + t) == BitOf(At(b, i), t)
  {
  }

  /** The six-bit groups of a 24-bit chunk, from its bytes. */
  lemma ChunkGroups(b0: nat, b1: nat, b2: nat)
    requires b0 < 256 && b1 < 256 && b2 < 256
    ensures var n := b0 * 65536 + b1 * 256 + b2;
            && n / 262144 % 64 == b0 / 4
            && n / 4096 % 64 == b0 % 4 * 16 + b1 / 16
            && n / 64 % 64 == b1 % 16 * 4 + b2 / 64
            && n % 64 == b2 % 64
  {
    var g0, g1, g2, g3 := b0 / 4, b0 % 4 * 16 + b1 / 16, b1 % 16 * 4 + b2 / 64, b2 % 64;
    Groups(g0, g1, g2, g3);
    assert b0 * 65536 + b1 * 256 + b2 == g0 * 262144 + g1 * 4096 + g2 * 64 + g3;
  }

  lemma Groups(g0: nat, g1: nat, g2: nat, g3: nat)
    requires g0 < 64 && g1 < 64 && g2 < 64 && g3 < 64
    ensures var n := g0 * 262144 + g1 * 4096 + g2 * 64 + g3;
            n / 262144 % 64 == g0 && n / 4096 % 64 == g1 && n / 64 % 64 == g2 && n % 64 == g3
  {
    var n := g0 * 262144 + g1 * 4096 + g2 * 64 + g3;
    var a := n / 64;
    assert a == g0 * 4096 + g1 * 64 + g2;
    var b := a / 64;
    assert b == g0 * 64 + g1;
    assert n / 4096 == b;
    assert n / 262144 == b / 64;
  }

  lemma Bits(x: Byte)
    ensures x / 4 == 32 * BitOf(x, 0) + 16 * BitOf(x, 1) + 8 * BitOf(x, 2) + 4 * BitOf(x, 3) + 2 * BitOf(x, 4) + BitOf(x, 5)
    ensures x % 4 == 2 * BitOf(x, 6) + BitOf(x, 7)
    ensures x / 16 == 8 * BitOf(x, 0) + 4 * BitOf(x, 1) + 2 * BitOf(x, 2) + BitOf(x, 3)
    ensures x % 16 == 8 * BitOf(x, 4) + 4 * BitOf(x, 5) + 2 * BitOf(x, 6) + BitOf(x, 7)
    ensures x / 64 == 2 * BitOf(x, 0) + BitOf(x, 1)
    ensures x % 64 == 32 * BitOf(x, 2) + 16 * BitOf(x, 3) + 8 * BitOf(x, 4) + 4 * BitOf(x, 5) + 2 * BitOf(x, 6) + BitOf(x, 7)
  {
    var n: nat := x;
    var h1 := n / 2;
    var h2 := h1 / 2;
    var h3 := h2 / 2;
    var h4 := h3 / 2;
    var h5 := h4 / 2;
    var h6 := h5 / 2;
    var h7 := h6 / 2;
    assert n / 4 == h2 && n / 8 == h3 && n / 16 == h4 && n / 32 == h5 && n / 64 == h6 && n / 128 == h7;
  }

  /** Where the last chunk of a non-empty byte string starts. */
  function LastChunk(b: seq<Byte>): (i: nat)
    requires b != []
    ensures i % 3 == 0 && i < |b| <= i + 3
  {
    (|b| - 1) / 3 * 3
  }

  function EncodeText(b: seq<Byte>): seq<Byte> {
    if b == [] then [] else EncodeText(b[..LastChunk(b)]) + Quad(b[LastChunk(b)..])
  }

  lemma {:induction false} EncodesRfc4648(b: seq<Byte>)
    ensures IsBase64(b, EncodeText(b))
  {
    hide Quad;
    if b != [] {
      var i := LastChunk(b);
      EncodesRfc4648(b[..i]);
      QuadIsBase64(b[i..]);
      Appended(b[..i], b[i..], EncodeText(b[..i]), Quad(b[i..]));
      assert b[..i] + b[i..] == b;
    }
  }

  lemma Appended(p: seq<Byte>, c: seq<Byte>, t: seq<Byte>, q: seq<Byte>)
    requires |p| % 3 == 0 && 0 < |c| <= 3 && |q| == 4 && IsBase64(p, t) && IsBase64(c, q)
    ensures IsBase64(p + c, t + q)
  {
    hide Sextet, Stands;
    var b := p + c;
    var g := |p| / 3;
    assert |p| == 3 * g && |t| == 4 * g;
    assert (|b| + 2) / 3 == g + 1;
    forall j | 0 <= j < |t + q|
      ensures if 6 * j < 8 * |b| then Stands((t + q)[j], Sextet(b, j)) else (t + q)[j] == '=' as int
    {
      if j < |t| { SextetLeft(p, c, j); } else { SextetRight(p, c, g, j - |t|); }
    }
  }

  lemma SextetLeft(p: seq<Byte>, c: seq<Byte>, j: nat)
    requires 6 * j + 6 <= 8 * |p|
    ensures Sextet(p + c, j) == Sextet(p, j)
  {
    hide BitOf;
  }

  lemma SextetRight(p: seq<Byte>, c: seq<Byte>, g: nat, j: nat)
    requires |p| == 3 * g
    ensures Sextet(p + c, 4 * g + j) == Sextet(c, j)
  {
    hide Bit;
    var k := 6 * j;
    BitRight(p, c, g, k);
    BitRight(p, c, g, k + 1);
    BitRight(p, c, g, k + 2);
    BitRight(p, c, g, k + 3);
    BitRight(p, c, g, k + 4);
    BitRight(p, c, g, k + 5);
  }

  lemma BitRight(p: seq<Byte>, c: seq<Byte>, g: nat, k: nat)
    requires |p| == 3 * g
    ensures Bit(p + c, 8 * (3 * g) + k) == Bit(c, k)
  {
    var m := 3 * g;
    assert (8 * m + k) / 8 == m + k / 8 && (8 * m + k) % 8 == k % 8;
  }

  lemma AppendQuad(b: seq<Byte>, c: seq<Byte>)
    requires |b| % 3 == 0 && 0 < |c| <= 3
    ensures EncodeText(b + c) == EncodeText(b) + Quad(c)
  {
    hide Quad;
    assert LastChunk(b + c) == |b|;
    assert (b + c)[..|b|] == b && (b + c)[|b|..] == c;
  }

  method Encode(bytes: seq<Byte>) returns (out: seq<Byte>)
    ensures IsBase64(bytes, out) && out == EncodeText(bytes)
  {
    EncodesRfc4648(bytes);
    NothingWritten();
    hide Quad, IsBase64, EncodeText;
    out := [];
    var i := 0;
    while i < |bytes|
      invariant i <= |bytes| && (i % 3 == 0 || i == |bytes|)
      invariant out == EncodeText(bytes[..i])
    {
      var end := if i + 3 < |bytes| then i + 3 else |bytes|;
      var chunk := bytes[i..end];
      AppendQuad(bytes[..i], chunk);
      assert bytes[..end] == bytes[..i] + chunk;
      out := out + Quad(chunk);
      i := end;
    }
    assert bytes[..|bytes|] == bytes;
  }

  lemma NothingWritten()
    ensures EncodeText([]) == []
  {
  }

  // ---- Decoding -----------------------------------------------------------------------------------------

  predicate IsDigit(c: Byte) { c == PAD || Val(c).Some? }

  function Digit(c: Byte): (d: nat)
    requires IsDigit(c)
    ensures d < 64
  {
    if c == PAD then 0 else Val(c).value
  }

  predicate AllDigits(s: seq<Byte>) {
    forall j | 0 <= j < |s| :: IsDigit(s[j])
  }

  /** The 24 bits four characters stand for. */
  function Number(c: seq<Byte>): nat
    requires |c| == 4 && AllDigits(c)
  {
    Digit(c[0]) * 262144 + Digit(c[1]) * 4096 + Digit(c[2]) * 64 + Digit(c[3])
  }

  function Pads(c: seq<Byte>): nat {
    if c == [] then 0 else Pads(c[..|c| - 1]) + if c[|c| - 1] == PAD then 1 else 0
  }

  /** The bytes of four characters; padding characters stand for zero bits wherever they occur. */
  function Unquad(c: seq<Byte>): seq<Byte>
    requires |c| == 4 && AllDigits(c)
  {
    var n := Number(c);
    if Pads(c) >= 2 then [n / 65536 % 256]
    else if Pads(c) == 1 then [n / 65536 % 256, n / 256 % 256]
    else [n / 65536 % 256, n / 256 % 256, n % 256]
  }

  function DecodeText(t: seq<Byte>): Option<seq<Byte>> {
    if |t| % 4 == 0 && AllDigits(t) then Some(Unquads(t)) else None
  }

  function Unquads(t: seq<Byte>): seq<Byte>
    requires |t| % 4 == 0 && AllDigits(t)
  {
    if t == [] then [] else Unquads(t[..|t| - 4]) + Unquad(t[|t| - 4..])
  }

  // ---- What a text stands for, bit by bit ---------------------------------------------------------------

  /** c is = or one of the 64 characters. */
  ghost predicate IsSymbol(c: Byte) { exists v :: Means(c, v) }

  /** c stands for the six bits of v; = stands for zeros. */
  predicate Means(c: Byte, v: nat) {
    Stands(c, v) || (c == '=' as int && v == 0)
  }

  /** Bit k of a six-bit value, most significant first. */
  function SixBit(v: nat, k: nat): (r: nat)
    requires v < 64 && k < 6
    ensures r < 2
  {
    if k == 0 then v / 32 else if k == 1 then v / 16 % 2 else if k == 2 then v / 8 % 2
    else if k == 3 then v / 4 % 2 else if k == 4 then v / 2 % 2 else v % 2
  }

  /** Bit k of four six-bit values. */
  function FourBit(d: seq<nat>, k: nat): nat
    requires |d| == 4 && (forall i | 0 <= i < 4 :: d[i] < 64) && k < 24
  {
    SixBit(d[k / 6], k % 6)
  }

  /** Four characters stand for the bytes b: the first bits of the four values, one byte fewer for each =, but at least one. */
  ghost predicate Gives(c: seq<Byte>, b: seq<Byte>)
    requires |c| == 4
  {
    exists d: seq<nat> :: |d| == 4 && (forall i | 0 <= i < 4 :: Means(c[i], d[i]) && d[i] < 64)
      && |b| == (if multiset(c)['=' as int] == 0 then 3 else if multiset(c)['=' as int] == 1 then 2 else 1)
      && (forall m, k | 0 <= m < |b| && 0 <= k < 8 :: BitOf(b[m], k) == FourBit(d, 8 * m + k))
  }

  /** A text stands for what its fours stand for, one after the other. */
  ghost predicate StandsFor(t: seq<Byte>, b: seq<Byte>) {
    if t == [] then b == []
    else |t| >= 4 && exists k :: 0 <= k <= |b| && StandsFor(t[..|t| - 4], b[..k]) && Gives(t[|t| - 4..], b[k..])
  }

  lemma SymbolDigit(c: Byte)
    ensures IsSymbol(c) <==> IsDigit(c)
    ensures IsDigit(c) ==> Means(c, Digit(c))
  {
    forall v: nat ensures Val(c) == Some(v) <==> Stands(c, v) { ValStands(c, v); }
    hide Val, Stands;
    if IsDigit(c) { assert Means(c, Digit(c)); }
  }

  lemma UnquadGives(c: seq<Byte>)
    requires |c| == 4 && AllDigits(c)
    ensures Gives(c, Unquad(c))
  {
    hide Val, Stands, IsDigit, Means, BitOf, SixBit, Digit;
    var d: seq<nat> := [Digit(c[0]), Digit(c[1]), Digit(c[2]), Digit(c[3])];
    SymbolDigit(c[0]);
    SymbolDigit(c[1]);
    SymbolDigit(c[2]);
    SymbolDigit(c[3]);
    CountEquals(c);
    var b := Unquad(c);
    forall m, k | 0 <= m < |b| && 0 <= k < 8 ensures BitOf(b[m], k) == FourBit(d, 8 * m + k) {
      FourBytes(d, k);
    }
  }

  lemma CountEquals(c: seq<Byte>)
    requires |c| == 4
    ensures Pads(c) == multiset(c)['=' as int]
  {
    PadsOfFour(c);
    assert multiset([c[0], c[1], c[2], c[3]])[61] == (if c[0] == 61 then 1 else 0) + (if c[1] == 61 then 1 else 0)
      + (if c[2] == 61 then 1 else 0) + (if c[3] == 61 then 1 else 0);
    assert c == [c[0], c[1], c[2], c[3]];
  }

  /** The three bytes of four six-bit values. */
  lemma FourBytes(d: seq<nat>, k: nat)
    requires |d| == 4 && (forall i | 0 <= i < 4 :: d[i] < 64) && k < 8
    ensures var n := d[0] * 262144 + d[1] * 4096 + d[2] * 64 + d[3];
            && BitOf(n / 65536 % 256, k) == FourBit(d, k)
            && BitOf(n / 256 % 256, k) == FourBit(d, 8 + k)
            && BitOf(n % 256, k) == FourBit(d, 16 + k)
  {
    hide BitOf, SixBit;
    BytesOfGroups(d[0], d[1], d[2], d[3]);
    TwoHalves(d[0], d[1], k);
    TwoMiddles(d[1], d[2], k);
    TwoEnds(d[2], d[3], k);
  }

  lemma BytesOfGroups(g0: nat, g1: nat, g2: nat, g3: nat)
    requires g0 < 64 && g1 < 64 && g2 < 64 && g3 < 64
    ensures var n := g0 * 262144 + g1 * 4096 + g2 * 64 + g3;
            && n / 65536 % 256 == g0 * 4 + g1 / 16
            && n / 256 % 256 == g1 % 16 * 16 + g2 / 4
            && n % 256 == g2 % 4 * 64 + g3
  {
    var b0, b1, b2 := g0 * 4 + g1 / 16, g1 % 16 * 16 + g2 / 4, g2 % 4 * 64 + g3;
    Regrouped(g0, g1, g2, g3);
    ThreeBytes(b0, b1, b2);
  }

  lemma Regrouped(g0: nat, g1: nat, g2: nat, g3: nat)
    ensures g0 * 262144 + g1 * 4096 + g2 * 64 + g3 ==
              (g0 * 4 + g1 / 16) * 65536 + (g1 % 16 * 16 + g2 / 4) * 256 + (g2 % 4 * 64 + g3)
  {
    assert g1 == 16 * (g1 / 16) + g1 % 16;
    assert g2 == 4 * (g2 / 4) + g2 % 4;
  }

  lemma ThreeBytes(b0: nat, b1: nat, b2: nat)
    requires b0 < 256 && b1 < 256 && b2 < 256
    ensures var n := b0 * 65536 + b1 * 256 + b2; n / 65536 % 256 == b0 && n / 256 % 256 == b1 && n % 256 == b2
  {
    var n := b0 * 65536 + b1 * 256 + b2;
    assert n / 256 == b0 * 256 + b1;
    assert n / 65536 == (n / 256) / 256;
  }

  lemma TwoHalves(a: nat, b: nat, k: nat)
    requires a < 64 && b < 64 && k < 8
    ensures BitOf(a * 4 + b / 16, k) == if k < 6 then SixBit(a, k) else SixBit(b, k - 6)
  {
    SixBits(a);
    SixBits(b);
    BitsOfSum(SixBit(a, 0), SixBit(a, 1), SixBit(a, 2), SixBit(a, 3), SixBit(a, 4), SixBit(a, 5), SixBit(b, 0), SixBit(b, 1));
    hide SixBit, BitOf;
  }

  lemma TwoMiddles(a: nat, b: nat, k: nat)
    requires a < 64 && b < 64 && k < 8
    ensures BitOf(a % 16 * 16 + b / 4, k) == if k < 4 then SixBit(a, k + 2) else SixBit(b, k - 4)
  {
    SixBits(a);
    SixBits(b);
    BitsOfSum(SixBit(a, 2), SixBit(a, 3), SixBit(a, 4), SixBit(a, 5), SixBit(b, 0), SixBit(b, 1), SixBit(b, 2), SixBit(b, 3));
    hide SixBit, BitOf;
  }

  lemma TwoEnds(a: nat, b: nat, k: nat)
    requires a < 64 && b < 64 && k < 8
    ensures BitOf(a % 4 * 64 + b, k) == if k < 2 then SixBit(a, k + 4) else SixBit(b, k - 2)
  {
    SixBits(a);
    SixBits(b);
    BitsOfSum(SixBit(a, 4), SixBit(a, 5), SixBit(b, 0), SixBit(b, 1), SixBit(b, 2), SixBit(b, 3), SixBit(b, 4), SixBit(b, 5));
    hide SixBit, BitOf;
  }

  lemma SixBits(v: nat)
    requires v < 64
    ensures v / 16 == 2 * SixBit(v, 0) + SixBit(v, 1)
    ensures v / 4 == 8 * SixBit(v, 0) + 4 * SixBit(v, 1) + 2 * SixBit(v, 2) + SixBit(v, 3)
    ensures v == 32 * SixBit(v, 0) + 16 * SixBit(v, 1) + 8 * SixBit(v, 2) + 4 * SixBit(v, 3) + 2 * SixBit(v, 4) + SixBit(v, 5)
    ensures v % 16 == 8 * SixBit(v, 2) + 4 * SixBit(v, 3) + 2 * SixBit(v, 4) + SixBit(v, 5)
    ensures v % 4 == 2 * SixBit(v, 4) + SixBit(v, 5)
  {
    var h1 := v / 2;
    var h2 := h1 / 2;
    var h3 := h2 / 2;
    var h4 := h3 / 2;
    var h5 := h4 / 2;
    assert v / 4 == h2 && v / 8 == h3 && v / 16 == h4 && v / 32 == h5;
  }

  lemma BitsOfSum(x0: nat, x1: nat, x2: nat, x3: nat, x4: nat, x5: nat, x6: nat, x7: nat)
    requires x0 < 2 && x1 < 2 && x2 < 2 && x3 < 2 && x4 < 2 && x5 < 2 && x6 < 2 && x7 < 2
    ensures var n := 128 * x0 + 64 * x1 + 32 * x2 + 16 * x3 + 8 * x4 + 4 * x5 + 2 * x6 + x7;
            && BitOf(n, 0) == x0 && BitOf(n, 1) == x1 && BitOf(n, 2) == x2 && BitOf(n, 3) == x3
            && BitOf(n, 4) == x4 && BitOf(n, 5) == x5 && BitOf(n, 6) == x6 && BitOf(n, 7) == x7
  {
    var n := 128 * x0 + 64 * x1 + 32 * x2 + 16 * x3 + 8 * x4 + 4 * x5 + 2 * x6 + x7;
    assert n / 2 == 64 * x0 + 32 * x1 + 16 * x2 + 8 * x3 + 4 * x4 + 2 * x5 + x6;
    assert n / 4 == 32 * x0 + 16 * x1 + 8 * x2 + 4 * x3 + 2 * x4 + x5;
    assert n / 8 == 16 * x0 + 8 * x1 + 4 * x2 + 2 * x3 + x4;
    assert n / 16 == 8 * x0 + 4 * x1 + 2 * x2 + x3;
    assert n / 32 == 4 * x0 + 2 * x1 + x2;
    assert n / 64 == 2 * x0 + x1;
    assert n / 128 == x0;
  }

  lemma {:induction false} UnquadsStandFor(t: seq<Byte>)
    requires |t| % 4 == 0 && AllDigits(t)
    ensures StandsFor(t, Unquads(t))
  {
    hide Unquad, IsDigit, Gives;
    if t != [] {
      var p, c := t[..|t| - 4], t[|t| - 4..];
      UnquadsStandFor(p);
      UnquadGives(c);
      var b, k := Unquads(t), |Unquads(p)|;
      assert b[..k] == Unquads(p) && b[k..] == Unquad(c);
    }
  }

  ghost predicate Readable(t: seq<Byte>) {
    |t| % 4 == 0 && forall c | c in t :: IsSymbol(c)
  }

  lemma DecodesExactly(t: seq<Byte>)
    ensures DecodeText(t).Some? <==> Readable(t)
    ensures DecodeText(t).Some? ==> StandsFor(t, DecodeText(t).value)
  {
    hide IsDigit, IsSymbol, StandsFor, Unquads;
    forall c ensures IsSymbol(c) <==> IsDigit(c) { SymbolDigit(c); }
    if |t| % 4 == 0 && AllDigits(t) { UnquadsStandFor(t); }
  }

  method Decode(text: seq<Byte>) returns (r: Option<seq<Byte>>)
    ensures r.Some? <==> Readable(text)
    ensures r.Some? ==> StandsFor(text, r.value)
    ensures r == DecodeText(text)
  {
    hide Unquad, Unquads, AllDigits, Readable, StandsFor;
    DecodesExactly(text);
    if |text| % 4 != 0 { return None; }
    var out := [];
    var i := 0;
    NothingRead();
    while i < |text|
      invariant i % 4 == 0 && i <= |text|
      invariant AllDigits(text[..i])
      invariant out == Unquads(text[..i])
    {
      var chunk := text[i..i + 4];
      var piece := DecodeChunk(chunk);
      if piece.None? {
        BadChunk(text, i);
        return None;
      }
      AppendChunk(text[..i], chunk);
      assert text[..i + 4] == text[..i] + chunk;
      out := out + piece.value;
      i := i + 4;
    }
    assert text[..i] == text;
    r := Some(out);
  }

  lemma NothingRead()
    ensures AllDigits([]) && Unquads([]) == []
  {
  }

  lemma BadChunk(t: seq<Byte>, i: nat)
    requires i + 4 <= |t| && !AllDigits(t[i..i + 4])
    ensures !AllDigits(t)
  {
    hide IsDigit;
    var j :| 0 <= j < 4 && !IsDigit(t[i..i + 4][j]);
    assert t[i + j] == t[i..i + 4][j];
  }

  lemma AppendChunk(t: seq<Byte>, c: seq<Byte>)
    requires |t| % 4 == 0 && |c| == 4 && AllDigits(t) && AllDigits(c)
    ensures AllDigits(t + c) && Unquads(t + c) == Unquads(t) + Unquad(c)
  {
    hide Unquad, IsDigit;
    assert (t + c)[..|t|] == t && (t + c)[|t|..] == c;
  }

  method DecodeChunk(chunk: seq<Byte>) returns (r: Option<seq<Byte>>)
    requires |chunk| == 4
    ensures r == if AllDigits(chunk) then Some(Unquad(chunk)) else None
  {
    hide IsDigit, Number, Pads;
    var pad := CountPads(chunk);
    var bits := ChunkBits(chunk);
    if bits.None? { return None; }
    var n := bits.value;
    var out := [n / 65536 % 256];
    if pad < 2 { out := out + [n / 256 % 256]; }
    if pad < 1 { out := out + [n % 256]; }
    assert out == Unquad(chunk);
    r := Some(out);
  }

  method ChunkBits(chunk: seq<Byte>) returns (r: Option<nat>)
    requires |chunk| == 4
    ensures r == if AllDigits(chunk) then Some(Number(chunk)) else None
  {
    hide Val;
    var n: nat := 0;
    var weight: nat := 262144;
    for i := 0 to 4
      invariant forall j | 0 <= j < i :: IsDigit(chunk[j])
      invariant weight == if i == 0 then 262144 else if i == 1 then 4096 else if i == 2 then 64 else if i == 3 then 1 else 0
      invariant i == 0 ==> n == 0
      invariant i == 1 ==> n == Digit(chunk[0]) * 262144
      invariant i == 2 ==> n == Digit(chunk[0]) * 262144 + Digit(chunk[1]) * 4096
      invariant i == 3 ==> n == Digit(chunk[0]) * 262144 + Digit(chunk[1]) * 4096 + Digit(chunk[2]) * 64
      invariant i == 4 ==> AllDigits(chunk) && n == Number(chunk)
    {
      var c := chunk[i];
      if c != PAD && Val(c).None? {
        assert !IsDigit(chunk[i]);
        return None;
      }
      n := n + Digit(c) * weight;
      weight := weight / 64;
    }
    r := Some(n);
  }

  method CountPads(chunk: seq<Byte>) returns (pad: nat)
    ensures pad == Pads(chunk)
  {
    pad := 0;
    for i := 0 to |chunk|
      invariant pad == Pads(chunk[..i])
    {
      assert chunk[..i + 1][..i] == chunk[..i];
      if chunk[i] == PAD { pad := pad + 1; }
    }
    assert chunk[..|chunk|] == chunk;
  }

  // ---- Decoding undoes encoding -------------------------------------------------------------------------

  lemma {:induction false} RoundTrip(b: seq<Byte>)
    ensures DecodeText(EncodeText(b)) == Some(b)
  {
    hide Quad, Unquad, IsDigit;
    if b != [] {
      var i := LastChunk(b);
      RoundTrip(b[..i]);
      QuadRoundTrip(b[i..]);
      var t, q := EncodeText(b[..i]), Quad(b[i..]);
      AppendChunk(t, q);
      assert b[..i] + b[i..] == b;
    }
  }

  lemma QuadRoundTrip(c: seq<Byte>)
    requires 0 < |c| <= 3
    ensures AllDigits(Quad(c))
    ensures Unquad(Quad(c)) == c
  {
    var b0: nat, b1: nat, b2: nat := At(c, 0), At(c, 1), At(c, 2);
    var g0, g1, g2, g3 := b0 / 4, b0 % 4 * 16 + b1 / 16, b1 % 16 * 4 + b2 / 64, b2 % 64;
    ChunkGroups(b0, b1, b2);
    LettersBack(g0, g1, g2, g3, |c|);
    BytesBack(b0, b1, b2);
    assert Quad(c) == Letters(g0, g1, g2, g3, |c|);
    hide Quad, Letters, IsDigit;
  }

  /** Four characters, of which the last 3 - k are padding. */
  function Letters(g0: nat, g1: nat, g2: nat, g3: nat, k: nat): seq<Byte>
    requires g0 < 64 && g1 < 64 && g2 < 64 && g3 < 64
  {
    [Letter(g0), Letter(g1), if k > 1 then Letter(g2) else PAD, if k > 2 then Letter(g3) else PAD]
  }

  lemma LettersBack(g0: nat, g1: nat, g2: nat, g3: nat, k: nat)
    requires g0 < 64 && g1 < 64 && g2 < 64 && g3 < 64 && 1 <= k <= 3
    requires (k < 2 ==> g2 == 0) && (k < 3 ==> g3 == 0)
    ensures AllDigits(Letters(g0, g1, g2, g3, k))
    ensures Pads(Letters(g0, g1, g2, g3, k)) == 3 - k
    ensures var q := Letters(g0, g1, g2, g3, k);
            |q| == 4 && Digit(q[0]) == g0 && Digit(q[1]) == g1 && Digit(q[2]) == g2 && Digit(q[3]) == g3
  {
    LetterDigit(g0);
    LetterDigit(g1);
    LetterDigit(g2);
    LetterDigit(g3);
    PadDigit();
    PadsOfFour(Letters(g0, g1, g2, g3, k));
    hide Letter, Digit, IsDigit;
  }

  lemma PadsOfFour(q: seq<Byte>)
    requires |q| == 4
    ensures Pads(q) == (if q[0] == PAD then 1 else 0) + (if q[1] == PAD then 1 else 0)
                       + (if q[2] == PAD then 1 else 0) + (if q[3] == PAD then 1 else 0)
  {
    assert q[..3][..2] == q[..2] && q[..2][..1] == q[..1] && q[..1][..0] == [];
    assert Pads(q[..1]) == if q[0] == PAD then 1 else 0;
    assert Pads(q[..2]) == Pads(q[..1]) + if q[1] == PAD then 1 else 0;
    assert Pads(q[..3]) == Pads(q[..2]) + if q[2] == PAD then 1 else 0;
  }

  lemma PadDigit()
    ensures IsDigit(PAD) && Digit(PAD) == 0
  {
  }

  lemma LetterDigit(v: nat)
    requires v < 64
    ensures Letter(v) != PAD && IsDigit(Letter(v)) && Digit(Letter(v)) == v
  {
  }

  lemma BytesBack(b0: nat, b1: nat, b2: nat)
    requires b0 < 256 && b1 < 256 && b2 < 256
    ensures var n := (b0 / 4) * 262144 + (b0 % 4 * 16 + b1 / 16) * 4096 + (b1 % 16 * 4 + b2 / 64) * 64 + b2 % 64;
            n / 65536 % 256 == b0 && n / 256 % 256 == b1 && n % 256 == b2
  {
    assert b0 == 4 * (b0 / 4) + b0 % 4 && b1 == 16 * (b1 / 16) + b1 % 16 && b2 == 64 * (b2 / 64) + b2 % 64;
    ThreeBytes(b0, b1, b2);
  }
}
