/** Positions in a text, as the Language Server Protocol counts them. */
module Positions {
  import opened Encodings

  datatype Position = Position(line: nat, character: nat)

  /** Code units a character takes in UTF-16 and in UTF-8. */
  function Utf16Len(c: char): (n: nat)
    ensures 1 <= n <= 2
  {
    if c as int < 0x10000 then 1 else 2
  }

  function Utf8Len(c: char): (n: nat)
    ensures 1 <= n <= 4
  {
    if c as int < 0x80 then 1 else if c as int < 0x800 then 2 else if c as int < 0x10000 then 3 else 4
  }

  // ---- The position of a boundary between characters ----------------------------------------------------

  /** The position of the boundary before character k. */
  function PosOf(text: string, k: nat): Position
    requires k <= |text|
  {
    if k == 0 then Position(0, 0)
    else
      var p := PosOf(text, k - 1);
      if text[k - 1] == '\n' then Position(p.line + 1, 0) else Position(p.line, p.character + Utf16Len(text[k - 1]))
  }

  lemma UnitCounts(c: char)
    ensures Utf16Len(c) == |Utf16(c)| && Utf8Len(c) == |Utf8(c)|
  {
  }

  /** s is where the line of boundary k starts. */
  ghost predicate StartsLine(text: string, s: nat, k: nat) {
    s <= k <= |text| && (s == 0 || text[s - 1] == '\n') && '\n' !in text[s..k]
  }

  lemma {:induction false} HasLineStart(text: string, k: nat)
    requires k <= |text|
    ensures exists s: nat :: StartsLine(text, s, k)
  {
    if k == 0 || text[k - 1] == '\n' {
      assert StartsLine(text, k, k);
    } else {
      HasLineStart(text, k - 1);
      var s: nat :| StartsLine(text, s, k - 1);
      assert text[s..k] == text[s..k - 1] + [text[k - 1]];
      assert StartsLine(text, s, k);
    }
  }

  lemma NewlinesStep(text: string, k: nat)
    requires 0 < k <= |text|
    ensures multiset(text[..k])['\n'] == multiset(text[..k - 1])['\n'] + if text[k - 1] == '\n' then 1 else 0
  {
    assert text[..k] == text[..k - 1] + [text[k - 1]];
  }

  lemma UnitsStep(text: string, s: nat, k: nat)
    requires s < k <= |text|
    ensures |Utf16Text(text[s..k])| == |Utf16Text(text[s..k - 1])| + |Utf16(text[k - 1])|
  {
    hide Utf16;
    assert text[s..k][..k - 1 - s] == text[s..k - 1];
  }

  lemma LineStep(text: string, s: nat, k: nat)
    requires StartsLine(text, s, k) && s < k
    ensures StartsLine(text, s, k - 1) && text[k - 1] != '\n'
  {
    assert text[s..k][k - 1 - s] == text[k - 1];
    assert forall i | 0 <= i < k - 1 - s :: text[s..k - 1][i] == text[s..k][i];
  }

  /** A position counts the newlines before it, and the UTF-16 units since the last of them. */
  lemma {:induction false} PosMeans(text: string, k: nat, s: nat)
    requires StartsLine(text, s, k)
    ensures PosOf(text, k) == Position(multiset(text[..k])['\n'], |Utf16Text(text[s..k])|)
    decreases k
  {
    if k > 0 {
      NewlinesStep(text, k);
      UnitCounts(text[k - 1]);
      if s == k {
        HasLineStart(text, k - 1);
        var s2: nat :| StartsLine(text, s2, k - 1);
        PosMeans(text, k - 1, s2);
      } else {
        hide StartsLine, Utf16, Utf16Text;
        LineStep(text, s, k);
        UnitsStep(text, s, k);
        PosMeans(text, k - 1, s);
      }
    }
  }

  predicate Before(p: Position, q: Position) {
    p.line < q.line || (p.line == q.line && p.character < q.character)
  }

  lemma {:induction false} PosRises(text: string, j: nat, k: nat)
    requires j < k <= |text|
    ensures Before(PosOf(text, j), PosOf(text, k))
    decreases k
  {
    if j < k - 1 { PosRises(text, j, k - 1); }
  }

  /** k is where pos points: no earlier boundary reaches pos, and k does, or ends pos's line or the text. */
  ghost predicate PointsTo(text: string, pos: Position, k: nat) {
    && k <= |text|
    && (forall j: nat | j < k :: Before(PosOf(text, j), pos))
    && (!Before(PosOf(text, k), pos) || k == |text| || (text[k] == '\n' && PosOf(text, k).line == pos.line))
    && PosOf(text, k).line <= pos.line
  }

  lemma PointsToOne(text: string, pos: Position, j: nat, k: nat)
    requires PointsTo(text, pos, j) && PointsTo(text, pos, k)
    ensures j == k
  {
    if j < k { NotBoth(text, pos, j, k); }
    if k < j { NotBoth(text, pos, k, j); }
  }

  lemma NotBoth(text: string, pos: Position, j: nat, k: nat)
    requires PointsTo(text, pos, j) && j < k
    ensures !PointsTo(text, pos, k)
  {
    if k <= |text| && Before(PosOf(text, j), pos) {
      if j + 1 < k { PosRises(text, j + 1, k); }
    }
  }

  // ---- Finding it ---------------------------------------------------------------------------------------

  /** The first newline from k on, or the end. */
  function Newline(text: string, k: nat): (e: nat)
    requires k <= |text|
    ensures k <= e <= |text|
    decreases |text| - k
  {
    if k == |text| || text[k] == '\n' then k else Newline(text, k + 1)
  }

  /** Where the line n lines after the one that starts at k starts, if there is one. */
  function LineFrom(text: string, k: nat, n: nat): (s: int)
    requires k <= |text|
    ensures -1 <= s <= |text|
    decreases n
  {
    if n == 0 then k
    else if Newline(text, k) == |text| then -1
    else LineFrom(text, Newline(text, k) + 1, n - 1)
  }

  /** From k, at units, to goal units or to the end of the line. */
  function Advance(text: string, k: nat, units: nat, goal: nat): (r: nat)
    requires k <= |text|
    ensures k <= r <= |text|
    decreases |text| - k
  {
    if k == |text| || units >= goal || text[k] == '\n' then k
    else Advance(text, k + 1, units + Utf16Len(text[k]), goal)
  }

  function Index(text: string, pos: Position): (k: nat)
    ensures k <= |text|
  {
    var s := LineFrom(text, 0, pos.line);
    if s < 0 then |text| else Advance(text, s, 0, pos.character)
  }

  lemma {:induction false} NewlineSameLine(text: string, k: nat)
    requires k <= |text|
    ensures PosOf(text, Newline(text, k)).line == PosOf(text, k).line
    ensures Newline(text, k) < |text| ==> text[Newline(text, k)] == '\n'
    decreases |text| - k
  {
    if k < |text| && text[k] != '\n' { NewlineSameLine(text, k + 1); }
  }

  lemma {:induction false} LineFromPos(text: string, k: nat, n: nat)
    requires k <= |text| && PosOf(text, k).character == 0
    ensures var s := LineFrom(text, k, n);
            if s < 0 then PosOf(text, |text|).line < PosOf(text, k).line + n
            else PosOf(text, s) == Position(PosOf(text, k).line + n, 0)
    decreases n
  {
    if n > 0 {
      NewlineSameLine(text, k);
      var e := Newline(text, k);
      if e < |text| {
        assert PosOf(text, e + 1) == Position(PosOf(text, k).line + 1, 0);
        LineFromPos(text, e + 1, n - 1);
      }
    }
  }

  lemma {:induction false} AdvancePoints(text: string, k: nat, pos: Position)
    requires k <= |text| && PosOf(text, k).line == pos.line
    requires forall j: nat | j < k :: Before(PosOf(text, j), pos)
    ensures PointsTo(text, pos, Advance(text, k, PosOf(text, k).character, pos.character))
    decreases |text| - k
  {
    if k < |text| && PosOf(text, k).character < pos.character && text[k] != '\n' {
      assert PosOf(text, k + 1) == Position(pos.line, PosOf(text, k).character + Utf16Len(text[k]));
      AdvancePoints(text, k + 1, pos);
    }
  }

  /** The search always ends at the one boundary that pos points to. */
  lemma IndexPoints(text: string, pos: Position)
    ensures PointsTo(text, pos, Index(text, pos))
  {
    LineFromPos(text, 0, pos.line);
    var s := LineFrom(text, 0, pos.line);
    if s < 0 {
      forall j: nat | j < |text| ensures Before(PosOf(text, j), pos) { PosRises(text, j, |text|); }
    } else {
      forall j: nat | j < s ensures Before(PosOf(text, j), pos) { PosRises(text, j, s); }
      AdvancePoints(text, s, pos);
    }
  }

  /** Looking up the position of a boundary gives the boundary back. */
  lemma IndexInverts(text: string, k: nat)
    requires k <= |text|
    ensures Index(text, PosOf(text, k)) == k
  {
    hide Index, PosOf;
    forall j: nat | j < k ensures Before(PosOf(text, j), PosOf(text, k)) { PosRises(text, j, k); }
    IndexPoints(text, PosOf(text, k));
    PointsToOne(text, PosOf(text, k), k, Index(text, PosOf(text, k)));
  }

  lemma IndexMonotone(text: string, p: Position, q: Position)
    requires !Before(q, p)
    ensures Index(text, p) <= Index(text, q)
  {
    hide Index;
    IndexPoints(text, p);
    IndexPoints(text, q);
    var i, j := Index(text, p), Index(text, q);
    if j < i {
      PosRises(text, j, i);
      if j + 1 < i { PosRises(text, j + 1, i); }
    }
  }

  // ---- Byte offsets -------------------------------------------------------------------------------------

  /** The byte offset of boundary k. */
  function Offset(text: string, k: nat): nat
    requires k <= |text|
  {
    if k == 0 then 0 else Offset(text, k - 1) + Utf8Len(text[k - 1])
  }

  /** It is the number of UTF-8 bytes before it. */
  lemma {:induction false} OffsetMeans(text: string, k: nat)
    requires k <= |text|
    ensures Offset(text, k) == |Utf8Text(text[..k])|
  {
    if k > 0 {
      OffsetMeans(text, k - 1);
      UnitCounts(text[k - 1]);
      assert text[..k][..k - 1] == text[..k - 1];
    }
  }

  lemma {:induction false} OffsetRises(text: string, j: nat, k: nat)
    requires j < k <= |text|
    ensures Offset(text, j) < Offset(text, k)
    decreases k
  {
    if j < k - 1 { OffsetRises(text, j, k - 1); }
  }

  /** idx is the number of UTF-8 bytes before the boundary pos points to. */
  ghost predicate IsByteOf(text: string, pos: Position, idx: nat) {
    exists k: nat :: PointsTo(text, pos, k) && idx == |Utf8Text(text[..k])|
  }

  lemma BytePoints(text: string, pos: Position)
    ensures IsByteOf(text, pos, Offset(text, Index(text, pos)))
  {
    hide Offset, Index, PointsTo;
    IndexPoints(text, pos);
    OffsetMeans(text, Index(text, pos));
  }

  /** Two loops over the text: to the line, and then along it. */
  method PositionToByte(text: string, pos: Position) returns (idx: nat)
    ensures idx == Offset(text, Index(text, pos))
    ensures IsByteOf(text, pos, idx)
  {
    BytePoints(text, pos);
    hide IsByteOf;
    var line := 0;
    idx := 0;
    var k := 0;
    while line < pos.line
      invariant line <= pos.line && k <= |text| && idx == Offset(text, k)
      invariant LineFrom(text, 0, pos.line) == LineFrom(text, k, pos.line - line)
    {
      var from := k;
      while k < |text| && text[k] != '\n'
        invariant from <= k <= |text| && idx == Offset(text, k)
        invariant Newline(text, from) == Newline(text, k)
      {
        idx := idx + Utf8Len(text[k]);
        k := k + 1;
      }
      if k == |text| { return; }
      idx := idx + 1;
      k := k + 1;
      line := line + 1;
    }
    var utf16: nat := 0;
    while k < |text| && utf16 < pos.character && text[k] != '\n'
      invariant k <= |text| && idx == Offset(text, k)
      invariant Index(text, pos) == Advance(text, k, utf16, pos.character)
      decreases |text| - k
    {
      utf16 := utf16 + Utf16Len(text[k]);
      idx := idx + Utf8Len(text[k]);
      k := k + 1;
    }
  }

  /** The boundary at a byte offset. */
  method BoundaryAt(text: string, idx: nat, ghost k: nat) returns (r: nat)
    requires k <= |text| && Offset(text, k) == idx
    ensures r == k
  {
    r := 0;
    var at := 0;
    while at < idx
      invariant r <= |text| && at == Offset(text, r) && r <= k
      decreases k - r
    {
      at := at + Utf8Len(text[r]);
      r := r + 1;
    }
    if r < k { OffsetRises(text, r, k); }
  }
}

/** Incremental edits and the coalescing of bursts of them. */
module TextSync {
  import opened Positions

  type Uri = string

  datatype Change = Full(text: string) | Delta(start: Position, end: Position, text: string)

  /** A change notification; one that cannot be decoded is dropped. */
  datatype Notification = DidChange(uri: Uri, changes: seq<Change>) | Malformed

  // ---- One change ---------------------------------------------------------------------------------------

  function Apply(text: string, change: Change): string {
    match change
    case Full(t) => t
    case Delta(start, end, t) =>
      var i := Index(text, start);
      var j := Index(text, end);
      text[..i] + t + text[if i < j then j else i..]
  }

  /** A range given by two boundaries replaces exactly what lies between them; so the reverse change undoes it. */
  lemma ReplacesRange(a: string, b: string, c: string, t: string)
    ensures var text := a + b + c;
            Apply(text, Delta(PosOf(text, |a|), PosOf(text, |a| + |b|), t)) == a + t + c
  {
    hide *;
    var text := a + b + c;
    IndexInverts(text, |a|);
    IndexInverts(text, |a| + |b|);
    Slices(a, b, c);
    ApplyBetween(text, PosOf(text, |a|), PosOf(text, |a| + |b|), t);
  }

  lemma ApplyBetween(text: string, start: Position, end: Position, t: string)
    requires Index(text, start) <= Index(text, end)
    ensures Apply(text, Delta(start, end, t)) == text[..Index(text, start)] + t + text[Index(text, end)..]
  {
    hide Index;
  }

  lemma Slices(a: string, b: string, c: string)
    ensures (a + b + c)[..|a|] == a && (a + b + c)[|a| + |b|..] == c
  {
  }

  /** A range with its ends the wrong way round only inserts. */
  lemma BackwardsInserts(text: string, start: Position, end: Position, t: string)
    requires !Before(start, end)
    ensures Apply(text, Delta(start, end, t)) == text[..Index(text, start)] + t + text[Index(text, start)..]
  {
    IndexMonotone(text, end, start);
  }

  /** Works on byte offsets, as the text is stored. */
  method ApplyContentChange(text: string, change: Change) returns (r: string)
    ensures r == Apply(text, change)
  {
    match change {
      case Full(t) => return t;
      case Delta(start, end, t) =>
        var a := PositionToByte(text, start);
        var b := PositionToByte(text, end);
        b := if a < b then b else a;
        ghost var i, j := Index(text, start), Index(text, end);
        if i < j { OffsetRises(text, i, j); } else if j < i { OffsetRises(text, j, i); }
        var from := BoundaryAt(text, a, i);
        var to := BoundaryAt(text, b, if i < j then j else i);
        return text[..from] + t + text[to..];
    }
  }

  function ApplyAll(text: string, changes: seq<Change>): string {
    if changes == [] then text else Apply(ApplyAll(text, changes[..|changes| - 1]), changes[|changes| - 1])
  }

  lemma ApplyLast(text: string, a: seq<Change>, c: Change)
    ensures ApplyAll(text, a + [c]) == Apply(ApplyAll(text, a), c)
  {
    hide Apply;
    assert (a + [c])[..|a|] == a;
  }

  /** Changes apply one after the other, each to what the ones before it left; a full change leaves nothing of them. */
  lemma AppliesInOrder(text: string, a: seq<Change>, b: seq<Change>)
    ensures ApplyAll(text, a + b) == ApplyAll(ApplyAll(text, a), b)
    ensures forall c :: ApplyAll(text, [c]) == Apply(text, c)
    ensures forall t :: ApplyAll(text, a + [Full(t)]) == t
  {
    forall c ensures ApplyAll(text, [c]) == Apply(text, c) {
      ApplyLast(text, [], c);
      assert [] + [c] == [c];
    }
    forall t ensures ApplyAll(text, a + [Full(t)]) == t { ApplyLast(text, a, Full(t)); }
    AppliesTwice(text, a, b);
  }

  lemma {:induction false} AppliesTwice(text: string, a: seq<Change>, b: seq<Change>)
    ensures ApplyAll(text, a + b) == ApplyAll(ApplyAll(text, a), b)
    decreases |b|
  {
    hide Apply;
    if b == [] {
      assert a + b == a;
    } else {
      var n := |b| - 1;
      AppliesTwice(text, a, b[..n]);
      ApplyLast(text, a + b[..n], b[n]);
      assert a + b[..n] + [b[n]] == a + b;
    }
  }

  method ApplyContentChanges(text: string, changes: seq<Change>) returns (r: string)
    ensures r == ApplyAll(text, changes)
  {
    hide Apply;
    r := text;
    for i := 0 to |changes|
      invariant r == ApplyAll(text, changes[..i])
    {
      r := ApplyContentChange(r, changes[i]);
      assert changes[..i + 1][..i] == changes[..i];
    }
    assert changes[..|changes|] == changes;
  }

  // ---- A burst of notifications -------------------------------------------------------------------------

  function TextOf(docs: map<Uri, string>, uri: Uri): string {
    if uri in docs then docs[uri] else ""
  }

  /** The documents after one notification, handled on its own. */
  function AfterOne(docs: map<Uri, string>, n: Notification): map<Uri, string> {
    match n
    case Malformed => docs
    case DidChange(uri, changes) => docs[uri := ApplyAll(TextOf(docs, uri), changes)]
  }

  function AfterAll(docs: map<Uri, string>, burst: seq<Notification>): map<Uri, string> {
    if burst == [] then docs else AfterOne(AfterAll(docs, burst[..|burst| - 1]), burst[|burst| - 1])
  }

  /** All the changes a burst makes to one document, in order. */
  function ChangesTo(burst: seq<Notification>, uri: Uri): seq<Change> {
    if burst == [] then []
    else
      var n := burst[|burst| - 1];
      ChangesTo(burst[..|burst| - 1], uri) + if n.DidChange? && n.uri == uri then n.changes else []
  }

  predicate IsChanged(burst: seq<Notification>, uri: Uri) {
    exists n | n in burst :: n.DidChange? && n.uri == uri
  }

  /** Each document ends with its own changes applied to it, an unknown one starting out empty; the others stay. */
  lemma {:induction false} BurstMeans(docs: map<Uri, string>, burst: seq<Notification>, uri: Uri)
    ensures var after := AfterAll(docs, burst);
            && (uri in after <==> uri in docs || IsChanged(burst, uri))
            && (uri in after ==> after[uri] == ApplyAll(if uri in docs then docs[uri] else "", ChangesTo(burst, uri)))
  {
    if burst != [] {
      var b, n := burst[..|burst| - 1], burst[|burst| - 1];
      BurstMeans(docs, b, uri);
      assert burst == b + [n];
      var before, text := AfterAll(docs, b), if uri in docs then docs[uri] else "";
      AppliesInOrder(text, ChangesTo(b, uri), if n.DidChange? && n.uri == uri then n.changes else []);
      if uri !in before { UnchangedUntil(b, uri); }
      hide ApplyAll;
    }
  }

  lemma {:induction false} UnchangedUntil(burst: seq<Notification>, uri: Uri)
    requires !IsChanged(burst, uri)
    ensures ChangesTo(burst, uri) == []
  {
    if burst != [] {
      var b := burst[..|burst| - 1];
      assert burst == b + [burst[|burst| - 1]];
      UnchangedUntil(b, uri);
    }
  }

  /** Documents in the order in which the burst first changes them. */
  function FirstSeen(burst: seq<Notification>): seq<Uri> {
    if burst == [] then []
    else
      var seen := FirstSeen(burst[..|burst| - 1]);
      var n := burst[|burst| - 1];
      if n.DidChange? && n.uri !in seen then seen + [n.uri] else seen
  }

  lemma {:induction false} FirstSeenOnce(burst: seq<Notification>)
    ensures forall i, j | 0 <= i < j < |FirstSeen(burst)| :: FirstSeen(burst)[i] != FirstSeen(burst)[j]
    ensures forall uri :: uri in FirstSeen(burst) <==> exists n | n in burst :: n.DidChange? && n.uri == uri
  {
    if burst != [] {
      var b, n := burst[..|burst| - 1], burst[|burst| - 1];
      FirstSeenOnce(b);
      assert burst == b + [n];
    }
  }

  /** x is changed at a point of the burst up to which y is not. */
  ghost predicate ChangedBefore(burst: seq<Notification>, x: Uri, y: Uri) {
    exists p: nat :: p < |burst| && burst[p].DidChange? && burst[p].uri == x && !IsChanged(burst[..p + 1], y)
  }

  lemma {:induction false} FirstSeenOrder(burst: seq<Notification>, i: nat, j: nat)
    requires i < j < |FirstSeen(burst)|
    ensures ChangedBefore(burst, FirstSeen(burst)[i], FirstSeen(burst)[j])
  {
    var b, n := burst[..|burst| - 1], burst[|burst| - 1];
    var seen, x, y := FirstSeen(b), FirstSeen(burst)[i], FirstSeen(burst)[j];
    var p: nat;
    if j < |seen| {
      FirstSeenOrder(b, i, j);
      p :| p < |b| && b[p].DidChange? && b[p].uri == x && !IsChanged(b[..p + 1], y);
    } else {
      FirstSeenOnce(b);
      assert x == seen[i] && x in seen && y !in seen;
      var m :| m in b && m.DidChange? && m.uri == x;
      p :| p < |b| && b[p] == m;
    }
    assert b[..p + 1] == burst[..p + 1] && burst[p] == b[p];
    assert forall m | m in b[..p + 1] :: m in b;
  }

  /** The changed documents with their texts, gathered but not yet stored. */
  ghost predicate Gathered(docs: map<Uri, string>, burst: seq<Notification>, order: seq<Uri>, latest: map<Uri, string>) {
    && order == FirstSeen(burst)
    && (forall uri :: uri in latest <==> uri in order)
    && docs + latest == AfterAll(docs, burst)
  }

  class Server {
    var docs: map<Uri, string>
    /** The documents refreshed so far, in order. */
    ghost var refreshed: seq<Uri>

    /** Handles one notification by itself. */
    method HandleChange(n: Notification)
      modifies this
      ensures docs == AfterOne(old(docs), n)
      ensures refreshed == old(refreshed) + if n.DidChange? then [n.uri] else []
    {
      match n {
        case Malformed =>
        case DidChange(uri, changes) =>
          var text := ApplyContentChanges(TextOf(docs, uri), changes);
          Refresh(uri, text);
      }
    }

    /** Stores the text and analyses it; the analysis is not part of this model. */
    method Refresh(uri: Uri, text: string)
      modifies this
      ensures docs == old(docs)[uri := text] && refreshed == old(refreshed) + [uri]
    {
      docs := docs[uri := text];
      refreshed := refreshed + [uri];
    }

    method ApplyNotification(n: Notification, order: seq<Uri>, latest: map<Uri, string>, ghost before: seq<Notification>)
      returns (order2: seq<Uri>, latest2: map<Uri, string>)
      requires Gathered(docs, before, order, latest)
      ensures Gathered(docs, before + [n], order2, latest2)
    {
      hide ApplyAll, AfterAll, FirstSeen;
      order2, latest2 := order, latest;
      OneMore(docs, before, n);
      match n {
        case Malformed =>
        case DidChange(uri, changes) =>
          var text;
          if uri in latest {
            text := latest[uri];
          } else {
            order2 := order + [uri];
            text := TextOf(docs, uri);
          }
          assert text == TextOf(docs + latest, uri);
          text := ApplyContentChanges(text, changes);
          latest2 := latest[uri := text];
          assert docs + latest2 == (docs + latest)[uri := text];
      }
    }

    /**
     * Gathers a whole burst and stores each changed document once, in first-seen order. The documents end up
     * as if every notification had been handled by itself.
     */
    method CoalesceChanges(burst: seq<Notification>)
      modifies this
      ensures docs == AfterAll(old(docs), burst)
      ensures refreshed == old(refreshed) + FirstSeen(burst)
    {
      hide AfterAll, FirstSeen;
      var order: seq<Uri>, latest: map<Uri, string> := [], map[];
      NothingGathered(docs);
      for i := 0 to |burst|
        invariant docs == old(docs) && refreshed == old(refreshed)
        invariant Gathered(docs, burst[..i], order, latest)
      {
        order, latest := ApplyNotification(burst[i], order, latest, burst[..i]);
        assert burst[..i + 1] == burst[..i] + [burst[i]];
      }
      assert burst[..|burst|] == burst;
      FirstSeenOnce(burst);
      StoreAll(order, latest);
    }

    /** Stores each gathered text once. */
    method StoreAll(order: seq<Uri>, gathered: map<Uri, string>)
      requires forall a, b | 0 <= a < b < |order| :: order[a] != order[b]
      requires forall uri :: uri in gathered <==> uri in order
      modifies this
      ensures docs == old(docs) + gathered && refreshed == old(refreshed) + order
    {
      var latest := gathered;
      for i := 0 to |order|
        invariant forall uri :: uri in latest <==> uri in order[i..]
        invariant docs + latest == old(docs) + gathered && refreshed == old(refreshed) + order[..i]
      {
        var uri := order[i];
        assert uri in order[i..];
        var text := latest[uri];
        RestOfOrder(order, i);
        StoreOne(docs, latest, uri);
        latest := latest - {uri};
        Refresh(uri, text);
        assert order[..i + 1] == order[..i] + [uri];
      }
      assert order[..|order|] == order;
      assert latest == map[] && docs + latest == docs;
    }
  }

  lemma StoreOne(docs: map<Uri, string>, latest: map<Uri, string>, uri: Uri)
    requires uri in latest
    ensures docs[uri := latest[uri]] + (latest - {uri}) == docs + latest
  {
  }

  lemma RestOfOrder(order: seq<Uri>, i: nat)
    requires i < |order| && forall a, b | 0 <= a < b < |order| :: order[a] != order[b]
    ensures forall uri :: uri in order[i + 1..] <==> uri in order[i..] && uri != order[i]
  {
    assert order[i..] == [order[i]] + order[i + 1..];
  }

  lemma NothingGathered(docs: map<Uri, string>)
    ensures Gathered(docs, [], [], map[])
  {
    assert docs + map[] == docs;
  }

  lemma OneMore(docs: map<Uri, string>, before: seq<Notification>, n: Notification)
    ensures AfterAll(docs, before + [n]) == AfterOne(AfterAll(docs, before), n)
    ensures FirstSeen(before + [n]) == if n.DidChange? && n.uri !in FirstSeen(before) then FirstSeen(before) + [n.uri] else FirstSeen(before)
  {
    assert (before + [n])[..|before|] == before;
  }
}
