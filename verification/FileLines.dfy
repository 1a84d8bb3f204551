/** Reading lines from a file in chunks, with short reads and seeking back. */
module FileLines {
  import opened Ir
  import opened SysValues

  const NEWLINE: Byte := 10
  const CHUNK: nat := 512

  // ---- Lines, one byte at a time ------------------------------------------------------------------------

  /** The bytes from start to the first newline, inclusive, or to the end. */
  function NextLine(content: seq<Byte>, start: nat): (line: seq<Byte>)
    ensures start + |line| <= |content| || line == []
    ensures line == [] <==> start >= |content|
    decreases |content| - start
  {
    if start >= |content| then []
    else if content[start] == NEWLINE then [NEWLINE]
    else [content[start]] + NextLine(content, start + 1)
  }

  /** What repeated calls return until the end of the file. */
  function Lines(content: seq<Byte>, start: nat): seq<seq<Byte>>
    decreases |content| - start
  {
    if start >= |content| then []
    else
      var line := NextLine(content, start);
      [line] + Lines(content, start + |line|)
  }

  function Concat(ls: seq<seq<Byte>>): seq<Byte> {
    if ls == [] then [] else ls[0] + Concat(ls[1..])
  }

  /** Bytes that end where a line may end: at their only newline, or without one. */
  predicate IsLine(line: seq<Byte>) {
    line != [] && forall i | 0 <= i < |line| - 1 :: line[i] != '\n' as int
  }

  predicate Ended(line: seq<Byte>) { line != [] && line[|line| - 1] == '\n' as int }

  /** Lines, of which only the last may lack its newline. */
  predicate IsLineSplit(ls: seq<seq<Byte>>) {
    (forall i | 0 <= i < |ls| :: IsLine(ls[i])) && (forall i | 0 <= i < |ls| - 1 :: Ended(ls[i]))
  }

  lemma {:induction false} NextLineIsPrefix(content: seq<Byte>, start: nat)
    requires start < |content|
    ensures var line := NextLine(content, start);
            && start + |line| <= |content| && content[start..start + |line|] == line
            && IsLine(line) && (Ended(line) || start + |line| == |content|)
    decreases |content| - start
  {
    if content[start] != NEWLINE && start + 1 < |content| {
      NextLineIsPrefix(content, start + 1);
      var rest := NextLine(content, start + 1);
      assert NextLine(content, start) == [content[start]] + rest;
      LongerLine(content, start, rest);
    } else {
      assert NextLine(content, start) == [content[start]];
    }
  }

  lemma LongerLine(content: seq<Byte>, start: nat, rest: seq<Byte>)
    requires start < |content| && content[start] != NEWLINE && IsLine(rest)
    requires start + 1 + |rest| <= |content| && content[start + 1..start + 1 + |rest|] == rest
    ensures var line := [content[start]] + rest;
            content[start..start + |line|] == line && IsLine(line) && (Ended(rest) ==> Ended(line))
  {
    var line := [content[start]] + rest;
    assert forall i | 0 < i < |line| :: line[i] == rest[i - 1];
  }

  /** Repeated calls split the rest of the file into lines, and lose nothing. */
  lemma {:induction false} LinesPartition(content: seq<Byte>, start: nat)
    requires start <= |content|
    ensures Concat(Lines(content, start)) == content[start..]
    ensures IsLineSplit(Lines(content, start))
    decreases |content| - start
  {
    if start < |content| {
      var line := NextLine(content, start);
      NextLineIsPrefix(content, start);
      LinesPartition(content, start + |line|);
      var rest := Lines(content, start + |line|);
      var all := Lines(content, start);
      assert all == [line] + rest && all[1..] == rest;
      assert content[start..] == content[start..start + |line|] + content[start + |line|..];
      assert forall i | 0 < i < |all| :: all[i] == rest[i - 1];
      assert rest == [] ==> |all| == 1;
      assert start + |line| == |content| ==> rest == [];
    }
  }

  /** There is no other way to split it. */
  lemma {:induction false} OnlySplit(content: seq<Byte>, start: nat, ls: seq<seq<Byte>>)
    requires start <= |content| && IsLineSplit(ls) && Concat(ls) == content[start..]
    ensures ls == Lines(content, start)
    decreases |ls|
  {
    if ls != [] {
      var line := ls[0];
      var end := start + |line|;
      assert IsLine(line);
      assert content[start..] == line + Concat(ls[1..]);
      assert content[start..end] == line && content[end..] == Concat(ls[1..]);
      assert ls[1..] == [] || Ended(line);
      if ls[1..] == [] { assert Concat(ls[1..]) == []; }
      SplitAt(content, start, line);
      assert forall i | 0 <= i < |ls| - 1 :: ls[1..][i] == ls[i + 1];
      assert IsLineSplit(ls[1..]);
      OnlySplit(content, end, ls[1..]);
      assert ls == [line] + ls[1..];
    }
  }

  lemma {:induction false} SplitAt(content: seq<Byte>, start: nat, line: seq<Byte>)
    requires IsLine(line) && start + |line| <= |content| && content[start..start + |line|] == line
    requires Ended(line) || start + |line| == |content|
    ensures NextLine(content, start) == line
    decreases |line|
  {
    assert content[start] == line[0];
    if |line| > 1 {
      assert line[0] != NEWLINE;
      assert content[start + 1..start + |line|] == line[1..];
      SplitAt(content, start + 1, line[1..]);
    }
  }

  // ---- The open file ------------------------------------------------------------------------------------

  datatype LineResult = Line(text: Text) | EndOfFile | InvalidText | IoError

  class OpenFile {
    const content: seq<Byte>
    var pos: nat

    constructor (content: seq<Byte>)
      ensures this.content == content && pos == 0
    {
      this.content := content;
      pos := 0;
    }

    /** One read call: some bytes, but no more than the chunk, unless at the end; or an I/O error. */
    method Read() returns (ok: bool, data: seq<Byte>)
      modifies this
      ensures !ok ==> pos == old(pos)
      ensures ok ==> pos == old(pos) + |data| && |data| <= CHUNK && (data == [] <==> old(pos) >= |content|)
      ensures ok && data != [] ==> pos <= |content| && data == content[old(pos)..pos]
    {
      ok := *;
      data := [];
      if ok && pos < |content| {
        var n: nat :| 1 <= n <= CHUNK && pos + n <= |content|;
        data := content[pos..pos + n];
        pos := pos + n;
      }
    }

    /** Moves back over the last bytes read; may fail. */
    method SeekBack(count: nat) returns (ok: bool)
      requires count <= pos
      modifies this
      ensures pos == if ok then old(pos) - count else old(pos)
    {
      ok := *;
      if ok { pos := pos - count; }
    }

    /** The loop of ReadLine: whatever the reads return, the bytes gathered are the next line. */
    method Gather() returns (ok: bool, result: seq<Byte>)
      modifies this
      ensures ok ==> result == NextLine(content, old(pos)) && pos == old(pos) + |result|
      ensures !ok ==> old(pos) <= pos
    {
      hide NextLine;
      ghost var start := pos;
      result := [];
      while true
        invariant start <= pos == start + |result|
        invariant result + NextLine(content, pos) == NextLine(content, start)
        decreases |content| - pos
      {
        NoLineAtEnd(content, pos);
        var good, data := Read();
        if !good { return false, []; }
        if data == [] { return true, result; }
        ghost var before := pos - |data|;
        var nl := FirstNewline(data);
        if nl.Some? {
          LineInChunk(content, before, data, nl.value);
          result := result + data[..nl.value + 1];
          var leftover := |data| - nl.value - 1;
          if leftover > 0 {
            var sought := SeekBack(leftover);
            if !sought { return false, []; }
          }
          return true, result;
        }
        NoLineInChunk(content, before, data);
        assert (result + data) + NextLine(content, pos) == result + (data + NextLine(content, pos));
        result := result + data;
      }
    }

    /** The file stands right behind the line returned, also when its bytes turn out not to be text. */
    method ReadLine() returns (r: LineResult)
      modifies this
      ensures !r.IoError? ==> pos == old(pos) + |NextLine(content, old(pos))|
      ensures !r.IoError? ==> (r.EndOfFile? <==> old(pos) >= |content|)
      ensures r.Line? ==> r.text == NextLine(content, old(pos))
      ensures r.Line? ==> old(pos) < pos <= |content| && content[old(pos)..pos] == r.text
      ensures r.Line? ==> IsLine(r.text) && (Ended(r.text) || pos == |content|)
      ensures r.Line? || r.InvalidText? ==> (r.Line? <==> IsUtf8(NextLine(content, old(pos))))
      ensures r.IoError? ==> old(pos) <= pos
    {
      NoLineAtEnd(content, pos);
      if pos < |content| { NextLineIsPrefix(content, pos); }
      hide NextLine, IsUtf8;
      var ok, result := Gather();
      if !ok { return IoError; }
      if result == [] { return EndOfFile; }
      if IsUtf8(result) { return Line(result); }
      return InvalidText;
    }
  }

  lemma NoLineAtEnd(content: seq<Byte>, pos: nat)
    ensures NextLine(content, pos) == [] <==> pos >= |content|
  {
  }

  method FirstNewline(data: seq<Byte>) returns (r: Option<nat>)
    ensures r.None? <==> NEWLINE !in data
    ensures r.Some? ==> r.value < |data| && data[r.value] == NEWLINE && NEWLINE !in data[..r.value]
  {
    for i := 0 to |data|
      invariant NEWLINE !in data[..i]
    {
      if data[i] == NEWLINE { return Some(i); }
    }
    assert data[..|data|] == data;
    return None;
  }

  lemma {:induction false} NoLineInChunk(content: seq<Byte>, start: nat, data: seq<Byte>)
    requires start + |data| <= |content| && content[start..start + |data|] == data && NEWLINE !in data
    ensures NextLine(content, start) == data + NextLine(content, start + |data|)
    decreases |data|
  {
    if data != [] {
      assert content[start] == data[0];
      assert content[start + 1..start + |data|] == data[1..];
      NoLineInChunk(content, start + 1, data[1..]);
      assert [data[0]] + data[1..] == data;
    }
  }

  lemma LineInChunk(content: seq<Byte>, start: nat, data: seq<Byte>, nl: nat)
    requires start + |data| <= |content| && content[start..start + |data|] == data
    requires nl < |data| && data[nl] == NEWLINE && NEWLINE !in data[..nl]
    ensures NextLine(content, start) == data[..nl + 1]
  {
    assert content[start..start + nl] == data[..nl];
    NoLineInChunk(content, start, data[..nl]);
    assert content[start + nl] == data[nl];
    assert data[..nl] + [NEWLINE] == data[..nl + 1];
  }
}
