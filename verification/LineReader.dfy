/** Reading lines out of an archive stream that arrives in blocks (_klpm_archive_fgets in util.c). */
module LineReader {
  import opened Text

  // ----- the specification

  ghost predicate NoNewline(s: string) { forall i :: 0 <= i < |s| ==> s[i] != '\n' }

  /** The newline-split: always at least one line. */
  function Split(s: string): (lines: seq<string>)
    ensures lines != []
    decreases |s|
  {
    var k := IndexFrom(s, '\n', 0);
    if k == |s| then [s] else [s[..k]] + Split(s[k + 1..])
  }

  /** A null byte ends a line where no newline follows in its block. */
  function Norm(block: string): (r: string)
    ensures |r| == |block|
  {
    if block == [] then ""
    else [if block[0] == '\0' && IndexFrom(block, '\n', 0) == |block| then '\n' else block[0]] + Norm(block[1..])
  }

  /** The stream as it is read: an empty block counts as a line end. */
  function Stream(blocks: seq<string>): string {
    if blocks == [] then "" else (if blocks[0] == [] then "\n" else Norm(blocks[0])) + Stream(blocks[1..])
  }

  lemma SplitFirst(s: string, rest: string)
    requires NoNewline(s)
    ensures Split(s) == [s] && Split(s + "\n" + rest) == [s] + Split(rest)
  {
    var t := s + "\n" + rest;
    assert t[|s|] == '\n';
    assert forall i :: 0 <= i < |s| ==> t[i] == s[i];
    assert IndexFrom(t, '\n', 0) == |s|;
    assert t[..|s|] == s && t[|s| + 1..] == rest;
  }

  /** The first line is at least as long as any part of it already known. */
  lemma FirstLineLonger(s: string, rest: string)
    requires NoNewline(s)
    ensures |Split(s + rest)[0]| >= |s|
  {
    var t := s + rest;
    assert forall i :: 0 <= i < |s| ==> t[i] == s[i];
    assert IndexFrom(t, '\n', 0) >= |s|;
  }

  /** The part up to a line end, the line end, and what follows. */
  lemma {:induction false} NormAt(rem: string, k: nat)
    requires k < |rem|
    requires k == IndexFrom(rem, '\n', 0) || (IndexFrom(rem, '\n', 0) == |rem| && k == IndexFrom(rem, '\0', 0))
    ensures Norm(rem) == rem[..k] + "\n" + Norm(rem[k + 1..]) && NoNewline(rem[..k])
    decreases k
  {
    if k > 0 {
      var tail := rem[1..];
      NormAt(tail, k - 1);
      assert tail[k..] == rem[k + 1..];
      assert rem[..k] == [rem[0]] + tail[..k - 1];
    }
  }

  lemma {:induction false} NormPlain(rem: string)
    requires IndexFrom(rem, '\n', 0) == |rem| && IndexFrom(rem, '\0', 0) == |rem|
    ensures Norm(rem) == rem && NoNewline(rem)
    decreases |rem|
  {
    if rem != "" {
      NormPlain(rem[1..]);
    }
  }

  /** What is read when a line ends in the block. */
  lemma LineEnds(soFar: string, rem: string, k: nat, rest: string)
    requires NoNewline(soFar) && k < |rem|
    requires k == IndexFrom(rem, '\n', 0) || (IndexFrom(rem, '\n', 0) == |rem| && k == IndexFrom(rem, '\0', 0))
    ensures Split(soFar + (Norm(rem) + rest)) == [soFar + rem[..k]] + Split(Norm(rem[k + 1..]) + rest)
  {
    hide Split, Norm;
    NormAt(rem, k);
    var tail := Norm(rem[k + 1..]) + rest;
    assert soFar + (Norm(rem) + rest) == (soFar + rem[..k]) + "\n" + tail;
    SplitFirst(soFar + rem[..k], tail);
  }

  /** What is read when the block ends first. */
  lemma LineGoesOn(soFar: string, rem: string, rest: string)
    requires NoNewline(soFar) && IndexFrom(rem, '\n', 0) == |rem| && IndexFrom(rem, '\0', 0) == |rem|
    ensures soFar + (Norm(rem) + rest) == (soFar + rem) + (Norm("") + rest) && NoNewline(soFar + rem)
  {
    hide Split, Norm, IndexFrom;
    NormPlain(rem);
    NormPlain("");
    assert soFar + (rem + rest) == (soFar + rem) + ("" + rest);
  }

  /** The known part of a line is within its first line. */
  lemma LongerThan(soFar: string, rem: string, k: nat, rest: string)
    requires NoNewline(soFar) && k <= |rem| && IndexFrom(rem, '\n', 0) >= k
    requires k == |rem| ==> IndexFrom(rem, '\0', 0) == k
    requires k < |rem| ==> k == IndexFrom(rem, '\n', 0) || (IndexFrom(rem, '\n', 0) == |rem| && k == IndexFrom(rem, '\0', 0))
    ensures |Split(soFar + (Norm(rem) + rest))[0]| >= |soFar| + k
  {
    if k < |rem| {
      LineEnds(soFar, rem, k, rest);
    } else {
      LineGoesOn(soFar, rem, rest);
      FirstLineLonger(soFar + rem, Norm("") + rest);
    }
  }

  // ----- the reader

  datatype Status = Ok | Eof | Failed | OutOfRange

  /** What has been copied of the current line. */
  ghost function Copied(line: array?<char>, offset: nat): string
    requires line != null ==> offset <= line.Length
    reads line
  {
    if line == null then "" else line[..offset]
  }

  function FirstBlock(blocks: seq<string>): string { if blocks == [] then "" else blocks[0] }

  /** The first line ends in the block in which it starts. */
  ghost predicate EndsIn(lines: seq<string>, block: string) { block == "" || (lines != [] && |lines[0]| < |block|) }

  class Reader {
    var pending: seq<string>        // the blocks the archive has yet to deliver
    var block: string
    var blockOffset: nat
    var ret: Status
    var line: array?<char>          // the line buffer
    var lineOffset: nat
    var realLineSize: nat
    var maxLineSize: nat

    ghost predicate Valid()
      reads this`block, this`blockOffset, this`ret
    {
      blockOffset <= |block| && (ret == Ok || (ret == Eof && blockOffset == |block|))
    }

    ghost function Rest(): string
      requires Valid()
      reads this`block, this`blockOffset, this`ret, this`pending
    {
      Norm(block[blockOffset..]) + Stream(pending)
    }

    /** The lines still to come. */
    ghost function Lines(): seq<string>
      requires Valid()
      reads this`block, this`blockOffset, this`ret, this`pending
    {
      if ret == Eof then [] else Split(Rest())
    }

    /** The rest of the block at hand, or the next block when that is used up. */
    ghost function Current(): string
      requires Valid()
      reads this`block, this`blockOffset, this`ret, this`pending
    {
      if blockOffset < |block| then block[blockOffset..] else FirstBlock(pending)
    }

    constructor (blocks: seq<string>, maxLineSize: nat)
      ensures Valid() && Lines() == Split(Stream(blocks)) && this.maxLineSize == maxLineSize && line == null
      ensures Current() == FirstBlock(blocks)
    {
      pending, block, blockOffset, ret, line, lineOffset, realLineSize := blocks, "", 0, Ok, null, 0, 0;
      this.maxLineSize := maxLineSize;
      new;
      assert Rest() == Stream(blocks);
    }

    /** The archive's read call: the next block, the end, or an error. */
    method ReadDataBlock()
      modifies this`pending, this`block, this`blockOffset, this`ret
      ensures ret in {Ok, Eof, Failed} && blockOffset == 0
      ensures ret == Ok ==> old(pending) != [] && block == old(pending)[0] && pending == old(pending)[1..]
      ensures ret == Eof ==> old(pending) == [] == pending && block == ""
    {
      var error: bool := *;
      blockOffset := 0;
      if error {
        block, ret := "", Failed;
      } else if pending == [] {
        block, ret := "", Eof;
      } else {
        block, pending, ret := pending[0], pending[1..], Ok;
      }
    }

    /** Makes room for more characters and a terminator after the offset; refuses beyond the
        limit. The first buffer is taken from the block size, without a look at the limit. */
    method Reserve(more: nat) returns (fits: bool)
      requires line != null ==> lineOffset <= line.Length
      requires more <= |block|
      modifies this`line, this`lineOffset
      ensures !fits ==> old(line) != null && old(lineOffset) + more + 1 > maxLineSize
      ensures fits && old(line) != null ==> lineOffset + more + 1 <= maxLineSize
      ensures fits ==> line != null && lineOffset + more + 1 <= line.Length
      ensures fits && old(line) != null ==> lineOffset == old(lineOffset) && line[..lineOffset] == old(line[..lineOffset])
      ensures fits && old(line) == null ==> lineOffset == 0
      ensures line == old(line) || fresh(line)
    {
      fits := true;
      if line == null {
        line := new char[|block| + 1](_ => '\0');
        lineOffset := 0;
        return;
      }
      var needed := lineOffset + more + 1;
      if needed > maxLineSize {
        return false;
      }
      if needed > line.Length {
        var newLine := new char[needed](_ => '\0');
        Copy(newLine, 0, line[..]);
        assert newLine[..line.Length] == line[..];
        assert newLine[..lineOffset] == line[..lineOffset];
        line := newLine;
      }
    }

    method Cleanup()
      modifies this
      ensures Valid() && line == null
    {
      line, lineOffset, realLineSize, maxLineSize := null, 0, 0, 0;
      block, blockOffset, ret := "", 0, Ok;
    }

    /** Fetches a block when the last one is used up. */
    method Refill()
      requires Valid() && ret == Ok && blockOffset == |block|
      modifies this`pending, this`block, this`blockOffset, this`ret
      ensures ret == Failed || Valid()
      ensures ret in {Ok, Eof, Failed} && blockOffset == 0
      ensures ret != Failed ==> block == FirstBlock(old(pending))
      ensures ret == Ok && block != "" ==> Rest() == old(Rest()) && Measure() == old(Measure())
      ensures ret == Ok && block == "" ==> old(Rest()) == "\n" + Rest() && Measure() < old(Measure())
      ensures ret == Eof ==> old(Rest()) == "" && block == "" && Measure() < old(Measure())
    {
      hide Norm;
      StreamStep(pending);
      ghost var blocks := pending;
      ReadDataBlock();
      if ret == Ok {
        assert block[0..] == block;
        assert block == "" ==> Stream(blocks) == "\n" + Stream(pending);
        NormPlain("");
      }
    }

    /** Copies the end of a line out of the block. */
    method EndLine(k: nat) returns (text: string)
      requires Valid() && line != null && blockOffset + k < |block| && lineOffset + k + 1 <= line.Length
      modifies this`blockOffset, this`realLineSize, line
      ensures blockOffset == old(blockOffset) + k + 1
      ensures text == old(Copied(line, lineOffset)) + block[old(blockOffset)..][..k]
    {
      ghost var soFar := Copied(line, lineOffset);
      var rem := block[blockOffset..];
      Copy(line, lineOffset, rem[..k]);
      line[lineOffset + k] := '\0';
      blockOffset := blockOffset + k + 1;
      realLineSize := lineOffset + k;
      text := line[..realLineSize];
      assert text == line[..lineOffset] + line[lineOffset..lineOffset + k];
    }

    /** Copies the rest of the block. */
    method TakeBlock()
      requires Valid() && line != null && lineOffset + (|block| - blockOffset) + 1 <= line.Length
      modifies this`blockOffset, this`lineOffset, line
      ensures blockOffset == |block| && lineOffset == old(lineOffset) + |block| - old(blockOffset)
      ensures lineOffset < line.Length && Copied(line, lineOffset) == old(Copied(line, lineOffset)) + block[old(blockOffset)..]
    {
      ghost var before := lineOffset;
      var rem := block[blockOffset..];
      Copy(line, lineOffset, rem);
      lineOffset := lineOffset + |rem|;
      blockOffset := |block|;
      assert line[..lineOffset] == line[..before] + line[before..lineOffset];
    }

    /** The second half of a pass over the block: copies up to the line end, if there is one. */
    method Scan(ghost lines: seq<string>) returns (done: bool, status: Status, text: string)
      requires Valid() && (line != null ==> lineOffset <= line.Length) && NoNewline(Copied(line, lineOffset))
      requires blockOffset < |block| ==> ret == Ok && lines == Split(Copied(line, lineOffset) + Rest())
      requires blockOffset == |block| ==> block == "" && lines == [Copied(line, lineOffset)] + Lines()
      modifies this, line
      ensures Valid() && (line == old(line) || line == null || fresh(line))
      ensures status in {Ok, OutOfRange} && (status != Ok ==> done)
      ensures status == Ok ==> line != null && lineOffset <= line.Length && maxLineSize == old(maxLineSize)
      ensures status == Ok && done ==> lines == [text] + Lines() && (old(line) != null ==> |text| + 1 <= maxLineSize)
      ensures status == Ok && old(blockOffset) < |old(block)| ==> Measure() < old(Measure())
      ensures status == Ok ==> Measure() <= old(Measure())
      ensures !done ==> old(blockOffset) < |old(block)| && NoNewline(Copied(line, lineOffset))
      ensures !done ==> ret == Ok && lines == Split(Copied(line, lineOffset) + Rest())
      ensures status == OutOfRange ==> lines != [] && |lines[0]| + 1 > old(maxLineSize) && old(line) != null
      ensures old(line) == null && status == Ok ==> (done <==> EndsIn(lines, old(block[blockOffset..])))
    {
      hide Split, Norm, Stream, IndexFrom, NoNewline;
      ghost var soFar := Copied(line, lineOffset);
      var rem := block[blockOffset..];
      var k := IndexFrom(rem, '\n', 0);
      if k == |rem| {
        k := IndexFrom(rem, '\0', 0);
      }
      var fits := Reserve(k);
      if !fits {
        if rem != "" {
          LongerThan(soFar, rem, k, Stream(pending));
        }
        Cleanup();
        return true, OutOfRange, "";
      }
      assert Copied(line, lineOffset) == soFar;
      status := Ok;
      if k < |rem| {
        LineEnds(soFar, rem, k, Stream(pending));
        text := EndLine(k);
        assert block[blockOffset..] == rem[k + 1..];
        done := true;
      } else {
        done, text := GoOn(lines);
      }
    }

    /** Takes the rest of a block in which no line ends; with nothing left to take, the line is
        complete. */
    method GoOn(ghost lines: seq<string>) returns (done: bool, text: string)
      requires Valid() && line != null && lineOffset + (|block| - blockOffset) + 1 <= line.Length
      requires var rem := block[blockOffset..]; IndexFrom(rem, '\n', 0) == |rem| && IndexFrom(rem, '\0', 0) == |rem|
      requires NoNewline(line[..lineOffset])
      requires blockOffset < |block| ==> ret == Ok && lines == Split(line[..lineOffset] + Rest())
      modifies this`blockOffset, this`lineOffset, this`realLineSize, line
      ensures Valid() && lineOffset <= line.Length && (done <==> old(blockOffset) == |block|)
      ensures done ==> text == old(line[..lineOffset]) && blockOffset == |block|
      ensures !done ==> Measure() < old(Measure()) && NoNewline(line[..lineOffset])
      ensures !done ==> lines == Split(line[..lineOffset] + Rest())
      ensures !done ==> lines != [] && |lines[0]| >= old(lineOffset) + |block| - old(blockOffset)
    {
      hide Split, Norm, Stream, IndexFrom, NoNewline;
      ghost var soFar, rem := line[..lineOffset], block[blockOffset..];
      LineGoesOn(soFar, rem, Stream(pending));
      FirstLineLonger(soFar + rem, Norm("") + Stream(pending));
      done := blockOffset == |block|;
      TakeBlock();
      text := "";
      if done {
        text := FinishLine();
      }
    }

    method FinishLine() returns (text: string)
      requires line != null && lineOffset < line.Length
      modifies this`realLineSize, line
      ensures text == old(line[..lineOffset])
    {
      line[lineOffset] := '\0';
      realLineSize := lineOffset;
      text := line[..realLineSize];
    }

    /** _klpm_archive_fgets: returns the next line of the stream; the end only after the last
        line; out of range for a line beyond the limit, except that the very first line is not
        measured when it ends in the block in which it starts. */
    method Fgets() returns (status: Status, text: string)
      requires Valid()
      modifies this, line
      ensures Valid()
      ensures line == old(line) || line == null || fresh(line)
      ensures status == Ok ==> old(Lines()) == [text] + Lines() && maxLineSize == old(maxLineSize) && line != null
      ensures status == Ok ==> Measure() < old(Measure())
      ensures status == Ok && old(line) != null ==> |text| + 1 <= maxLineSize
      ensures status == Eof ==> old(Lines()) == []
      ensures status == OutOfRange ==> old(Lines()) != [] && |old(Lines())[0]| + 1 > old(maxLineSize)
      ensures status == Ok && old(line) == null ==> |text| + 1 <= maxLineSize || old(EndsIn(Lines(), Current()))
      ensures status == OutOfRange && old(line) == null ==> !old(EndsIn(Lines(), Current()))
    {
      hide Split, Norm, Stream, IndexFrom, NoNewline, Measure;
      lineOffset := 0;
      ghost var lines, max, ends := Lines(), maxLineSize, EndsIn(Lines(), Current());
      assert "" + Rest() == Rest();
      EmptyPlain();
      while true
        invariant Valid() && (line == old(line) || fresh(line)) && maxLineSize == max
        invariant line != null ==> lineOffset <= line.Length
        invariant line == null ==> old(line) == null && unchanged(`block, `blockOffset, `pending, `ret)
        invariant old(line) == null && line != null ==> !ends
        invariant old(ret) == Eof ==> ret == Eof
        invariant old(ret) != Eof ==> ret == Ok && lines == Split(Copied(line, lineOffset) + Rest())
        invariant NoNewline(Copied(line, lineOffset))
        invariant Measure() <= old(Measure())
        decreases Measure()
      {
        if |block| == blockOffset {
          if ret == Eof {
            Cleanup();
            return Eof, "";
          }
          ghost var before := Rest();
          Refill();
          if ret == Failed {
            Cleanup();
            return Failed, "";
          }
          if block == "" {
            EmptyBlock(Copied(line, lineOffset), before, if ret == Ok then Rest() else "");
          }
        }
        assert block[0..] == block;
        assert line == null && old(ret) != Eof ==> ends == EndsIn(lines, block[blockOffset..]);
        var done;
        done, status, text := Scan(lines);
        if done {
          return;
        }
      }
    }

    /** What is left to consume: blocks, characters and the end itself. */
    ghost function Measure(): nat
      reads this`block, this`blockOffset, this`ret, this`pending
    {
      |Stream(pending)| + (if blockOffset <= |block| then |block| - blockOffset else 0) + if ret == Eof then 0 else 1
    }
  }

  lemma EmptyPlain()
    ensures NoNewline("")
  {
  }

  /** An empty block or the end of the stream ends the line. */
  lemma EmptyBlock(soFar: string, before: string, rest: string)
    requires NoNewline(soFar)
    ensures before == "\n" + rest ==> Split(soFar + before) == [soFar] + Split(rest)
    ensures before == "" ==> Split(soFar + before) == [soFar]
  {
    SplitFirst(soFar, rest);
    assert soFar + ("\n" + rest) == soFar + "\n" + rest;
    assert soFar + "" == soFar;
  }

  lemma StreamStep(blocks: seq<string>)
    ensures blocks == [] ==> Stream(blocks) == ""
    ensures blocks != [] ==> |Stream(blocks)| == (if blocks[0] == "" then 1 else |blocks[0]|) + |Stream(blocks[1..])|
  {
  }

  /** memcpy into a buffer with room for it. */
  method Copy(a: array<char>, at: nat, s: string)
    requires at + |s| <= a.Length
    modifies a
    ensures a[at..at + |s|] == s
    ensures forall i :: 0 <= i < a.Length && !(at <= i < at + |s|) ==> a[i] == old(a[i])
  {
    for i := 0 to |s|
      invariant forall k :: 0 <= k < i ==> a[at + k] == s[k]
      invariant forall k :: 0 <= k < a.Length && !(at <= k < at + i) ==> a[k] == old(a[k])
    {
      a[at + i] := s[i];
    }
  }

  /** A line within the limit, or the first one if it ends in the first block. */
  ghost predicate Acceptable(blocks: seq<string>, maxLineSize: nat, lines: seq<string>, i: nat)
    requires i < |lines|
  {
    |lines[i]| + 1 <= maxLineSize || (i == 0 && EndsIn(lines, FirstBlock(blocks)))
  }

  /** Reads until a call does not return a line: all lines, if all of them are acceptable, or
      those before the first one that is not. */
  method ReadAll(blocks: seq<string>, maxLineSize: nat) returns (status: Status, lines: seq<string>)
    ensures lines <= Split(Stream(blocks)) && status != Ok
    ensures forall i :: 0 <= i < |lines| ==> Acceptable(blocks, maxLineSize, Split(Stream(blocks)), i)
    ensures status == Eof ==> lines == Split(Stream(blocks))
    ensures status == OutOfRange ==>
              |lines| < |Split(Stream(blocks))| && !Acceptable(blocks, maxLineSize, Split(Stream(blocks)), |lines|)
  {
    hide Split, Stream, Acceptable, EndsIn;
    var r := new Reader(blocks, maxLineSize);
    ghost var all := Split(Stream(blocks));
    lines := [];
    assert [] + all == all;
    while true
      invariant r.Valid() && all == lines + r.Lines() && r.maxLineSize == maxLineSize && fresh(r)
      invariant r.line == null || fresh(r.line)
      invariant if lines == [] then r.line == null && r.Current() == FirstBlock(blocks) else r.line != null
      invariant forall i :: 0 <= i < |lines| ==> Acceptable(blocks, maxLineSize, all, i)
      decreases r.Measure()
    {
      ghost var rest, first, current := r.Lines(), r.line == null, r.Current();
      var text;
      status, text := r.Fgets();
      if status == Ok {
        NextLine(blocks, maxLineSize, all, lines, rest, text, r.Lines(), current, first);
        lines := lines + [text];
      } else {
        if status == OutOfRange { LineRefused(blocks, maxLineSize, all, lines, rest, current, first); }
        return;
      }
    }
  }

  lemma NextLine(blocks: seq<string>, maxLineSize: nat, all: seq<string>, lines: seq<string>, rest: seq<string>,
                 text: string, rest': seq<string>, current: string, first: bool)
    requires all == lines + rest && rest == [text] + rest' && (first <==> lines == [])
    requires first ==> current == FirstBlock(blocks)
    requires |text| + 1 <= maxLineSize || (first && EndsIn(rest, current))
    ensures all == (lines + [text]) + rest' && Acceptable(blocks, maxLineSize, all, |lines|)
  {
    assert lines + ([text] + rest') == (lines + [text]) + rest';
    if first { assert all == rest; }
  }

  lemma LineRefused(blocks: seq<string>, maxLineSize: nat, all: seq<string>, lines: seq<string>, rest: seq<string>,
                    current: string, first: bool)
    requires all == lines + rest && rest != [] && (first <==> lines == []) && (first ==> current == FirstBlock(blocks))
    requires |rest[0]| + 1 > maxLineSize && (first ==> !EndsIn(rest, current))
    ensures |lines| < |all| && !Acceptable(blocks, maxLineSize, all, |lines|)
  {
    assert all[|lines|] == rest[0];
    if first { assert all == rest; }
  }

  /** The limit is not a property of the bytes: the same ones pass in one block and not in two. */
  lemma SameBytesOtherBlocks()
    ensures var one, two := ["abc\n"], ["abc", "\n"];
            && Concat(one) == Concat(two) && Split(Stream(one)) == Split(Stream(two)) == ["abc", ""]
            && (forall i :: 0 <= i < 2 ==> Acceptable(one, 2, ["abc", ""], i))
            && !Acceptable(two, 2, ["abc", ""], 0)
  {
    hide Split, Stream;
    var one, two := ["abc\n"], ["abc", "\n"];
    assert Concat(two) == "abc" + Concat(["\n"]) && Concat(["\n"]) == "\n" + Concat([]);
    assert Concat(one) == "abc\n" + Concat([]);
    assert Whole(one) && Whole(two);
    StreamSame(one);
    StreamSame(two);
    SplitFirst("abc", "");
    SplitFirst("", "");
    assert "abc" + "\n" + "" == "abc\n" && Concat(one) == "abc\n" && Concat(two) == "abc\n";
  }

  // ----- when that is the newline-split of the bytes themselves

  function Concat(blocks: seq<string>): string { if blocks == [] then "" else blocks[0] + Concat(blocks[1..]) }

  /** Every null byte of the block has a newline after it. */
  ghost predicate NullsCovered(block: string) {
    forall i :: 0 <= i < |block| && block[i] == '\0' ==> exists j :: i < j < |block| && block[j] == '\n'
  }

  ghost predicate Whole(blocks: seq<string>) {
    forall i :: 0 <= i < |blocks| ==> blocks[i] != "" && NullsCovered(blocks[i])
  }

  lemma {:induction false} NormSame(block: string)
    ensures Norm(block) == block <==> NullsCovered(block)
    decreases |block|
  {
    if block != "" {
      var tail := block[1..];
      NormSame(tail);
      if NullsCovered(tail) {
        forall i | 0 < i < |block| && block[i] == '\0' ensures exists j :: i < j < |block| && block[j] == '\n' {
          assert tail[i - 1] == '\0';
          var j :| i - 1 < j < |tail| && tail[j] == '\n';
          assert block[j + 1] == '\n';
        }
      }
      if NullsCovered(block) {
        forall i | 0 <= i < |tail| && tail[i] == '\0' ensures exists j :: i < j < |tail| && tail[j] == '\n' {
          assert block[i + 1] == '\0';
          var j :| i + 1 < j < |block| && block[j] == '\n';
          assert tail[j - 1] == '\n';
        }
      }
      NullFirst(block);
    }
  }

  lemma NullFirst(block: string)
    requires block != ""
    ensures block[0] == '\0' ==> (IndexFrom(block, '\n', 0) == |block| <==> !exists j :: 0 < j < |block| && block[j] == '\n')
  {
  }

  lemma {:induction false} StreamSame(blocks: seq<string>)
    ensures |Stream(blocks)| >= |Concat(blocks)|
    ensures Stream(blocks) == Concat(blocks) <==> Whole(blocks)
    decreases |blocks|
  {
    hide Norm, NullsCovered;
    if blocks != [] {
      var b, s, c := blocks[0], Stream(blocks[1..]), Concat(blocks[1..]);
      StreamSame(blocks[1..]);
      NormSame(b);
      WholeStep(blocks);
      if b != "" {
        assert Stream(blocks) == Norm(b) + s && Concat(blocks) == b + c;
        assert Norm(b) + s == b + c ==> (Norm(b) + s)[..|b|] == (b + c)[..|b|] && (Norm(b) + s)[|b|..] == (b + c)[|b|..];
        assert (Norm(b) + s)[..|b|] == Norm(b) && (b + c)[..|b|] == b && (Norm(b) + s)[|b|..] == s && (b + c)[|b|..] == c;
      }
    }
  }

  lemma WholeStep(blocks: seq<string>)
    requires blocks != []
    ensures Whole(blocks) <==> blocks[0] != "" && NullsCovered(blocks[0]) && Whole(blocks[1..])
  {
    hide NullsCovered;
    if Whole(blocks[1..]) && blocks[0] != "" && NullsCovered(blocks[0]) {
      forall i | 0 <= i < |blocks| ensures blocks[i] != "" && NullsCovered(blocks[i]) {
        if i > 0 { assert blocks[i] == blocks[1..][i - 1]; }
      }
    }
  }

  function Join(lines: seq<string>): string
    requires lines != []
  {
    if |lines| == 1 then lines[0] else lines[0] + "\n" + Join(lines[1..])
  }

  lemma {:induction false} JoinSplit(s: string)
    ensures Join(Split(s)) == s
    decreases |s|
  {
    var k := IndexFrom(s, '\n', 0);
    if k < |s| {
      JoinSplit(s[k + 1..]);
      assert Split(s)[1..] == Split(s[k + 1..]);
      assert s == s[..k] + "\n" + s[k + 1..];
    }
  }

  /** The lines read are the newline-split of the bytes exactly when no block is empty and no
      null byte comes after the last newline of its block. */
  lemma LinesOfBytesIff(blocks: seq<string>)
    ensures Split(Stream(blocks)) == Split(Concat(blocks)) <==> Whole(blocks)
  {
    hide Split, Join, Whole;
    StreamSame(blocks);
    JoinSplit(Stream(blocks));
    JoinSplit(Concat(blocks));
  }
}
