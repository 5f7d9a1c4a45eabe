/** The reader's source stream (`ParserStream`): an immutable text, a read
    position with its line and column, and the "start" line and column that
    diagnostics report.

    A stream is either a root, created from the text, or a copy of another
    stream. In the C++ `ParserStream` a copy holds a reference to its parent's index,
    and `consume` writes the copy's index through that reference; on a root
    the reference aliases the root's own index, so `consume` moves nothing.
    Here a copy records the index its consumes have written so far
    (`Child(committed)`), and `Release` writes that value into the parent
    when the copy is dropped. The parent is never used while its copy is
    alive, so writing at the end is the same as writing at every consume. */
module Streams {
  import opened Chars

  datatype Link = Root | Child(committed: nat)

  datatype ParserStream = ParserStream(
    text: string,
    index: nat,
    line: nat,
    column: nat,
    startLine: nat,
    startColumn: nat,
    link: Link)
  {
    /** What every stream built by the operations below satisfies: a
        copy's consumes never write an index ahead of its own. */
    predicate Wf() {
      link.Child? ==> link.committed <= index
    }
  }

  /** A root stream over `text`. */
  function NewStream(text: string): (s: ParserStream)
    ensures s.Wf() && s.link.Root?
    ensures s.text == text && s.index == 0 && s.line == 0 && s.column == 0
    ensures s.startLine == 0 && s.startColumn == 0
  {
    ParserStream(text, 0, 0, 0, 0, 0, Root)
  }

  /** The value that the index `consume` writes to currently holds as far
      as this stream is concerned: the root's own index, or the last index a
      copy committed. */
  function ParentIndex(s: ParserStream): nat {
    match s.link
    case Root => s.index
    case Child(c) => c
  }

  predicate IsFinished(s: ParserStream) {
    s.index >= |s.text|
  }

  /** Characters left before the end of the text. */
  function Remaining(s: ParserStream): nat {
    if s.index <= |s.text| then |s.text| - s.index else 0
  }

  /** The current character; past the end the stream shows a space, so
      the end of input always looks like whitespace. */
  function Peek(s: ParserStream): (c: char)
    ensures IsFinished(s) ==> c == ' ' && IsSpace(c)
    ensures !IsFinished(s) ==> c == s.text[s.index]
  {
    if IsFinished(s) then ' ' else s.text[s.index]
  }

  /** Reads one character, also at the end of input: the index always
      moves by one, a newline starts a new line at column 0, and any other
      character moves one column right. */
  function Read(s: ParserStream): (r: ParserStream)
    ensures r.index == s.index + 1
    ensures Peek(s) == '\n' ==> r.line == s.line + 1 && r.column == 0
    ensures Peek(s) != '\n' ==> r.line == s.line && r.column == s.column + 1
    ensures r.text == s.text && r.link == s.link
    ensures r.startLine == s.startLine && r.startColumn == s.startColumn
    ensures s.Wf() ==> r.Wf()
    ensures !IsFinished(s) ==> Remaining(r) + 1 == Remaining(s)
    ensures IsFinished(s) ==> Remaining(r) == 0
  {
    if Peek(s) == '\n' then s.(index := s.index + 1, line := s.line + 1, column := 0)
    else s.(index := s.index + 1, column := s.column + 1)
  }

  /** The copy constructor: same text and position, start coordinates at
      the parent's current line and column, and a link to the parent's
      index. */
  function Copy(p: ParserStream): (c: ParserStream)
    ensures c.Wf() && c.link.Child?
    ensures c.text == p.text && c.index == p.index
    ensures c.line == p.line && c.column == p.column
    ensures c.startLine == p.line && c.startColumn == p.column
    ensures ParentIndex(c) == p.index
  {
    ParserStream(p.text, p.index, p.line, p.column, p.line, p.column, Child(p.index))
  }

  /** `consume`: commits the index to the parent and moves the start
      coordinates to the current line and column. A root commits to
      itself, so its index does not change. */
  function Consume(s: ParserStream): (r: ParserStream)
    ensures r.text == s.text && r.index == s.index
    ensures r.line == s.line && r.column == s.column
    ensures r.startLine == s.line && r.startColumn == s.column
    ensures r.link.Root? == s.link.Root?
    ensures ParentIndex(r) == s.index
    ensures r.Wf()
  {
    match s.link
    case Root => s.(startLine := s.line, startColumn := s.column)
    case Child(_) => s.(startLine := s.line, startColumn := s.column, link := Child(s.index))
  }

  /** Dropping copy `c` of `p`: the parent's index becomes the last index
      the copy committed; nothing else of the parent changes. */
  function Release(p: ParserStream, c: ParserStream): (r: ParserStream)
    requires c.link.Child?
    ensures r.index == ParentIndex(c)
    ensures r.text == p.text && r.link == p.link
    ensures r.line == p.line && r.column == p.column
    ensures r.startLine == p.startLine && r.startColumn == p.startColumn
  {
    p.(index := c.link.committed)
  }

  /** The start coordinates as `line:column`, both counted from 1. */
  function CoordsToString(s: ParserStream): (r: string)
    ensures var k := |NatToDecimal(s.startLine + 1)|;
      && |r| == k + 1 + |NatToDecimal(s.startColumn + 1)|
      && r[k] == ':'
      && AllDigits(r[..k]) && DecimalValue(r[..k]) == s.startLine + 1
      && AllDigits(r[k + 1..]) && DecimalValue(r[k + 1..]) == s.startColumn + 1
  {
    var a := NatToDecimal(s.startLine + 1);
    var b := NatToDecimal(s.startColumn + 1);
    var r := a + ":" + b;
    assert r[..|a|] == a && r[|a| + 1..] == b;
    r
  }

  /** Diagnostics depend only on the start coordinates. */
  lemma SameStartSameCoords(s: ParserStream, t: ParserStream)
    requires s.startLine == t.startLine && s.startColumn == t.startColumn
    ensures CoordsToString(s) == CoordsToString(t)
  {
  }

  /** The character `Peek` shows at position `i` of `text`. */
  function CharAt(text: string, i: nat): char {
    if i >= |text| then ' ' else text[i]
  }

  /** The line and column a cursor at (`line`, `column`) reaches after
      reading `n` characters from position `i` of `text`. */
  function Walk(text: string, i: nat, n: nat, line: nat, column: nat): (nat, nat)
    decreases n
  {
    if n == 0 then (line, column)
    else if CharAt(text, i) == '\n' then Walk(text, i + 1, n - 1, line + 1, 0)
    else Walk(text, i + 1, n - 1, line, column + 1)
  }

  /** `n` successive reads. */
  function ReadN(s: ParserStream, n: nat): (r: ParserStream)
    ensures r.text == s.text && r.index == s.index + n && r.link == s.link
    ensures r.startLine == s.startLine && r.startColumn == s.startColumn
    ensures s.Wf() ==> r.Wf()
  {
    var lc := Walk(s.text, s.index, n, s.line, s.column);
    s.(index := s.index + n, line := lc.0, column := lc.1)
  }

  /** Reading once and then `n` times is reading `n + 1` times. */
  lemma ReadNShift(s: ParserStream, n: nat)
    ensures ReadN(Read(s), n) == ReadN(s, n + 1)
  {
  }

  /** The cursor after one more character. */
  lemma {:induction false} WalkSnoc(text: string, i: nat, n: nat, line: nat, column: nat)
    ensures var lc := Walk(text, i, n, line, column);
      Walk(text, i, n + 1, line, column)
        == if CharAt(text, i + n) == '\n' then (lc.0 + 1, 0) else (lc.0, lc.1 + 1)
    decreases n
  {
    if n > 0 {
      if CharAt(text, i) == '\n' {
        WalkSnoc(text, i + 1, n - 1, line + 1, 0);
      } else {
        WalkSnoc(text, i + 1, n - 1, line, column + 1);
      }
    }
  }

  /** Two reads. */
  lemma ReadTwice(s: ParserStream)
    ensures Read(Read(s)) == ReadN(s, 2)
  {
    ReadNShift(s, 1);
    ReadNShift(Read(s), 0);
  }

  /** Reading `n` times and then once more is reading `n + 1` times. */
  lemma ReadNSnoc(s: ParserStream, n: nat)
    ensures ReadN(s, n + 1) == Read(ReadN(s, n))
  {
    WalkSnoc(s.text, s.index, n, s.line, s.column);
  }

  /** Walking `n` characters and then `m` more is walking `n + m`. */
  lemma {:induction false} WalkAdd(text: string, i: nat, n: nat, m: nat, line: nat, column: nat)
    ensures var lc := Walk(text, i, n, line, column);
      Walk(text, i, n + m, line, column) == Walk(text, i + n, m, lc.0, lc.1)
    decreases n
  {
    if n > 0 {
      if CharAt(text, i) == '\n' {
        WalkAdd(text, i + 1, n - 1, m, line + 1, 0);
      } else {
        WalkAdd(text, i + 1, n - 1, m, line, column + 1);
      }
    }
  }

  /** Reads compose: `n` reads and then `m` reads are `n + m` reads. */
  lemma ReadNAdd(s: ParserStream, n: nat, m: nat)
    ensures ReadN(ReadN(s, n), m) == ReadN(s, n + m)
  {
    WalkAdd(s.text, s.index, n, m, s.line, s.column);
  }

  /** A consume followed by reads and another consume is just the reads
      and the last consume: the second consume overwrites everything the
      first one set. */
  lemma ConsumeAfterReads(s: ParserStream, n: nat)
    ensures Consume(ReadN(Consume(s), n)) == Consume(ReadN(s, n))
  {
  }

  /** Reads, a consume, two more reads, more reads and a consume: the
      consume in between leaves no trace. */
  lemma ReadsThenSkip(c0: ParserStream, n: nat, m: nat)
    ensures Consume(ReadN(Read(Read(Consume(ReadN(c0, n)))), m)) == Consume(ReadN(c0, n + 2 + m))
  {
    var v := Consume(ReadN(c0, n));
    ReadTwice(v);
    calc {
      Consume(ReadN(ReadN(v, 2), m));
      { ReadNAdd(v, 2, m); }
      Consume(ReadN(v, 2 + m));
      { ConsumeAfterReads(ReadN(c0, n), 2 + m); }
      Consume(ReadN(ReadN(c0, n), 2 + m));
      { ReadNAdd(c0, n, 2 + m); }
      Consume(ReadN(c0, n + 2 + m));
    }
  }

  /** Number of newlines in `str`. */
  function Newlines(str: string): nat {
    if |str| == 0 then 0
    else Newlines(str[..|str| - 1]) + (if str[|str| - 1] == '\n' then 1 else 0)
  }

  /** Characters after the last newline of `str`, or all of `str`. */
  function LastLineLength(str: string): nat {
    if |str| == 0 || str[|str| - 1] == '\n' then 0 else LastLineLength(str[..|str| - 1]) + 1
  }

  /** Where a cursor at (`line`, `column`) stands after passing over `str`. */
  function LineAfter(line: nat, str: string): nat {
    line + Newlines(str)
  }

  function ColumnAfter(column: nat, str: string): nat {
    if Newlines(str) == 0 then column + |str| else LastLineLength(str)
  }

  /** Reading in-bounds characters tracks lines and columns: after `n`
      reads the stream stands where a cursor passing over those `n`
      characters stands. */
  lemma {:induction false} ReadsTrackCoords(s: ParserStream, n: nat)
    requires s.index + n <= |s.text|
    ensures ReadN(s, n).line == LineAfter(s.line, s.text[s.index..s.index + n])
    ensures ReadN(s, n).column == ColumnAfter(s.column, s.text[s.index..s.index + n])
  {
    if n > 0 {
      ReadsTrackCoords(s, n - 1);
      ReadNSnoc(s, n - 1);
      var str := s.text[s.index..s.index + n];
      assert str[..|str| - 1] == s.text[s.index..s.index + n - 1];
      assert str[|str| - 1] == Peek(ReadN(s, n - 1));
      if str[|str| - 1] != '\n' && Newlines(str) != 0 {
        assert LastLineLength(str) == LastLineLength(str[..|str| - 1]) + 1;
      }
    }
  }

  /** Reads on a copy are invisible to the parent: dropping a copy that
      never consumed restores the parent exactly. */
  lemma {:induction false} CopyReadsInvisible(p: ParserStream, n: nat)
    ensures ReadN(Copy(p), n).link.Child?
    ensures Release(p, ReadN(Copy(p), n)) == p
  {
  }

  /** A copy's consume moves the parent's index and nothing else: the
      parent's line, column and start coordinates stay where they were. */
  lemma ConsumeCommitsIndexOnly(p: ParserStream, n: nat)
    ensures var c := ReadN(Copy(p), n);
      Release(p, Consume(c)) == p.(index := p.index + n)
  {
  }
}
