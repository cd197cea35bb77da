/** Line-block editing in the note editor: the indent and outdent buttons
    rewrite every line touched by the selection, and the Tab key replaces
    the selection with two spaces (app.js:72-89, 180, 183, 189-198). */
module LineEdit {
  import opened Text

  /** A span `start..end` of the buffer. */
  datatype Block = Block(start: nat, end: nat)

  /** An editor state handed back to the text area: the buffer and the
      selection offsets. */
  datatype Edit = Edit(text: string, selStart: nat, selEnd: nat)

  // ---------------------------------------------------------------------
  // Finding the block of whole lines that a selection touches

  /** The block as app.js:76-78 computes it: one past the last line feed at
      or before `max(start - 1, 0)`, up to the first line feed at or after
      `end` (or the end of the text). */
  function SelectBlock(text: string, start: int, end: int): (b: Block)
    ensures b.start <= |text| && b.end <= |text|
    ensures b.start == 0 || text[b.start - 1] == '\n'
    ensures b.end == |text| || text[b.end] == '\n'
  {
    var blockStart := LastIndexOf(text, '\n', if start - 1 > 0 then start - 1 else 0) + 1;
    var blockEndIndex := IndexOf(text, '\n', end);
    Block(blockStart, if blockEndIndex == -1 then |text| else blockEndIndex)
  }

  /** `b` covers exactly the whole lines that the selection `start..end`
      touches: it starts at the beginning of the line holding `start` and
      ends at the line feed (or end of text) closing the line holding `end`. */
  predicate IsLineBlock(text: string, start: int, end: int, b: Block) {
    && b.start <= start <= end <= b.end <= |text|
    && (b.start == 0 || text[b.start - 1] == '\n')
    && (b.end == |text| || text[b.end] == '\n')
    && (forall k :: b.start <= k < start ==> text[k] != '\n')
    && (forall k :: end <= k < b.end ==> text[k] != '\n')
  }

  /** At most one block satisfies `IsLineBlock` for a selection. */
  lemma LineBlockUnique(text: string, start: int, end: int, b1: Block, b2: Block)
    requires IsLineBlock(text, start, end, b1) && IsLineBlock(text, start, end, b2)
    ensures b1 == b2
  {
  }

  /** The computed block is the line block of the selection exactly when
      the selection does not start at offset 0 of a text whose first
      character is a line feed. */
  lemma SelectBlockIsLineBlock(text: string, start: int, end: int)
    requires 0 <= start <= end <= |text|
    ensures IsLineBlock(text, start, end, SelectBlock(text, start, end))
            <==> !(start == 0 && |text| > 0 && text[0] == '\n')
  {
  }

  /** The block computation with the `start == 0` case split off, which is
      what the line-block rule intends. */
  function SelectBlockFixed(text: string, start: int, end: int): (b: Block)
    requires 0 <= start <= end <= |text|
    ensures IsLineBlock(text, start, end, b)
  {
    var blockStart := if start == 0 then 0 else LastIndexOf(text, '\n', start - 1) + 1;
    var blockEndIndex := IndexOf(text, '\n', end);
    Block(blockStart, if blockEndIndex == -1 then |text| else blockEndIndex)
  }

  /** Outside the leading-line-feed case the written and the intended block
      computations agree. */
  lemma SelectBlockAgrees(text: string, start: int, end: int)
    requires 0 <= start <= end <= |text|
    requires !(start == 0 && |text| > 0 && text[0] == '\n')
    ensures SelectBlock(text, start, end) == SelectBlockFixed(text, start, end)
  {
    SelectBlockIsLineBlock(text, start, end);
    LineBlockUnique(text, start, end, SelectBlock(text, start, end), SelectBlockFixed(text, start, end));
  }

  // ---------------------------------------------------------------------
  // Per-line transforms

  /** The indent button's transform (app.js:180). */
  function IndentLine(line: string): (r: string)
    ensures |r| == |line| + 2 && r[..2] == "  " && r[2..] == line
  {
    "  " + line
  }

  /** The outdent button's transform, `line.replace(/^ {1,2}/, "")`
      (app.js:183): the greedy pattern removes two leading spaces when there
      are two, one when there is one, and nothing otherwise. */
  function OutdentLine(line: string): (r: string)
    ensures |line| - 2 <= |r| <= |line|
    ensures r == line[|line| - |r|..]
    ensures forall i :: 0 <= i < |line| - |r| ==> line[i] == ' '
    ensures |r| > |line| - 2 ==> r == [] || r[0] != ' '
  {
    if |line| >= 2 && line[0] == ' ' && line[1] == ' ' then line[2..]
    else if |line| >= 1 && line[0] == ' ' then line[1..]
    else line
  }

  /** Outdent undoes indent on every line. */
  lemma OutdentIndentLine(line: string)
    ensures OutdentLine(IndentLine(line)) == line
  {
  }

  /** `lines.map(transform)`. */
  function MapLines(f: string -> string, ls: seq<string>): (r: seq<string>)
    ensures |r| == |ls| && forall i :: 0 <= i < |ls| ==> r[i] == f(ls[i])
  {
    seq(|ls|, i requires 0 <= i < |ls| => f(ls[i]))
  }

  /** `block.split("\n").map(transform).join("\n")` (app.js:83). The
      identity transform leaves the block alone, and a transform that keeps
      lines free of line feeds keeps the number of lines. */
  function TransformBlock(block: string, f: string -> string): (r: string)
    ensures (forall l :: f(l) == l) ==> r == block
    ensures (forall l :: '\n' !in l ==> '\n' !in f(l)) ==> CountChar(r, '\n') == CountChar(block, '\n')
  {
    var ls := SplitLines(block);
    var ms := MapLines(f, ls);
    JoinSplit(block);
    assert (forall l :: f(l) == l) ==> ms == ls;
    JoinLines(ms)
  }

  /** Indent gives every line of the block, empty lines included, exactly
      two leading spaces, and grows the block by two characters per line. */
  lemma {:induction false} IndentBlock(block: string)
    ensures SplitLines(TransformBlock(block, IndentLine)) == MapLines(IndentLine, SplitLines(block))
    ensures |TransformBlock(block, IndentLine)| == |block| + 2 * (CountChar(block, '\n') + 1)
  {
    var ls := SplitLines(block);
    var ms := MapLines(IndentLine, ls);
    forall i | 0 <= i < |ms| ensures '\n' !in ms[i] {
      assert ms[i] == "  " + ls[i];
    }
    SplitJoin(ms);
    IndentedLength(ls);
    JoinSplit(block);
  }

  lemma {:induction false} IndentedLength(ls: seq<string>)
    requires |ls| >= 1
    ensures |JoinLines(MapLines(IndentLine, ls))| == |JoinLines(ls)| + 2 * |ls|
  {
    var ms := MapLines(IndentLine, ls);
    if |ls| > 1 {
      IndentedLength(ls[1..]);
      assert ms[1..] == MapLines(IndentLine, ls[1..]);
      assert JoinLines(ms) == ms[0] + "\n" + JoinLines(ms[1..]);
      assert JoinLines(ls) == ls[0] + "\n" + JoinLines(ls[1..]);
    } else {
      assert JoinLines(ms) == ms[0] == "  " + ls[0];
    }
  }

  /** Outdenting an indented block gives the block back. */
  lemma OutdentIndentBlock(block: string)
    ensures TransformBlock(TransformBlock(block, IndentLine), OutdentLine) == block
  {
    var ls := SplitLines(block);
    IndentBlock(block);
    var back := MapLines(OutdentLine, MapLines(IndentLine, ls));
    assert back == ls by {
      forall i | 0 <= i < |ls| ensures back[i] == ls[i] {
        OutdentIndentLine(ls[i]);
      }
    }
    JoinSplit(block);
  }

  // ---------------------------------------------------------------------
  // Applying a transform to the selected lines

  /** The untouched text before the block, the transformed block and the
      untouched text after it, with the whole new block selected
      (app.js:80-87). */
  function Splice(text: string, b: Block, f: string -> string): (e: Edit)
    requires b.start <= |text| && b.end <= |text|
    ensures e.selStart == b.start <= e.selEnd <= |e.text|
    ensures e.text[..b.start] == text[..b.start]
    ensures e.text[e.selEnd..] == text[b.end..]
  {
    var before := Slice(text, 0, b.start);
    var selectedBlock := Slice(text, b.start, b.end);
    var after := Slice(text, b.end, |text|);
    var updatedBlock := TransformBlock(selectedBlock, f);
    var t := before + updatedBlock + after;
    assert t[..|before|] == before;
    assert t[|before| + |updatedBlock|..] == after;
    Edit(t, b.start, b.start + |updatedBlock|)
  }

  /** `applyToSelectedLines(transform)` as written (app.js:72-89): the new
      selection lies inside the new text, and the text before it is the
      old text's. */
  function EditLines(text: string, start: int, end: int, f: string -> string): (e: Edit)
    ensures 0 <= e.selStart <= e.selEnd <= |e.text|
    ensures e.selStart <= |text| && e.text[..e.selStart] == text[..e.selStart]
  {
    Splice(text, SelectBlock(text, start, end), f)
  }

  /** The same with the intended block computation. */
  function EditLinesFixed(text: string, start: int, end: int, f: string -> string): (e: Edit)
    requires 0 <= start <= end <= |text|
  {
    Splice(text, SelectBlockFixed(text, start, end), f)
  }

  /** Splicing the block that sits between `p` and `q`. */
  lemma SpliceAt(p: string, u: string, q: string, f: string -> string)
    ensures Splice(p + u + q, Block(|p|, |p| + |u|), f)
         == Edit(p + TransformBlock(u, f) + q, |p|, |p| + |TransformBlock(u, f)|)
  {
    var t := p + u + q;
    assert t[0..|p|] == p;
    assert t[|p|..|p| + |u|] == u;
    assert t[|p| + |u|..|t|] == q;
  }

  /** Splicing at a line block: text outside the block is unchanged and the
      new selection spans exactly the transformed block. */
  lemma SpliceFrame(text: string, start: int, end: int, b: Block, f: string -> string)
    requires IsLineBlock(text, start, end, b)
    ensures var e := Splice(text, b, f);
      var u := TransformBlock(text[b.start..b.end], f);
      && e.text == text[..b.start] + u + text[b.end..]
      && e.selStart == b.start
      && e.selEnd == b.start + |u|
      && e.text[..e.selStart] == text[..b.start]
      && e.text[e.selStart..e.selEnd] == u
      && e.text[e.selEnd..] == text[b.end..]
  {
    var p, m, q := text[..b.start], text[b.start..b.end], text[b.end..];
    SliceThreeLeft(text, b.start, b.end);
    SpliceAt(p, m, q, f);
    assert b == Block(|p|, |p| + |m|);
    ThreeParts(p, TransformBlock(m, f), q);
  }

  lemma ThreeParts(p: string, u: string, q: string)
    ensures (p + u + q)[..|p|] == p
    ensures (p + u + q)[|p|..|p| + |u|] == u
    ensures (p + u + q)[|p| + |u|..] == q
  {
  }

  /** The frame and selection of `applyToSelectedLines`, whenever the
      selection does not start at offset 0 before a leading line feed. */
  lemma EditLinesFrame(text: string, start: int, end: int, f: string -> string)
    requires 0 <= start <= end <= |text|
    requires !(start == 0 && |text| > 0 && text[0] == '\n')
    ensures var b := SelectBlock(text, start, end);
      var e := EditLines(text, start, end, f);
      && IsLineBlock(text, start, end, b)
      && e.text == text[..b.start] + TransformBlock(text[b.start..b.end], f) + text[b.end..]
      && e.selStart == b.start
      && e.selEnd == b.start + |TransformBlock(text[b.start..b.end], f)|
  {
    SelectBlockIsLineBlock(text, start, end);
    SpliceFrame(text, start, end, SelectBlock(text, start, end), f);
  }

  /** An indented block begins with a space. */
  lemma IndentedStartsWithSpace(block: string)
    ensures var u := TransformBlock(block, IndentLine); |u| >= 2 && u[0] == ' '
  {
    var ms := MapLines(IndentLine, SplitLines(block));
    JoinLinesHead(ms);
    assert ms[0] == "  " + SplitLines(block)[0];
    assert JoinLines(ms)[..|ms[0]|][0] == ' ';
  }

  /** A join begins with its first piece. */
  lemma {:induction false} JoinLinesHead(ls: seq<string>)
    requires |ls| >= 1
    ensures |JoinLines(ls)| >= |ls[0]| && JoinLines(ls)[..|ls[0]|] == ls[0]
  {
    if |ls| > 1 {
      assert JoinLines(ls) == ls[0] + ("\n" + JoinLines(ls[1..]));
    }
  }

  /** The text between a line end (or the text's start) and a line feed
      (or the text's end), selected in full, is its own line block. */
  lemma BlockBetween(p: string, u: string, q: string)
    requires p == [] || p[|p| - 1] == '\n'
    requires q == [] || q[0] == '\n'
    ensures IsLineBlock(p + u + q, |p|, |p| + |u|, Block(|p|, |p| + |u|))
  {
    var t := p + u + q;
    assert p != [] ==> t[|p| - 1] == p[|p| - 1];
    assert q != [] ==> t[|p| + |u|] == q[0];
  }

  /** Such a block, when it starts with a space, is found again by the
      written block computation. */
  lemma ReselectWritten(p: string, u: string, q: string)
    requires |u| >= 1 && u[0] == ' '
    requires p == [] || p[|p| - 1] == '\n'
    requires q == [] || q[0] == '\n'
    ensures SelectBlock(p + u + q, |p|, |p| + |u|) == Block(|p|, |p| + |u|)
  {
    var t := p + u + q;
    BlockBetween(p, u, q);
    assert t[|p|] == u[0];
    SelectBlockIsLineBlock(t, |p|, |p| + |u|);
    LineBlockUnique(t, |p|, |p| + |u|, Block(|p|, |p| + |u|), SelectBlock(t, |p|, |p| + |u|));
  }

  /** ... and by the intended one, whatever it starts with. */
  lemma ReselectFixed(p: string, u: string, q: string)
    requires p == [] || p[|p| - 1] == '\n'
    requires q == [] || q[0] == '\n'
    ensures SelectBlockFixed(p + u + q, |p|, |p| + |u|) == Block(|p|, |p| + |u|)
  {
    var t := p + u + q;
    BlockBetween(p, u, q);
    LineBlockUnique(t, |p|, |p| + |u|, Block(|p|, |p| + |u|), SelectBlockFixed(t, |p|, |p| + |u|));
  }

  /** Outdent right after indent restores the buffer and reselects the
      original block, whenever the written block computation is right:
      for every selection that does not start at 0 on a buffer starting
      with a line feed. */
  lemma IndentThenOutdent(text: string, start: int, end: int)
    requires 0 <= start <= end <= |text|
    requires !(start == 0 && |text| > 0 && text[0] == '\n')
    ensures var b := SelectBlock(text, start, end);
      var e1 := EditLines(text, start, end, IndentLine);
      var e2 := EditLines(e1.text, e1.selStart, e1.selEnd, OutdentLine);
      e2 == Edit(text, b.start, b.end)
  {
    var b := SelectBlock(text, start, end);
    SelectBlockIsLineBlock(text, start, end);
    RoundTripWritten(text, start, end, b);
  }

  /** The same round trip for the intended block computation, with no
      restriction on the selection. */
  lemma IndentThenOutdentFixed(text: string, start: int, end: int)
    requires 0 <= start <= end <= |text|
    ensures var b := SelectBlockFixed(text, start, end);
      var e1 := EditLinesFixed(text, start, end, IndentLine);
      var e2 := EditLinesFixed(e1.text, e1.selStart, e1.selEnd, OutdentLine);
      e2 == Edit(text, b.start, b.end)
  {
    var b := SelectBlockFixed(text, start, end);
    RoundTripFixed(text, start, end, b);
  }

  /** Indenting the line block `b` gives the same text with the block
      replaced by its indented form, selected. */
  lemma IndentAt(text: string, start: int, end: int, b: Block)
    requires IsLineBlock(text, start, end, b)
    ensures var p, m, q := text[..b.start], text[b.start..b.end], text[b.end..];
      && text == p + m + q
      && Splice(text, b, IndentLine) == Edit(p + TransformBlock(m, IndentLine) + q, |p|, |p| + |TransformBlock(m, IndentLine)|)
      && (p == [] || p[|p| - 1] == '\n')
      && (q == [] || q[0] == '\n')
  {
    var p, m, q := text[..b.start], text[b.start..b.end], text[b.end..];
    SliceThreeLeft(text, b.start, b.end);
    SpliceAt(p, m, q, IndentLine);
    assert b == Block(|p|, |p| + |m|);
    assert p != [] ==> p[|p| - 1] == text[b.start - 1];
    assert q != [] ==> q[0] == text[b.end];
  }

  lemma RoundTripWritten(text: string, start: int, end: int, b: Block)
    requires IsLineBlock(text, start, end, b)
    ensures var e1 := Splice(text, b, IndentLine);
      && 0 <= e1.selStart <= e1.selEnd <= |e1.text|
      && Splice(e1.text, SelectBlock(e1.text, e1.selStart, e1.selEnd), OutdentLine) == Edit(text, b.start, b.end)
  {
    IndentAt(text, start, end, b);
    var p, m, q := text[..b.start], text[b.start..b.end], text[b.end..];
    var e1 := Splice(text, b, IndentLine);
    RoundTripPartsWritten(p, m, q, e1);
    assert |p| == b.start && |p| + |m| == b.end;
  }

  lemma RoundTripFixed(text: string, start: int, end: int, b: Block)
    requires IsLineBlock(text, start, end, b)
    ensures var e1 := Splice(text, b, IndentLine);
      && 0 <= e1.selStart <= e1.selEnd <= |e1.text|
      && Splice(e1.text, SelectBlockFixed(e1.text, e1.selStart, e1.selEnd), OutdentLine) == Edit(text, b.start, b.end)
  {
    IndentAt(text, start, end, b);
    var p, m, q := text[..b.start], text[b.start..b.end], text[b.end..];
    var e1 := Splice(text, b, IndentLine);
    RoundTripPartsFixed(p, m, q, e1);
    assert |p| == b.start && |p| + |m| == b.end;
  }

  /** The round trip on a buffer cut into the lines before, the block
      and the lines after, with the reselection written in the source. */
  lemma RoundTripPartsWritten(p: string, m: string, q: string, e1: Edit)
    requires p == [] || p[|p| - 1] == '\n'
    requires q == [] || q[0] == '\n'
    requires e1 == Edit(p + TransformBlock(m, IndentLine) + q, |p|, |p| + |TransformBlock(m, IndentLine)|)
    ensures 0 <= e1.selStart <= e1.selEnd <= |e1.text|
    ensures Splice(e1.text, SelectBlock(e1.text, e1.selStart, e1.selEnd), OutdentLine) == Edit(p + m + q, |p|, |p| + |m|)
  {
    var u := TransformBlock(m, IndentLine);
    IndentedStartsWithSpace(m);
    ReselectWritten(p, u, q);
    var nb := Block(|p|, |p| + |u|);
    assert e1.text == p + u + q && e1.selStart == |p| && e1.selEnd == nb.end;
    assert SelectBlock(e1.text, e1.selStart, e1.selEnd) == nb;
    OutdentIndentedAt(p, m, q);
    assert Splice(p + u + q, nb, OutdentLine) == Edit(p + m + q, |p|, |p| + |m|);
  }

  /** As `RoundTripPartsWritten`, with the corrected reselection. */
  lemma RoundTripPartsFixed(p: string, m: string, q: string, e1: Edit)
    requires p == [] || p[|p| - 1] == '\n'
    requires q == [] || q[0] == '\n'
    requires e1 == Edit(p + TransformBlock(m, IndentLine) + q, |p|, |p| + |TransformBlock(m, IndentLine)|)
    ensures 0 <= e1.selStart <= e1.selEnd <= |e1.text|
    ensures Splice(e1.text, SelectBlockFixed(e1.text, e1.selStart, e1.selEnd), OutdentLine) == Edit(p + m + q, |p|, |p| + |m|)
  {
    var u := TransformBlock(m, IndentLine);
    ReselectFixed(p, u, q);
    var nb := Block(|p|, |p| + |u|);
    assert e1.text == p + u + q && e1.selStart == |p| && e1.selEnd == nb.end;
    assert SelectBlockFixed(e1.text, e1.selStart, e1.selEnd) == nb;
    OutdentIndentedAt(p, m, q);
    assert Splice(p + u + q, nb, OutdentLine) == Edit(p + m + q, |p|, |p| + |m|);
  }

  /** Outdenting the indented block between `p` and `q` restores `p + m + q`. */
  lemma OutdentIndentedAt(p: string, m: string, q: string)
    ensures var u := TransformBlock(m, IndentLine);
      Splice(p + u + q, Block(|p|, |p| + |u|), OutdentLine) == Edit(p + m + q, |p|, |p| + |m|)
  {
    SpliceAt(p, TransformBlock(m, IndentLine), q, OutdentLine);
    OutdentIndentBlock(m);
  }

  lemma SliceThreeLeft<T>(s: seq<T>, a: nat, c: nat)
    requires a <= c <= |s|
    ensures s == s[..a] + s[a..c] + s[c..]
  {
    assert s[..a] + s[a..c] == s[..c];
    assert s[..c] + s[c..] == s;
  }


  // ---------------------------------------------------------------------
  // Worked cases

  /** `applyToSelectedLines` once its block and transformed block are
      known. The worked cases below compute those separately, because the
      solver unfolds every function applied to a literal. */
  lemma EditLinesVia(text: string, start: int, end: int, f: string -> string, b: Block, u: string)
    requires SelectBlock(text, start, end) == b
    requires TransformBlock(Slice(text, b.start, b.end), f) == u
    ensures EditLines(text, start, end, f)
         == Edit(Slice(text, 0, b.start) + u + Slice(text, b.end, |text|), b.start, b.start + |u|)
  {
  }

  lemma IndentExampleBlock()
    ensures SelectBlock("abc\ndef", 1, 1) == Block(0, 3)
    ensures Slice("abc\ndef", 0, 0) == [] && Slice("abc\ndef", 0, 3) == "abc"
    ensures Slice("abc\ndef", 3, 7) == "\ndef"
  {
    var t := "abc\ndef";
    assert LastIndexOf(t, '\n', 0) == -1;
    assert IndexOf(t, '\n', 1) == 3 by {
      assert t[1] != '\n' && t[2] != '\n' && t[3] == '\n';
    }
  }

  lemma IndentExampleLines()
    ensures TransformBlock("abc", IndentLine) == "  abc"
  {
    assert SplitLines("abc") == ["abc"] by { SplitJoin(["abc"]); }
    assert IndentLine("abc") == "  abc";
    assert MapLines(IndentLine, ["abc"]) == ["  abc"];
    assert JoinLines(["  abc"]) == "  abc";
  }

  /** Indent with the caret inside the first line of two. */
  lemma IndentExample()
    ensures EditLines("abc\ndef", 1, 1, IndentLine) == Edit("  abc\ndef", 0, 5)
  {
    IndentExampleBlock();
    IndentExampleLines();
    EditLinesVia("abc\ndef", 1, 1, IndentLine, Block(0, 3), "  abc");
  }

  lemma OutdentExampleBlock()
    ensures SelectBlock(" a\n  b", 0, 6) == Block(0, 6)
    ensures Slice(" a\n  b", 0, 0) == [] && Slice(" a\n  b", 0, 6) == " a\n  b"
    ensures Slice(" a\n  b", 6, 6) == []
  {
    var t := " a\n  b";
    assert LastIndexOf(t, '\n', 0) == -1;
    assert IndexOf(t, '\n', 6) == -1;
  }

  lemma OutdentExampleSplit()
    ensures SplitLines(" a\n  b") == [" a", "  b"]
  {
    assert JoinLines([" a", "  b"]) == " a\n  b";
    SplitJoin([" a", "  b"]);
  }

  lemma OutdentExampleLines()
    ensures TransformBlock(" a\n  b", OutdentLine) == "a\nb"
  {
    OutdentExampleSplit();
    OutdentExampleMap();
    OutdentExampleJoin();
    TransformBlockVia(" a\n  b", OutdentLine, [" a", "  b"], ["a", "b"], "a\nb");
  }

  lemma OutdentExampleJoin()
    ensures JoinLines(["a", "b"]) == "a\nb"
  {
  }

  /** `TransformBlock` once its split, map and join are known. */
  lemma TransformBlockVia(block: string, f: string -> string, ls: seq<string>, ms: seq<string>, r: string)
    requires SplitLines(block) == ls && MapLines(f, ls) == ms && JoinLines(ms) == r
    ensures TransformBlock(block, f) == r
  {
  }

  lemma OutdentExampleMap()
    ensures MapLines(OutdentLine, [" a", "  b"]) == ["a", "b"]
  {
    assert OutdentLine(" a") == "a";
    assert OutdentLine("  b") == "b";
  }

  /** Outdent over two lines with one and two leading spaces. */
  lemma OutdentExample()
    ensures EditLines(" a\n  b", 0, 6, OutdentLine) == Edit("a\nb", 0, 3)
  {
    OutdentExampleBlock();
    OutdentExampleLines();
    EditLinesVia(" a\n  b", 0, 6, OutdentLine, Block(0, 6), "a\nb");
  }

  lemma LeadingNewlineIndentBlock()
    ensures SelectBlock("\nabc", 0, 0) == Block(1, 0)
    ensures Slice("\nabc", 0, 1) == "\n" && Slice("\nabc", 1, 0) == []
    ensures Slice("\nabc", 0, 4) == "\nabc"
  {
    var t := "\nabc";
    assert LastIndexOf(t, '\n', 0) == 0;
    assert IndexOf(t, '\n', 0) == 0;
  }

  lemma LeadingNewlineIndentLines()
    ensures TransformBlock([], IndentLine) == "  "
  {
    assert SplitLines([]) == [[]];
    assert IndentLine([]) == "  ";
    assert MapLines(IndentLine, [[]]) == ["  "];
  }

  lemma LeadingNewlineOutdentBlock()
    ensures SelectBlock("\n  \nabc", 1, 3) == Block(1, 3)
    ensures Slice("\n  \nabc", 0, 1) == "\n" && Slice("\n  \nabc", 1, 3) == "  "
    ensures Slice("\n  \nabc", 3, 7) == "\nabc"
  {
    var t := "\n  \nabc";
    assert LastIndexOf(t, '\n', 0) == 0;
    assert IndexOf(t, '\n', 3) == 3 by {
      assert t[3] == '\n';
    }
  }

  lemma LeadingNewlineOutdentLines()
    ensures TransformBlock("  ", OutdentLine) == []
  {
    assert SplitLines("  ") == ["  "] by {
      assert JoinLines(["  "]) == "  ";
      SplitJoin(["  "]);
    }
    assert MapLines(OutdentLine, ["  "]) == [[]];
  }

  /** With the caret at offset 0 of a text whose first character is a line
      feed, the written block computation yields start 1 and end 0: indent
      then inserts a spurious line and duplicates the line feed, and
      outdent afterwards does not give the text back. */
  lemma IndentDuplicatesLeadingNewline()
    ensures SelectBlock("\nabc", 0, 0) == Block(1, 0)
    ensures EditLines("\nabc", 0, 0, IndentLine) == Edit("\n  \nabc", 1, 3)
    ensures EditLines("\n  \nabc", 1, 3, OutdentLine).text == "\n\nabc" != "\nabc"
  {
    LeadingNewlineIndentBlock();
    LeadingNewlineIndentLines();
    EditLinesVia("\nabc", 0, 0, IndentLine, Block(1, 0), "  ");
    LeadingNewlineOutdentBlock();
    LeadingNewlineOutdentLines();
    EditLinesVia("\n  \nabc", 1, 3, OutdentLine, Block(1, 3), []);
    assert "\n\nabc"[1] != "\nabc"[1];
  }

  // ---------------------------------------------------------------------
  // The editor's text area

  /** The note editor's text area: its buffer and selection offsets, which
      the line-block buttons and the Tab key rewrite in place. */
  class Editor {
    var value: string
    var selStart: nat
    var selEnd: nat

    /** The browser keeps the selection inside the buffer. */
    ghost predicate Valid()
      reads this
    {
      selStart <= selEnd <= |value|
    }

    constructor (text: string, start: nat, end: nat)
      requires start <= end <= |text|
      ensures Valid()
      ensures value == text && selStart == start && selEnd == end
    {
      value := text;
      selStart := start;
      selEnd := end;
    }

    /** `applyToSelectedLines` (app.js:72-89); the save that follows it is
        persistence and is not modelled. */
    method ApplyToSelectedLines(transform: string -> string)
      requires Valid()
      modifies this
      ensures Valid()
      ensures Edit(value, selStart, selEnd) == EditLines(old(value), old(selStart), old(selEnd), transform)
    {
      var start: int := selStart;
      var end: int := selEnd;
      var text := value;
      var blockStart := LastIndexOf(text, '\n', if start - 1 > 0 then start - 1 else 0) + 1;
      var blockEndIndex := IndexOf(text, '\n', end);
      var blockEnd := if blockEndIndex == -1 then |text| else blockEndIndex;

      var before := Slice(text, 0, blockStart);
      var selectedBlock := Slice(text, blockStart, blockEnd);
      var after := Slice(text, blockEnd, |text|);
      var updatedBlock := JoinLines(MapLines(transform, SplitLines(selectedBlock)));

      ghost var b := Block(blockStart, blockEnd);
      assert b == SelectBlock(text, start, end);
      assert updatedBlock == TransformBlock(selectedBlock, transform);
      assert Splice(text, b, transform) == Edit(before + updatedBlock + after, blockStart, blockStart + |updatedBlock|);
      assert |before| == blockStart;
      value := before + updatedBlock + after;
      selStart := blockStart;
      selEnd := blockStart + |updatedBlock|;
    }

    /** The indent button (app.js:180). Under the block rule every touched
        line gains two leading spaces and the rest of the buffer is kept. */
    method Indent()
      requires Valid()
      modifies this
      ensures Valid()
      ensures Edit(value, selStart, selEnd) == EditLines(old(value), old(selStart), old(selEnd), IndentLine)
      ensures !(old(selStart) == 0 && |old(value)| > 0 && old(value)[0] == '\n') ==>
        var b := SelectBlock(old(value), old(selStart), old(selEnd));
        && value == old(value)[..b.start] + TransformBlock(old(value)[b.start..b.end], IndentLine) + old(value)[b.end..]
        && |value| == |old(value)| + 2 * (CountChar(old(value)[b.start..b.end], '\n') + 1)
    {
      ghost var text, start, end := value, selStart, selEnd;
      ApplyToSelectedLines(IndentLine);
      if !(start == 0 && |text| > 0 && text[0] == '\n') {
        EditLinesFrame(text, start, end, IndentLine);
        var b := SelectBlock(text, start, end);
        IndentBlock(text[b.start..b.end]);
      }
    }

    /** The outdent button (app.js:183). */
    method Outdent()
      requires Valid()
      modifies this
      ensures Valid()
      ensures Edit(value, selStart, selEnd) == EditLines(old(value), old(selStart), old(selEnd), OutdentLine)
    {
      ApplyToSelectedLines(OutdentLine);
    }

    /** The Tab key (app.js:189-198): the selection is replaced by two
        spaces and the caret is put after them. */
    method InsertTab()
      requires Valid()
      modifies this
      ensures Valid()
      ensures value == old(value)[..old(selStart)] + "  " + old(value)[old(selEnd)..]
      ensures selStart == selEnd == old(selStart) + 2
      ensures |value| == |old(value)| + 2 - (old(selEnd) - old(selStart))
    {
      var start := selStart;
      var end := selEnd;
      var text := value;
      value := Slice(text, 0, start) + "  " + Slice(text, end, |text|);
      selStart := start + 2;
      selEnd := start + 2;
    }
  }

  /** Indent and then outdent on the same editor restores its buffer. */
  method IndentOutdentEditor(ed: Editor)
    requires ed.Valid()
    requires !(ed.selStart == 0 && |ed.value| > 0 && ed.value[0] == '\n')
    modifies ed
    ensures ed.Valid()
    ensures ed.value == old(ed.value)
  {
    ghost var text, start, end := ed.value, ed.selStart, ed.selEnd;
    ed.Indent();
    ed.Outdent();
    IndentThenOutdent(text, start, end);
  }
}
