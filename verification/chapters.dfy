/** The line classifier and grouper of the book's chapter builder
    (docs/make_chapters.py): each source line becomes a comment line or a
    code line, runs of lines of one kind become text blocks or fenced code
    blocks, and a code block renders as a Markdown fence. Reading and
    writing files is not modelled. */
module Chapters {
  import opened Wrappers

  /** The characters Python's `\s` matches in a `str` pattern. */
  predicate IsSpace(c: char) {
    c == ' ' || c == '\t' || c == '\n' || c == '\r' || c == '\U{0B}' || c == '\U{0C}' ||
    ('\U{1C}' <= c <= '\U{1F}') || c == '\U{85}' || c == '\U{A0}' || c == '\U{1680}' ||
    ('\U{2000}' <= c <= '\U{200A}') || c == '\U{2028}' || c == '\U{2029}' || c == '\U{202F}' ||
    c == '\U{205F}' || c == '\U{3000}'
  }

  /** What a greedy `\s*` leaves: the text after its leading whitespace. */
  function SkipSpace(s: string): (r: string)
    ensures |r| <= |s| && r == s[|s| - |r|..]
    ensures r == [] || !IsSpace(r[0])
    ensures forall i :: 0 <= i < |s| - |r| ==> IsSpace(s[i])
  {
    if s != [] && IsSpace(s[0]) then SkipSpace(s[1..]) else s
  }

  /** What `([^\n]*)` captures: the text up to the first newline. */
  function UpToNewline(s: string): (r: string)
    ensures r <= s
    ensures '\n' !in r
    ensures |r| < |s| ==> s[|r|] == '\n'
  {
    if s == [] || s[0] == '\n' then [] else [s[0]] + UpToNewline(s[1..])
  }

  /** A document line: the text of a comment, or a line of code. */
  datatype Line = CommentLine(content: string) | CodeLine(content: string)

  /** The comment marker of a language: `//` for Rust, `#` otherwise. */
  function CommentMarker(language: string): (m: string)
    ensures language == "rs" ==> m == "//"
    ensures language != "rs" ==> m == "#"
  {
    if language == "rs" then "//" else "#"
  }

  /** One step of `make_lines`: a line that, after leading whitespace,
      starts with the marker is a comment holding the text after the marker
      and its whitespace; every other line is code, without its newline. */
  function ClassifyLine(line: string, language: string): (r: Line)
    ensures '\n' !in r.content
  {
    var m := CommentMarker(language);
    var rest := SkipSpace(line);
    if m <= rest then CommentLine(UpToNewline(SkipSpace(rest[|m|..])))
    else CodeLine(UpToNewline(line))
  }

  /** `make_lines`: one line object per raw line, in order. */
  function MakeLines(rawLines: seq<string>, language: string): (r: seq<Line>)
    ensures |r| == |rawLines|
    ensures forall i :: 0 <= i < |r| ==> r[i] == ClassifyLine(rawLines[i], language) && '\n' !in r[i].content
  {
    seq(|rawLines|, i requires 0 <= i < |rawLines| => ClassifyLine(rawLines[i], language))
  }

  /** Text made only of whitespace. */
  predicate AllSpace(s: string) {
    forall i :: 0 <= i < |s| ==> IsSpace(s[i])
  }

  /** A comment line, however indented and however far its text is set off
      from the marker, gives back its text. */
  lemma {:induction false} CommentLineText(indent: string, gap: string, text: string, language: string)
    requires AllSpace(indent) && AllSpace(gap)
    requires text == [] || !IsSpace(text[0])
    requires '\n' !in text
    ensures ClassifyLine(indent + CommentMarker(language) + gap + text + "\n", language) == CommentLine(text)
  {
    var m := CommentMarker(language);
    assert m[0] == '/' || m[0] == '#';
    MarkedText(indent, m, gap, text);
  }

  /** After the indentation, a line starts with its marker, and after the
      marker comes the text, whatever marker it is that does not start with
      whitespace. */
  lemma {:induction false} MarkedText(indent: string, m: string, gap: string, text: string)
    requires AllSpace(indent) && AllSpace(gap) && m != [] && !IsSpace(m[0])
    requires text == [] || !IsSpace(text[0])
    requires '\n' !in text
    ensures var rest := SkipSpace(indent + m + gap + text + "\n");
            m <= rest && UpToNewline(SkipSpace(rest[|m|..])) == text
  {
    var after := gap + (text + "\n");
    assert indent + m + gap + text + "\n" == indent + (m + after);
    SkipSpaceAll(indent, m + after);
    assert (m + after)[|m|..] == after;
    CommentText(gap, text);
  }

  /** What the comment pattern captures after the marker: the text, set off
      by any whitespace. */
  lemma {:induction false} CommentText(gap: string, text: string)
    requires AllSpace(gap)
    requires text == [] || !IsSpace(text[0])
    requires '\n' !in text
    ensures UpToNewline(SkipSpace(gap + (text + "\n"))) == text
  {
    SkipSpaceAll(gap, text + "\n");
    if text != [] {
      UpToNewlineOf(text);
    }
  }

  /** A code line, one that does not start with the marker after its
      indentation, is kept whole but for its newline. */
  lemma {:induction false} CodeLineText(text: string, language: string)
    requires !(CommentMarker(language) <= SkipSpace(text))
    requires '\n' !in text
    ensures ClassifyLine(text + "\n", language) == CodeLine(text)
    ensures ClassifyLine(text, language) == CodeLine(text)
  {
    var m := CommentMarker(language);
    assert m != [] && '\n' !in m;
    SkipSpaceNewline(text);
    MarkerNotAtNewline(m, SkipSpace(text));
    UpToNewlineOf(text);
    UpToNewlineWhole(text);
  }

  /** A marker without a newline that does not start a text does not start
      it once a newline is added either. */
  lemma {:induction false} MarkerNotAtNewline(m: string, x: string)
    requires m != [] && '\n' !in m && !(m <= x)
    ensures !(m <= x + "\n")
  {
    assert forall i :: 0 <= i < |m| ==> m[i] != '\n';
    if |m| <= |x| {
      assert (x + "\n")[..|m|] == x[..|m|];
    } else {
      assert |m| > |x| + 1 || m[|x|] != (x + "\n")[|x|];
    }
  }

  /** `\s*` skips a whitespace prefix up to a non-whitespace character. */
  lemma {:induction false} SkipSpaceAll(ws: string, s: string)
    requires AllSpace(ws) && (s == [] || !IsSpace(s[0]) || (s[0] == '\n' && |s| == 1))
    ensures SkipSpace(ws + s) == (if s != [] && IsSpace(s[0]) then SkipSpace(s) else s)
    decreases |ws|
  {
    if ws != [] {
      assert (ws + s)[1..] == ws[1..] + s;
      SkipSpaceAll(ws[1..], s);
    }
  }

  /** The newline of a line is whitespace, so the skip of a whole code line
      that is not blank stops where the skip of its text stops. */
  lemma {:induction false} SkipSpaceNewline(text: string)
    requires '\n' !in text
    ensures SkipSpace(text) == [] ==> SkipSpace(text + "\n") == []
    ensures SkipSpace(text) != [] ==> SkipSpace(text + "\n") == SkipSpace(text) + "\n"
    decreases |text|
  {
    if text != [] {
      assert (text + "\n")[1..] == text[1..] + "\n";
      if IsSpace(text[0]) {
        SkipSpaceNewline(text[1..]);
      }
    }
  }

  /** The capture of a line ends at its newline. */
  lemma {:induction false} UpToNewlineOf(text: string)
    requires '\n' !in text
    ensures UpToNewline(text + "\n") == text
    decreases |text|
  {
    if text != [] {
      assert (text + "\n")[1..] == text[1..] + "\n";
      UpToNewlineOf(text[1..]);
    }
  }

  /** A text without a newline is captured whole. */
  lemma {:induction false} UpToNewlineWhole(text: string)
    requires '\n' !in text
    ensures UpToNewline(text) == text
    decreases |text|
  {
    if text != [] {
      UpToNewlineWhole(text[1..]);
    }
  }

  // ---------------------------------------------------------------------
  // Blocks
  // ---------------------------------------------------------------------

  /** `Block` (plain text) and `CodeBlock` (fenced code in a language). */
  datatype Block = TextBlock(lines: seq<Line>) | CodeBlock(language: string, lines: seq<Line>)

  /** A block is a nonempty run of its own kind of line: code in a code
      block, comments in a text block. */
  predicate WellFormed(b: Block) {
    |b.lines| > 0 &&
    forall i :: 0 <= i < |b.lines| ==> (b.lines[i].CodeLine? <==> b.CodeBlock?)
  }

  /** The lines of the blocks, in order. */
  function AllLines(blocks: seq<Block>): (r: seq<Line>)
  {
    if blocks == [] then [] else AllLines(blocks[..|blocks| - 1]) + blocks[|blocks| - 1].lines
  }

  /** Neighbouring blocks hold different kinds of lines. */
  predicate Alternating(blocks: seq<Block>) {
    forall i :: 0 <= i < |blocks| - 1 ==> blocks[i].CodeBlock? != blocks[i + 1].CodeBlock?
  }

  /** The block a line starts. */
  function StartBlock(line: Line, language: string): (b: Block)
    ensures WellFormed(b) && b.lines == [line]
  {
    if line.CodeLine? then CodeBlock(language, [line]) else TextBlock([line])
  }

  /** `lines_to_blocks`: the maximal runs of same-kind lines, in order; an
      empty input yields the single `None` of the unset last block. */
  method LinesToBlocks(lines: seq<Line>, language: string) returns (blocks: seq<Option<Block>>)
    ensures lines == [] ==> blocks == [None]
    ensures lines != [] ==> GroupingOf(blocks, lines, language)
  {
    var done: seq<Block> := [];
    var last: Option<Block> := None;
    var k := 0;
    while k < |lines|
      invariant 0 <= k <= |lines|
      invariant last.None? <==> k == 0
      invariant k == 0 ==> done == []
      invariant last.Some? ==> Grouped(done, last.value, lines[..k], language)
    {
      var line := lines[k];
      assert lines[..k + 1] == lines[..k] + [line];
      if last.None? {
        last := Some(StartBlock(line, language));
        GroupedStart(line, language);
      } else if last.value.lines[|last.value.lines| - 1].CodeLine? != line.CodeLine? {
        GroupedClose(done, last.value, lines[..k], line, language);
        done := done + [last.value];
        last := Some(StartBlock(line, language));
      } else {
        GroupedGrow(done, last.value, lines[..k], line, language);
        last := Some(last.value.(lines := last.value.lines + [line]));
      }
      k := k + 1;
    }
    blocks := SomeAll(done) + [last];
    if lines != [] {
      assert lines[..k] == lines;
      GroupedFinish(done, last.value, lines, language);
    }
  }

  /** The blocks group the lines into alternating maximal runs: every block
      is present and well formed, code blocks carry the language, and the
      blocks' lines in order are the input. */
  predicate GroupingOf(blocks: seq<Option<Block>>, lines: seq<Line>, language: string) {
    (forall i :: 0 <= i < |blocks| ==> blocks[i].Some? && WellFormed(blocks[i].value) &&
                                        (blocks[i].value.CodeBlock? ==> blocks[i].value.language == language)) &&
    Alternating(Values(blocks)) && AllLines(Values(blocks)) == lines
  }

  /** At the end of the lines, the yielded blocks and the last one are the
      grouping. */
  lemma {:induction false} GroupedFinish(done: seq<Block>, last: Block, lines: seq<Line>, language: string)
    requires Grouped(done, last, lines, language)
    ensures GroupingOf(SomeAll(done) + [Some(last)], lines, language)
  {
    ValuesSomeAll(done, last);
    var blocks := SomeAll(done) + [Some(last)];
    forall i | 0 <= i < |blocks| ensures blocks[i] == Some((done + [last])[i]) {
    }
  }

  /** The state of `lines_to_blocks` after a prefix of the lines: the blocks
      already yielded and the last block group the prefix into alternating
      runs. */
  predicate Grouped(done: seq<Block>, last: Block, prefix: seq<Line>, language: string) {
    (forall i :: 0 <= i < |done| ==> WellFormed(done[i]) && (done[i].CodeBlock? ==> done[i].language == language)) &&
    WellFormed(last) && (last.CodeBlock? ==> last.language == language) &&
    Alternating(done + [last]) && AllLines(done + [last]) == prefix
  }

  /** The lines of blocks with one more block after them. */
  lemma {:induction false} AllLinesSnoc(bs: seq<Block>, b: Block)
    ensures AllLines(bs + [b]) == AllLines(bs) + b.lines
  {
    assert (bs + [b])[..|bs|] == bs;
  }

  /** The first line starts the first block. */
  lemma {:induction false} GroupedStart(line: Line, language: string)
    ensures Grouped([], StartBlock(line, language), [line], language)
  {
    AllLinesSnoc([], StartBlock(line, language));
  }

  /** A line of the other kind closes the last block and starts a new one. */
  lemma {:induction false} GroupedClose(done: seq<Block>, last: Block, prefix: seq<Line>, line: Line, language: string)
    requires Grouped(done, last, prefix, language)
    requires last.lines[|last.lines| - 1].CodeLine? != line.CodeLine?
    ensures Grouped(done + [last], StartBlock(line, language), prefix + [line], language)
  {
    AllLinesSnoc(done + [last], StartBlock(line, language));
  }

  /** A line of the same kind joins the last block. */
  lemma {:induction false} GroupedGrow(done: seq<Block>, last: Block, prefix: seq<Line>, line: Line, language: string)
    requires Grouped(done, last, prefix, language)
    requires last.lines[|last.lines| - 1].CodeLine? == line.CodeLine?
    ensures Grouped(done, last.(lines := last.lines + [line]), prefix + [line], language)
  {
    var grown := last.(lines := last.lines + [line]);
    AllLinesSnoc(done, last);
    AllLinesSnoc(done, grown);
    assert forall i :: 0 <= i < |done| ==> (done + [grown])[i] == (done + [last])[i];
  }

  /** Every block, wrapped. */
  function SomeAll(bs: seq<Block>): (r: seq<Option<Block>>)
    ensures |r| == |bs| && forall i :: 0 <= i < |bs| ==> r[i] == Some(bs[i])
  {
    seq(|bs|, i requires 0 <= i < |bs| => Some(bs[i]))
  }

  /** The blocks of a sequence with no `None` in it. */
  function Values(os: seq<Option<Block>>): (r: seq<Block>)
    ensures (forall i :: 0 <= i < |os| ==> os[i].Some?) ==>
              |r| == |os| && forall i :: 0 <= i < |os| ==> os[i] == Some(r[i])
  {
    if os == [] then []
    else (match os[0] case Some(b) => [b] case None => []) + Values(os[1..])
  }

  /** Unwrapping the wrapped blocks gives them back. */
  lemma {:induction false} ValuesSomeAll(done: seq<Block>, last: Block)
    ensures Values(SomeAll(done) + [Some(last)]) == done + [last]
  {
    var os := SomeAll(done) + [Some(last)];
    var r := Values(os);
    assert forall i :: 0 <= i < |os| ==> os[i].Some?;
    assert |r| == |done + [last]|;
    forall i | 0 <= i < |r| ensures r[i] == (done + [last])[i] {
      assert os[i] == Some(r[i]);
    }
  }

  /** `"\n".join`. */
  function JoinLines(ls: seq<string>): (r: string)
    ensures ls == [] ==> r == []
  {
    if ls == [] then [] else if |ls| == 1 then ls[0] else ls[0] + "\n" + JoinLines(ls[1..])
  }

  /** Splitting at every newline, the partner of `JoinLines`. */
  function SplitLines(s: string): (r: seq<string>)
    ensures |r| >= 1
    decreases |s|
  {
    if '\n' !in s then [s]
    else
      var i := FirstNewline(s);
      [s[..i]] + SplitLines(s[i + 1..])
  }

  /** The position of the first newline. */
  function FirstNewline(s: string): (i: nat)
    requires '\n' in s
    ensures i < |s| && s[i] == '\n' && '\n' !in s[..i]
  {
    if s[0] == '\n' then 0 else
      var j := FirstNewline(s[1..]);
      assert s[..j + 1] == [s[0]] + s[1..][..j];
      j + 1
  }

  /** The contents of lines. */
  function Contents(ls: seq<Line>): (r: seq<string>)
    ensures |r| == |ls| && forall i :: 0 <= i < |ls| ==> r[i] == ls[i].content
  {
    seq(|ls|, i requires 0 <= i < |ls| => ls[i].content)
  }

  /** `__str__` of a block: a text block is its lines joined by newlines; a
      code block puts them between a fence line naming the language and a
      closing fence, each on lines of their own. */
  function Render(b: Block): (r: string)
  {
    match b
    case TextBlock(ls) => JoinLines(Contents(ls))
    case CodeBlock(language, ls) => "\n```" + language + "\n" + JoinLines(Contents(ls)) + "\n```\n"
  }

  /** A rendered code block opens with its fence line, closes with the
      closing fence, and between them the lines come back one per line. */
  lemma {:induction false} RenderCodeBlock(language: string, ls: seq<Line>)
    requires ls != [] && forall i :: 0 <= i < |ls| ==> '\n' !in ls[i].content
    ensures var r := Render(CodeBlock(language, ls));
            var open := "\n```" + language + "\n";
            open <= r && |r| >= |open| + 5 && r[|r| - 5..] == "\n```\n" &&
            SplitLines(r[|open|..|r| - 5]) == Contents(ls)
  {
    var open := "\n```" + language + "\n";
    var body := JoinLines(Contents(ls));
    var r := Render(CodeBlock(language, ls));
    assert r == open + body + "\n```\n";
    assert r[|open|..|r| - 5] == body;
    SplitJoin(Contents(ls));
  }

  /** Splitting undoes joining lines that hold no newline. */
  lemma {:induction false} SplitJoin(ls: seq<string>)
    requires ls != [] && forall i :: 0 <= i < |ls| ==> '\n' !in ls[i]
    ensures SplitLines(JoinLines(ls)) == ls
    decreases |ls|
  {
    if |ls| > 1 {
      var s := JoinLines(ls);
      assert s == ls[0] + "\n" + JoinLines(ls[1..]);
      assert s[|ls[0]|] == '\n';
      assert '\n' in s;
      var i := FirstNewline(s);
      assert s[..|ls[0]|] == ls[0];
      assert i == |ls[0]|;
      assert s[i + 1..] == JoinLines(ls[1..]);
      SplitJoin(ls[1..]);
      assert [ls[0]] + ls[1..] == ls;
    } else {
      assert JoinLines(ls) == ls[0];
    }
  }

  /** A comment line followed by two code lines gives a text block and a
      code block, in that order. */
  method GroupingExample(language: string, c: string, x: string, y: string) returns (blocks: seq<Option<Block>>)
    ensures |blocks| == 2
    ensures blocks[0] == Some(TextBlock([CommentLine(c)]))
    ensures blocks[1] == Some(CodeBlock(language, [CodeLine(x), CodeLine(y)]))
  {
    var lines := [CommentLine(c), CodeLine(x), CodeLine(y)];
    blocks := LinesToBlocks(lines, language);
    var expected := [TextBlock([CommentLine(c)]), CodeBlock(language, [CodeLine(x), CodeLine(y)])];
    assert expected[..1] == [expected[0]];
    assert AllLines(expected[..1]) == AllLines([]) + expected[0].lines;
    assert AllLines(expected) == lines;
    GroupingUnique(Values(blocks), expected, language);
  }

  /** Each well-formed block holds at least one line. */
  lemma {:induction false} AllLinesLength(bs: seq<Block>)
    requires forall i :: 0 <= i < |bs| ==> WellFormed(bs[i])
    ensures |AllLines(bs)| >= |bs|
  {
    if bs != [] {
      AllLinesLength(bs[..|bs| - 1]);
    }
  }

  /** The number of lines at the end that are of the last line's kind. */
  function RunLen(ls: seq<Line>): (r: nat)
    ensures r <= |ls| && (ls != [] ==> r >= 1)
  {
    if |ls| <= 1 then |ls|
    else if ls[|ls| - 2].CodeLine? == ls[|ls| - 1].CodeLine? then RunLen(ls[..|ls| - 1]) + 1
    else 1
  }

  /** Lines of one kind after a line of the other kind (or after nothing)
      make the whole final run. */
  lemma {:induction false} RunLenAfter(p: seq<Line>, run: seq<Line>)
    requires run != [] && forall i :: 0 <= i < |run| ==> run[i].CodeLine? == run[0].CodeLine?
    requires p != [] ==> p[|p| - 1].CodeLine? != run[0].CodeLine?
    ensures RunLen(p + run) == |run|
    decreases |run|
  {
    var l := p + run;
    if |run| > 1 {
      var shorter := run[..|run| - 1];
      assert l[..|l| - 1] == p + shorter;
      RunLenAfter(p, shorter);
    }
  }

  /** In a grouping, the last block is the final run of the lines. */
  lemma {:induction false} LastRun(bs: seq<Block>)
    requires bs != [] && Alternating(bs) && forall i :: 0 <= i < |bs| ==> WellFormed(bs[i])
    ensures RunLen(AllLines(bs)) == |bs[|bs| - 1].lines|
  {
    var n := |bs| - 1;
    var p := AllLines(bs[..n]);
    if n > 0 {
      assert bs[..n][..n - 1] == bs[..n - 1];
      assert p[|p| - 1] == bs[n - 1].lines[|bs[n - 1].lines| - 1];
    }
    RunLenAfter(p, bs[n].lines);
  }

  /** The grouping into alternating runs is unique: two groupings of the
      same lines, code blocks all in one language, are the same blocks. So
      `LinesToBlocks` yields exactly the maximal runs. */
  lemma {:induction false} GroupingUnique(a: seq<Block>, b: seq<Block>, language: string)
    requires forall i :: 0 <= i < |a| ==> WellFormed(a[i]) && (a[i].CodeBlock? ==> a[i].language == language)
    requires forall i :: 0 <= i < |b| ==> WellFormed(b[i]) && (b[i].CodeBlock? ==> b[i].language == language)
    requires Alternating(a) && Alternating(b) && AllLines(a) == AllLines(b)
    ensures a == b
    decreases |a|
  {
    if a == [] || b == [] {
      AllLinesLength(a);
      AllLinesLength(b);
    } else {
      var ls := AllLines(a);
      LastRun(a);
      LastRun(b);
      var x, y := a[|a| - 1], b[|b| - 1];
      var k := RunLen(ls);
      assert x.lines == ls[|ls| - k..];
      assert y.lines == ls[|ls| - k..];
      assert x.CodeBlock? == x.lines[0].CodeLine? == y.CodeBlock?;
      var a', b' := a[..|a| - 1], b[..|b| - 1];
      assert AllLines(a') == ls[..|ls| - k] == AllLines(b');
      GroupingUnique(a', b', language);
      assert a == a' + [x] && b == b' + [y];
    }
  }
}
