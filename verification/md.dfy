/** The current Markdown parser (src/md.c): classifies every input line
    by fixed-precedence prefix tests, strips the marker and the trailing
    newline, and folds a fenced code block into a single unit.

    The input file is the sequence of lines `getline` would return, each
    keeping its final '\n' (the last line may lack one). */
module Md {
  import opened Nullable
  import opened CStrings

  /** The unit kinds of include/md.h, plus the two code-block kinds that
      src/md.c uses (`UNIT_TYPE_CODE_BLOCK_BOUND`, `UNIT_TYPE_CODE_BLOCK`)
      and that the shown header does not yet declare. `Empty` is
      `UNIT_TYPE_NONE`, the empty line. */
  datatype UnitType =
    | H1 | H2 | H3 | Bullet | Image | Quote
    | CodeBlockStart | CodeBlockEnd | CodeBlockLine
    | Text | Empty
    | CodeBlockBound | CodeBlock

  /** Code-fence languages; `LangNone` means no highlighting. */
  datatype Lang = LangC | LangDiff | LangHtml | LangNone

  datatype MdUnit = MdUnit(kind: UnitType, content: string, uri: Option<string>, lang: Lang)

  /** The parsed document: the unit list and the `n_lines` counter. */
  datatype Md = Md(nLines: nat, units: seq<MdUnit>)

  /** `IS_LIST`: a list marker followed by a character different from it. */
  predicate IsList(line: string) {
    && At(line, 0) != '\0' && At(line, 1) != '\0'
    && ((At(line, 0) == '-' && At(line, 1) != '-')
        || (At(line, 0) == '*' && At(line, 1) != '*')
        || (At(line, 0) == '+' && At(line, 1) != '+'))
  }

  /** `IS_CODE_BLOCK_BOUND`: three backticks. */
  predicate IsCodeBlockBound(line: string) {
    && At(line, 0) != '\0' && At(line, 0) == '`'
    && At(line, 1) != '\0' && At(line, 1) == '`'
    && At(line, 2) != '\0' && At(line, 2) == '`'
  }

  predicate IsListMarker(c: char) {
    c == '-' || c == '*' || c == '+'
  }

  /** The tests of `find_md_unit_type` as the code writes them; its
      contract is stated on `FindMdUnitType`. */
  function Classify(line: string): UnitType
  {
    if At(line, 0) != '\0' && At(line, 0) == '\n' then Empty
    else if At(line, 0) != '\0' && At(line, 0) == '>' && At(line, 1) != '\0' && At(line, 1) == ' ' then Quote
    else if IsList(line) then Bullet
    else if IsCodeBlockBound(line) then CodeBlockBound
    else if At(line, 0) != '\0' && At(line, 0) == '#' then
      if At(line, 1) != '\0' && At(line, 1) == '#' then
        if At(line, 2) != '\0' && At(line, 2) == '#' then
          if At(line, 3) == ' ' then H3 else Text
        else if At(line, 2) != '\0' && At(line, 2) == ' ' then H2
        else Text
      else if At(line, 1) != '\0' && At(line, 1) == ' ' then H1
      else Text
    else Text
  }

  /** `find_md_unit_type`: the first matching test in the order
      empty line, quote, list, fence, heading; otherwise plain text. */
  function FindMdUnitType(line: string): (t: UnitType)
    ensures t == Empty <==> |line| >= 1 && line[0] == '\n'
    ensures t == Quote <==> |line| >= 2 && line[0] == '>' && line[1] == ' '
    ensures t == Bullet <==>
      |line| >= 2 && IsListMarker(line[0]) && line[1] != line[0] && line[1] != '\0'
    ensures t == CodeBlockBound <==> |line| >= 3 && line[0] == '`' && line[1] == '`' && line[2] == '`'
    ensures t == H1 <==> |line| >= 2 && line[0] == '#' && line[1] == ' '
    ensures t == H2 <==> |line| >= 3 && line[0] == '#' && line[1] == '#' && line[2] == ' '
    ensures t == H3 <==>
      |line| >= 4 && line[0] == '#' && line[1] == '#' && line[2] == '#' && line[3] == ' '
    ensures t == Empty || t == Quote || t == Bullet || t == CodeBlockBound
         || t == H1 || t == H2 || t == H3 || t == Text
  {
    Classify(line)
  }

  predicate EndsWithNewLine(s: string) {
    |s| > 0 && s[|s| - 1] == '\n'
  }

  /** `remove_trailing_new_line`: drops one final '\n', if there is one. */
  function RemoveTrailingNewLine(line: string): (r: string)
    ensures EndsWithNewLine(line) ==> r + "\n" == line
    ensures !EndsWithNewLine(line) ==> r == line
  {
    if |line| > 0 && line[|line| - 1] == '\n' then line[..|line| - 1] else line
  }

  /** How many leading characters `find_md_content` skips for a kind. */
  function ContentOffset(t: UnitType): nat
  {
    match t
    case H1 => 2
    case H2 => 3
    case H3 => 4
    case Bullet => 2
    case Quote => 2
    case _ => 0
  }

  /** `find_md_content`: the line with the marker of its kind skipped. The
      pointer arithmetic stays inside the line only when the line is at
      least as long as the marker. */
  function FindMdContent(line: string, t: UnitType): (r: string)
    requires ContentOffset(t) <= |line|
    ensures line == line[..ContentOffset(t)] + r
  {
    line[ContentOffset(t)..]
  }

  lemma ContentOffsetFits(line: string)
    ensures ContentOffset(Classify(line)) <= |line|
  {
    assert Classify(line) == FindMdUnitType(line);
  }

  /** `find_code_block_lang`: the text after the three backticks selects
      the language; any tag starting with 'c' is C. */
  function FindCodeBlockLang(line: string): (lang: Lang)
    requires IsFence(line)
    ensures lang == LangC <==> StartsWith(line, "```c")
    ensures lang == LangDiff <==> !StartsWith(line, "```c") && StartsWith(line, "```diff")
    ensures lang == LangHtml <==>
      !StartsWith(line, "```c") && !StartsWith(line, "```diff") && StartsWith(line, "```html")
  {
    assert StartsWith(line, "```") by {
      assert line[..3] == "```";
    }
    StartsWithAfter(line, "```", "c");
    StartsWithAfter(line, "```", "diff");
    StartsWithAfter(line, "```", "html");
    FenceLang(line)
  }

  /** The tests of `find_code_block_lang` as the code writes them; its
      contract is stated on `FindCodeBlockLang`. */
  function FenceLang(line: string): Lang
    requires IsFence(line)
  {
    var str := line[3..];
    if At(str, 0) == 'c' then LangC
    else if StartsWith(str, "diff") then LangDiff
    else if StartsWith(str, "html") then LangHtml
    else LangNone
  }

  /** A prefix test after skipping a known prefix. */
  lemma StartsWithAfter(s: string, p: string, q: string)
    requires StartsWith(s, p)
    ensures StartsWith(s, p + q) <==> StartsWith(s[|p|..], q)
  {
    if StartsWith(s[|p|..], q) {
      assert s[..|p + q|] == s[..|p|] + s[|p|..][..|q|];
    }
    if StartsWith(s, p + q) {
      assert s[|p|..][..|q|] == s[..|p + q|][|p|..];
    }
  }

  /** The test `parse_md` applies to every line: is it classified as a
      code-block bound? (See `FenceIsCodeBlockBound`.) */
  predicate IsFence(line: string) {
    |line| >= 3 && line[0] == '`' && line[1] == '`' && line[2] == '`'
  }

  /** A line opening with three backticks is classified as a code-block
      bound and nothing else is: a backtick passes none of the earlier
      tests. */
  lemma FenceIsCodeBlockBound(line: string)
    ensures IsFence(line) <==> FindMdUnitType(line) == CodeBlockBound
  {
  }

  /** The unit for a line that is not a fence: its kind is what the tests
      of `find_md_unit_type` give (`Classify`, whose contract is stated on
      `FindMdUnitType`), and its content is what is left of the line after
      the marker (see `LineUnitContent`). */
  function LineUnit(line: string): (u: MdUnit)
    ensures u.kind == Classify(line)
    ensures u.uri.None? && u.lang == LangNone
    ensures ContentOffset(u.kind) + |u.content| <= |line|
  {
    var t := Classify(line);
    ContentOffsetFits(line);
    MdUnit(t, RemoveTrailingNewLine(FindMdContent(line, t)), None, LangNone)
  }

  /** A line as the loop of `parse_md` sees it once `find_md_unit_type`
      has run: its text, whether it is a fence, the language a fence
      names, and the unit the line yields when it is not a fence. */
  datatype Scanned = Scanned(text: string, fence: bool, lang: Lang, unit: MdUnit)

  function ScanLine(line: string): Scanned
  {
    var fence := IsFence(line);
    Scanned(line, fence, if fence then FenceLang(line) else LangNone, LineUnit(line))
  }

  function ScanLines(lines: seq<string>): (ls: seq<Scanned>)
    ensures |ls| == |lines|
    ensures forall i :: 0 <= i < |lines| ==> ls[i] == ScanLine(lines[i])
  {
    seq(|lines|, i requires 0 <= i < |lines| => ScanLine(lines[i]))
  }

  /** The texts of scanned lines. */
  function Texts(ls: seq<Scanned>): (ts: seq<string>)
    ensures |ts| == |ls|
    ensures forall i :: 0 <= i < |ls| ==> ts[i] == ls[i].text
  {
    seq(|ls|, i requires 0 <= i < |ls| => ls[i].text)
  }

  lemma TextsOfScan(lines: seq<string>, a: nat, b: nat)
    requires a <= b <= |lines|
    ensures Texts(ScanLines(lines)[a..b]) == lines[a..b]
  {
  }

  /** The index of the first fence line at or after `j`, or `|ls|` when
      the block runs to the end of the input. */
  function FenceEnd(ls: seq<Scanned>, j: nat): (k: nat)
    requires j <= |ls|
    ensures j <= k <= |ls|
    ensures k < |ls| ==> ls[k].fence
    ensures forall m :: j <= m < k ==> !ls[m].fence
    decreases |ls| - j
  {
    if j == |ls| then j
    else if ls[j].fence then j
    else FenceEnd(ls, j + 1)
  }

  /** Where parsing resumes after a code block whose closing search ended
      at `k`: past the closing fence, or at the end of the input. */
  function AfterBlock(ls: seq<Scanned>, k: nat): nat
  {
    if k < |ls| then k + 1 else k
  }

  /** The unit for a code block in language `lang` whose body lines are
      `body`: the buffer starts with a '\n' and takes every line whole. */
  function BlockUnit(lang: Lang, body: seq<Scanned>): MdUnit
  {
    MdUnit(CodeBlock, "\n" + Concat(Texts(body)), None, lang)
  }

  /** The same unit, for a fence line and body lines given as text. */
  function CodeBlockUnit(fence: string, body: seq<string>): MdUnit
    requires IsFence(fence)
  {
    MdUnit(CodeBlock, "\n" + Concat(body), None, FenceLang(fence))
  }

  /** The units of `ls[i..]`, parsed outside any code block: an opening
      fence looks ahead for the closing one. No line yields more than one
      unit. */
  function ParseFrom(ls: seq<Scanned>, i: nat): (us: seq<MdUnit>)
    requires i <= |ls|
    ensures |us| <= |ls| - i
    decreases |ls| - i
  {
    if i == |ls| then []
    else if ls[i].fence then
      var k := FenceEnd(ls, i + 1);
      [BlockUnit(ls[i].lang, ls[i + 1..k])] + ParseFrom(ls, AfterBlock(ls, k))
    else
      [ls[i].unit] + ParseFrom(ls, i + 1)
  }

  /** `parse_md`: one unit per line outside code blocks, one unit per code
      block, and `n_lines` counting the units appended. */
  function ParseMd(lines: seq<string>): (md: Md)
    ensures md.nLines == |md.units| <= |lines|
  {
    var units := ParseFrom(ScanLines(lines), 0);
    Md(|units|, units)
  }

  /** The content of a non-fence line is the line with the marker of its
      kind removed and then at most one trailing '\n'. */
  lemma LineUnitContent(line: string)
    requires !IsFence(line)
    ensures var u := LineUnit(line);
      var off := ContentOffset(u.kind);
      && off <= |line|
      && line == line[..off] + u.content
                 + (if EndsWithNewLine(line) && off < |line| then "\n" else "")
  {
    ContentOffsetFits(line);
    StripSplit(line, ContentOffset(Classify(line)));
  }

  /** Cutting a line after `off` characters and removing the final '\n' of
      the rest loses only that '\n'. */
  lemma StripSplit(line: string, off: nat)
    requires off <= |line|
    ensures line == line[..off] + RemoveTrailingNewLine(line[off..])
                    + (if EndsWithNewLine(line) && off < |line| then "\n" else "")
  {
    var rest := line[off..];
    assert line == line[..off] + rest;
    if EndsWithNewLine(line) && off < |line| {
      assert EndsWithNewLine(rest);
    } else {
      assert !EndsWithNewLine(rest);
    }
  }

  /** What is removed is exactly the marker of the kind. */
  lemma LineUnitMarker(line: string)
    ensures var u := LineUnit(line);
      var off := ContentOffset(u.kind);
      && u.kind == FindMdUnitType(line)
      && off <= |line|
      && (u.kind == H1 ==> line[..off] == "# ")
      && (u.kind == H2 ==> line[..off] == "## ")
      && (u.kind == H3 ==> line[..off] == "### ")
      && (u.kind == Quote ==> line[..off] == "> ")
      && (u.kind == Bullet ==> off == 2 && IsListMarker(line[0]) && line[1] != line[0])
      && (u.kind == Text || u.kind == Empty || u.kind == CodeBlockBound ==> off == 0)
  {
    var t := FindMdUnitType(line);
    match t {
      case H1 => assert line[..2] == "# ";
      case H2 => assert line[..3] == "## ";
      case H3 => assert line[..4] == "### ";
      case Quote => assert line[..2] == "> ";
      case _ =>
    }
  }

  /** A line as `getline` returns it: non-empty, with '\n' at most at the end. */
  predicate GetlineLine(line: string) {
    |line| > 0 && forall i :: 0 <= i < |line| - 1 ==> line[i] != '\n'
  }

  /** A blank line yields a unit with empty content. */
  lemma BlankLineHasEmptyContent(line: string)
    requires GetlineLine(line)
    requires FindMdUnitType(line) == Empty
    ensures LineUnit(line).content == ""
  {
    assert |line| == 1;
  }

  /** One unit per line, each classified on its own. */
  function LineUnits(lines: seq<string>): (us: seq<MdUnit>)
    ensures |us| == |lines|
    ensures forall m :: 0 <= m < |lines| ==> us[m] == LineUnit(lines[m])
  {
    if |lines| == 0 then [] else [LineUnit(lines[0])] + LineUnits(lines[1..])
  }

  /** The units of scanned lines, in order. */
  function Units(ls: seq<Scanned>): (us: seq<MdUnit>)
    ensures |us| == |ls|
    ensures forall m :: 0 <= m < |ls| ==> us[m] == ls[m].unit
  {
    seq(|ls|, m requires 0 <= m < |ls| => ls[m].unit)
  }

  lemma {:induction false} ParseFromPlain(ls: seq<Scanned>, i: nat)
    requires i <= |ls|
    requires forall m :: i <= m < |ls| ==> !ls[m].fence
    ensures ParseFrom(ls, i) == Units(ls[i..])
    decreases |ls| - i
  {
    if i < |ls| {
      ParseFromPlain(ls, i + 1);
      assert Units(ls[i..]) == [ls[i].unit] + Units(ls[i + 1..]);
    }
  }

  /** Without fence lines, every line becomes one unit, in input order. */
  lemma ParseWithoutFences(lines: seq<string>)
    requires forall m :: 0 <= m < |lines| ==> !IsFence(lines[m])
    ensures ParseMd(lines).units == LineUnits(lines)
  {
    var ls := ScanLines(lines);
    ParseFromPlain(ls, 0);
    assert ls[0..] == ls;
    assert Units(ls) == LineUnits(lines);
  }

  /** An opening fence with no closing fence after it takes every
      remaining line into one code-block unit. */
  lemma UnterminatedFence(ls: seq<Scanned>, i: nat)
    requires i < |ls| && ls[i].fence
    requires forall m :: i < m < |ls| ==> !ls[m].fence
    ensures ParseFrom(ls, i) == [BlockUnit(ls[i].lang, ls[i + 1..])]
  {
    var k := FenceEnd(ls, i + 1);
    assert k == |ls|;
    assert ls[i + 1..k] == ls[i + 1..];
    assert ParseFrom(ls, i) == [BlockUnit(ls[i].lang, ls[i + 1..k])] + ParseFrom(ls, AfterBlock(ls, k));
  }

  /** The parser written as an explicit state machine over the lines: one
      line at a time, with the body lines of an open code block held in
      the state until the block is emitted. */
  datatype ParserState = Normal | InCodeBlock(lang: Lang, body: seq<Scanned>)

  function Stream(ls: seq<Scanned>, i: nat, st: ParserState): seq<MdUnit>
    requires i <= |ls|
    decreases |ls| - i
  {
    if i == |ls| then
      match st
      case Normal => []
      case InCodeBlock(lang, body) => [BlockUnit(lang, body)]
    else
      match st
      case Normal =>
        if ls[i].fence then Stream(ls, i + 1, InCodeBlock(ls[i].lang, []))
        else [ls[i].unit] + Stream(ls, i + 1, Normal)
      case InCodeBlock(lang, body) =>
        if ls[i].fence then [BlockUnit(lang, body)] + Stream(ls, i + 1, Normal)
        else Stream(ls, i + 1, InCodeBlock(lang, body + [ls[i]]))
  }

  /** Inside a code block opened before line `a`, at line `j`, with the
      lines `a..j` held: the block is emitted whole and parsing resumes
      after it. */
  predicate BlockResumes(ls: seq<Scanned>, a: nat, j: nat, lang: Lang)
    requires a <= |ls| && a <= j <= FenceEnd(ls, a)
  {
    var k := FenceEnd(ls, a);
    Stream(ls, j, InCodeBlock(lang, ls[a..j]))
    == [BlockUnit(lang, ls[a..k])] + Stream(ls, AfterBlock(ls, k), Normal)
  }

  /** Inside a code block the state machine holds exactly the lines up to
      the closing fence (or the end) and then resumes outside. */
  lemma {:induction false} StreamBlock(ls: seq<Scanned>, a: nat, j: nat, lang: Lang)
    requires a <= |ls| && a <= j <= FenceEnd(ls, a)
    ensures BlockResumes(ls, a, j, lang)
    decreases |ls| - j
  {
    var k := FenceEnd(ls, a);
    if j < k {
      StreamBlock(ls, a, j + 1, lang);
      SliceSnoc(ls, a, j);
    } else if k == |ls| {
      assert Stream(ls, AfterBlock(ls, k), Normal) == [];
    }
  }

  /** The state machine and the look-ahead parser produce the same units. */
  lemma {:induction false} StreamMatchesParse(ls: seq<Scanned>, i: nat)
    requires i <= |ls|
    ensures Stream(ls, i, Normal) == ParseFrom(ls, i)
    decreases |ls| - i
  {
    if i < |ls| {
      if ls[i].fence {
        var k := FenceEnd(ls, i + 1);
        assert ls[i + 1..i + 1] == [];
        StreamBlock(ls, i + 1, i + 1, ls[i].lang);
        StreamMatchesParse(ls, AfterBlock(ls, k));
      } else {
        StreamMatchesParse(ls, i + 1);
      }
    }
  }

  /** `parse_md` agrees with the explicit-state parser on every input. */
  lemma ParseMdIsStream(lines: seq<string>)
    ensures ParseMd(lines).units == Stream(ScanLines(lines), 0, Normal)
  {
    StreamMatchesParse(ScanLines(lines), 0);
  }

  /** The code-block copy loop of `parse_md` as written: the buffer starts
      at 256 bytes with the leading '\n' in it and is doubled at most once
      per line, so a line longer than the buffer is copied past its end.
      True when every `memcpy` and the final terminator stay inside. */
  predicate CodeBufferFitsAsWritten(body: seq<string>, count: nat, size: nat)
    decreases |body|
  {
    if |body| == 0 then count < size
    else
      var read := |body[0]|;
      var size' := if count + read >= size then size * 2 else size;
      count + read <= size' && CodeBufferFitsAsWritten(body[1..], count + read, size')
  }

  /** A fence line followed by one other line is one code block. */
  lemma FenceThenLine(fence: string, line: string)
    requires IsFence(fence) && !IsFence(line)
    ensures ParseMd([fence, line]).units == [CodeBlockUnit(fence, [line])]
  {
    var lines := [fence, line];
    var ls := ScanLines(lines);
    assert ls[0] == ScanLine(fence) && ls[1] == ScanLine(line);
    assert ls[0].fence && ls[0].lang == FenceLang(fence) && !ls[1].fence;
    assert FenceEnd(ls, 1) == 2;
    TextsOfScan(lines, 1, 2);
    assert lines[1..2] == [line];
    assert BlockUnit(ls[0].lang, ls[1..2]) == CodeBlockUnit(fence, [line]);
    assert ParseFrom(ls, 2) == [];
    assert ParseFrom(ls, 0) == [BlockUnit(ls[0].lang, ls[1..2])] + ParseFrom(ls, 2);
  }

  /** A 600-character line inside a code block overruns the 512 bytes the
      single doubling provides. */
  lemma CodeBufferOverflow()
    ensures var long := Repeat('a', 600);
      && ParseMd(["```\n", long]).units == [CodeBlockUnit("```\n", [long])]
      && !CodeBufferFitsAsWritten([long], 1, 256)
  {
    var long := Repeat('a', 600);
    assert long[0] == 'a';
    FenceThenLine("```\n", long);
  }

  /** The code-block copy with the growth repeated until the line fits:
      the buffer always holds the block and its terminator. */
  method CollectCodeBlock(body: seq<string>) returns (buf: string, size: nat)
    ensures buf == "\n" + Concat(body)
    ensures |buf| < size
  {
    size := 256;
    buf := "\n";
    var i := 0;
    while i < |body|
      invariant 0 <= i <= |body|
      invariant buf == "\n" + Concat(body[..i])
      invariant |buf| < size
    {
      var read := |body[i]|;
      while |buf| + read >= size
        invariant |buf| < size
        decreases |buf| + read - size
      {
        size := size * 2;
      }
      ConcatSnoc(body, 0, i);
      assert body[0..i] == body[..i] && body[0..i + 1] == body[..i + 1];
      buf := buf + body[i];
      i := i + 1;
    }
    assert body[..|body|] == body;
  }
}
