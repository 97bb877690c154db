/** The HTML renderer (src/html.c): every Markdown unit becomes one HTML
    unit with a tag, and the document is written as the head template,
    one indented chunk per unit, and the tail template. The file itself is
    not modelled: `FlushHtml` returns the text that would be written. */
module Html {
  import opened Nullable
  import opened CStrings
  import Md

  /** `HTMLTag` of include/html.h, in declaration order. */
  datatype HtmlTag =
    | H1 | H2 | H3 | Li | Img | Blockquote
    | CodeBlockStart | CodeBlockEnd | CodeBlockLine
    | NoTag | Newline

  /** The value C gives each enumerator: distinct tags have distinct
      values (see `OrdinalInjective`). */
  function Ordinal(t: HtmlTag): (n: nat)
    ensures n <= 10
  {
    match t
    case H1 => 0
    case H2 => 1
    case H3 => 2
    case Li => 3
    case Img => 4
    case Blockquote => 5
    case CodeBlockStart => 6
    case CodeBlockEnd => 7
    case CodeBlockLine => 8
    case NoTag => 9
    case Newline => 10
  }

  /** No two enumerators share a value, so the value names the tag. */
  lemma OrdinalInjective(a: HtmlTag, b: HtmlTag)
    ensures Ordinal(a) == Ordinal(b) ==> a == b
  {
  }

  /** One row of `tags[]`; `None` stands for a NULL tag string. */
  datatype TagRow = TagRow(key: HtmlTag, start: Option<string>, end: Option<string>)

  /** `tags[]`: nine rows, with no row for `CODE_BLOCK_LINE` or `NEWLINE`. */
  const Tags: seq<TagRow> := [
    TagRow(H1, Some("<h1>"), Some("</h1>")),
    TagRow(H2, Some("<h2>"), Some("</h2>")),
    TagRow(H3, Some("<h3>"), Some("</h3>")),
    TagRow(Li, Some("<li>"), Some("</li>")),
    TagRow(Img, None, None),
    TagRow(Blockquote, Some("<blockquote><q>"), Some("</q></blockquote>")),
    TagRow(CodeBlockStart, Some("<pre>"), None),
    TagRow(CodeBlockEnd, None, Some("</pre>")),
    TagRow(NoTag, None, None)
  ]

  /** `tags[unit->tag]` as written: the row at the tag's enum value, or
      `None` when that read falls past the end of the array. */
  function TagRowAsWritten(t: HtmlTag): Option<TagRow>
  {
    if Ordinal(t) < |Tags| then Some(Tags[Ordinal(t)]) else None
  }

  /** The rows agree with the enum only up to `CODE_BLOCK_END`: the
      code-block-line tag reads the `NONE` row, and `NONE` and `NEWLINE`
      read past the nine rows. */
  lemma TagTableOutOfRange()
    ensures forall t :: Ordinal(t) <= 7 ==>
      TagRowAsWritten(t).Some? && TagRowAsWritten(t).value.key == t
    ensures TagRowAsWritten(CodeBlockLine) == Some(TagRow(NoTag, None, None))
    ensures TagRowAsWritten(NoTag).None?
    ensures TagRowAsWritten(Newline).None?
  {
    forall t | Ordinal(t) <= 7
      ensures TagRowAsWritten(t).Some? && TagRowAsWritten(t).value.key == t
    {
      match t
      case H1 =>
      case H2 =>
      case H3 =>
      case Li =>
      case Img =>
      case Blockquote =>
      case CodeBlockStart =>
      case CodeBlockEnd =>
    }
  }

  /** The first row, from `i` on, whose key is `t`. */
  function FindRow(t: HtmlTag, i: nat): (r: Option<TagRow>)
    requires i <= |Tags|
    ensures r.Some? ==> r.value.key == t && r.value in Tags
    ensures r.None? ==> forall j :: i <= j < |Tags| ==> Tags[j].key != t
    decreases |Tags| - i
  {
    if i == |Tags| then None
    else if Tags[i].key == t then Some(Tags[i])
    else FindRow(t, i + 1)
  }

  /** The row for a tag looked up by its key, as the comment on `tags[]`
      intends: tags without a row have no markup. */
  function TagRowFor(t: HtmlTag): (r: Option<TagRow>)
    ensures r.Some? ==> r.value.key == t
    ensures r.None? <==> t == CodeBlockLine || t == Newline
  {
    FindRow(t, 0)
  }

  /** Looking rows up by key changes nothing where the array is in step
      with the enum, and never reads outside the table. */
  lemma TagRowForAgrees(t: HtmlTag)
    ensures Ordinal(t) <= 7 ==> TagRowFor(t) == TagRowAsWritten(t)
    ensures t == NoTag ==> TagRowFor(t) == Some(Tags[8])
  {
  }

  /** The start tag written for `t`: the one in the row whose key is `t`
      (see `TagStringsByKey`). */
  function StartTag(t: HtmlTag): string
  {
    match t
    case H1 => "<h1>"
    case H2 => "<h2>"
    case H3 => "<h3>"
    case Li => "<li>"
    case Blockquote => "<blockquote><q>"
    case CodeBlockStart => "<pre>"
    case _ => ""
  }

  /** The end tag written for `t`. */
  function EndTag(t: HtmlTag): string
  {
    match t
    case H1 => "</h1>"
    case H2 => "</h2>"
    case H3 => "</h3>"
    case Li => "</li>"
    case Blockquote => "</q></blockquote>"
    case CodeBlockEnd => "</pre>"
    case _ => ""
  }

  /** The tag strings the renderer writes are those of the row found by
      key, a NULL entry or a missing row contributing nothing. */
  lemma TagStringsByKey(t: HtmlTag)
    ensures StartTag(t) == (if TagRowFor(t).Some? then ValueOr(TagRowFor(t).value.start, "") else "")
    ensures EndTag(t) == (if TagRowFor(t).Some? then ValueOr(TagRowFor(t).value.end, "") else "")
  {
    match t
    case H1 => assert TagRowFor(t) == Some(Tags[0]);
    case H2 => assert TagRowFor(t) == Some(Tags[1]);
    case H3 => assert TagRowFor(t) == Some(Tags[2]);
    case Li => assert TagRowFor(t) == Some(Tags[3]);
    case Img => assert TagRowFor(t) == Some(Tags[4]);
    case Blockquote => assert TagRowFor(t) == Some(Tags[5]);
    case CodeBlockStart => assert TagRowFor(t) == Some(Tags[6]);
    case CodeBlockEnd => assert TagRowFor(t) == Some(Tags[7]);
    case NoTag => assert TagRowFor(t) == Some(Tags[8]);
    case CodeBlockLine =>
    case Newline =>
  }

  /** `HTMLUnit`. */
  datatype HtmlUnit = HtmlUnit(tag: HtmlTag, content: Option<string>, uri: Option<string>)

  /** `HTML`: the output file name, the title and the units. */
  datatype Html = Html(fileName: string, title: string, nLines: nat, units: seq<HtmlUnit>)

  const DefaultFileName: string := "index.html"
  const DefaultTitle: string := "Document"

  /** `find_html_tag`: the kinds of include/md.h map to their tags; the
      blank line maps to `NEWLINE`; text and the two code-block kinds of
      src/md.c fall into the default branch. */
  function FindHtmlTag(t: Md.UnitType): (tag: HtmlTag)
    ensures tag == NoTag <==> t == Md.Text || t == Md.CodeBlockBound || t == Md.CodeBlock
    ensures tag == Newline <==> t == Md.Empty
    ensures tag != NoTag ==> SourceKind(tag) == Some(t)
  {
    match t
    case H1 => H1
    case H2 => H2
    case H3 => H3
    case Bullet => Li
    case Image => Img
    case Quote => Blockquote
    case Empty => Newline
    case CodeBlockStart => CodeBlockStart
    case CodeBlockEnd => CodeBlockEnd
    case CodeBlockLine => CodeBlockLine
    case _ => NoTag
  }

  /** The unit kind a tag other than `NONE` comes from. */
  function SourceKind(tag: HtmlTag): Option<Md.UnitType>
  {
    match tag
    case H1 => Some(Md.H1)
    case H2 => Some(Md.H2)
    case H3 => Some(Md.H3)
    case Li => Some(Md.Bullet)
    case Img => Some(Md.Image)
    case Blockquote => Some(Md.Quote)
    case Newline => Some(Md.Empty)
    case CodeBlockStart => Some(Md.CodeBlockStart)
    case CodeBlockEnd => Some(Md.CodeBlockEnd)
    case CodeBlockLine => Some(Md.CodeBlockLine)
    case NoTag => None
  }

  /** Every tag except `NONE` is produced by exactly one unit kind. */
  lemma FindHtmlTagInverse(tag: HtmlTag)
    ensures SourceKind(tag).Some? ==> FindHtmlTag(SourceKind(tag).value) == tag
    ensures SourceKind(tag).None? <==> tag == NoTag
  {
  }

  /** `html_unit_init`: the tag from the kind, a copy of the content and
      the same URI. */
  function HtmlUnitOf(u: Md.MdUnit): HtmlUnit
  {
    HtmlUnit(FindHtmlTag(u.kind), Some(u.content), u.uri)
  }

  /** `html_from_md`: `html_init` sizes the unit array by `n_lines`, and
      the loop fills one entry per unit of the list. */
  function HtmlFromMd(md: Md.Md, fileName: Option<string>, title: Option<string>): (h: Html)
    requires md.nLines == |md.units|
    ensures h.fileName == (if fileName.Some? then fileName.value else DefaultFileName)
    ensures h.title == (if title.Some? then title.value else DefaultTitle)
    ensures h.nLines == |h.units| == |md.units|
    ensures forall i :: 0 <= i < |md.units| ==>
      && h.units[i].tag == FindHtmlTag(md.units[i].kind)
      && h.units[i].content == Some(md.units[i].content)
      && h.units[i].uri == md.units[i].uri
  {
    var units := seq(|md.units|, i requires 0 <= i < |md.units| => HtmlUnitOf(md.units[i]));
    Html(ValueOr(fileName, DefaultFileName), ValueOr(title, DefaultTitle), md.nLines, units)
  }

  /** `tag_is_heading`: block-level tags that end their own line. */
  predicate TagIsHeading(t: HtmlTag) {
    t == H1 || t == H2 || t == H3 || t == Blockquote
  }

  predicate TagIsCodeBlock(t: HtmlTag) {
    t == CodeBlockLine || t == CodeBlockStart || t == CodeBlockEnd
  }

  /** Whether `<br>` follows a unit: list items, images, text and blank
      lines get one; headings, quotes and code-block tags do not. */
  function HasLineBreak(t: HtmlTag): (b: bool)
    ensures b <==> t == Li || t == Img || t == NoTag || t == Newline
  {
    !TagIsHeading(t) && !TagIsCodeBlock(t)
  }

  /** `insert_img_tag`: the tag carries the URI unchanged, between
      `<img src="` and `">`. */
  function InsertImgTag(uri: string): (r: string)
    ensures |r| == |uri| + 12
    ensures StartsWith(r, "<img src=\"")
    ensures ImgSrc(r) == uri
    ensures r[|r| - 2..] == "\">"
  {
    var r := "<img src=\"" + uri + "\">";
    assert r[..10] == "<img src=\"";
    assert r[10..|r| - 2] == uri;
    assert r[|r| - 2..] == "\">";
    r
  }

  /** The URI between `<img src="` and `">`. */
  function ImgSrc(tag: string): string
    requires |tag| >= 12
  {
    tag[10..|tag| - 2]
  }

  const HeadBeforeTitle: string :=
    "<!DOCTYPE html>\n<html lang=\"en\">\n<head>\n\t<meta charset=\"UTF-8\">\n"
    + "\t<meta name=\"viewport\" content=\"width=device-width, initial-scale=1.0\">\n"
    + "\t<title>"

  const HeadAfterTitle: string := "</title>\n</head>\n<body>"

  /** `init_template`: the head with the title substituted. The title is
      exactly what lies between the fixed text before and after it. */
  function InitTemplate(title: string): (r: string)
    ensures |r| == |HeadBeforeTitle| + |title| + |HeadAfterTitle|
    ensures r[..|HeadBeforeTitle|] == HeadBeforeTitle
    ensures r[|r| - |HeadAfterTitle|..] == HeadAfterTitle
    ensures r[|HeadBeforeTitle|..|r| - |HeadAfterTitle|] == title
  {
    Sandwich(HeadBeforeTitle, title, HeadAfterTitle);
    HeadBeforeTitle + title + HeadAfterTitle
  }

  /** `final_template`. */
  const FinalTemplate: string := "\n</body>\n</html>\n"

  /** The content follows the start tag verbatim and is followed by the
      end tag. After the end tag comes an `<img>` tag carrying the URI for
      an image unit that has one, and nothing for any other unit. */
  function UnitBody(u: HtmlUnit): (r: string)
    ensures var front := StartTag(u.tag) + ValueOr(u.content, "");
      && StartsWith(r, front)
      && |r| >= |front| + |EndTag(u.tag)|
      && r[|front|..|front| + |EndTag(u.tag)|] == EndTag(u.tag)
    ensures u.tag == Img && u.uri.Some? ==>
      var n := |StartTag(u.tag) + ValueOr(u.content, "") + EndTag(u.tag)|;
      |r| == n + |u.uri.value| + 12 && r[n..] == InsertImgTag(u.uri.value)
    ensures !(u.tag == Img && u.uri.Some?) ==>
      |r| == |StartTag(u.tag) + ValueOr(u.content, "") + EndTag(u.tag)|
  {
    var front := StartTag(u.tag) + ValueOr(u.content, "");
    var img := if u.uri.Some? && u.tag == Img then InsertImgTag(u.uri.value) else "";
    var r := front + EndTag(u.tag) + img;
    Sandwich(front, EndTag(u.tag), img);
    AppendSlices(front + EndTag(u.tag), img);
    r
  }

  /** A unit as the layout sees it: its tag and the text of its body. */
  datatype Cell = Cell(tag: HtmlTag, body: string)

  function Cells(units: seq<HtmlUnit>): (cs: seq<Cell>)
    ensures |cs| == |units|
    ensures forall i :: 0 <= i < |units| ==> cs[i] == Cell(units[i].tag, UnitBody(units[i]))
  {
    seq(|units|, i requires 0 <= i < |units| => Cell(units[i].tag, UnitBody(units[i])))
  }

  /** `<ul>` is written before cell `i` when a run of list items starts. */
  predicate OpensList(cs: seq<Cell>, i: nat)
    requires i < |cs|
  {
    cs[i].tag == Li && (i == 0 || cs[i - 1].tag != Li)
  }

  /** `</ul>` is written after cell `i` when a run of list items ends. */
  predicate ClosesList(cs: seq<Cell>, i: nat)
    requires i < |cs|
  {
    cs[i].tag == Li && (i == |cs| - 1 || cs[i + 1].tag != Li)
  }

  const UlStart: string := "\t<ul>\n"
  const UlEnd: string := "\n\t</ul>"

  /** What one pass of the loop of `flush_html` writes for a unit with
      tag `t` and body text `body`; `open` and `close` tell whether a list
      starts before, respectively ends after, the unit. */
  function Piece(open: bool, t: HtmlTag, body: string, close: bool): string
  {
    "\n"
    + (if open then UlStart else "")
    + (if t != CodeBlockLine then "\t" else "")
    + (if t == Li then "\t" else "")
    + body
    + (if HasLineBreak(t) then "<br>" else "")
    + (if close then UlEnd else "")
  }

  /** The chunk the loop writes for cell `i`. */
  function Chunk(cs: seq<Cell>, i: nat): string
    requires i < |cs|
  {
    Piece(OpensList(cs, i), cs[i].tag, cs[i].body, ClosesList(cs, i))
  }

  /** The chunks of the cells from `i` on, in order: the loop of
      `flush_html` from iteration `i`. */
  function Loop(cs: seq<Cell>, i: nat): string
    requires i <= |cs|
    decreases |cs| - i
  {
    if i == |cs| then [] else Chunk(cs, i) + Loop(cs, i + 1)
  }

  /** `flush_html`: the text written to the output file. It opens with the
      head, whose title is the document's, and closes with the tail; the
      text in between is described by `FlushHtmlGrouped`. */
  function FlushHtml(h: Html): (out: string)
    requires h.nLines == |h.units|
    ensures |out| >= |InitTemplate(h.title)| + |FinalTemplate|
    ensures StartsWith(out, InitTemplate(h.title))
    ensures out[|HeadBeforeTitle|..|HeadBeforeTitle| + |h.title|] == h.title
    ensures out[|out| - |FinalTemplate|..] == FinalTemplate
  {
    var body := Loop(Cells(h.units), 0);
    Framed(h.title, body);
    InitTemplate(h.title) + body + FinalTemplate
  }

  /** The head and the tail around any body text. */
  lemma Framed(title: string, body: string)
    ensures var out := InitTemplate(title) + body + FinalTemplate;
      && |out| >= |InitTemplate(title)| + |FinalTemplate|
      && StartsWith(out, InitTemplate(title))
      && out[|HeadBeforeTitle|..|HeadBeforeTitle| + |title|] == title
      && out[|out| - |FinalTemplate|..] == FinalTemplate
  {
    var head := InitTemplate(title);
    var out := head + body + FinalTemplate;
    Sandwich(head, body, FinalTemplate);
    SliceOfPrefix(out, |head|, |HeadBeforeTitle|, |HeadBeforeTitle| + |title|);
  }

  // ---- List balance ----

  /** How many of the first `n` cells open, respectively close, a list. */
  function Opens(cs: seq<Cell>, n: nat): nat
    requires n <= |cs|
  {
    if n == 0 then 0 else Opens(cs, n - 1) + (if OpensList(cs, n - 1) then 1 else 0)
  }

  function Closes(cs: seq<Cell>, n: nat): nat
    requires n <= |cs|
  {
    if n == 0 then 0 else Closes(cs, n - 1) + (if ClosesList(cs, n - 1) then 1 else 0)
  }

  /** After the first `n` cells, one list is open exactly when cell `n - 1`
      is a list item that does not close its list. */
  lemma {:induction false} OpensCloses(cs: seq<Cell>, n: nat)
    requires n <= |cs|
    ensures Opens(cs, n)
         == Closes(cs, n) + (if n > 0 && cs[n - 1].tag == Li && !ClosesList(cs, n - 1) then 1 else 0)
  {
    if n > 0 {
      OpensCloses(cs, n - 1);
    }
  }

  /** Every `<ul>` written is matched by one `</ul>`. */
  lemma ListsBalanced(cs: seq<Cell>)
    ensures Opens(cs, |cs|) == Closes(cs, |cs|)
  {
    OpensCloses(cs, |cs|);
  }

  // ---- Grouped rendering ----

  /** The document as blocks: each maximal run of list items is one list,
      every other cell stands alone. */
  datatype Block = List(items: seq<Cell>) | Single(c: Cell)

  /** The length of the run of list items at the front of `cs`. */
  function RunLength(cs: seq<Cell>): (n: nat)
    ensures n <= |cs|
    ensures n == |cs| || cs[n].tag != Li
  {
    if |cs| == 0 || cs[0].tag != Li then 0 else 1 + RunLength(cs[1..])
  }

  /** The run is made of list items only, and is empty exactly when the
      first cell is not one. */
  lemma {:induction false} RunLengthItems(cs: seq<Cell>)
    ensures forall k :: 0 <= k < RunLength(cs) ==> cs[k].tag == Li
    ensures RunLength(cs) == 0 <==> |cs| == 0 || cs[0].tag != Li
    decreases |cs|
  {
    if |cs| > 0 && cs[0].tag == Li {
      RunLengthItems(cs[1..]);
    }
  }

  function Group(cs: seq<Cell>): seq<Block>
    decreases |cs|
  {
    if |cs| == 0 then []
    else if cs[0].tag == Li then
      var n := RunLength(cs);
      [List(cs[..n])] + Group(cs[n..])
    else [Single(cs[0])] + Group(cs[1..])
  }

  /** A list item inside its list: two tabs, the item, a line break. */
  function ItemText(body: string): string
  {
    "\t\t" + body + "<br>"
  }

  /** Each further item on a line of its own. */
  function MoreItems(items: seq<Cell>): string
  {
    if |items| == 0 then [] else "\n" + ItemText(items[0].body) + MoreItems(items[1..])
  }

  /** The items of a list, one per line. */
  function ListBody(items: seq<Cell>): string
    requires |items| > 0
  {
    ItemText(items[0].body) + MoreItems(items[1..])
  }

  /** A cell outside any list: a new line, its indentation, the body and
      its line break. */
  function SingleText(c: Cell): string
  {
    "\n" + (if c.tag != CodeBlockLine then "\t" else "") + c.body
    + (if HasLineBreak(c.tag) then "<br>" else "")
  }

  function RenderBlock(b: Block): string
  {
    match b
    case List(items) =>
      if |items| == 0 then [] else "\n" + UlStart + ListBody(items) + UlEnd
    case Single(c) => SingleText(c)
  }

  function RenderBlocks(bs: seq<Block>): string
  {
    if |bs| == 0 then [] else RenderBlock(bs[0]) + RenderBlocks(bs[1..])
  }

  /** A list item's chunk is its item text between the optional list
      brackets. */
  lemma PieceItem(open: bool, body: string, close: bool)
    ensures Piece(open, Li, body, close)
         == "\n" + (if open then UlStart else "") + ItemText(body) + (if close then UlEnd else "")
  {
    var o := if open then UlStart else "";
    var c := if close then UlEnd else "";
    assert Piece(open, Li, body, close) == "\n" + o + "\t" + "\t" + body + "<br>" + c;
  }

  /** The chunk of a list item in context. */
  lemma ChunkOfItem(cs: seq<Cell>, k: nat)
    requires k < |cs| && cs[k].tag == Li
    ensures Chunk(cs, k)
         == "\n" + (if OpensList(cs, k) then UlStart else "") + ItemText(cs[k].body)
            + (if ClosesList(cs, k) then UlEnd else "")
  {
    PieceItem(OpensList(cs, k), cs[k].body, ClosesList(cs, k));
  }

  /** Any other cell's chunk is its stand-alone text. */
  lemma ChunkOfSingle(cs: seq<Cell>, k: nat)
    requires k < |cs| && cs[k].tag != Li
    ensures Chunk(cs, k) == SingleText(cs[k])
  {
  }

  // Regroupings of a concatenation. A chunk is a flat concatenation of its
  // pieces (see `Piece`), the absent ones written as `[]`, while a list
  // block nests the items; these lemmas move the parentheses between the
  // two shapes for the last, a middle, the only and the first item.

  lemma AssocLastItem(n: string, item: string, z: string, rest: string)
    ensures n + [] + item + z + rest == n + item + [] + z + rest
  {
  }

  lemma AssocNextItem(n: string, item: string, more: string, z: string, rest: string)
    ensures n + [] + item + [] + (more + z + rest) == n + item + more + z + rest
  {
  }

  /** Inside a run of list items ending before `e`, the chunks from `j` on
      are the remaining items, the list's end, and whatever follows. */
  lemma {:induction false} RunTail(cs: seq<Cell>, j: nat, e: nat)
    requires 0 < j < e <= |cs|
    requires forall k :: j - 1 <= k < e ==> cs[k].tag == Li
    requires e == |cs| || cs[e].tag != Li
    ensures Loop(cs, j) == MoreItems(cs[j..e]) + UlEnd + Loop(cs, e)
    decreases e - j
  {
    var item := ItemText(cs[j].body);
    ChunkOfItem(cs, j);
    assert !OpensList(cs, j);
    assert cs[j..e][0] == cs[j] && cs[j..e][1..] == cs[j + 1..e];
    if j + 1 == e {
      assert ClosesList(cs, j);
      assert cs[j + 1..e] == [];
      AssocLastItem("\n", item, UlEnd, Loop(cs, e));
    } else {
      assert !ClosesList(cs, j);
      RunTail(cs, j + 1, e);
      AssocNextItem("\n", item, MoreItems(cs[j + 1..e]), UlEnd, Loop(cs, e));
    }
  }

  lemma AssocOneItem(n: string, u: string, item: string, z: string, rest: string)
    ensures n + u + item + z + rest == n + u + (item + []) + z + rest
  {
  }

  lemma AssocFirstItem(n: string, u: string, item: string, more: string, z: string, rest: string)
    ensures n + u + item + [] + (more + z + rest) == n + u + (item + more) + z + rest
  {
  }

  /** A maximal run of list items from `i` to `e` is written as one list
      block. */
  lemma RunBlock(cs: seq<Cell>, i: nat, e: nat)
    requires i < e <= |cs|
    requires i == 0 || cs[i - 1].tag != Li
    requires forall k :: i <= k < e ==> cs[k].tag == Li
    requires e == |cs| || cs[e].tag != Li
    ensures Loop(cs, i) == RenderBlock(List(cs[i..e])) + Loop(cs, e)
  {
    var item := ItemText(cs[i].body);
    ChunkOfItem(cs, i);
    assert OpensList(cs, i);
    assert cs[i..e][0] == cs[i] && cs[i..e][1..] == cs[i + 1..e];
    if i + 1 == e {
      assert ClosesList(cs, i);
      assert cs[i + 1..e] == [];
      AssocOneItem("\n", UlStart, item, UlEnd, Loop(cs, e));
    } else {
      assert !ClosesList(cs, i);
      RunTail(cs, i + 1, e);
      AssocFirstItem("\n", UlStart, item, MoreItems(cs[i + 1..e]), UlEnd, Loop(cs, e));
    }
  }

  lemma RenderBlocksCons(b: Block, bs: seq<Block>)
    ensures RenderBlocks([b] + bs) == RenderBlock(b) + RenderBlocks(bs)
  {
    assert ([b] + bs)[1..] == bs;
  }

  /** The groups of a suffix that starts with a run of list items: the
      run up to `e` is the first group. */
  lemma GroupRun(cs: seq<Cell>, i: nat) returns (e: nat)
    requires i < |cs| && cs[i].tag == Li
    ensures i < e <= |cs|
    ensures forall k :: i <= k < e ==> cs[k].tag == Li
    ensures e == |cs| || cs[e].tag != Li
    ensures Group(cs[i..]) == [List(cs[i..e])] + Group(cs[e..])
  {
    var rest := cs[i..];
    var n := RunLength(rest);
    RunLengthItems(rest);
    e := i + n;
    forall k | i <= k < e
      ensures cs[k].tag == Li
    {
      assert cs[k] == rest[k - i];
    }
    assert rest[..n] == cs[i..e];
    assert rest[n..] == cs[e..];
  }

  lemma GroupSingle(cs: seq<Cell>, i: nat)
    requires i < |cs| && cs[i].tag != Li
    ensures Group(cs[i..]) == [Single(cs[i])] + Group(cs[i + 1..])
  {
    assert cs[i..][1..] == cs[i + 1..];
  }

  /** From a block boundary on, the neighbour-based chunks write exactly
      the blocks. */
  lemma {:induction false} LoopIsBlocks(cs: seq<Cell>, i: nat)
    requires i <= |cs|
    requires i == 0 || i == |cs| || cs[i - 1].tag != Li || cs[i].tag != Li
    ensures Loop(cs, i) == RenderBlocks(Group(cs[i..]))
    decreases |cs| - i, 1
  {
    if i == |cs| {
      assert cs[i..] == [];
    } else if cs[i].tag == Li {
      RunStep(cs, i);
    } else {
      SingleStep(cs, i);
    }
  }

  /** A run of list items starting at `i` is one list block followed by
      the blocks after it. */
  lemma {:induction false} RunStep(cs: seq<Cell>, i: nat)
    requires i < |cs| && cs[i].tag == Li
    requires i == 0 || cs[i - 1].tag != Li
    ensures Loop(cs, i) == RenderBlocks(Group(cs[i..]))
    decreases |cs| - i, 0
  {
    var e := GroupRun(cs, i);
    LoopIsBlocks(cs, e);
    RenderBlocksCons(List(cs[i..e]), Group(cs[e..]));
    RunBlock(cs, i, e);
  }

  /** A cell outside any list is a block of its own followed by the blocks
      after it. */
  lemma {:induction false} SingleStep(cs: seq<Cell>, i: nat)
    requires i < |cs| && cs[i].tag != Li
    ensures Loop(cs, i) == RenderBlocks(Group(cs[i..]))
    decreases |cs| - i, 0
  {
    LoopIsBlocks(cs, i + 1);
    GroupSingle(cs, i);
    RenderBlocksCons(Single(cs[i]), Group(cs[i + 1..]));
    ChunkOfSingle(cs, i);
  }

  /** The written text is the head, the blocks rendered one after another,
      and the tail: every maximal run of list items sits inside exactly one
      `<ul>` ... `</ul>`. */
  lemma FlushHtmlGrouped(h: Html)
    requires h.nLines == |h.units|
    ensures FlushHtml(h) == InitTemplate(h.title) + RenderBlocks(Group(Cells(h.units))) + FinalTemplate
  {
    var cs := Cells(h.units);
    LoopIsBlocks(cs, 0);
    assert cs[0..] == cs;
  }

  /** Grouping keeps every cell, in order. */
  function Flatten(bs: seq<Block>): seq<Cell>
  {
    if |bs| == 0 then []
    else
      (match bs[0]
       case List(items) => items
       case Single(c) => [c])
      + Flatten(bs[1..])
  }

  lemma {:induction false} GroupFlatten(cs: seq<Cell>)
    ensures Flatten(Group(cs)) == cs
    decreases |cs|
  {
    if |cs| > 0 {
      if cs[0].tag == Li {
        var n := RunLength(cs);
        GroupFlatten(cs[n..]);
        assert cs[..n] + cs[n..] == cs;
      } else {
        GroupFlatten(cs[1..]);
        assert [cs[0]] + cs[1..] == cs;
      }
    }
  }
}
