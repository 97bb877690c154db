/** The earlier Markdown parser (md.c at the repository root): headings
    and '-' bullets only, no blank-line kind, no code blocks, one unit per
    input line appended at the tail of the unit list. It has its own unit
    enum (md.h), modelled here separately from the current parser. */
module LegacyMd {
  import opened CStrings
  import Current = Md

  /** The unit kinds of md.h. `Empty` (`UNIT_TYPE_NONE`) is only the
      initial value of a fresh unit; the classifier never returns it. */
  datatype UnitType = H1 | H2 | H3 | Bullet | Text | Empty

  datatype MdUnit = MdUnit(kind: UnitType, content: string)

  datatype Md = Md(nLines: nat, units: seq<MdUnit>)

  /** `find_md_unit_type` of md.c: headings are checked first, then a '-'
      followed by some other character; everything else is text. */
  function FindMdUnitType(line: string): (t: UnitType)
    ensures t == H1 <==> |line| >= 2 && line[0] == '#' && line[1] == ' '
    ensures t == H2 <==> |line| >= 3 && line[0] == '#' && line[1] == '#' && line[2] == ' '
    ensures t == H3 <==>
      |line| >= 4 && line[0] == '#' && line[1] == '#' && line[2] == '#' && line[3] == ' '
    ensures t == Bullet <==> |line| >= 2 && line[0] == '-' && line[1] != '-' && line[1] != '\0'
    ensures t != Empty
    ensures |line| > 0 && (line[0] == '*' || line[0] == '+' || line[0] == '\n') ==> t == Text
  {
    if At(line, 0) != '\0' && At(line, 0) == '#' then
      if At(line, 1) != '\0' && At(line, 1) == '#' then
        if At(line, 2) != '\0' && At(line, 2) == '#' then
          if At(line, 3) == ' ' then H3 else Text
        else if At(line, 2) != '\0' && At(line, 2) == ' ' then H2
        else Text
      else if At(line, 1) != '\0' && At(line, 1) == ' ' then H1
      else Text
    else if At(line, 0) != '\0' && At(line, 0) == '-' && At(line, 1) != '\0' && At(line, 1) != '-' then
      Bullet
    else
      Text
  }

  /** How many leading characters `find_md_content` of md.c skips. */
  function ContentOffset(t: UnitType): nat
  {
    match t
    case H1 => 2
    case H2 => 3
    case H3 => 4
    case Bullet => 2
    case _ => 0
  }

  /** `find_md_content` of md.c. */
  function FindMdContent(line: string, t: UnitType): (r: string)
    requires ContentOffset(t) <= |line|
    ensures line == line[..ContentOffset(t)] + r
  {
    line[ContentOffset(t)..]
  }

  /** The unit `read_md_unit` builds for one line: the marker is skipped,
      then at most one trailing '\n' is removed (md.c's
      `remove_trailing_new_line` is the same rule as src/md.c's). */
  function LineUnit(line: string): (u: MdUnit)
    ensures u.kind == FindMdUnitType(line)
    ensures var off := ContentOffset(u.kind);
      && off <= |line|
      && line == line[..off] + u.content
                 + (if Current.EndsWithNewLine(line) && off < |line| then "\n" else "")
      && (u.kind == H1 ==> line[..off] == "# ")
      && (u.kind == H2 ==> line[..off] == "## ")
      && (u.kind == H3 ==> line[..off] == "### ")
      && (u.kind == Bullet ==> off == 2 && line[0] == '-')
      && (u.kind == Text ==> off == 0)
  {
    var t := FindMdUnitType(line);
    Current.StripSplit(line, ContentOffset(t));
    Marker(line);
    MdUnit(t, Current.RemoveTrailingNewLine(FindMdContent(line, t)))
  }

  /** The characters the classifier looked at are the marker of the kind. */
  lemma Marker(line: string)
    ensures var t := FindMdUnitType(line);
      var off := ContentOffset(t);
      && off <= |line|
      && (t == H1 ==> line[..off] == "# ")
      && (t == H2 ==> line[..off] == "## ")
      && (t == H3 ==> line[..off] == "### ")
      && (t == Bullet ==> off == 2 && line[0] == '-')
      && (t == Text ==> off == 0)
  {
    match FindMdUnitType(line) {
      case H1 => assert line[..2] == "# ";
      case H2 => assert line[..3] == "## ";
      case H3 => assert line[..4] == "### ";
      case _ =>
    }
  }

  /** `read_md_unit`: the new unit is linked after the current last one. */
  function ReadMdUnit(units: seq<MdUnit>, line: string): (r: seq<MdUnit>)
    ensures |r| == |units| + 1
    ensures r[..|units|] == units
    ensures r[|units|] == LineUnit(line)
  {
    units + [LineUnit(line)]
  }

  /** The unit list after reading every line in turn. */
  function ReadAll(lines: seq<string>): (units: seq<MdUnit>)
    ensures |units| == |lines|
    ensures forall i :: 0 <= i < |lines| ==> units[i] == LineUnit(lines[i])
  {
    if |lines| == 0 then []
    else
      var init := lines[..|lines| - 1];
      assert forall i :: 0 <= i < |init| ==> init[i] == lines[i];
      ReadMdUnit(ReadAll(init), lines[|lines| - 1])
  }

  /** `parse_md` of md.c: `n_lines` counts the lines read. */
  function ParseMd(lines: seq<string>): (md: Md)
    ensures md.nLines == |lines| == |md.units|
    ensures forall i :: 0 <= i < |lines| ==> md.units[i] == LineUnit(lines[i])
  {
    Md(|lines|, ReadAll(lines))
  }
}
