# md2html in Dafny

A model of the core of md2html, a small Markdown-to-HTML converter written
in C. It covers the whole pipeline:

- **`Md`** (`md.dfy`): the current line parser of `src/md.c`. Each input
  line is classified by prefix tests that run in a fixed order: blank line,
  quote, list item, code fence, then headings, and otherwise text. The
  marker and one trailing newline are removed. A fenced code block becomes
  one unit whose content is `"\n"` followed by the lines verbatim.
- **`LegacyMd`** (`legacy_md.dfy`): the earlier parser, `md.c` at the
  repository root. It knows only headings and `-` bullets, and it has its
  own unit enum from `md.h`.
- **`Html`** (`html.dfy`): the renderer of `src/html.c`. Unit kinds map
  to tags. `html_from_md` copies the unit list. `flush_html` is modelled as
  a function from units to the text it would write: the head template,
  then one indented chunk per unit (each run of list items sits between
  `<ul>` and `</ul>`), then the tail template. The start and end tags of a
  unit come from the tag table looked up by key (`Html.TagStringsByKey`),
  not by array index. The C code indexes the nine-row table by the tag
  value, so text and blank units (NONE, NEWLINE) read `tags[9]` and
  `tags[10]` outside the array, and code-block lines read the NONE row;
  the model gives those tags no markup (see "## Findings").
- **`Syntax`** (`syntax.dfy`): the keyword highlighter of `src/syntax.c`.
  It wraps keyword prefixes in `<font color="...">` and escapes the five
  special characters.
- **`Xml`** (`xml.dfy`): the escaper of `src/xml.c`. It uses the predefined
  entities of section 4.6 of XML 1.0.
- **`Footnotes`** (`footnotes.dfy`): the footnote registry of
  `src/footnotes.c`. It is an immutable value with add and lookup
  functions, and `Valid` states the 1-based numbering invariant.
- **`Uuid`** (`uuid.dfy`): the anchor-id generator of `src/uuid.c`. The
  values `rand()` would return are a parameter.
- **`CStrings`** and **`Nullable`** hold the helpers that the modules
  share:
  - `At` reads `'\0'` past the end, as a C string does.
  - `Option` stands for a pointer that may be NULL, and `ValueOr` reads
    it with a fallback for NULL.

Input lines are a `seq<string>`, given as `getline` returns them: each
keeps its final `'\n'`. Output is a `string`. Each source file is modelled
against its own enums. `src/md.c` uses two unit kinds,
`UNIT_TYPE_CODE_BLOCK_BOUND` and `UNIT_TYPE_CODE_BLOCK`, that
`include/md.h` does not declare. They are added to `Md.UnitType`, and
`find_html_tag` sends them to its default branch, as the C `switch` does.

Each operation is paired with an independent statement of what it
computes:

| operation | partner |
|---|---|
| look-ahead parser `Md.ParseFrom` | explicit state machine `Md.Stream` |
| index-based `flush_html` loop | block renderer over maximal list runs (`Html.Group`) |
| escaping and highlighting | decoders (`Xml.Unescape`, `Syntax.Unhighlight`) that recover the input |
| UUID generator | RFC 4122 text layout, reached by every draw and reaching every layout |

## Model

| member | source | states |
|---|---|---|
| Md.FindMdUnitType | src/md.c:113-169 | For each kind, the condition on the first characters that yields it: a leading `'\n'` gives the blank kind, `"> "` gives a quote, and a list marker followed by a different, non-NUL character gives a bullet (so `**` and `--` are text). Three backticks give a fence. `"# "`, `"## "` and `"### "` give H1 to H3. Every other line is text. |
| Md.RemoveTrailingNewLine | src/md.c:172-186 | At most one final `'\n'` is removed. A string without one, the empty string included, is returned unchanged. |
| Md.FindMdContent | src/md.c:188-214 | The content is the line with exactly the kind's marker length cut from the front: 2, 3, 4, 2 and 2 characters for H1, H2, H3, bullet and quote, and 0 for the other kinds. |
| Md.ContentOffsetFits | src/md.c:301-308 | For the kind the classifier picks, the marker skip never goes past the end of the line. |
| Md.LineUnitMarker | src/md.c:188-214 | The unit's kind is the one `Md.FindMdUnitType` specifies for the line. What is cut is the marker of that kind: `"# "`, `"## "`, `"### "`, `"> "`, or a list marker followed by a different character. Text, blank and fence lines lose nothing. |
| Md.LineUnit | src/md.c:266-308 | A line outside a code block yields a unit whose kind is what the tests of `find_md_unit_type` give. The unit has no URI and no language, and its content fits in the line after the marker. |
| Md.LineUnitContent | src/md.c:301-308 | For a line that is not a fence, the line equals the cut marker, then the content, then the `'\n'` that was removed, if there was one. |
| Md.BlankLineHasEmptyContent | src/md.c:117-121 | A blank line, as `getline` returns it, yields empty content. |
| Md.FindCodeBlockLang | src/md.c:216-233 | After the backticks, any text starting with `c` selects C. Otherwise `diff` selects DIFF, and otherwise `html` selects HTML. Every other fence has no language. |
| Md.FenceIsCodeBlockBound | src/md.c:55-58 | A line is a fence exactly when it starts with three backticks. |
| Md.ParseMd | src/md.c:322-325 | `n_lines` equals the number of units appended, and there are never more units than lines. |
| Md.ParseFrom | src/md.c:260-323 | Every unit appended consumes at least one line, so from any position there are at most as many units as lines left. Its independent partner is `Md.StreamMatchesParse`. |
| Md.ParseWithoutFences | src/md.c:260-323 | Without fence lines, each line becomes one unit, in input order. |
| Md.FenceThenLine | src/md.c:268-300 | A fence followed by one line is a single code-block unit. Its content is `"\n"` and the line, verbatim, in the fence's language. |
| Md.UnterminatedFence | src/md.c:283-300 | A fence with no closing fence after it takes every remaining line into one code-block unit. |
| Md.StreamBlock | src/md.c:283-296 | Inside a block, the held lines are exactly those up to the closing fence or the end of input. The closing fence is not stored, and parsing resumes after it. |
| Md.StreamMatchesParse | src/md.c:260-323 | The line-at-a-time state machine yields the same units as the look-ahead parser from every position. |
| Md.ParseMdIsStream | src/md.c:245-329 | `parse_md` equals the explicit-state parser on every input. |
| Md.CodeBufferOverflow | src/md.c:288-295 | A 600-character line inside a code block is stored whole, yet the buffer as written (256 bytes, doubled once) cannot hold it. |
| Md.CollectCodeBlock | src/md.c:274-300 | A copy loop that repeats the growth until each line fits builds `"\n"` plus the concatenated body, and always leaves room for the terminator. |
| LegacyMd.FindMdUnitType | md.c:58-94 | Headings are checked first: `"# "`, `"## "` and `"### "` give H1 to H3. A `-` followed by a character other than `-` and NUL gives a bullet. Every other line is text, including `"\n"`, `*` and `+` lines, and the classifier never returns NONE. |
| LegacyMd.FindMdContent | md.c:110-136 | The content is the line with 2, 3, 4 or 2 characters cut for H1, H2, H3 or bullet, and nothing cut for text. |
| LegacyMd.LineUnit | md.c:149-153 | The unit's kind is the one `LegacyMd.FindMdUnitType` specifies for the line. The line equals the cut marker, then the content, then the `'\n'` that was removed. The cut part is the marker of that kind: `"## a\n"` gives an H2 unit holding `"a"`. |
| LegacyMd.ReadMdUnit | md.c:155-167 | The new unit is appended after all earlier units, which stay as they were. |
| LegacyMd.ReadAll | md.c:195-199 | Unit `i` is the unit of line `i`: unit order equals line order. |
| LegacyMd.ParseMd | md.c:180-205 | `n_lines` equals the number of lines read, which equals the number of units. |
| Xml.GetCharIndex | src/xml.c:46-56 | The result is the table position of `<`, `>`, `&`, `"` or `'` (0 to 4), and `N_CHARS` exactly for every other character. |
| Xml.XmlCharReplace | src/xml.c:58-76 | The five special characters get `&lt;`, `&gt;`, `&amp;`, `&quot;` and `&apos;`. Every other character gets NULL. |
| Xml.XmlSanitizeStrcpy | src/xml.c:78-105 | Exactly `n` source characters are consumed, embedded NULs included. The output is their escaped forms in order. A terminator follows only when the last one was special. |
| Xml.EscapedLength | src/xml.c:38-44 | The output length is the input length plus 3 per `<` or `>`, 4 per `&`, and 5 per `"` or `'`. |
| Xml.EscapeWithoutSpecials | src/xml.c:96-100 | Text without special characters is copied unchanged. |
| Xml.EntitiesUnambiguous | src/xml.c:38-44 | No entity of the table is a prefix of another one followed by any text, so an entity is decoded as itself. |
| Xml.UnescapeEscapeAll | src/xml.c:86-104 | Decoding the five entities in the escaped text gives back the source. |
| Xml.SanitizeRoundTrip | src/xml.c:78-105 | The written text decodes to the first `n` source characters, and its length is `n` plus the entity growth. |
| Syntax.SameEscapeTable | src/syntax.c:59-68 | The highlighter's entity table is identical to the escaper's. |
| Syntax.GetCharIndex | src/syntax.c:70-80 | The result is the first table position holding the character, or 5, and agrees with `Xml.GetCharIndex`. |
| Syntax.CKeywordsDecodable | src/syntax.c:85-90 | The C keywords `#include` and `return` are non-empty. Their colours hold no `"`, and the keywords hold no `<`, so wrapped keywords can be told apart. |
| Syntax.MatchKeyword | src/syntax.c:124-131 | The result is the first table keyword that is a prefix of the remaining input, or the table size when none is. |
| Syntax.NextToken | src/syntax.c:107-177 | Whitespace is copied and never starts a keyword. A matching keyword is wrapped, and the cursor moves by its length. Any other character becomes its escaped form, and the cursor moves by one. |
| Syntax.SyntaxHighlight | src/syntax.c:185-202 | Only C is highlighted, and every other language gets NULL. For a block without NUL, the output is at least as long as the block, and removing the font wrappers and decoding the entities gives the block back. |
| Syntax.HighlightKeywords | src/syntax.c:93-183 | Every input character contributes at least one output character, so a NUL-free input never shrinks. Its partner is `Syntax.UnhighlightRoundTrip`. |
| Syntax.KeywordInsideWord | src/syntax.c:124-156 | There is no word-boundary test: `returned` becomes the wrapped `return` followed by `ed`. |
| Syntax.WrapPrefixUnique | src/syntax.c:136-153 | The wrapped form `<font color="C">K</font>` determines the colour and the keyword. |
| Syntax.UnhighlightRoundTrip | src/syntax.c:93-183 | Removing the font wrappers and decoding the entities in the output recovers the input exactly. |
| Syntax.ScanWritesHighlight | src/syntax.c:107-178 | The output is the concatenation of what the scan's steps write, in order. |
| Syntax.HighlightBufferOverflow | src/syntax.c:111-116 | For 998 plain characters followed by `"`, the entity and its terminator end past the 1000-byte buffer, which the growth check never enlarged. |
| Syntax.HighlightBuffered | src/syntax.c:98-183 | With the growth check repeated until each write fits, the buffer always holds the highlighted text and its terminator. |
| Html.Ordinal | include/html.h:16-28 | The tag enum's values run from 0 to 10. |
| Html.OrdinalInjective | include/html.h:16-28 | No two enumerators of the tag enum share a value. |
| Html.TagTableOutOfRange | src/html.c:26-36 | Indexing `tags[]` by enum value finds the row with the right key only up to CODE_BLOCK_END. CODE_BLOCK_LINE reads the NONE row, and NONE and NEWLINE read past the nine rows. |
| Html.TagRowFor | src/html.c:23-36 | A lookup by key, as the comment on `tags[]` intends, finds a row with that key. It finds no row exactly for CODE_BLOCK_LINE and NEWLINE. |
| Html.TagRowForAgrees | src/html.c:26-36 | Where the array is in step with the enum, the lookup by key finds the same row as the lookup by index. |
| Html.TagStringsByKey | src/html.c:288-295 | The start and end tags written are those of the row found by key. A NULL entry or a missing row contributes nothing. |
| Html.FindHtmlTag | src/html.c:63-93 | Each unit kind of `include/md.h` maps to its tag, and the blank kind maps to NEWLINE. Text and the two code-block kinds of `src/md.c` map to NONE. |
| Html.FindHtmlTagInverse | src/html.c:63-93 | Every tag except NONE comes from exactly one unit kind. |
| Html.HtmlFromMd | src/html.c:168-198 | There is one HTML unit per Markdown unit, in order, with the mapped tag, copied content and the same URI. The file name and title are `index.html` and `Document` unless an argument is given. |
| Html.HasLineBreak | src/html.c:300-301 | `<br>` follows a unit exactly when its tag is LI, IMG, NONE or NEWLINE, that is, neither a heading-like tag nor a code-block tag. |
| Html.InsertImgTag | src/html.c:242-249 | The image tag starts with `<img src="` and ends with `">`. It is 12 characters longer than the URI, and the URI can be read back unchanged from between the two. |
| Html.InitTemplate | src/html.c:127-145 | The head is fixed text, then the title, then fixed text. The title is exactly what lies between the two. |
| Html.UnitBody | src/html.c:288-298 | A unit's body is its start tag, its content verbatim, then its end tag. After the end tag comes the `<img>` tag carrying the URI for an image unit that has one, and nothing for any other unit. |
| Html.FlushHtml | src/html.c:257-314 | The output starts with the head template, and the document title sits at its place in the head. The output ends with `"\n</body>\n</html>\n"`. |
| Html.ChunkOfItem | src/html.c:273-308 | A list item is written as a newline, `<ul>` if a run starts there, two tabs, the body and `<br>`, then `</ul>` if the run ends there. |
| Html.ChunkOfSingle | src/html.c:273-301 | Any other unit is written as a newline, a tab unless it is a code-block line, the body, and `<br>` as the tag demands. |
| Html.ListsBalanced | src/html.c:275-308 | The loop writes as many `<ul>` as `</ul>`. |
| Html.OpensCloses | src/html.c:275-308 | After any prefix of the units, one list is open exactly when the last unit is a list item that does not close its run. |
| Html.RunBlock | src/html.c:275-308 | A maximal run of list items is written as one `<ul>` block holding the items, one per line. |
| Html.LoopIsBlocks | src/html.c:266-309 | From any position that does not split a run, the loop writes what the block renderer writes for the grouped units. |
| Html.FlushHtmlGrouped | src/html.c:257-314 | The output of `flush_html` is the head, then each maximal list run as one `<ul>` block and each other unit on its own line, then the tail. |
| Html.GroupFlatten | src/html.c:266-309 | Grouping into runs and single units keeps every unit, in order. |
| Footnotes.FootnotesNew | src/footnotes.c:34-45 | A new registry has no references, and it is valid. |
| Footnotes.ReferenceInit | src/footnotes.c:47-59 | The reference holds the given index, identifier and text and has no referrers. Its anchor id is 36 characters with the RFC 4122 layout, then a terminator. |
| Footnotes.FootnotesAdd | src/footnotes.c:61-75 | The count rises by one, and earlier references are unchanged. The new reference is numbered with the new count, holds copies of the identifier and text, and has no referrers. The numbering invariant is kept. |
| Footnotes.FootnotesGetCount | src/footnotes.c:93-97 | The count is zero exactly for an empty registry. In a valid registry, every index lies between 1 and the count. |
| Footnotes.CountIsAdds | src/footnotes.c:93-97 | After a sequence of adds, the count is the number of adds and the registry is valid. The references hold the definitions in order. |
| Footnotes.FootnotesGetRef | src/footnotes.c:99-115 | A NULL identifier gives NULL. Otherwise a reference is found exactly when one has that identifier, and it is one of the registry's. |
| Footnotes.GetRefEarliest | src/footnotes.c:106-112 | With duplicate identifiers, the lookup returns the earliest reference. |
| Footnotes.AddKeepsEarlierLookup | src/footnotes.c:99-115 | Adding a reference never changes the result of a lookup that already succeeded. |
| Footnotes.GetRefFromIndexOffByOne | src/footnotes.c:117-125 | The guard as written lets the count itself and `-1` through to reads outside the array. |
| Footnotes.FootnotesGetRefFromIndex | src/footnotes.c:117-125 | With the corrected bound, a reference is returned exactly for positions 0 up to, but not including, the count. |
| Footnotes.GetRefFromIndexAgrees | src/footnotes.c:117-125 | The corrected lookup agrees with the code wherever the code reads inside the array. In a valid registry, position `i` holds the reference numbered `i + 1`. |
| Footnotes.FootnotesAddReferrer | src/footnotes.c:127-140 | The 1-based index names the reference, whose referrers gain the anchor id at the end. No other reference changes. |
| Footnotes.AddReferrerKeepsValid | src/footnotes.c:127-140 | Adding a referrer keeps the numbering invariant, and the referrer count of that reference rises by one. |
| Uuid.UuidGenerateRandom | src/uuid.c:34-51 | Positions 8, 13, 18 and 23 hold `-`, and every other position below 36 holds `v[r % 16]` for its draw `r`. Position 36 holds the terminator. |
| Uuid.UuidOf | src/uuid.c:34-51 | For any draws, the buffer is 37 characters. The text before the terminator has the 8-4-4-4-12 layout of section 3 of RFC 4122. |
| Uuid.HexValue | src/uuid.c:37-38 | Every lower-case hex digit is an entry of `v[]`, at its value. |
| Uuid.UuidSurjective | src/uuid.c:37-43 | Every text with that layout is produced by some sequence of draws. |

## Left out

- File I/O: `getline`, `fopen`, `fwrite` and `fclose` are not modelled. The parsers take the lines as a sequence, and `Html.FlushHtml` returns the text that would be written.
- Process entry, argument handling and the root `html.c`: `main.c`, `src/main.c`, `src/params.c` and `html.c` only plumb file names, flags and a constant template.
- Heap management: `malloc`, `realloc` and `free`, the NULL checks after them, and `md_free`, `html_free` and `footnotes_free` are not modelled. The only exceptions are the two buffer bounds under "## Findings".
- Fixed-size `sprintf` buffers (`template[1000]` in `init_template`, `img[200]` in `insert_img_tag`) are modelled as unbounded strings.
- `uuid_init` and `rand()`: the seed and the generator are replaced by the sequence of values `rand()` returns.
- Uuid.UuidGenerateRandom: takes `UUID_NUM_CHARACTERS` as 36, because the header defining it is not part of this model.
- Md.LineUnitContent: the content keeps any characters after an embedded NUL. `strdup` would stop there, and that truncation is not modelled.
- LegacyMd.LineUnit: the content keeps any characters after an embedded NUL. In `md.c`, `strlen` (md.c:102) and `strdup` (md.c:153) stop at the first NUL, so the line "a\0b\n" gives the content "a" in C and "a\0b" in the model.
- Html.FlushHtml: a unit's content is written whole. In C, the `strdup` in `html_unit_init` (src/html.c:117) and the `fwrite` of `strlen` bytes (src/html.c:291-292) stop at the first NUL. Code-block content can hold a NUL, because `src/md.c:294` copies lines with `memcpy`. For the lines "```\n" and "a\0b\n", the C code writes "\na" where the model writes the whole buffer.
- Html.HtmlFromMd: copies the content whole. The `strdup` truncation at a NUL is not modelled.
- Footnotes.ReferenceInit: stores the identifier and text whole. The `strdup` copies would stop at a NUL.
- Footnotes.FootnotesGetRef: compares identifiers whole, where `strcmp` stops at the first NUL. Identifiers that agree up to a NUL match in C but not in the model.
- A Dafny `char` stands for one byte of a C `char *` string. Multi-byte encodings such as UTF-8 are not modelled; every string operation works byte by byte, as the C code does.
- Html.HtmlFromMd: every content is `Some`. `html_unit_init` leaves the content unset only for a NULL Markdown content, which `src/md.c` never produces.
- Html.HtmlFromMd: requires `n_lines` to equal the number of units. `html_init` sizes the unit array by `n_lines`, and `parse_md` always makes the two equal.
- Html.FlushHtml: requires `n_lines` to equal the number of units, for the same reason.
- `html_from_md`: `include/html.h` declares it with a `Params *` argument, while `src/html.c` defines it with a file name and a title. The model follows the definition.
- Html.TagStringsByKey: the renderer uses the table looked up by key (see "## Findings"). For tags up to CODE_BLOCK_END this is the same row as the array read.
- Footnotes.FootnotesAdd: does not model wrap-around of the `int` counter `n_refs`, since the count is unbounded.
- Footnotes.FootnotesAddReferrer: returns `None` for an index that names no reference, where the C code dereferences NULL or reads outside the array. The anchor id is stored whole, and the `strncpy` into the fixed `uuid_t` field is not modelled.
- Syntax.SyntaxHighlight: states the length bound and the round trip only for a block without NUL, because the scan stops at the first NUL.
- `isspace` is taken in the C locale. The colour and keyword field widths of `struct keyword` do not matter for the two C keywords and are not modelled.
- `src/md.c:260` assigns the comparison `getline (...) != -1` to `read`. The outer loop never uses that value, so this has no effect and is not modelled.
- Behaviour absent from the code is not modelled: inline emphasis, links, footnote citations and definitions, string, number and comment lexing, diff highlighting, and image detection in `src/md.c`.

## Findings

| source | as written | input that shows it | evidently intended | confidence | as-written member | corrected member |
|---|---|---|---|---|---|---|
| src/md.c:288-292 | The code-block buffer is doubled at most once per line, whatever the line's length. | A fence line followed by a 600-character line: the buffer grows from 256 to 512 bytes, and `memcpy` writes 600 bytes at offset 1. | Grow until the line and the terminator fit. | high, not executed | Md.CodeBufferOverflow | Md.CollectCodeBlock |
| src/html.c:26-36 | `tags[]` has nine rows but is indexed by the 11-value tag enum. | Any text line (tag NONE, value 9) or blank line (tag NEWLINE, value 10) reads past the array. A code-block line reads the NONE row. | Each tag uses the row whose key is that tag, as the comment on `tags[]` demands. Tags without a row have no markup. | high, not executed | Html.TagTableOutOfRange | Html.TagStringsByKey |
| src/syntax.c:111-116 | The buffer grows only when `count` equals `size - 1` exactly, and a multi-character write can jump over that value. | 998 plain characters followed by `"`: `&quot;` is written at offset 998, and it and its terminator end at byte 1004 of a 1000-byte buffer. | Grow until each write and the terminator fit. | high, not executed | Syntax.HighlightBufferOverflow | Syntax.HighlightBuffered |
| src/footnotes.c:121 | The guard `index > n_refs` admits `index == n_refs` and negative indexes. | `footnotes_add_referrer (notes, n_refs + 1, id)` or `footnotes_add_referrer (notes, 0, id)` reads `refs[n_refs]` or `refs[-1]`. | Only 0-based positions below the count. | high, not executed | Footnotes.GetRefFromIndexOffByOne | Footnotes.FootnotesGetRefFromIndex |
