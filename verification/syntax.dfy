/** The keyword highlighter (src/syntax.c): a per-character rewriter that
    wraps keyword prefixes in `<font color="...">` and escapes the five
    XML special characters with the same entity table as src/xml.c. */
module Syntax {
  import opened CStrings
  import opened Nullable
  import Xml
  import Md

  /** syntax.c's own copy of the entity table. */
  const Chars: seq<Xml.CharEntity> := [
    Xml.CharEntity('<', "&lt;"),
    Xml.CharEntity('>', "&gt;"),
    Xml.CharEntity('&', "&amp;"),
    Xml.CharEntity('"', "&quot;"),
    Xml.CharEntity('\'', "&apos;")
  ]

  const NChars: nat := 5

  /** syntax.c's table is the one xml.c uses. */
  lemma SameEscapeTable()
    ensures Chars == Xml.Chars && NChars == Xml.NChars
  {
  }

  /** `get_char_index` of syntax.c: the first table position holding `c`,
      or `N_CHARS`. */
  function GetCharIndex(c: char): (index: nat)
    ensures index <= NChars
    ensures index < NChars ==> Chars[index].c == c
    ensures forall j :: 0 <= j < index ==> Chars[j].c != c
    ensures index == Xml.GetCharIndex(c)
  {
    if c == Chars[0].c then 0
    else if c == Chars[1].c then 1
    else if c == Chars[2].c then 2
    else if c == Chars[3].c then 3
    else if c == Chars[4].c then 4
    else NChars
  }

  /** `struct keyword`: the text matched and its colour. */
  datatype Keyword = Keyword(str: string, color: string)

  /** `c_keywords`. */
  const CKeywords: seq<Keyword> := [
    Keyword("#include", "#5FD7FF"),
    Keyword("return", "#E9AD0C")
  ]

  /** A table the scan can use: every keyword advances the cursor. */
  predicate ValidKeywords(kws: seq<Keyword>) {
    forall k :: 0 <= k < |kws| ==> |kws[k].str| > 0
  }

  /** A table whose wrapped keywords can be told apart again: no colour
      holds '"' and no keyword holds '<'. */
  predicate DecodableKeywords(kws: seq<Keyword>) {
    && ValidKeywords(kws)
    && (forall k, i :: 0 <= k < |kws| && 0 <= i < |kws[k].color| ==> kws[k].color[i] != '"')
    && (forall k, i :: 0 <= k < |kws| && 0 <= i < |kws[k].str| ==> kws[k].str[i] != '<')
  }

  lemma CKeywordsDecodable()
    ensures DecodableKeywords(CKeywords)
  {
  }

  /** `isspace` in the C locale. */
  predicate IsSpace(c: char) {
    c == ' ' || c == '\t' || c == '\n' || c == '\U{B}' || c == '\U{C}' || c == '\r'
  }

  /** The keyword loop: the first table entry, from `i` on, that is a prefix
      of the remaining input, or `|kws|`. */
  function MatchKeyword(s: string, kws: seq<Keyword>, i: nat): (k: nat)
    requires i <= |kws|
    ensures i <= k <= |kws|
    ensures k < |kws| ==> StartsWith(s, kws[k].str)
    ensures forall j :: i <= j < k ==> !StartsWith(s, kws[j].str)
    decreases |kws| - i
  {
    if i == |kws| then i
    else if StartsWith(s, kws[i].str) then i
    else MatchKeyword(s, kws, i + 1)
  }

  const FontOpen: string := "<font color=\""
  const FontClose: string := "</font>"

  /** The five pieces `highlight_keywords` copies for a keyword. */
  function Wrap(kw: Keyword): string
  {
    FontOpen + kw.color + "\">" + kw.str + FontClose
  }

  /** One step of the scan: how many input characters it consumes, what it
      writes, and whether it wrote by plain assignment (`copied`) rather
      than by `strcpy`, which also writes a terminator. */
  datatype Token = Token(consumed: nat, out: string, copied: bool)

  /** The step itself, without its contract (see `NextToken`). */
  function Step(s: string, kws: seq<Keyword>): (t: Token)
    requires |s| > 0 && ValidKeywords(kws)
    ensures 1 <= t.consumed <= |s| && t.consumed <= |t.out|
  {
    if IsSpace(s[0]) then Token(1, [s[0]], true)
    else
      var k := MatchKeyword(s, kws, 0);
      if k < |kws| then Token(|kws[k].str|, Wrap(kws[k]), false)
      else
        var index := GetCharIndex(s[0]);
        if index != NChars then Token(1, Chars[index].str, false)
        else Token(1, [s[0]], true)
  }

  /** One pass of the `while (*ptr)` loop of `highlight_keywords`: a space
      is copied, a keyword prefix is wrapped, a special character becomes
      its entity, anything else is copied. */
  function NextToken(s: string, kws: seq<Keyword>): (t: Token)
    requires |s| > 0 && ValidKeywords(kws)
    ensures 1 <= t.consumed <= |s| && t.consumed <= |t.out|
    ensures IsSpace(s[0]) ==> t == Token(1, [s[0]], true)
    ensures !IsSpace(s[0]) && MatchKeyword(s, kws, 0) < |kws| ==>
      var k := MatchKeyword(s, kws, 0);
      t == Token(|kws[k].str|, Wrap(kws[k]), false)
    ensures !IsSpace(s[0]) && MatchKeyword(s, kws, 0) == |kws| ==>
      t.consumed == 1 && t.out == Xml.Escape(s[0]) && (t.copied <==> !Xml.IsSpecial(s[0]))
  {
    Step(s, kws)
  }

  lemma HighlightUnfold(s: string, kws: seq<Keyword>)
    requires ValidKeywords(kws) && !AtEnd(s)
    ensures var t := Step(s, kws);
      HighlightKeywords(s, kws) == t.out + HighlightKeywords(s[t.consumed..], kws)
  {
  }

  /** True when the scan stops: the end of the C string. */
  predicate AtEnd(s: string) {
    |s| == 0 || s[0] == '\0'
  }

  /** `highlight_keywords`: the concatenation of the steps' output up to
      the first NUL. Every input character contributes at least one output
      character, so a NUL-free input never shrinks. */
  function HighlightKeywords(s: string, kws: seq<Keyword>): (r: string)
    requires ValidKeywords(kws)
    ensures NoNul(s) ==> |r| >= |s|
    decreases |s|
  {
    if AtEnd(s) then []
    else
      var t := Step(s, kws);
      t.out + HighlightKeywords(s[t.consumed..], kws)
  }

  /** `syntax_highlight`: only C is highlighted; any other language yields
      NULL. The highlighted text never shrinks a NUL-free block, and
      stripping its wrappers and entities gives the block back. */
  function SyntaxHighlight(codeblk: string, lang: Md.Lang): (r: Option<string>)
    ensures r.Some? <==> lang == Md.LangC
    ensures r.Some? && NoNul(codeblk) ==> |r.value| >= |codeblk|
    ensures r.Some? && NoNul(codeblk) ==> Unhighlight(r.value, CKeywords) == codeblk
  {
    if lang == Md.LangC then
      CKeywordsDecodable();
      var out := HighlightKeywords(codeblk, CKeywords);
      if NoNul(codeblk) then
        UnhighlightRoundTrip(codeblk, CKeywords);
        Some(out)
      else Some(out)
    else None
  }

  /** There is no word-boundary test: `returned` highlights `return`. */
  lemma KeywordInsideWord()
    ensures HighlightKeywords("returned", CKeywords) == Wrap(CKeywords[1]) + "ed"
  {
    var s := "returned";
    assert s[0] != CKeywords[0].str[0];
    assert StartsWith(s, CKeywords[1].str);
    assert Step(s, CKeywords) == Token(6, Wrap(CKeywords[1]), false);
    assert s[6..] == "ed";
    assert !StartsWith("ed", CKeywords[0].str) && !StartsWith("ed", CKeywords[1].str);
    assert Step("ed", CKeywords) == Token(1, "e", true);
    assert "ed"[1..] == "d";
    assert !StartsWith("d", CKeywords[0].str) && !StartsWith("d", CKeywords[1].str);
    assert Step("d", CKeywords) == Token(1, "d", true);
    assert HighlightKeywords("d", CKeywords) == "d" + HighlightKeywords("d"[1..], CKeywords);
  }

  /** The first keyword whose wrapped form starts `o`, from `i` on. */
  function WrapPrefix(o: string, kws: seq<Keyword>, i: nat): (k: nat)
    requires i <= |kws|
    ensures i <= k <= |kws|
    ensures k < |kws| ==> StartsWith(o, Wrap(kws[k]))
    ensures forall j :: i <= j < k ==> !StartsWith(o, Wrap(kws[j]))
    decreases |kws| - i
  {
    if i == |kws| then i
    else if StartsWith(o, Wrap(kws[i])) then i
    else WrapPrefix(o, kws, i + 1)
  }

  /** Strips the `<font>` wrappers and decodes the entities. */
  function Unhighlight(o: string, kws: seq<Keyword>): string
    decreases |o|
  {
    if |o| == 0 then []
    else
      var w := WrapPrefix(o, kws, 0);
      if w < |kws| then kws[w].str + Unhighlight(o[|Wrap(kws[w])|..], kws)
      else
        var k := Xml.EntityPrefix(o, 0);
        if k < Xml.NChars then [Xml.Chars[k].c] + Unhighlight(o[|Xml.Chars[k].str|..], kws)
        else [o[0]] + Unhighlight(o[1..], kws)
  }

  /** A wrapped keyword determines its keyword: if one wrapped form starts
      another wrapped form followed by anything, the two keywords agree. */
  lemma WrapPrefixUnique(a: Keyword, b: Keyword, rest: string)
    requires forall i :: 0 <= i < |a.color| ==> a.color[i] != '"'
    requires forall i :: 0 <= i < |b.color| ==> b.color[i] != '"'
    requires forall i :: 0 <= i < |a.str| ==> a.str[i] != '<'
    requires forall i :: 0 <= i < |b.str| ==> b.str[i] != '<'
    requires StartsWith(Wrap(b) + rest, Wrap(a))
    ensures a == b
  {
    var o := Wrap(b) + rest;
    var wa := Wrap(a);
    var p := |FontOpen|;
    assert p == 13;
    assert forall i :: 0 <= i < |wa| ==> wa[i] == o[i];
    assert wa[p + |a.color|] == '"';
    assert o[p + |b.color|] == '"';
    assert |a.color| == |b.color|;
    assert a.color == wa[p..p + |a.color|] == o[p..p + |b.color|] == b.color;
    var m := p + |a.color| + 2;
    assert wa[m + |a.str|] == '<';
    assert o[m + |b.str|] == '<';
    assert |a.str| == |b.str|;
    assert a.str == wa[m..m + |a.str|] == o[m..m + |b.str|] == b.str;
  }

  /** A wrapped keyword decodes to the keyword. */
  lemma UnhighlightKeyword(kws: seq<Keyword>, k: nat, rest: string)
    requires DecodableKeywords(kws) && k < |kws|
    ensures Unhighlight(Wrap(kws[k]) + rest, kws) == kws[k].str + Unhighlight(rest, kws)
  {
    var o := Wrap(kws[k]) + rest;
    var w := WrapPrefix(o, kws, 0);
    assert o[..|Wrap(kws[k])|] == Wrap(kws[k]);
    assert w < |kws|;
    WrapPrefixUnique(kws[w], kws[k], rest);
    assert o[|Wrap(kws[w])|..] == rest;
  }

  /** No wrapped keyword starts with anything but '<'. */
  lemma NoWrapPrefix(o: string, kws: seq<Keyword>)
    requires |o| > 0 && o[0] != '<'
    ensures WrapPrefix(o, kws, 0) == |kws|
  {
    forall j | 0 <= j < |kws|
      ensures !StartsWith(o, Wrap(kws[j]))
    {
      assert Wrap(kws[j])[0] == '<';
    }
  }

  /** An entity decodes to its character. */
  lemma UnhighlightEntity(c: char, kws: seq<Keyword>, rest: string)
    requires Xml.IsSpecial(c)
    ensures Unhighlight(Xml.Escape(c) + rest, kws) == [c] + Unhighlight(rest, kws)
  {
    var o := Xml.Escape(c) + rest;
    var index := Xml.GetCharIndex(c);
    assert o[0] == '&';
    NoWrapPrefix(o, kws);
    Xml.EntitiesUnambiguous(index, rest);
    assert o[|Xml.Chars[index].str|..] == rest;
  }

  /** Any other character decodes to itself. */
  lemma UnhighlightPlain(c: char, kws: seq<Keyword>, rest: string)
    requires !Xml.IsSpecial(c)
    ensures Unhighlight([c] + rest, kws) == [c] + Unhighlight(rest, kws)
  {
    var o := [c] + rest;
    NoWrapPrefix(o, kws);
    forall j | 0 <= j < Xml.NChars
      ensures !StartsWith(o, Xml.Chars[j].str)
    {
      assert Xml.Chars[j].str[0] == '&';
    }
    assert o[1..] == rest;
  }

  /** Any character the scan does not wrap decodes to itself. */
  lemma UnhighlightChar(c: char, kws: seq<Keyword>, rest: string)
    ensures Unhighlight(Xml.Escape(c) + rest, kws) == [c] + Unhighlight(rest, kws)
  {
    if Xml.IsSpecial(c) {
      UnhighlightEntity(c, kws, rest);
    } else {
      UnhighlightPlain(c, kws, rest);
    }
  }

  /** The step at a keyword: the wrapped keyword, consuming the keyword. */
  lemma StepKeyword(s: string, kws: seq<Keyword>, k: nat)
    requires |s| > 0 && ValidKeywords(kws)
    requires !IsSpace(s[0]) && k == MatchKeyword(s, kws, 0) && k < |kws|
    ensures Step(s, kws) == Token(|kws[k].str|, Wrap(kws[k]), false)
    ensures s[..|kws[k].str|] == kws[k].str
  {
  }

  /** Any other step writes the escaped character and consumes it. */
  lemma StepChar(s: string, kws: seq<Keyword>)
    requires |s| > 0 && ValidKeywords(kws)
    requires IsSpace(s[0]) || MatchKeyword(s, kws, 0) == |kws|
    ensures Step(s, kws).out == Xml.Escape(s[0]) && Step(s, kws).consumed == 1
    ensures s[..1] == [s[0]]
  {
    var t := NextToken(s, kws);
  }

  /** Decoding undoes one step of the scan. */
  lemma UnhighlightStep(s: string, kws: seq<Keyword>, rest: string)
    requires |s| > 0 && DecodableKeywords(kws)
    ensures var t := Step(s, kws);
      Unhighlight(t.out + rest, kws) == s[..t.consumed] + Unhighlight(rest, kws)
  {
    var k := MatchKeyword(s, kws, 0);
    if !IsSpace(s[0]) && k < |kws| {
      StepKeyword(s, kws, k);
      UnhighlightKeyword(kws, k, rest);
    } else {
      StepChar(s, kws);
      UnhighlightChar(s[0], kws, rest);
    }
  }

  /** Stripping the wrappers and decoding the entities in the output
      recovers the input. */
  lemma {:induction false} UnhighlightRoundTrip(s: string, kws: seq<Keyword>)
    requires DecodableKeywords(kws) && NoNul(s)
    ensures Unhighlight(HighlightKeywords(s, kws), kws) == s
    decreases |s|
  {
    if |s| > 0 {
      var t := Step(s, kws);
      var rest := s[t.consumed..];
      UnhighlightStep(s, kws, HighlightKeywords(rest, kws));
      UnhighlightRoundTrip(rest, kws);
      SplitAt(s, t.consumed);
    }
  }

  /** The steps of the scan, in order, up to the first NUL. The list runs
      the recursion of `HighlightKeywords` step by step; it exists so that
      the buffer bookkeeping of `FitsAsWritten` can see each write. */
  function Scan(s: string, kws: seq<Keyword>): seq<Token>
    requires ValidKeywords(kws)
    decreases |s|
  {
    if AtEnd(s) then []
    else
      var t := Step(s, kws);
      [t] + Scan(s[t.consumed..], kws)
  }

  /** What a list of steps writes, in order. */
  function Written(ts: seq<Token>): string
    decreases |ts|
  {
    if |ts| == 0 then [] else ts[0].out + Written(ts[1..])
  }

  /** The scan's steps write exactly the highlighted text. */
  lemma {:induction false} ScanWritesHighlight(s: string, kws: seq<Keyword>)
    requires ValidKeywords(kws)
    ensures Written(Scan(s, kws)) == HighlightKeywords(s, kws)
    decreases |s|
  {
    if !AtEnd(s) {
      var t := Step(s, kws);
      ScanWritesHighlight(s[t.consumed..], kws);
      assert Scan(s, kws)[1..] == Scan(s[t.consumed..], kws);
    }
  }

  /** The output buffer of `highlight_keywords` as written, given the
      writes of the scan: it starts at 1000 bytes and is quadrupled only
      when `count` is exactly `size - 1`, so a multi-character write that
      jumps over that value leaves `count` past the end. True when every
      write, with the terminator `strcpy` adds, stays inside. */
  predicate FitsAsWritten(ts: seq<Token>, count: nat, size: nat)
    decreases |ts|
  {
    if |ts| == 0 then count < size
    else
      var size' := if count == size - 1 then size * 4 else size;
      var end := count + |ts[0].out| + (if ts[0].copied then 0 else 1);
      end <= size' && FitsAsWritten(ts[1..], count + |ts[0].out|, size')
  }

  /** A run of one-character copies that stays below `size - 1` neither
      grows the buffer nor overruns it. */
  lemma {:induction false} PlainRunFits(ts: seq<Token>, n: nat, count: nat, size: nat)
    requires n <= |ts| && forall i :: 0 <= i < n ==> ts[i] == Token(1, "a", true)
    requires count + n < size
    ensures FitsAsWritten(ts, count, size) == FitsAsWritten(ts[n..], count + n, size)
    decreases n
  {
    if n > 0 {
      PlainRunFits(ts[1..], n - 1, count + 1, size);
      assert ts[1..][n - 1..] == ts[n..];
    }
  }

  /** Plain 'a' characters are scanned one copy each. */
  lemma {:induction false} ScanPlainRun(s: string, n: nat)
    requires n <= |s| && forall i :: 0 <= i < n ==> s[i] == 'a'
    ensures n <= |Scan(s, CKeywords)|
    ensures forall i :: 0 <= i < n ==> Scan(s, CKeywords)[i] == Token(1, "a", true)
    ensures Scan(s, CKeywords)[n..] == Scan(s[n..], CKeywords)
    decreases n
  {
    CKeywordsDecodable();
    if n > 0 {
      assert s[0] != CKeywords[0].str[0] && s[0] != CKeywords[1].str[0];
      assert MatchKeyword(s, CKeywords, 0) == 2;
      assert Step(s, CKeywords) == Token(1, "a", true);
      ScanPlainRun(s[1..], n - 1);
      assert s[1..][n - 1..] == s[n..];
    }
  }

  /** 998 plain characters followed by '"': the entity is written at
      offset 998 and, with its terminator, ends past the 1000-byte buffer. */
  lemma HighlightBufferOverflow()
    ensures !FitsAsWritten(Scan(Repeat('a', 998) + "\"", CKeywords), 0, 1000)
  {
    CKeywordsDecodable();
    var input := Repeat('a', 998) + "\"";
    ScanPlainRun(input, 998);
    var ts := Scan(input, CKeywords);
    PlainRunFits(ts, 998, 0, 1000);
    assert input[998..] == "\"";
    var s := "\"";
    assert s[0] != CKeywords[0].str[0] && s[0] != CKeywords[1].str[0];
    assert MatchKeyword(s, CKeywords, 0) == 2;
    assert Step(s, CKeywords) == Token(1, "&quot;", false);
    assert ts[998..] == [Token(1, "&quot;", false)];
  }

  /** `highlight_keywords` with the growth check repeated before each write
      until the write and its terminator fit: the buffer always holds the
      output and its terminator. */
  method HighlightBuffered(s: string, kws: seq<Keyword>) returns (out: string, size: nat)
    requires ValidKeywords(kws)
    ensures out == HighlightKeywords(s, kws)
    ensures |out| < size
  {
    size := 1000;
    out := [];
    var ptr := 0;
    while ptr < |s| && s[ptr] != '\0'
      invariant 0 <= ptr <= |s|
      invariant out + HighlightKeywords(s[ptr..], kws) == HighlightKeywords(s, kws)
      invariant |out| < size
      decreases |s| - ptr
    {
      var rest := s[ptr..];
      HighlightUnfold(rest, kws);
      var t := Step(rest, kws);
      while |out| + |t.out| + 1 > size
        invariant |out| < size
        decreases |out| + |t.out| + 1 - size
      {
        size := size * 4;
      }
      assert rest[t.consumed..] == s[ptr + t.consumed..];
      AppendAssoc(out, t.out, HighlightKeywords(rest[t.consumed..], kws));
      out := out + t.out;
      ptr := ptr + t.consumed;
    }
    assert AtEnd(s[ptr..]);
  }
}
