/** The XML escaper (src/xml.c): the five characters that have predefined
    entities in section 4.6 of XML 1.0 are replaced by those entities;
    every other character is copied. */
module Xml {
  import opened Nullable
  import opened CStrings

  datatype CharEntity = CharEntity(c: char, str: string)

  /** The `chars[]` table, in enum order. */
  const Chars: seq<CharEntity> := [
    CharEntity('<', "&lt;"),
    CharEntity('>', "&gt;"),
    CharEntity('&', "&amp;"),
    CharEntity('"', "&quot;"),
    CharEntity('\'', "&apos;")
  ]

  /** `N_CHARS`: the table size, also the "not found" index. */
  const NChars: nat := 5

  predicate IsSpecial(c: char) {
    c == '<' || c == '>' || c == '&' || c == '"' || c == '\''
  }

  /** The linear search of `get_char_index`, from position `i` on. */
  function FindFrom(c: char, i: nat): (index: nat)
    requires i <= NChars
    ensures i <= index <= NChars
    ensures index < NChars ==> Chars[index].c == c
    ensures forall j :: i <= j < index ==> Chars[j].c != c
    decreases NChars - i
  {
    if i == NChars then NChars
    else if Chars[i].c == c then i
    else FindFrom(c, i + 1)
  }

  /** `get_char_index`: the position of `c` in the table, or `N_CHARS`. */
  function GetCharIndex(c: char): (index: nat)
    ensures index <= NChars
    ensures index < NChars ==> Chars[index].c == c
    ensures index == NChars <==> !IsSpecial(c)
    ensures c == '<' ==> index == 0
    ensures c == '>' ==> index == 1
    ensures c == '&' ==> index == 2
    ensures c == '"' ==> index == 3
    ensures c == '\'' ==> index == 4
  {
    FindFrom(c, 0)
  }

  /** `xml_char_replace`: the predefined entity for a special character,
      NULL for every other character. */
  function XmlCharReplace(c: char): (r: Option<string>)
    ensures r.Some? <==> IsSpecial(c)
    ensures c == '<' ==> r == Some("&lt;")
    ensures c == '>' ==> r == Some("&gt;")
    ensures c == '&' ==> r == Some("&amp;")
    ensures c == '"' ==> r == Some("&quot;")
    ensures c == '\'' ==> r == Some("&apos;")
  {
    var index := GetCharIndex(c);
    if index != NChars then Some(Chars[index].str) else None
  }

  /** What the copy loop writes for one source character. */
  function Escape(c: char): string
  {
    match XmlCharReplace(c)
    case Some(e) => e
    case None => [c]
  }

  /** The escaped form of a whole string, character by character. */
  function EscapeAll(s: string): string
  {
    if |s| == 0 then [] else Escape(s[0]) + EscapeAll(s[1..])
  }

  lemma {:induction false} EscapeAllSnoc(s: string, c: char)
    ensures EscapeAll(s + [c]) == EscapeAll(s) + Escape(c)
    decreases |s|
  {
    if |s| == 0 {
      assert EscapeAll([c]) == Escape(c) + EscapeAll([]);
    } else {
      assert (s + [c])[1..] == s[1..] + [c];
      EscapeAllSnoc(s[1..], c);
    }
  }

  /** `xml_sanitize_strcpy`: writes the escaped form of exactly the first
      `n` source characters, embedded NULs included. `terminated` tells
      whether a '\0' sits right after the written text: `stpcpy` leaves one
      after an entity, and a plain copy writes none. */
  method XmlSanitizeStrcpy(src: string, n: nat) returns (dest: string, terminated: bool)
    requires n <= |src|
    ensures dest == EscapeAll(src[..n])
    ensures terminated <==> n > 0 && IsSpecial(src[n - 1])
  {
    dest := [];
    terminated := false;
    var count := 0;
    while count < n
      invariant 0 <= count <= n
      invariant dest == EscapeAll(src[..count])
      invariant terminated <==> count > 0 && IsSpecial(src[count - 1])
    {
      var repl := XmlCharReplace(src[count]);
      if repl.Some? {
        dest := dest + repl.value;
        terminated := true;
      } else {
        dest := dest + [src[count]];
        terminated := false;
      }
      assert src[..count + 1] == src[..count] + [src[count]];
      EscapeAllSnoc(src[..count], src[count]);
      count := count + 1;
    }
  }

  /** Each '<' or '>' adds three characters, '&' four, '"' and '\'' five. */
  function Growth(s: string): nat
  {
    3 * (Occurrences(s, '<') + Occurrences(s, '>')) + 4 * Occurrences(s, '&')
    + 5 * (Occurrences(s, '"') + Occurrences(s, '\''))
  }

  lemma {:induction false} EscapedLength(s: string)
    ensures |EscapeAll(s)| == |s| + Growth(s)
    decreases |s|
  {
    if |s| > 0 {
      var init := s[..|s| - 1];
      var c := s[|s| - 1];
      assert s == init + [c];
      EscapedLength(init);
      EscapeAllSnoc(init, c);
    }
  }

  /** Text without special characters is copied unchanged. */
  lemma {:induction false} EscapeWithoutSpecials(s: string)
    requires forall i :: 0 <= i < |s| ==> !IsSpecial(s[i])
    ensures EscapeAll(s) == s
    decreases |s|
  {
    if |s| > 0 {
      EscapeWithoutSpecials(s[1..]);
      assert s == [s[0]] + s[1..];
    }
  }

  /** The first table position whose entity starts `o`, from `i` on. */
  function EntityPrefix(o: string, i: nat): (k: nat)
    requires i <= NChars
    ensures i <= k <= NChars
    ensures k < NChars ==> StartsWith(o, Chars[k].str)
    ensures forall j :: i <= j < k ==> !StartsWith(o, Chars[j].str)
    decreases NChars - i
  {
    if i == NChars then NChars
    else if StartsWith(o, Chars[i].str) then i
    else EntityPrefix(o, i + 1)
  }

  /** Decoding of the five predefined entities; any other character is
      kept as it is. */
  function Unescape(o: string): string
    decreases |o|
  {
    if |o| == 0 then []
    else
      var k := EntityPrefix(o, 0);
      if k < NChars then [Chars[k].c] + Unescape(o[|Chars[k].str|..])
      else [o[0]] + Unescape(o[1..])
  }

  lemma EntitiesUnambiguous(k: nat, rest: string)
    requires k < NChars
    ensures EntityPrefix(Chars[k].str + rest, 0) == k
  {
    var o := Chars[k].str + rest;
    assert o[..|Chars[k].str|] == Chars[k].str;
    forall j | 0 <= j < k
      ensures !StartsWith(o, Chars[j].str)
    {
      assert o[1] == Chars[k].str[1];
      assert o[2] == Chars[k].str[2];
    }
  }

  lemma UnescapeStep(c: char, rest: string)
    ensures Unescape(Escape(c) + rest) == [c] + Unescape(rest)
  {
    var o := Escape(c) + rest;
    var index := GetCharIndex(c);
    if index < NChars {
      EntitiesUnambiguous(index, rest);
      assert o[|Chars[index].str|..] == rest;
    } else {
      assert o[0] == c && c != '&';
      forall j | 0 <= j < NChars
        ensures !StartsWith(o, Chars[j].str)
      {
        assert Chars[j].str[0] == '&';
      }
      assert o[1..] == rest;
    }
  }

  /** Decoding the entities recovers the source text exactly. */
  lemma {:induction false} UnescapeEscapeAll(s: string)
    ensures Unescape(EscapeAll(s)) == s
    decreases |s|
  {
    if |s| > 0 {
      UnescapeStep(s[0], EscapeAll(s[1..]));
      UnescapeEscapeAll(s[1..]);
    }
  }

  /** The text written by `xml_sanitize_strcpy` decodes to the first `n`
      source characters and is as long as the entity counts predict. */
  method SanitizeRoundTrip(src: string, n: nat) returns (dest: string)
    requires n <= |src|
    ensures Unescape(dest) == src[..n]
    ensures |dest| == n + Growth(src[..n])
  {
    var terminated;
    dest, terminated := XmlSanitizeStrcpy(src, n);
    UnescapeEscapeAll(src[..n]);
    EscapedLength(src[..n]);
  }
}
