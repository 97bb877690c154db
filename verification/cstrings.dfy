/** Helpers shared by every module: the model's view of NUL-terminated
    C strings as Dafny `seq<char>` values. */
module CStrings {

  /** Reading `s[i]` in C, where the byte just past the end is the
      terminator: any index at or beyond the length reads '\0'. */
  function At(s: string, i: nat): (c: char)
    ensures i < |s| ==> c == s[i]
    ensures i >= |s| ==> c == '\0'
  {
    if i < |s| then s[i] else '\0'
  }

  /** A string that C can hold without truncation. */
  predicate NoNul(s: string) {
    forall i :: 0 <= i < |s| ==> s[i] != '\0'
  }

  predicate StartsWith(s: string, prefix: string) {
    |prefix| <= |s| && s[..|prefix|] == prefix
  }

  /** The concatenation of a sequence of strings, in order. */
  function Concat(ss: seq<string>): string
  {
    if |ss| == 0 then [] else Concat(ss[..|ss| - 1]) + ss[|ss| - 1]
  }

  /** Concatenating one more string of a slice. */
  lemma ConcatSnoc(ss: seq<string>, a: nat, j: nat)
    requires a <= j < |ss|
    ensures Concat(ss[a..j + 1]) == Concat(ss[a..j]) + ss[j]
  {
    assert ss[a..j + 1][..j - a] == ss[a..j];
  }

  /** A sequence is its prefix followed by its suffix. */
  lemma SplitAt<T>(s: seq<T>, n: nat)
    requires n <= |s|
    ensures s[..n] + s[n..] == s
  {
  }

  /** Extending a slice by the element after it. */
  lemma SliceSnoc<T>(s: seq<T>, a: nat, j: nat)
    requires a <= j < |s|
    ensures s[a..j] + [s[j]] == s[a..j + 1]
  {
  }

  /** Number of occurrences of `c` in `s`. */
  function Occurrences(s: string, c: char): nat
  {
    if |s| == 0 then 0
    else Occurrences(s[..|s| - 1], c) + (if s[|s| - 1] == c then 1 else 0)
  }

  /** `n` copies of the character `c`. */
  function Repeat(c: char, n: nat): (r: string)
    ensures |r| == n
    ensures forall i :: 0 <= i < n ==> r[i] == c
  {
    seq(n, _ => c)
  }

  // Concatenation laws, stated over opaque pieces so that callers never
  // have to compare long texts character by character.

  lemma AppendAssoc<T>(a: seq<T>, b: seq<T>, c: seq<T>)
    ensures (a + b) + c == a + (b + c)
  {
  }

  lemma AppendEmpty<T>(a: seq<T>)
    ensures a + [] == a && [] + a == a
  {
  }

  /** The two halves of a concatenation are its prefix and suffix. */
  lemma AppendSlices<T>(a: seq<T>, b: seq<T>)
    ensures (a + b)[..|a|] == a && (a + b)[|a|..] == b
  {
  }

  lemma SliceOfSuffix<T>(s: seq<T>, n: nat, m: nat)
    requires n + m <= |s|
    ensures s[n..][..m] == s[n..n + m]
  {
  }

  /** The three parts of `a + m + b` sit at their offsets. */
  lemma Sandwich<T>(a: seq<T>, m: seq<T>, b: seq<T>)
    ensures |a + m + b| == |a| + |m| + |b|
    ensures (a + m + b)[..|a|] == a
    ensures (a + m + b)[|a|..|a| + |m|] == m
    ensures (a + m + b)[|a| + |m|..] == b
  {
    AppendSlices(a + m, b);
    AppendSlices(a, m);
  }

  /** A slice that lies inside a prefix of `s` is that slice of the prefix. */
  lemma SliceOfPrefix<T>(s: seq<T>, n: nat, i: nat, j: nat)
    requires i <= j <= n <= |s|
    ensures s[..n][i..j] == s[i..j]
  {
  }
}
