/** The anchor-id generator (src/uuid.c): 36 characters drawn from the hex
    digits, with dashes at the four group boundaries, then a terminator.
    The C library's `rand()` is replaced by the sequence of values it would
    return. */
module Uuid {

  /** `UUID_NUM_CHARACTERS`: the characters before the terminator. */
  const UuidLength: nat := 36

  /** The `v[]` table: `NUM_CHARACTERS` lower-case hex digits. */
  const Hex: string := "0123456789abcdef"

  predicate IsHexDigit(c: char) {
    ('0' <= c <= '9') || ('a' <= c <= 'f')
  }

  /** The positions that hold a dash. */
  predicate IsDashPosition(i: nat) {
    i == 8 || i == 13 || i == 18 || i == 23
  }

  /** The buffer `uuid_generate_random` leaves behind, position by
      position: `i` is the `i`-th draw of `rand()`. Whatever the draws, the
      text before the terminator has the RFC 4122 layout. */
  function UuidOf(draws: seq<nat>): (u: string)
    requires |draws| >= UuidLength
    ensures |u| == UuidLength + 1
    ensures IsUuidText(u[..UuidLength])
    ensures u[UuidLength] == '\0'
  {
    HexDigits();
    seq(UuidLength + 1, i requires 0 <= i <= UuidLength =>
      if i == UuidLength then '\0'
      else if IsDashPosition(i) then '-'
      else Hex[draws[i] % |Hex|])
  }

  lemma HexDigits()
    ensures forall d :: 0 <= d < |Hex| ==> IsHexDigit(Hex[d])
  {
  }

  /** `uuid_generate_random`: every position gets `v[rand () % 16]`, then the
      four dashes and the terminator overwrite their positions. */
  method UuidGenerateRandom(draws: seq<nat>) returns (u: string)
    requires |draws| >= UuidLength
    ensures |u| == UuidLength + 1
    ensures u[UuidLength] == '\0'
    ensures forall i :: 0 <= i < UuidLength && IsDashPosition(i) ==> u[i] == '-'
    ensures forall i :: 0 <= i < UuidLength && !IsDashPosition(i) ==> u[i] == Hex[draws[i] % 16]
    ensures u == UuidOf(draws)
  {
    var buf := seq(UuidLength + 1, _ => '\0');
    var i := 0;
    while i < UuidLength
      invariant 0 <= i <= UuidLength
      invariant |buf| == UuidLength + 1
      invariant forall k :: 0 <= k < i ==> buf[k] == Hex[draws[k] % 16]
      invariant buf[UuidLength] == '\0'
    {
      buf := buf[i := Hex[draws[i] % 16]];
      i := i + 1;
    }
    buf := buf[8 := '-'][13 := '-'][18 := '-'][23 := '-'];
    buf := buf[UuidLength := '\0'];
    u := buf;
  }

  /** The string form of section 3 of RFC 4122: five groups of 8, 4, 4, 4
      and 12 hex digits separated by dashes. */
  predicate IsUuidText(s: string) {
    && |s| == UuidLength
    && forall i :: 0 <= i < |s| ==> if IsDashPosition(i) then s[i] == '-' else IsHexDigit(s[i])
  }

  /** The position of a hex digit in `v[]`. */
  function HexValue(c: char): (n: nat)
    requires IsHexDigit(c)
    ensures n < 16 && Hex[n] == c
  {
    if c <= '9' then (c - '0') as nat else (c - 'a') as nat + 10
  }

  /** Draws that make the generator produce `s`. */
  function DrawsFor(s: string): (draws: seq<nat>)
    requires IsUuidText(s)
    ensures |draws| == UuidLength
  {
    seq(UuidLength, i requires 0 <= i < UuidLength =>
      if IsDashPosition(i) then 0 else HexValue(s[i]))
  }

  /** Every text with the RFC 4122 layout is some run's output: the
      generator reaches the whole layout, not just part of it. */
  lemma UuidSurjective(s: string)
    requires IsUuidText(s)
    ensures UuidOf(DrawsFor(s))[..UuidLength] == s
  {
    var draws := DrawsFor(s);
    var u := UuidOf(draws)[..UuidLength];
    forall i | 0 <= i < UuidLength
      ensures u[i] == s[i]
    {
      if !IsDashPosition(i) {
        assert draws[i] == HexValue(s[i]);
        assert draws[i] % 16 == draws[i];
      }
    }
  }
}
