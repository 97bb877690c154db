/** The footnote registry (src/footnotes.c): references are appended in
    definition order, numbered from 1, looked up by identifier or by
    position, and collect the anchor ids of the places that cite them. The
    registry is modelled as an immutable value; each operation returns the
    updated registry. */
module Footnotes {
  import opened Nullable
  import Uuid

  /** `Reference` of include/footnotes.h; `n_referrers` is the length of
      `referrers`. */
  datatype Reference = Reference(
    index: int,
    uuid: string,
    identifier: string,
    text: string,
    referrers: seq<string>)

  /** `struct Footnotes`; `n_refs` is the length of `refs`. */
  datatype Registry = Registry(refs: seq<Reference>)

  /** Reference `k` (0-based) carries the 1-based index `k + 1`. */
  predicate Valid(notes: Registry) {
    forall k :: 0 <= k < |notes.refs| ==> notes.refs[k].index == k + 1
  }

  /** `footnotes_new`. */
  function FootnotesNew(): (notes: Registry)
    ensures notes.refs == []
    ensures Valid(notes)
  {
    Registry([])
  }

  /** `reference_init`: copies of the identifier and text, a fresh anchor id
      with the RFC 4122 layout and its terminator, no referrers yet. */
  function ReferenceInit(index: int, identifier: string, text: string, draws: seq<nat>): (r: Reference)
    requires |draws| >= Uuid.UuidLength
    ensures r.index == index && r.identifier == identifier && r.text == text
    ensures r.referrers == []
    ensures |r.uuid| == Uuid.UuidLength + 1 && r.uuid[Uuid.UuidLength] == '\0'
    ensures Uuid.IsUuidText(r.uuid[..Uuid.UuidLength])
  {
    Reference(index, Uuid.UuidOf(draws), identifier, text, [])
  }

  /** `footnotes_add`: the count goes up by one and the new reference, at
      the end, gets the new count as its index. */
  function FootnotesAdd(notes: Registry, identifier: string, text: string, draws: seq<nat>): (r: Registry)
    requires |draws| >= Uuid.UuidLength
    ensures |r.refs| == |notes.refs| + 1
    ensures r.refs[..|notes.refs|] == notes.refs
    ensures var added := r.refs[|notes.refs|];
      && added.index == |notes.refs| + 1
      && added.identifier == identifier
      && added.text == text
      && added.referrers == []
    ensures Valid(notes) ==> Valid(r)
  {
    var index := |notes.refs| + 1;
    Registry(notes.refs + [ReferenceInit(index, identifier, text, draws)])
  }

  /** `footnotes_get_count`: zero exactly for an empty registry, and in a
      valid registry no index exceeds it. */
  function FootnotesGetCount(notes: Registry): (n: int)
    ensures n == 0 <==> notes.refs == []
    ensures Valid(notes) ==> forall k :: 0 <= k < |notes.refs| ==> 1 <= notes.refs[k].index <= n
  {
    |notes.refs|
  }

  /** One footnote definition as the caller hands it over, with the draws
      its anchor id is made from. */
  datatype Definition = Definition(identifier: string, text: string, draws: seq<nat>)

  predicate WellDrawn(defs: seq<Definition>) {
    forall k :: 0 <= k < |defs| ==> |defs[k].draws| >= Uuid.UuidLength
  }

  /** The registry after adding the definitions in order to a new one. */
  function AddAll(defs: seq<Definition>): Registry
    requires WellDrawn(defs)
  {
    if |defs| == 0 then FootnotesNew()
    else
      var last := defs[|defs| - 1];
      FootnotesAdd(AddAll(defs[..|defs| - 1]), last.identifier, last.text, last.draws)
  }

  /** The count is the number of adds, the registry stays valid, and the
      references hold the definitions in order. */
  lemma {:induction false} CountIsAdds(defs: seq<Definition>)
    requires WellDrawn(defs)
    ensures FootnotesGetCount(AddAll(defs)) == |defs|
    ensures Valid(AddAll(defs))
    ensures forall k :: 0 <= k < |defs| ==>
      AddAll(defs).refs[k].identifier == defs[k].identifier
      && AddAll(defs).refs[k].text == defs[k].text
  {
    if |defs| > 0 {
      var init := defs[..|defs| - 1];
      assert WellDrawn(init);
      CountIsAdds(init);
      var before := AddAll(init);
      var after := AddAll(defs);
      forall k | 0 <= k < |defs|
        ensures after.refs[k].identifier == defs[k].identifier
        ensures after.refs[k].text == defs[k].text
      {
        if k < |init| {
          assert after.refs[k] == after.refs[..|before.refs|][k];
        }
      }
    }
  }

  /** The first position, from `i` on, whose identifier is `id`, or the
      count when there is none. */
  function FindIdentifier(refs: seq<Reference>, id: string, i: nat): (k: nat)
    requires i <= |refs|
    ensures i <= k <= |refs|
    ensures k < |refs| ==> refs[k].identifier == id
    ensures forall j :: i <= j < k ==> refs[j].identifier != id
    decreases |refs| - i
  {
    if i == |refs| then |refs|
    else if refs[i].identifier == id then i
    else FindIdentifier(refs, id, i + 1)
  }

  /** `footnotes_get_ref`: NULL for a NULL identifier, otherwise the first
      reference whose identifier is equal, or NULL. */
  function FootnotesGetRef(notes: Registry, identifier: Option<string>): (r: Option<Reference>)
    ensures identifier.None? ==> r.None?
    ensures identifier.Some? ==>
      (r.Some? <==> exists k :: 0 <= k < |notes.refs| && notes.refs[k].identifier == identifier.value)
    ensures r.Some? ==> r.value.identifier == identifier.value && r.value in notes.refs
  {
    match identifier
    case None => None
    case Some(id) =>
      var k := FindIdentifier(notes.refs, id, 0);
      if k < |notes.refs| then Some(notes.refs[k]) else None
  }

  /** Duplicates resolve to the earliest definition: the reference found
      is the one at the lowest position with that identifier. */
  lemma GetRefEarliest(notes: Registry, id: string, k: nat)
    requires k < |notes.refs| && notes.refs[k].identifier == id
    requires forall j :: 0 <= j < k ==> notes.refs[j].identifier != id
    ensures FootnotesGetRef(notes, Some(id)) == Some(notes.refs[k])
  {
  }

  /** A later definition with the same identifier never shadows an earlier
      one. */
  lemma {:induction false} AddKeepsEarlierLookup(notes: Registry, id: string, identifier: string, text: string, draws: seq<nat>)
    requires |draws| >= Uuid.UuidLength
    requires FootnotesGetRef(notes, Some(id)).Some?
    ensures FootnotesGetRef(FootnotesAdd(notes, identifier, text, draws), Some(id))
         == FootnotesGetRef(notes, Some(id))
  {
    var k := FindIdentifier(notes.refs, id, 0);
    var after := FootnotesAdd(notes, identifier, text, draws);
    assert after.refs[k] == after.refs[..|notes.refs|][k];
    forall j | 0 <= j < k
      ensures after.refs[j].identifier != id
    {
      assert after.refs[j] == after.refs[..|notes.refs|][j];
    }
    GetRefEarliest(after, id, k);
  }

  /** What `&notes->refs[index]` denotes: a NULL return, a reference, or a
      read outside the array. */
  datatype Lookup = Null | Ref(r: Reference) | OutOfBounds(index: int)

  /** `footnotes_get_ref_from_index` as written: only indexes past the
      count are turned away. */
  function GetRefFromIndexAsWritten(notes: Registry, index: int): Lookup
  {
    if index > |notes.refs| then Null
    else if 0 <= index < |notes.refs| then Ref(notes.refs[index])
    else OutOfBounds(index)
  }

  /** The guard lets the count itself and every negative index through to
      an out-of-bounds read. */
  lemma GetRefFromIndexOffByOne(notes: Registry)
    ensures GetRefFromIndexAsWritten(notes, |notes.refs|) == OutOfBounds(|notes.refs|)
    ensures GetRefFromIndexAsWritten(notes, -1) == OutOfBounds(-1)
    ensures forall index :: 0 <= index < |notes.refs| ==>
      GetRefFromIndexAsWritten(notes, index) == Ref(notes.refs[index])
  {
  }

  /** `footnotes_get_ref_from_index` with the bound the array needs: a
      reference exactly for the 0-based positions below the count. */
  function FootnotesGetRefFromIndex(notes: Registry, index: int): (r: Option<Reference>)
    ensures r.Some? <==> 0 <= index < |notes.refs|
    ensures r.Some? ==> r.value == notes.refs[index]
  {
    if 0 <= index < |notes.refs| then Some(notes.refs[index]) else None
  }

  /** The corrected lookup agrees with the code wherever the code reads
      inside the array, and in a valid registry position `i` holds the
      reference numbered `i + 1`. */
  lemma GetRefFromIndexAgrees(notes: Registry, index: int)
    ensures FootnotesGetRefFromIndex(notes, index).Some?
        <==> GetRefFromIndexAsWritten(notes, index).Ref?
    ensures FootnotesGetRefFromIndex(notes, index).Some? ==>
      GetRefFromIndexAsWritten(notes, index) == Ref(FootnotesGetRefFromIndex(notes, index).value)
    ensures Valid(notes) && FootnotesGetRefFromIndex(notes, index).Some? ==>
      FootnotesGetRefFromIndex(notes, index).value.index == index + 1
  {
  }

  /** `footnotes_add_referrer`: the 1-based `index` names the reference,
      whose referrers gain `uuid` at the end. Where the code would
      dereference a missing reference the result is `None`. */
  function FootnotesAddReferrer(notes: Registry, index: int, uuid: string): (r: Option<Registry>)
    ensures r.Some? <==> 1 <= index <= |notes.refs|
    ensures r.Some? ==>
      && |r.value.refs| == |notes.refs|
      && (forall k :: 0 <= k < |notes.refs| && k != index - 1 ==> r.value.refs[k] == notes.refs[k])
      && r.value.refs[index - 1] == notes.refs[index - 1].(referrers := notes.refs[index - 1].referrers + [uuid])
  {
    match FootnotesGetRefFromIndex(notes, index - 1)
    case None => None
    case Some(ref) =>
      Some(Registry(notes.refs[index - 1 := ref.(referrers := ref.referrers + [uuid])]))
  }

  /** Adding referrers keeps the numbering, and the reference numbered
      `index` is the one that grows. */
  lemma AddReferrerKeepsValid(notes: Registry, index: int, uuid: string)
    requires Valid(notes) && 1 <= index <= |notes.refs|
    ensures var r := FootnotesAddReferrer(notes, index, uuid);
      && r.Some? && Valid(r.value)
      && r.value.refs[index - 1].index == index
      && |r.value.refs[index - 1].referrers| == |notes.refs[index - 1].referrers| + 1
  {
  }
}
