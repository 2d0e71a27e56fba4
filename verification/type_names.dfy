/** Repair pass 2, `fix_missing_spec_type_names` (main.py:116-139): a spec
    type without a usable LONG-NAME is named after its identifier. */
module TypeNames {
  import opened Wrappers
  import opened Text
  import opened Seqs
  import opened ReqIF

  /** `long_name is None or long_name.strip() == ""` (main.py:131). */
  predicate NeedsName(t: SpecType) {
    t.longName.None? || IsBlank(t.longName.value)
  }

  /** `spec_type.identifier or "REQUIREMENT"` (main.py:133). */
  function FallbackName(t: SpecType): string {
    if t.id == "" then "REQUIREMENT" else t.id
  }

  function FixName(t: SpecType): (r: SpecType)
    ensures r.id == t.id && r.defs == t.defs
    ensures NeedsName(t) ==> r.longName == Some(if t.id == "" then "REQUIREMENT" else t.id)
    ensures !NeedsName(t) ==> r == t
    ensures t.id == "" || !IsBlank(t.id) ==> !NeedsName(r)
  {
    if NeedsName(t) then
      assert !IsSpace("REQUIREMENT"[0]);
      t.(longName := Some(FallbackName(t)))
    else t
  }

  function FixNames(types: seq<SpecType>): (r: seq<SpecType>)
    ensures |r| == |types|
    ensures forall i :: 0 <= i < |types| ==> r[i] == FixName(types[i])
  {
    if |types| == 0 then [] else [FixName(types[0])] + FixNames(types[1..])
  }

  /** The identifiers the pass collects, in declaration order. */
  function FixedIds(types: seq<SpecType>): seq<string> {
    if |types| == 0 then []
    else (if NeedsName(types[0]) then [types[0].id] else []) + FixedIds(types[1..])
  }

  function FixMissingSpecTypeNames(b: Bundle): (r: PassResult)
    ensures r.bundle.lookup == b.lookup
    ensures r.bundle.content.Some? <==> b.content.Some?
    ensures b.content.None? ==> r == PassResult(b, [])
    ensures b.content.Some? ==>
      var c, c' := b.content.value, r.bundle.content.value;
      && c'.specObjects == c.specObjects
      && c'.specifications == c.specifications
      && c'.relations == c.relations
      && |c'.specTypes| == |c.specTypes|
      && (forall i :: 0 <= i < |c.specTypes| ==>
            var t, t' := c.specTypes[i], c'.specTypes[i];
            && t'.id == t.id
            && t'.defs == t.defs
            && (NeedsName(t) ==> t'.longName == Some(if t.id == "" then "REQUIREMENT" else t.id))
            && (!NeedsName(t) ==> t' == t)
            && (!IsBlank(t.id) ==> !NeedsName(t')))
      && r.log == Map(TypeId, Filter(NeedsName, c.specTypes))
  {
    if b.content.None? then PassResult(b, [])
    else
      var c := b.content.value;
      FixedIdsIsFilter(c.specTypes);
      PassResult(b.(content := Some(c.(specTypes := FixNames(c.specTypes)))), FixedIds(c.specTypes))
  }

  /** The collected identifiers are exactly those of the types that needed a
      name, in order. */
  lemma {:induction false} FixedIdsIsFilter(types: seq<SpecType>)
    ensures FixedIds(types) == Map(TypeId, Filter(NeedsName, types))
    decreases |types|
  {
    if |types| > 0 {
      FixedIdsIsFilter(types[1..]);
      var head := if NeedsName(types[0]) then [types[0]] else [];
      assert Filter(NeedsName, types) == head + Filter(NeedsName, types[1..]);
      MapConcat(TypeId, head, Filter(NeedsName, types[1..]));
    }
  }

  /** No identifier is a non-empty whitespace-only string. */
  predicate IdsUsableAsNames(types: seq<SpecType>) {
    forall i :: 0 <= i < |types| ==> types[i].id == "" || !IsBlank(types[i].id)
  }

  lemma FixNameIdempotent(t: SpecType)
    ensures FixName(FixName(t)) == FixName(t)
  {
  }

  /** A second run leaves the bundle as it is. */
  lemma {:induction false} FixMissingNamesIdempotent(b: Bundle)
    ensures var r := FixMissingSpecTypeNames(b);
      FixMissingSpecTypeNames(r.bundle).bundle == r.bundle
  {
    if b.content.Some? {
      var types := b.content.value.specTypes;
      var once := FixNames(types);
      forall i | 0 <= i < |once|
        ensures FixNames(once)[i] == once[i]
      {
        FixNameIdempotent(types[i]);
      }
      assert FixNames(once) == once;
    }
  }

  /** The second run reports nothing unless some spec type's identifier is
      itself a non-empty blank string. */
  lemma {:induction false} FixMissingNamesSecondRunSilent(b: Bundle)
    requires b.content.Some? && IdsUsableAsNames(b.content.value.specTypes)
    ensures FixMissingSpecTypeNames(FixMissingSpecTypeNames(b).bundle).log == []
  {
    var once := FixNames(b.content.value.specTypes);
    FilterNone(NeedsName, once);
  }
}
