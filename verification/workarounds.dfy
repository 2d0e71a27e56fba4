/** `apply_workarounds` (main.py:296-328): the five repair passes run in a
    fixed order on the same bundle, and every pass that reported something
    contributes one summary line. */
module Workarounds {
  import opened Wrappers
  import opened Text
  import opened Seqs
  import opened ReqIF
  import opened TypeCoercion
  import opened TypeNames
  import opened DuplicateFields
  import opened EmptyValues
  import opened RefIntegrity

  /** The summary line of a pass whose log is `log`, if it reported
      anything. */
  function Summary(log: seq<string>, line: string): (r: seq<string>)
    ensures |r| == Reported(log)
    ensures log != [] ==> r == [line]
  {
    if log == [] then [] else [line]
  }

  /** 1 when the pass reported anything, else 0. */
  function Reported(log: seq<string>): nat {
    if log == [] then 0 else 1
  }

  /** The five passes' results, in order: each pass works on the bundle
      the previous one produced. */
  datatype Stages = Stages(types: PassResult, names: PassResult, fields: PassResult, empties: PassResult, refs: PassResult)

  function RunPasses(mapTitle: string -> string, b: Bundle): (r: Stages)
    ensures r.types == FixUnsupportedAttributeTypes(b)
    ensures r.names == FixMissingSpecTypeNames(r.types.bundle)
    ensures r.fields == FixDuplicateFieldNames(mapTitle, r.names.bundle)
    ensures r.empties == FixEmptyAttributeValues(r.fields.bundle)
    ensures r.refs == FixMissingSpecObjectRefs(r.empties.bundle)
  {
    var p1 := FixUnsupportedAttributeTypes(b);
    var p2 := FixMissingSpecTypeNames(p1.bundle);
    var p3 := FixDuplicateFieldNames(mapTitle, p2.bundle);
    var p4 := FixEmptyAttributeValues(p3.bundle);
    var p5 := FixMissingSpecObjectRefs(p4.bundle);
    Stages(p1, p2, p3, p4, p5)
  }

  /** The summary lines of five pass logs (main.py:302-326): one line per
      pass that reported anything, in pass order, so that the line of a
      pass comes after exactly as many lines as earlier passes reported. */
  function SummaryLines(types: seq<string>, names: seq<string>, fields: seq<string>, empties: seq<string>, refs: seq<string>)
    : (r: seq<string>)
    ensures |r| == Reported(types) + Reported(names) + Reported(fields) + Reported(empties) + Reported(refs)
    ensures r == [] <==> types == [] && names == [] && fields == [] && empties == [] && refs == []
    ensures types != [] ==> r[0] == "Converted unsupported types to STRING: " + JoinWith(", ", types)
    ensures names != [] ==> r[Reported(types)] == "Added default names to " + NatToString(|names|) + " spec types"
    ensures fields != [] ==> r[Reported(types) + Reported(names)] == "Renamed duplicate fields: " + JoinWith(", ", fields)
    ensures empties != [] ==> r[Reported(types) + Reported(names) + Reported(fields)] == "Removed empty attributes from " + NatToString(|empties|) + " objects"
    ensures refs != [] ==> r[Reported(types) + Reported(names) + Reported(fields) + Reported(empties)] == "Removed invalid references: " + JoinWith(", ", refs)
    ensures refs != [] ==> r[|r| - 1] == "Removed invalid references: " + JoinWith(", ", refs)
  {
    Summary(types, "Converted unsupported types to STRING: " + JoinWith(", ", types))
    + Summary(names, "Added default names to " + NatToString(|names|) + " spec types")
    + Summary(fields, "Renamed duplicate fields: " + JoinWith(", ", fields))
    + Summary(empties, "Removed empty attributes from " + NatToString(|empties|) + " objects")
    + Summary(refs, "Removed invalid references: " + JoinWith(", ", refs))
  }

  /** The repaired bundle and the list of summary lines. */
  function ApplyWorkarounds(mapTitle: string -> string, b: Bundle): (r: PassResult)
    ensures var st := RunPasses(mapTitle, b);
      && r.bundle == st.refs.bundle
      && r.log == SummaryLines(st.types.log, st.names.log, st.fields.log, st.empties.log, st.refs.log)
      && (r.log == [] <==> st.types.log == [] && st.names.log == [] && st.fields.log == [] && st.empties.log == [] && st.refs.log == [])
  {
    var st := RunPasses(mapTitle, b);
    PassResult(st.refs.bundle, SummaryLines(st.types.log, st.names.log, st.fields.log, st.empties.log, st.refs.log))
  }

  /** Every spec type whose identifier is not blank has a usable name. */
  predicate NamedTypes(c: Content) {
    forall i :: 0 <= i < |c.specTypes| ==> !IsBlank(c.specTypes[i].id) ==> !NeedsName(c.specTypes[i])
  }

  predicate SameTypeIds(c: Content, c': Content) {
    |c'.specTypes| == |c.specTypes| && forall i :: 0 <= i < |c.specTypes| ==> c'.specTypes[i].id == c.specTypes[i].id
  }

  /** The invariant the later passes keep once the earlier ones have
      established it. */
  predicate Repaired(c: Content, kinds: bool) {
    (kinds ==> NoUnsupportedKinds(c)) && NamedTypes(c)
  }

  lemma NamesStep(b: Bundle)
    requires b.content.Some?
    ensures var c, c' := b.content.value, FixMissingSpecTypeNames(b).bundle.content.value;
      SameTypeIds(c, c') && NamedTypes(c') && (NoUnsupportedKinds(c) ==> NoUnsupportedKinds(c'))
  {
  }

  lemma DuplicatesStep(mapTitle: string -> string, b: Bundle, kinds: bool)
    requires b.content.Some? && Repaired(b.content.value, kinds)
    ensures var c, c' := b.content.value, FixDuplicateFieldNames(mapTitle, b).bundle.content.value;
      SameTypeIds(c, c') && Repaired(c', kinds)
  {
    var c, c' := b.content.value, FixDuplicateFieldNames(mapTitle, b).bundle.content.value;
    forall i, j | 0 <= i < |c'.specTypes| && 0 <= j < |c'.specTypes[i].defs|
      ensures c'.specTypes[i].defs[j].kind == c.specTypes[i].defs[j].kind
    {
      ExpectedKeepsPrefix(KeyOf(mapTitle), c.specTypes[i].defs, j);
    }
  }

  lemma EmptyStep(b: Bundle, kinds: bool)
    requires b.content.Some? && Repaired(b.content.value, kinds)
    ensures var c, c' := b.content.value, FixEmptyAttributeValues(b).bundle.content.value;
      SameTypeIds(c, c') && Repaired(c', kinds) && NoEmptyValues(c')
  {
    var c, c' := b.content.value, FixEmptyAttributeValues(b).bundle.content.value;
    if kinds {
      forall i, j | 0 <= i < |c'.specObjects| && 0 <= j < |c'.specObjects[i].attrs|
        ensures !Unsupported(c'.specObjects[i].attrs[j].kind)
      {
        var a := c'.specObjects[i].attrs[j];
        assert a in c.specObjects[i].attrs;
      }
    }
  }

  lemma RefsStep(b: Bundle, kinds: bool)
    requires b.content.Some? && Repaired(b.content.value, kinds) && NoEmptyValues(b.content.value)
    ensures var c, c' := b.content.value, FixMissingSpecObjectRefs(b).bundle.content.value;
      SameTypeIds(c, c') && Repaired(c', kinds) && NoEmptyValues(c') && RefsClosed(c')
  {
  }

  /** What the repaired bundle guarantees, whatever the input: every
      reference resolves, no attribute value is empty, every spec type whose
      identifier is not blank has a name, and, when the bundle declares any
      spec type, no rejected attribute kind is left. */
  lemma WorkaroundsEstablish(mapTitle: string -> string, b: Bundle)
    requires b.content.Some?
    ensures var r := ApplyWorkarounds(mapTitle, b);
      r.bundle.content.Some? &&
      var c, c' := b.content.value, r.bundle.content.value;
      && RefsClosed(c')
      && NoEmptyValues(c')
      && (|c.specTypes| > 0 ==> NoUnsupportedKinds(c'))
      && NamedTypes(c')
      && SameTypeIds(c, c')
  {
    var st := RunPasses(mapTitle, b);
    var kinds := |b.content.value.specTypes| > 0;
    var b1, b2, b3, b4, b5 := st.types.bundle, st.names.bundle, st.fields.bundle, st.empties.bundle, st.refs.bundle;
    assert b1 == FixUnsupportedAttributeTypes(b).bundle;
    var c, c1, c2, c3, c4, c5 := b.content.value, b1.content.value, b2.content.value, b3.content.value, b4.content.value, b5.content.value;
    assert SameTypeIds(c, c1) && (kinds ==> NoUnsupportedKinds(c1));
    NamesStep(b1);
    DuplicatesStep(mapTitle, b2, kinds);
    EmptyStep(b3, kinds);
    RefsStep(b4, kinds);
    SameTypeIdsTrans(c, c1, c2);
    SameTypeIdsTrans(c, c2, c3);
    SameTypeIdsTrans(c, c3, c4);
    SameTypeIdsTrans(c, c4, c5);
  }

  lemma SameTypeIdsTrans(a: Content, b: Content, c: Content)
    requires SameTypeIds(a, b) && SameTypeIds(b, c)
    ensures SameTypeIds(a, c)
  {
  }
}
