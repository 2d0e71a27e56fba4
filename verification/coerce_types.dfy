/** Repair pass 1, `fix_unsupported_attribute_types` (main.py:65-113):
    BOOLEAN, REAL, INTEGER and DATE become STRING, on the attribute
    definitions and on the spec objects' attributes, whose values are turned
    into text. */
module TypeCoercion {
  import opened Wrappers
  import opened Text
  import opened Seqs
  import opened ReqIF

  /** main.py:104-108: None stays None, strings stay as they are, a bool
      becomes "true"/"false", anything else becomes its `str()`. */
  function CoerceValue(v: Value): (r: Value)
    ensures r.Null? <==> v.Null?
    ensures !r.Null? ==> r.Str?
    ensures v.Str? ==> r == v
    ensures v.Bool? ==> r == Str(if v.b then "true" else "false")
    ensures v.Int? ==> r == Str(IntToString(v.i))
    ensures v.Other? ==> r == Str(v.shown)
  {
    match v
    case Null => Null
    case Str(_) => v
    case Bool(b) => Str(if b then "true" else "false")
    case Int(i) => Str(IntToString(i))
    case Other(shown) => Str(shown)
  }

  function CoerceDef(d: AttrDef): AttrDef {
    if Unsupported(d.kind) then d.(kind := String) else d
  }

  function CoerceAttr(a: Attr): Attr {
    if Unsupported(a.kind) then Attr(a.defRef, String, CoerceValue(a.value)) else a
  }

  function CoerceDefs(defs: seq<AttrDef>): (r: seq<AttrDef>)
    ensures |r| == |defs|
    ensures forall j :: 0 <= j < |defs| ==> r[j] == CoerceDef(defs[j])
  {
    if |defs| == 0 then [] else [CoerceDef(defs[0])] + CoerceDefs(defs[1..])
  }

  function CoerceAttrs(attrs: seq<Attr>): (r: seq<Attr>)
    ensures |r| == |attrs|
    ensures forall j :: 0 <= j < |attrs| ==> r[j] == CoerceAttr(attrs[j])
  {
    if |attrs| == 0 then [] else [CoerceAttr(attrs[0])] + CoerceAttrs(attrs[1..])
  }

  function CoerceType(t: SpecType): (r: SpecType)
    ensures r.id == t.id && r.longName == t.longName && |r.defs| == |t.defs|
    ensures forall j :: 0 <= j < |r.defs| ==> !Unsupported(r.defs[j].kind)
  {
    t.(defs := CoerceDefs(t.defs))
  }

  function CoerceObject(o: SpecObject): (r: SpecObject)
    ensures r.id == o.id && |r.attrs| == |o.attrs|
    ensures forall j :: 0 <= j < |r.attrs| ==>
      && !Unsupported(r.attrs[j].kind)
      && r.attrs[j].defRef == o.attrs[j].defRef
      && r.attrs[j].value == (if Unsupported(o.attrs[j].kind) then CoerceValue(o.attrs[j].value) else o.attrs[j].value)
  {
    o.(attrs := CoerceAttrs(o.attrs))
  }

  function CoerceTypes(types: seq<SpecType>): (r: seq<SpecType>)
    ensures |r| == |types|
    ensures forall i :: 0 <= i < |types| ==> r[i] == CoerceType(types[i])
  {
    if |types| == 0 then [] else [CoerceType(types[0])] + CoerceTypes(types[1..])
  }

  function CoerceObjects(objs: seq<SpecObject>): (r: seq<SpecObject>)
    ensures |r| == |objs|
    ensures forall i :: 0 <= i < |objs| ==> r[i] == CoerceObject(objs[i])
  {
    if |objs| == 0 then [] else [CoerceObject(objs[0])] + CoerceObjects(objs[1..])
  }

  /** The description of one rewritten definition, `f"{long_name}:{KIND}"`. */
  function Entry(d: AttrDef): string {
    d.longName + ":" + KindName(d.kind)
  }

  /** The descriptions of one type's definitions, in declaration order. */
  function ReportDefs(defs: seq<AttrDef>): seq<string> {
    if |defs| == 0 then []
    else (if Unsupported(defs[0].kind) then [Entry(defs[0])] else []) + ReportDefs(defs[1..])
  }

  /** The descriptions the pass collects, type after type. */
  function Report(types: seq<SpecType>): seq<string> {
    if |types| == 0 then [] else ReportDefs(types[0].defs) + Report(types[1..])
  }

  /** Every attribute definition of the bundle, in declaration order. */
  function AllDefs(types: seq<SpecType>): seq<AttrDef> {
    if |types| == 0 then [] else types[0].defs + AllDefs(types[1..])
  }

  predicate IsUnsupportedDef(d: AttrDef) {
    Unsupported(d.kind)
  }

  function Entries(defs: seq<AttrDef>): seq<string> {
    if |defs| == 0 then [] else [Entry(defs[0])] + Entries(defs[1..])
  }

  lemma {:induction false} EntriesConcat(a: seq<AttrDef>, b: seq<AttrDef>)
    ensures Entries(a + b) == Entries(a) + Entries(b)
    decreases |a|
  {
    if |a| > 0 {
      assert (a + b)[1..] == a[1..] + b;
      EntriesConcat(a[1..], b);
    } else {
      assert a + b == b;
    }
  }

  /** No definition and no attribute is left with a rejected kind. */
  predicate NoUnsupportedKinds(c: Content) {
    && (forall i, j :: 0 <= i < |c.specTypes| && 0 <= j < |c.specTypes[i].defs| ==>
          !Unsupported(c.specTypes[i].defs[j].kind))
    && (forall i, j :: 0 <= i < |c.specObjects| && 0 <= j < |c.specObjects[i].attrs| ==>
          !Unsupported(c.specObjects[i].attrs[j].kind))
  }

  /** The pass. Without spec types it returns before touching the spec
      objects (main.py:81-82). */
  function FixUnsupportedAttributeTypes(b: Bundle): (r: PassResult)
    ensures r.bundle.lookup == b.lookup
    ensures r.bundle.content.Some? <==> b.content.Some?
    ensures b.content.None? || |b.content.value.specTypes| == 0 ==> r == PassResult(b, [])
    ensures b.content.Some? && |b.content.value.specTypes| > 0 ==>
      var c, c' := b.content.value, r.bundle.content.value;
      && NoUnsupportedKinds(c')
      && r.log == Entries(Filter(IsUnsupportedDef, AllDefs(c.specTypes)))
      && c'.specifications == c.specifications
      && c'.relations == c.relations
      && |c'.specTypes| == |c.specTypes|
      && (forall i :: 0 <= i < |c.specTypes| ==>
            && c'.specTypes[i] == c.specTypes[i].(defs := c'.specTypes[i].defs)
            && |c'.specTypes[i].defs| == |c.specTypes[i].defs|)
      && (forall i, j :: 0 <= i < |c.specTypes| && 0 <= j < |c.specTypes[i].defs| ==>
            var d := c.specTypes[i].defs[j];
            c'.specTypes[i].defs[j] == (if Unsupported(d.kind) then d.(kind := String) else d))
      && |c'.specObjects| == |c.specObjects|
      && (forall i :: 0 <= i < |c.specObjects| ==>
            && c'.specObjects[i] == c.specObjects[i].(attrs := c'.specObjects[i].attrs)
            && |c'.specObjects[i].attrs| == |c.specObjects[i].attrs|)
      && (forall i, j :: 0 <= i < |c.specObjects| && 0 <= j < |c.specObjects[i].attrs| ==>
            var a, a' := c.specObjects[i].attrs[j], c'.specObjects[i].attrs[j];
            && a'.defRef == a.defRef
            && (Unsupported(a.kind) ==> a'.kind == String && a'.value == CoerceValue(a.value))
            && (!Unsupported(a.kind) ==> a' == a))
  {
    if b.content.None? || |b.content.value.specTypes| == 0 then PassResult(b, [])
    else
      var c := b.content.value;
      ReportIsFilter(c.specTypes);
      PassResult(b.(content := Some(c.(specTypes := CoerceTypes(c.specTypes), specObjects := CoerceObjects(c.specObjects)))),
                 Report(c.specTypes))
  }

  lemma {:induction false} ReportDefsIsFilter(defs: seq<AttrDef>)
    ensures ReportDefs(defs) == Entries(Filter(IsUnsupportedDef, defs))
    decreases |defs|
  {
    if |defs| > 0 {
      ReportDefsIsFilter(defs[1..]);
      var head := if IsUnsupportedDef(defs[0]) then [defs[0]] else [];
      assert Filter(IsUnsupportedDef, defs) == head + Filter(IsUnsupportedDef, defs[1..]);
      EntriesConcat(head, Filter(IsUnsupportedDef, defs[1..]));
    }
  }

  /** The nested collection loop reports exactly the rejected definitions of
      the flattened declaration list. */
  lemma {:induction false} ReportIsFilter(types: seq<SpecType>)
    ensures Report(types) == Entries(Filter(IsUnsupportedDef, AllDefs(types)))
    decreases |types|
  {
    if |types| > 0 {
      ReportIsFilter(types[1..]);
      ReportDefsIsFilter(types[0].defs);
      FilterConcat(IsUnsupportedDef, types[0].defs, AllDefs(types[1..]));
      EntriesConcat(Filter(IsUnsupportedDef, types[0].defs), Filter(IsUnsupportedDef, AllDefs(types[1..])));
    }
  }

  lemma CoerceTypeIdempotent(t: SpecType)
    ensures CoerceType(CoerceType(t)) == CoerceType(t)
  {
    var once := CoerceType(t).defs;
    assert CoerceDefs(once) == once;
  }

  lemma CoerceObjectIdempotent(o: SpecObject)
    ensures CoerceObject(CoerceObject(o)) == CoerceObject(o)
  {
    var once := CoerceObject(o).attrs;
    assert CoerceAttrs(once) == once;
  }

  /** Running the pass a second time reports nothing and changes nothing. */
  lemma {:induction false} FixUnsupportedIdempotent(b: Bundle)
    ensures var r := FixUnsupportedAttributeTypes(b);
      FixUnsupportedAttributeTypes(r.bundle) == PassResult(r.bundle, [])
  {
    if b.content.Some? && |b.content.value.specTypes| > 0 {
      var c := b.content.value;
      var types, objs := CoerceTypes(c.specTypes), CoerceObjects(c.specObjects);
      forall i | 0 <= i < |types|
        ensures CoerceTypes(types)[i] == types[i]
      {
        CoerceTypeIdempotent(c.specTypes[i]);
      }
      forall i | 0 <= i < |objs|
        ensures CoerceObjects(objs)[i] == objs[i]
      {
        CoerceObjectIdempotent(c.specObjects[i]);
      }
      assert CoerceTypes(types) == types;
      assert CoerceObjects(objs) == objs;
      NoUnsupportedNoReport(types);
    }
  }

  lemma {:induction false} NoUnsupportedNoReport(types: seq<SpecType>)
    requires forall i, j :: 0 <= i < |types| && 0 <= j < |types[i].defs| ==> !Unsupported(types[i].defs[j].kind)
    ensures Report(types) == []
    decreases |types|
  {
    if |types| > 0 {
      NoUnsupportedNoReport(types[1..]);
      NoUnsupportedDefsNoReport(types[0].defs);
    }
  }

  lemma {:induction false} NoUnsupportedDefsNoReport(defs: seq<AttrDef>)
    requires forall j :: 0 <= j < |defs| ==> !Unsupported(defs[j].kind)
    ensures ReportDefs(defs) == []
    decreases |defs|
  {
    if |defs| > 0 {
      NoUnsupportedDefsNoReport(defs[1..]);
    }
  }
}
