/** Repair pass 4, `fix_empty_attribute_values` (main.py:186-216): attribute
    values that are missing or blank text are dropped from the spec objects. */
module EmptyValues {
  import opened Wrappers
  import opened Text
  import opened Seqs
  import opened ReqIF

  /** The comprehension's condition (main.py:205-208): the value is present
      and, when it is text, is not whitespace only. */
  predicate Keep(a: Attr) {
    !a.value.Null? && !(a.value.Str? && IsBlank(a.value.s))
  }

  predicate HasEmpty(o: SpecObject) {
    exists j :: 0 <= j < |o.attrs| && !Keep(o.attrs[j])
  }

  function CleanObject(o: SpecObject): (r: SpecObject)
    ensures r.id == o.id
    ensures forall j :: 0 <= j < |r.attrs| ==> Keep(r.attrs[j]) && r.attrs[j] in o.attrs
    ensures forall j :: 0 <= j < |o.attrs| && Keep(o.attrs[j]) ==> o.attrs[j] in r.attrs
    ensures |r.attrs| < |o.attrs| <==> HasEmpty(o)
    ensures !HasEmpty(o) ==> r == o
  {
    var kept := Filter(Keep, o.attrs);
    if !HasEmpty(o) then
      FilterKeepsAll(Keep, o.attrs);
      o.(attrs := kept)
    else
      o.(attrs := kept)
  }

  /** The identifiers the pass collects, in order. */
  function CleanedIds(objs: seq<SpecObject>): seq<string> {
    if |objs| == 0 then []
    else (if HasEmpty(objs[0]) then [objs[0].id] else []) + CleanedIds(objs[1..])
  }

  /** No spec object holds an attribute the pass would drop. */
  predicate NoEmptyValues(c: Content) {
    forall i, j :: 0 <= i < |c.specObjects| && 0 <= j < |c.specObjects[i].attrs| ==>
      Keep(c.specObjects[i].attrs[j])
  }

  /** The pass. Each object keeps exactly its non-empty attributes in their
      order, and the log names the objects that lost one. */
  function FixEmptyAttributeValues(b: Bundle): (r: PassResult)
    ensures r.bundle.lookup == b.lookup
    ensures r.bundle.content.Some? <==> b.content.Some?
    ensures b.content.None? ==> r == PassResult(b, [])
    ensures b.content.Some? ==>
      var c, c' := b.content.value, r.bundle.content.value;
      && c'.specTypes == c.specTypes
      && c'.specifications == c.specifications
      && c'.relations == c.relations
      && NoEmptyValues(c')
      && |c'.specObjects| == |c.specObjects|
      && (forall i :: 0 <= i < |c.specObjects| ==>
            && c'.specObjects[i].id == c.specObjects[i].id
            && c'.specObjects[i].attrs == Filter(Keep, c.specObjects[i].attrs)
            && (|c'.specObjects[i].attrs| < |c.specObjects[i].attrs| <==> HasEmpty(c.specObjects[i])))
      && r.log == Map(ObjectId, Filter(HasEmpty, c.specObjects))
  {
    if b.content.None? then PassResult(b, [])
    else
      var c := b.content.value;
      var objs := seq(|c.specObjects|, i requires 0 <= i < |c.specObjects| => CleanObject(c.specObjects[i]));
      CleanedIdsIsFilter(c.specObjects);
      assert forall i :: 0 <= i < |objs| ==> objs[i] == CleanObject(c.specObjects[i]);
      PassResult(b.(content := Some(c.(specObjects := objs))), CleanedIds(c.specObjects))
  }

  /** The collected identifiers are those of the objects that had an empty
      value, in order. */
  lemma {:induction false} CleanedIdsIsFilter(objs: seq<SpecObject>)
    ensures CleanedIds(objs) == Map(ObjectId, Filter(HasEmpty, objs))
    decreases |objs|
  {
    if |objs| > 0 {
      CleanedIdsIsFilter(objs[1..]);
      var head := if HasEmpty(objs[0]) then [objs[0]] else [];
      assert Filter(HasEmpty, objs) == head + Filter(HasEmpty, objs[1..]);
      MapConcat(ObjectId, head, Filter(HasEmpty, objs[1..]));
    }
  }

  /** A second run changes nothing and reports nothing. */
  lemma {:induction false} FixEmptyValuesIdempotent(b: Bundle)
    ensures var r := FixEmptyAttributeValues(b);
      FixEmptyAttributeValues(r.bundle) == PassResult(r.bundle, [])
  {
    var r := FixEmptyAttributeValues(b);
    if b.content.Some? {
      var c' := r.bundle.content.value;
      forall i | 0 <= i < |c'.specObjects|
        ensures !HasEmpty(c'.specObjects[i])
      {
      }
      FilterNone(HasEmpty, c'.specObjects);
      var r2 := FixEmptyAttributeValues(r.bundle);
      var c2 := r2.bundle.content.value;
      forall i | 0 <= i < |c'.specObjects|
        ensures c2.specObjects[i] == c'.specObjects[i]
      {
        FilterKeepsAll(Keep, c'.specObjects[i].attrs);
      }
      assert c2.specObjects == c'.specObjects;
      assert c2 == c';
    }
  }
}
