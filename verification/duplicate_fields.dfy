/** Repair pass 3, `fix_duplicate_field_names` (main.py:142-183): within one
    spec type, attribute definitions whose names collide once the downstream
    field-name normalisation is applied are renamed with a numeric suffix. */
module DuplicateFields {
  import opened Wrappers
  import opened Text
  import opened Seqs
  import opened ReqIF

  predicate IsSafeChar(c: char) {
    ('A' <= c <= 'Z') || ('a' <= c <= 'z') || ('0' <= c <= '9') || c == '_'
  }

  function SafeChar(c: char): char {
    var u := AsciiUpper(c);
    if u == '.' || u == '-' then '_' else u
  }

  function SafeChars(s: string): (r: string)
    ensures |r| == |s|
    ensures forall i :: 0 <= i < |s| ==> r[i] == SafeChar(s[i])
  {
    if |s| == 0 then [] else [SafeChar(s[0])] + SafeChars(s[1..])
  }

  /** main.py:166-167: upper-case, `.` and `-` become `_`, every character
      outside `[A-Za-z0-9_]` is dropped. */
  function SafeName(s: string): (r: string)
    ensures |r| <= |s|
    ensures forall i :: 0 <= i < |r| ==> IsSafeChar(r[i]) && !('a' <= r[i] <= 'z')
    ensures IsSubseq(r, SafeChars(s))
    ensures forall i :: 0 <= i < |s| && IsSafeChar(SafeChar(s[i])) ==> SafeChar(s[i]) in r
    ensures |r| == |s| <==> forall i :: 0 <= i < |s| ==> IsSafeChar(SafeChar(s[i]))
  {
    FilterIsSubseq(IsSafeChar, SafeChars(s));
    Filter(IsSafeChar, SafeChars(s))
  }

  /** The name is built character by character: one character maps to its
      upper-case form, or `_` for `.` and `-`, or to nothing when the
      result is outside `[A-Za-z0-9_]`. */
  lemma SafeNameChar(c: char)
    ensures SafeName([c]) == (if IsSafeChar(SafeChar(c)) then [SafeChar(c)] else [])
  {
    assert SafeChars([c]) == [SafeChar(c)];
    assert SafeChars([c])[1..] == [];
  }

  /** ...and the characters of a concatenation are handled independently. */
  lemma SafeNameConcat(a: string, b: string)
    ensures SafeName(a + b) == SafeName(a) + SafeName(b)
  {
    SafeCharsConcat(a, b);
    FilterConcat(IsSafeChar, SafeChars(a), SafeChars(b));
  }

  lemma SafeCharsConcat(a: string, b: string)
    ensures SafeChars(a + b) == SafeChars(a) + SafeChars(b)
  {
    var x, y := SafeChars(a + b), SafeChars(a) + SafeChars(b);
    assert |x| == |y|;
    forall i | 0 <= i < |x|
      ensures x[i] == y[i]
    {
      if i < |a| {
        assert (a + b)[i] == a[i];
      } else {
        assert (a + b)[i] == b[i - |a|];
      }
    }
  }

  /** Names that differ only in the case of ASCII letters have the same
      key. */
  lemma SameUpperSameName(a: string, b: string)
    requires |a| == |b|
    requires forall i :: 0 <= i < |a| ==> AsciiUpper(a[i]) == AsciiUpper(b[i])
    ensures SafeName(a) == SafeName(b)
  {
    assert SafeChars(a) == SafeChars(b);
  }

  /** The collision key of a definition; `mapTitle` stands for the
      downstream converter's title mapping. */
  function Key(mapTitle: string -> string, d: AttrDef): string {
    SafeName(mapTitle(d.longName))
  }

  function KeyOf(mapTitle: string -> string): AttrDef -> string {
    d => Key(mapTitle, d)
  }

  function Keys(key: AttrDef -> string, defs: seq<AttrDef>): (r: seq<string>)
    ensures |r| == |defs|
    ensures forall j :: 0 <= j < |defs| ==> r[j] == key(defs[j])
  {
    if |defs| == 0 then [] else [key(defs[0])] + Keys(key, defs[1..])
  }

  /** How often `k` occurs in `ks`. */
  function Occurrences(ks: seq<string>, k: string): nat {
    if |ks| == 0 then 0
    else Occurrences(ks[..|ks| - 1], k) + (if ks[|ks| - 1] == k then 1 else 0)
  }

  /** The reference rule: definition `j` keeps its name when no earlier
      definition of the type has its key, and otherwise, as the n-th holder of
      that key (n >= 2), becomes `name_n`. */
  function Expected(key: AttrDef -> string, defs: seq<AttrDef>, j: nat): AttrDef
    requires j < |defs|
  {
    var ks := Keys(key, defs);
    var earlier := Occurrences(ks[..j], ks[j]);
    if earlier == 0 then defs[j]
    else defs[j].(longName := defs[j].longName + "_" + NatToString(earlier + 1))
  }

  /** The reference description list of one type, from definition `n` on. */
  function ExpectedLog(key: AttrDef -> string, defs: seq<AttrDef>, n: nat): seq<string>
    requires n <= |defs|
    decreases |defs| - n
  {
    if n == |defs| then []
    else
      var ks := Keys(key, defs);
      (if Occurrences(ks[..n], ks[n]) > 0
       then [defs[n].longName + " -> " + Expected(key, defs, n).longName]
       else [])
      + ExpectedLog(key, defs, n + 1)
  }

  /** The source's loop over one type's definitions, with its `seen_names`
      dictionary. */
  function RenameFrom(key: AttrDef -> string, defs: seq<AttrDef>, seen: map<string, nat>)
    : (r: (seq<AttrDef>, seq<string>))
    ensures |r.0| == |defs|
    decreases |defs|
  {
    if |defs| == 0 then ([], [])
    else
      var d := defs[0];
      var k := key(d);
      if k in seen then
        var count := seen[k] + 1;
        var renamed := d.(longName := d.longName + "_" + NatToString(count));
        var rest := RenameFrom(key, defs[1..], seen[k := count]);
        ([renamed] + rest.0, [d.longName + " -> " + renamed.longName] + rest.1)
      else
        var rest := RenameFrom(key, defs[1..], seen[k := 1]);
        ([d] + rest.0, rest.1)
  }

  /** `seen` holds, for every key met so far, how often it was met. */
  ghost predicate Counts(seen: map<string, nat>, ks: seq<string>) {
    forall k :: (k in seen <==> Occurrences(ks, k) > 0) && (k in seen ==> seen[k] == Occurrences(ks, k))
  }

  lemma {:induction false} OccurrencesSnoc(ks: seq<string>, x: string, k: string)
    ensures Occurrences(ks + [x], k) == Occurrences(ks, k) + (if x == k then 1 else 0)
  {
    assert (ks + [x])[..|ks|] == ks;
  }

  /** Meeting key `ks[n]` updates the dictionary the way the source does. */
  lemma {:induction false} CountsStep(seen: map<string, nat>, ks: seq<string>, n: nat)
    requires n < |ks|
    requires Counts(seen, ks[..n])
    ensures Counts(if ks[n] in seen then seen[ks[n] := seen[ks[n]] + 1] else seen[ks[n] := 1], ks[..n + 1])
  {
    var key := ks[n];
    var seen' := if key in seen then seen[key := seen[key] + 1] else seen[key := 1];
    assert ks[..n + 1] == ks[..n] + [key];
    forall k
      ensures (k in seen' <==> Occurrences(ks[..n + 1], k) > 0)
      ensures k in seen' ==> seen'[k] == Occurrences(ks[..n + 1], k)
    {
      OccurrencesSnoc(ks[..n], key, k);
    }
  }

  /** The dictionary-driven loop computes the reference rule, from index `n`
      on, when `seen` counts the keys before `n`. */
  lemma RenameFromMatches(key: AttrDef -> string, defs: seq<AttrDef>, n: nat, seen: map<string, nat>)
    requires n <= |defs|
    requires Counts(seen, Keys(key, defs)[..n])
    ensures var r := RenameFrom(key, defs[n..], seen);
      && (forall j :: n <= j < |defs| ==> r.0[j - n] == Expected(key, defs, j))
      && r.1 == ExpectedLog(key, defs, n)
  {
    RenameFromOutputs(key, defs, n, seen);
    RenameFromLog(key, defs, n, seen);
  }

  lemma {:induction false} RenameFromOutputs(key: AttrDef -> string, defs: seq<AttrDef>, n: nat, seen: map<string, nat>)
    requires n <= |defs|
    requires Counts(seen, Keys(key, defs)[..n])
    ensures var r := RenameFrom(key, defs[n..], seen);
      forall j :: n <= j < |defs| ==> r.0[j - n] == Expected(key, defs, j)
    decreases |defs| - n
  {
    if n < |defs| {
      var ks := Keys(key, defs);
      var k := ks[n];
      var seen' := if k in seen then seen[k := seen[k] + 1] else seen[k := 1];
      CountsStep(seen, ks, n);
      RenameFromOutputs(key, defs, n + 1, seen');
      RenameFromHead(key, defs, n, seen);
      var rest := RenameFrom(key, defs[n + 1..], seen').0;
      var out := RenameFrom(key, defs[n..], seen).0;
      assert out == [Expected(key, defs, n)] + rest;
      forall j | n < j < |defs|
        ensures out[j - n] == Expected(key, defs, j)
      {
        assert out[j - n] == rest[j - (n + 1)];
      }
    }
  }

  lemma {:induction false} RenameFromLog(key: AttrDef -> string, defs: seq<AttrDef>, n: nat, seen: map<string, nat>)
    requires n <= |defs|
    requires Counts(seen, Keys(key, defs)[..n])
    ensures RenameFrom(key, defs[n..], seen).1 == ExpectedLog(key, defs, n)
    decreases |defs| - n
  {
    if n < |defs| {
      var ks := Keys(key, defs);
      var k := ks[n];
      var seen' := if k in seen then seen[k := seen[k] + 1] else seen[k := 1];
      CountsStep(seen, ks, n);
      RenameFromLog(key, defs, n + 1, seen');
      RenameFromHead(key, defs, n, seen);
    }
  }

  /** One step of the loop: definition `n` comes out as the reference rule
      says, with its description line when it was renamed. */
  lemma RenameFromHead(key: AttrDef -> string, defs: seq<AttrDef>, n: nat, seen: map<string, nat>)
    requires n < |defs|
    requires Counts(seen, Keys(key, defs)[..n])
    ensures var ks := Keys(key, defs);
      var seen' := if ks[n] in seen then seen[ks[n] := seen[ks[n]] + 1] else seen[ks[n] := 1];
      var rest := RenameFrom(key, defs[n + 1..], seen');
      var e := Expected(key, defs, n);
      RenameFrom(key, defs[n..], seen)
        == ([e] + rest.0, (if Occurrences(ks[..n], ks[n]) > 0 then [defs[n].longName + " -> " + e.longName] else []) + rest.1)
  {
    var ks := Keys(key, defs);
    var k := ks[n];
    assert defs[n..][0] == defs[n];
    assert defs[n..][1..] == defs[n + 1..];
    assert k in seen <==> Occurrences(ks[..n], k) > 0;
    var d := defs[n];
    assert k == key(d);
    var e := Expected(key, defs, n);
    var seen' := if k in seen then seen[k := seen[k] + 1] else seen[k := 1];
    var rest := RenameFrom(key, defs[n + 1..], seen');
    if k in seen {
      assert seen[k] == Occurrences(ks[..n], k);
      var renamed := d.(longName := d.longName + "_" + NatToString(seen[k] + 1));
      assert renamed == e;
      assert RenameFrom(key, defs[n..], seen) == ([renamed] + rest.0, [d.longName + " -> " + renamed.longName] + rest.1);
    } else {
      assert e == d;
      assert RenameFrom(key, defs[n..], seen) == ([d] + rest.0, rest.1);
      assert Occurrences(ks[..n], ks[n]) == 0;
      assert [] + rest.1 == rest.1;
    }
  }

  /** One spec type, processed with a fresh `seen_names`. */
  function RenameType(mapTitle: string -> string, t: SpecType): (r: (SpecType, seq<string>))
    ensures r.0.id == t.id && r.0.longName == t.longName && |r.0.defs| == |t.defs|
    ensures forall j :: 0 <= j < |t.defs| ==> r.0.defs[j] == Expected(KeyOf(mapTitle), t.defs, j)
    ensures r.1 == ExpectedLog(KeyOf(mapTitle), t.defs, 0)
  {
    var key := KeyOf(mapTitle);
    var out := RenameFrom(key, t.defs, map[]);
    assert Counts(map[], Keys(key, t.defs)[..0]);
    assert t.defs[0..] == t.defs;
    RenameFromMatches(key, t.defs, 0, map[]);
    (t.(defs := out.0), out.1)
  }

  function RenameTypes(mapTitle: string -> string, types: seq<SpecType>): (r: (seq<SpecType>, seq<string>))
    ensures |r.0| == |types|
    ensures forall i :: 0 <= i < |types| ==> r.0[i] == RenameType(mapTitle, types[i]).0
  {
    if |types| == 0 then ([], [])
    else
      var head := RenameType(mapTitle, types[0]);
      var rest := RenameTypes(mapTitle, types[1..]);
      ([head.0] + rest.0, head.1 + rest.1)
  }

  /** The reference description list of the whole bundle, type after type. */
  function ExpectedLogs(mapTitle: string -> string, types: seq<SpecType>): seq<string> {
    if |types| == 0 then [] else ExpectedLog(KeyOf(mapTitle), types[0].defs, 0) + ExpectedLogs(mapTitle, types[1..])
  }

  /** The pass. */
  function FixDuplicateFieldNames(mapTitle: string -> string, b: Bundle): (r: PassResult)
    ensures r.bundle.lookup == b.lookup
    ensures r.bundle.content.Some? <==> b.content.Some?
    ensures b.content.None? ==> r == PassResult(b, [])
    ensures b.content.Some? ==>
      var c, c' := b.content.value, r.bundle.content.value;
      && c'.specObjects == c.specObjects
      && c'.specifications == c.specifications
      && c'.relations == c.relations
      && |c'.specTypes| == |c.specTypes|
      && (forall i :: 0 <= i < |c.specTypes| ==>
            && c'.specTypes[i].id == c.specTypes[i].id
            && c'.specTypes[i].longName == c.specTypes[i].longName
            && |c'.specTypes[i].defs| == |c.specTypes[i].defs|)
      && (forall i, j :: 0 <= i < |c.specTypes| && 0 <= j < |c.specTypes[i].defs| ==>
            c'.specTypes[i].defs[j] == Expected(KeyOf(mapTitle), c.specTypes[i].defs, j))
      && r.log == ExpectedLogs(mapTitle, c.specTypes)
  {
    if b.content.None? then PassResult(b, [])
    else
      var c := b.content.value;
      var out := RenameTypes(mapTitle, c.specTypes);
      RenameTypesLog(mapTitle, c.specTypes);
      PassResult(b.(content := Some(c.(specTypes := out.0))), out.1)
  }

  lemma {:induction false} RenameTypesLog(mapTitle: string -> string, types: seq<SpecType>)
    ensures RenameTypes(mapTitle, types).1 == ExpectedLogs(mapTitle, types)
    decreases |types|
  {
    if |types| > 0 {
      RenameTypesLog(mapTitle, types[1..]);
    }
  }

  /** Only the name of a renamed definition changes, and it keeps the
      original as a prefix. */
  lemma ExpectedKeepsPrefix(key: AttrDef -> string, defs: seq<AttrDef>, j: nat)
    requires j < |defs|
    ensures Expected(key, defs, j).id == defs[j].id
    ensures Expected(key, defs, j).kind == defs[j].kind
    ensures StartsWith(Expected(key, defs, j).longName, defs[j].longName)
  {
    var e := Expected(key, defs, j);
    assert e.longName[..|defs[j].longName|] == defs[j].longName;
  }

  /** The first definition of every type always keeps its name. */
  lemma {:induction false} FirstKeepsName(key: AttrDef -> string, defs: seq<AttrDef>)
    requires |defs| > 0
    ensures Expected(key, defs, 0) == defs[0]
  {
    assert Keys(key, defs)[..0] == [];
  }

  /** The title mapping that leaves a title as it is. */
  function SameTitle(s: string): string { s }

  /** Of two definitions of one type whose keys collide, the second is
      renamed with suffix `_2` and reported. */
  lemma {:induction false} SecondOfTwoRenamed(mapTitle: string -> string, t: SpecType)
    requires |t.defs| == 2
    requires Key(mapTitle, t.defs[0]) == Key(mapTitle, t.defs[1])
    ensures RenameType(mapTitle, t).0.defs == [t.defs[0], t.defs[1].(longName := t.defs[1].longName + "_2")]
    ensures RenameType(mapTitle, t).1 == [t.defs[1].longName + " -> " + t.defs[1].longName + "_2"]
  {
    var key := KeyOf(mapTitle);
    var defs := t.defs;
    var d1, d2 := defs[0], defs[1];
    var ks := Keys(key, defs);
    assert ks == [key(d1), key(d1)];
    assert ks[..1] == [ks[0]];
    assert Occurrences(ks[..1], ks[1]) == 1 by {
      assert ks[..1][..0] == [];
    }
    assert NatToString(2) == "2";
    var e2 := d2.(longName := d2.longName + "_2");
    assert Expected(key, defs, 1) == e2;
    FirstKeepsName(key, defs);
    var r := RenameType(mapTitle, t);
    assert r.0.defs == [d1, e2];
    assert Occurrences(ks[..0], ks[0]) == 0 by {
      assert ks[..0] == [];
    }
    assert ExpectedLog(key, defs, 2) == [];
    assert ExpectedLog(key, defs, 1) == [d2.longName + " -> " + e2.longName];
    assert ExpectedLog(key, defs, 0) == ExpectedLog(key, defs, 1);
    assert d2.longName + " -> " + e2.longName == d2.longName + " -> " + d2.longName + "_2";
  }

  /** Two definitions whose names differ only in the case of ASCII letters
      collide under the identity title mapping: the second is renamed with
      suffix `_2` (as "Comment" and "comment" become "Comment" and
      "comment_2"). */
  lemma CaseVariantsCollide(t: SpecType)
    requires |t.defs| == 2
    requires |t.defs[0].longName| == |t.defs[1].longName|
    requires forall i :: 0 <= i < |t.defs[0].longName| ==> AsciiUpper(t.defs[0].longName[i]) == AsciiUpper(t.defs[1].longName[i])
    ensures RenameType(SameTitle, t).0.defs == [t.defs[0], t.defs[1].(longName := t.defs[1].longName + "_2")]
    ensures RenameType(SameTitle, t).1 == [t.defs[1].longName + " -> " + t.defs[1].longName + "_2"]
  {
    SameUpperSameName(t.defs[0].longName, t.defs[1].longName);
    SecondOfTwoRenamed(SameTitle, t);
  }
}
