/** Python's insertion-ordered `dict` with string keys, as a sequence of
    (key, value) entries: assigning to a present key replaces its value in
    place, assigning to a new key appends it. */
module Dicts {
  import opened Wrappers

  type Dict<V> = seq<(string, V)>

  function Keys<V>(d: Dict<V>): (r: seq<string>)
    ensures |r| == |d|
    ensures forall i :: 0 <= i < |d| ==> r[i] == d[i].0
  {
    if |d| == 0 then [] else [d[0].0] + Keys(d[1..])
  }

  /** No key occurs twice. */
  predicate UniqueKeys<V>(d: Dict<V>) {
    forall i, j :: 0 <= i < j < |d| ==> d[i].0 != d[j].0
  }

  /** `d.get(k)`. */
  function Get<V>(d: Dict<V>, k: string): (r: Option<V>)
    ensures r.None? <==> k !in Keys(d)
    ensures r.Some? ==> (k, r.value) in d
  {
    if |d| == 0 then None
    else if d[0].0 == k then Some(d[0].1)
    else Get(d[1..], k)
  }

  /** `d[k] = v`. */
  function Set<V>(d: Dict<V>, k: string, v: V): (r: Dict<V>)
    ensures k in Keys(d) ==> |r| == |d| && Keys(r) == Keys(d)
    ensures k !in Keys(d) ==> r == d + [(k, v)]
    ensures forall i :: 0 <= i < |d| && d[i].0 != k ==> r[i] == d[i]
  {
    if |d| == 0 then [(k, v)]
    else if d[0].0 == k then [(k, v)] + d[1..]
    else [d[0]] + Set(d[1..], k, v)
  }

  /** Assignment keeps the keys distinct. */
  lemma {:induction false} SetUnique<V>(d: Dict<V>, k: string, v: V)
    requires UniqueKeys(d)
    ensures UniqueKeys(Set(d, k, v))
  {
    if k !in Keys(d) {
      var r := Set(d, k, v);
      forall i, j | 0 <= i < j < |r|
        ensures r[i].0 != r[j].0
      {
        if j == |d| {
          assert Keys(d)[i] == d[i].0;
        }
      }
    } else {
      var r := Set(d, k, v);
      forall i, j | 0 <= i < j < |r|
        ensures r[i].0 != r[j].0
      {
        assert Keys(r)[i] == Keys(d)[i] && Keys(r)[j] == Keys(d)[j];
      }
    }
  }

  /** The value just assigned is the one read back; other keys read as
      before. */
  lemma {:induction false} GetSet<V>(d: Dict<V>, k: string, v: V, k': string)
    ensures Get(Set(d, k, v), k') == if k' == k then Some(v) else Get(d, k')
    decreases |d|
  {
    if |d| > 0 && d[0].0 != k {
      GetSet(d[1..], k, v, k');
      assert Set(d, k, v)[1..] == Set(d[1..], k, v);
    }
  }

  /** The keys after an assignment: the old ones and the assigned one. */
  lemma SetKeys<V>(d: Dict<V>, k: string, v: V)
    ensures forall k' :: k' in Keys(Set(d, k, v)) <==> k' == k || k' in Keys(d)
  {
    if k !in Keys(d) {
      assert Keys(d + [(k, v)]) == Keys(d) + [k];
    }
  }

  /** After an assignment the assigned pair is an entry, and every entry is
      that pair or an entry from before. */
  lemma {:induction false} SetEntries<V>(d: Dict<V>, k: string, v: V)
    ensures (k, v) in Set(d, k, v)
    ensures forall e :: e in Set(d, k, v) ==> e == (k, v) || e in d
    decreases |d|
  {
    if |d| > 0 {
      if d[0].0 == k {
        assert Set(d, k, v)[0] == (k, v);
        forall e | e in Set(d, k, v)
          ensures e == (k, v) || e in d
        {
          if e != (k, v) {
            var i :| 0 <= i < |Set(d, k, v)| && Set(d, k, v)[i] == e;
            assert e == d[1..][i - 1];
          }
        }
      } else {
        SetEntries(d[1..], k, v);
        var r := Set(d, k, v);
        assert r == [d[0]] + Set(d[1..], k, v);
        assert r[1..] == Set(d[1..], k, v);
        forall e | e in r
          ensures e == (k, v) || e in d
        {
          if e != d[0] {
            assert e in r[1..];
          }
        }
      }
    }
  }
}
