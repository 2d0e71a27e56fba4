/** Order-preserving filtering and the subsequence relation, the shape of
    every list comprehension with an `if` in the source. */
module Seqs {

  /** `[x for x in s if p(x)]`. */
  function Filter<T(==)>(p: T -> bool, s: seq<T>): (r: seq<T>)
    ensures |r| <= |s|
    ensures forall i :: 0 <= i < |r| ==> r[i] in s && p(r[i])
    ensures forall i :: 0 <= i < |s| && p(s[i]) ==> s[i] in r
    ensures |r| == |s| <==> forall i :: 0 <= i < |s| ==> p(s[i])
  {
    if |s| == 0 then [] else (if p(s[0]) then [s[0]] else []) + Filter(p, s[1..])
  }

  /** `a` is obtained from `b` by deleting elements (relative order kept). */
  predicate IsSubseq<T(==)>(a: seq<T>, b: seq<T>)
    decreases |b|
  {
    if |a| == 0 then true
    else if |b| == 0 then false
    else if a[0] == b[0] then IsSubseq(a[1..], b[1..])
    else IsSubseq(a, b[1..])
  }

  lemma {:induction false} FilterIsSubseq<T>(p: T -> bool, s: seq<T>)
    ensures IsSubseq(Filter(p, s), s)
    decreases |s|
  {
    if |s| > 0 {
      FilterIsSubseq(p, s[1..]);
      if p(s[0]) {
        assert Filter(p, s)[1..] == Filter(p, s[1..]);
      } else {
        assert Filter(p, s) == Filter(p, s[1..]);
        SubseqDropHead(Filter(p, s[1..]), s);
      }
    }
  }

  /** Deleting the first element of the longer sequence keeps the relation. */
  lemma {:induction false} SubseqDropHead<T>(a: seq<T>, b: seq<T>)
    requires |b| > 0
    requires IsSubseq(a, b[1..])
    ensures IsSubseq(a, b)
    decreases |b|, 0
  {
    if |a| > 0 && a[0] == b[0] {
      // b[1..] already embeds a, so it embeds a[1..] as well
      SubseqTail(a, b[1..]);
    }
  }

  lemma {:induction false} SubseqTail<T>(a: seq<T>, b: seq<T>)
    requires |a| > 0
    requires IsSubseq(a, b)
    ensures IsSubseq(a[1..], b)
    decreases |b|, 1
  {
    assert |b| > 0;
    if a[0] == b[0] {
      SubseqDropHead(a[1..], b);
    } else {
      SubseqTail(a, b[1..]);
      SubseqDropHead(a[1..], b);
    }
  }

  lemma {:induction false} FilterConcat<T>(p: T -> bool, a: seq<T>, b: seq<T>)
    ensures Filter(p, a + b) == Filter(p, a) + Filter(p, b)
    decreases |a|
  {
    if |a| > 0 {
      assert (a + b)[1..] == a[1..] + b;
      FilterConcat(p, a[1..], b);
    } else {
      assert a + b == b;
    }
  }

  lemma {:induction false} FilterIdempotent<T>(p: T -> bool, s: seq<T>)
    ensures Filter(p, Filter(p, s)) == Filter(p, s)
  {
    var r := Filter(p, s);
    FilterKeepsAll(p, r);
  }

  /** Filtering a sequence all of whose elements pass is the identity. */
  lemma {:induction false} FilterKeepsAll<T>(p: T -> bool, s: seq<T>)
    requires forall i :: 0 <= i < |s| ==> p(s[i])
    ensures Filter(p, s) == s
    decreases |s|
  {
    if |s| > 0 {
      FilterKeepsAll(p, s[1..]);
    }
  }

  /** Filtering a sequence none of whose elements pass gives nothing. */
  lemma {:induction false} FilterNone<T>(p: T -> bool, s: seq<T>)
    requires forall i :: 0 <= i < |s| ==> !p(s[i])
    ensures Filter(p, s) == []
    decreases |s|
  {
    if |s| > 0 {
      FilterNone(p, s[1..]);
    }
  }

  /** Elements added in front of the longer sequence keep the relation. */
  lemma {:induction false} SubseqPrepend<T>(a: seq<T>, pre: seq<T>, b: seq<T>)
    requires IsSubseq(a, b)
    ensures IsSubseq(a, pre + b)
    decreases |pre|
  {
    if |pre| > 0 {
      assert (pre + b)[1..] == pre[1..] + b;
      SubseqPrepend(a, pre[1..], b);
      SubseqDropHead(a, pre + b);
    } else {
      assert pre + b == b;
    }
  }

  /** Subsequences of two parts concatenate to a subsequence of the whole. */
  lemma {:induction false} SubseqConcat<T>(a1: seq<T>, b1: seq<T>, a2: seq<T>, b2: seq<T>)
    requires IsSubseq(a1, b1) && IsSubseq(a2, b2)
    ensures IsSubseq(a1 + a2, b1 + b2)
    decreases |b1|
  {
    if |a1| == 0 {
      assert a1 + a2 == a2;
      SubseqPrepend(a2, b1, b2);
    } else {
      assert |b1| > 0;
      assert (b1 + b2)[1..] == b1[1..] + b2;
      if a1[0] == b1[0] {
        assert (a1 + a2)[1..] == a1[1..] + a2;
        SubseqConcat(a1[1..], b1[1..], a2, b2);
      } else {
        SubseqConcat(a1, b1[1..], a2, b2);
        SubseqDropHead(a1 + a2, b1 + b2);
      }
    }
  }

  lemma {:induction false} SubseqRefl<T>(a: seq<T>)
    ensures IsSubseq(a, a)
    decreases |a|
  {
    if |a| > 0 {
      SubseqRefl(a[1..]);
    }
  }

  /** A test that holds wherever another does keeps at least as many
      elements. */
  lemma {:induction false} FilterMonotone<T>(p: T -> bool, q: T -> bool, s: seq<T>)
    requires forall i :: 0 <= i < |s| && p(s[i]) ==> q(s[i])
    ensures |Filter(p, s)| <= |Filter(q, s)|
    decreases |s|
  {
    if |s| > 0 {
      assert forall i :: 0 <= i < |s[1..]| ==> s[1..][i] == s[i + 1];
      FilterMonotone(p, q, s[1..]);
    }
  }

  lemma AppendAssoc<T>(a: seq<T>, b: seq<T>, c: seq<T>)
    ensures (a + b) + c == a + (b + c)
  {
  }

  /** `[f(x) for x in s]`. */
  function Map<A, B>(f: A -> B, s: seq<A>): (r: seq<B>)
    ensures |r| == |s|
    ensures forall i :: 0 <= i < |s| ==> r[i] == f(s[i])
  {
    if |s| == 0 then [] else [f(s[0])] + Map(f, s[1..])
  }

  lemma MapConcat<A, B>(f: A -> B, a: seq<A>, b: seq<A>)
    ensures Map(f, a + b) == Map(f, a) + Map(f, b)
  {
    assert forall i :: 0 <= i < |a + b| ==> Map(f, a + b)[i] == (Map(f, a) + Map(f, b))[i];
  }
}
