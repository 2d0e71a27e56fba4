/** `preprocess_reqif_xml` (main.py:36-62): the textual repairs applied to a
    ReqIF document before it is parsed. Every regular-expression search and
    substitution is written out as the left-to-right scan Python's `re`
    module performs: the leftmost match wins, and a substitution continues
    after the text it replaced. */
module Preprocess {
  import opened Text
  import opened Seqs

  const Bom: char := '\U{FEFF}'

  /** Step 1: one leading byte-order mark is dropped. */
  function DropBom(s: string): string {
    if |s| > 0 && s[0] == Bom then s[1..] else s
  }

  // Step 2: the XML declaration.

  /** The length of a match of `<\?xml[^?]*\?>` at the start of `s`, or 0:
      after `<?xml`, the first `?` must be followed by `>`. */
  function DeclLen(s: string): (n: nat)
    ensures n > 0 ==> StartsWith(s, "<?xml") && 7 <= n <= |s| && s[n - 2..n] == "?>"
  {
    if !StartsWith(s, "<?xml") then 0
    else
      var q := IndexFrom(s, '?', 5);
      if q != -1 && q + 1 < |s| && s[q + 1] == '>' then q + 2 else 0
  }

  /** `re.search` from `from`: the leftmost start of a declaration, or -1. */
  function DeclStart(s: string, from: nat): (r: int)
    requires from <= |s|
    ensures r == -1 || from <= r < |s|
    ensures r == -1 ==> forall i :: from <= i <= |s| ==> DeclLen(s[i..]) == 0
    ensures r != -1 ==> DeclLen(s[r..]) > 0 && forall i :: from <= i < r ==> DeclLen(s[i..]) == 0
    decreases |s| - from
  {
    if DeclLen(s[from..]) > 0 then from
    else if from == |s| then -1
    else DeclStart(s, from + 1)
  }

  /** Step 2: the text before the first declaration is dropped; without a
      declaration the text is unchanged. */
  function TrimToDecl(s: string): (r: string)
    ensures DeclStart(s, 0) == -1 ==> r == s
    ensures DeclStart(s, 0) != -1 ==> r == s[DeclStart(s, 0)..] && DeclLen(r) > 0
  {
    var i := DeclStart(s, 0);
    if i == -1 then s else s[i..]
  }

  /** Trimming a second time changes nothing: the text already begins with
      its first declaration. */
  lemma TrimIdempotent(s: string)
    ensures TrimToDecl(TrimToDecl(s)) == TrimToDecl(s)
  {
    var t := TrimToDecl(s);
    if DeclStart(s, 0) != -1 {
      assert t[0..] == t;
      assert DeclStart(t, 0) == 0;
    }
  }

  // Step 3: namespace prefixes on element names.

  predicate IsAsciiUpper(c: char) {
    'A' <= c <= 'Z'
  }

  /** The two openings of a prefixed element name: `<` for a start tag,
      `</` for an end tag. */
  predicate Lead(lead: string) {
    lead == "<" || lead == "</"
  }

  /** A match of `lead(reqif|r):([A-Z])` at the start of `s`: the index of
      the uppercase letter, or 0. `reqif` is tried before `r`. */
  function PrefixLen(s: string, lead: string): (n: nat)
    requires Lead(lead)
    ensures n > 0 ==> StartsWith(s, lead) && |lead| + 2 <= n < |s| && IsAsciiUpper(s[n])
    ensures n > 0 ==> s[0] == '<' && s[|lead|] == 'r' && s[n - 1] == ':'
    ensures n > 0 ==> forall j :: 1 <= j <= n ==> s[j] != '<'
  {
    var long := |lead| + 6;
    var short := |lead| + 2;
    if StartsWith(s, lead + "reqif:") && long < |s| && IsAsciiUpper(s[long]) then
      var w := lead + "reqif:";
      assert s[..long] == w;
      assert s[0] == w[0];
      assert s[|lead|] == w[|lead|];
      assert forall j :: 1 <= j < long ==> s[j] == w[j] != '<';
      long
    else if StartsWith(s, lead + "r:") && short < |s| && IsAsciiUpper(s[short]) then
      var w := lead + "r:";
      assert s[..short] == w;
      assert s[0] == w[0];
      assert s[|lead|] == w[|lead|];
      assert forall j :: 1 <= j < short ==> s[j] == w[j] != '<';
      short
    else 0
  }

  /** `re.sub(r'<lead>(reqif|r):([A-Z])', r'<lead>\2', s)`: every match, left
      to right and without overlap, loses its namespace prefix. */
  function Unprefix(s: string, lead: string): string
    requires Lead(lead)
    decreases |s|
  {
    if |s| == 0 then ""
    else
      var n := PrefixLen(s, lead);
      if n > 0 then lead + [s[n]] + Unprefix(s[n + 1..], lead)
      else [s[0]] + Unprefix(s[1..], lead)
  }

  /** No position of `s` starts a match for `lead`. */
  predicate PrefixFree(s: string, lead: string)
    requires Lead(lead)
  {
    forall i :: 0 <= i <= |s| ==> PrefixLen(s[i..], lead) == 0
  }

  /** Whether `s` matches depends only on its first `n + 1` characters. */
  lemma SamePrefixSameMatch(r: string, s: string, lead: string)
    requires Lead(lead)
    requires PrefixLen(r, lead) > 0
    requires PrefixLen(r, lead) < |s| && r[..PrefixLen(r, lead) + 1] == s[..PrefixLen(r, lead) + 1]
    ensures PrefixLen(s, lead) == PrefixLen(r, lead)
  {
    var n := PrefixLen(r, lead);
    forall j | 0 <= j <= n
      ensures s[j] == r[j]
    {
      assert s[..n + 1][j] == s[j] && r[..n + 1][j] == r[j];
    }
    var long := |lead| + 6;
    var short := |lead| + 2;
    if n == long {
      assert r[..long] == lead + "reqif:";
      assert s[..long] == r[..long];
    } else {
      var w := lead + "r:";
      assert r[..short] == w;
      assert s[..short] == r[..short];
      assert s[|lead| + 1] == w[|lead| + 1] == ':';
      assert (lead + "reqif:")[|lead| + 1] == 'e';
    }
  }

  /** A position that starts no match is copied. */
  lemma UnprefixStep(s: string, lead: string)
    requires Lead(lead) && |s| > 0 && PrefixLen(s, lead) == 0
    ensures Unprefix(s, lead) == [s[0]] + Unprefix(s[1..], lead)
  {
  }

  /** A head without `<` is copied as it is. */
  lemma {:induction false} UnprefixKeepsHead(s: string, lead: string, k: nat)
    requires Lead(lead) && k <= |s|
    requires forall j :: 0 <= j < k ==> s[j] != '<'
    ensures k <= |Unprefix(s, lead)| && Unprefix(s, lead)[..k] == s[..k]
    decreases k
  {
    if k > 0 {
      assert PrefixLen(s, lead) == 0;
      UnprefixStep(s, lead);
      UnprefixKeepsHead(s[1..], lead, k - 1);
      var u := Unprefix(s[1..], lead);
      assert Unprefix(s, lead)[..k] == [s[0]] + u[..k - 1];
      assert s[..k] == [s[0]] + s[1..][..k - 1];
    }
  }

  /** Up to its first `<`, the rewritten text is the original text. */
  lemma {:induction false} UnprefixKeepsPrefix(t: string, lead: string, k: nat)
    requires Lead(lead)
    requires k <= |Unprefix(t, lead)|
    requires forall j :: 0 <= j < k ==> Unprefix(t, lead)[j] != '<'
    ensures k <= |t| && Unprefix(t, lead)[..k] == t[..k]
    decreases |t|
  {
    if k > 0 {
      var r := Unprefix(t, lead);
      assert r[0] != '<';
      assert PrefixLen(t, lead) == 0;
      var rest := Unprefix(t[1..], lead);
      assert r == [t[0]] + rest;
      forall j | 0 <= j < k - 1
        ensures rest[j] != '<'
      {
        assert rest[j] == r[j + 1];
      }
      UnprefixKeepsPrefix(t[1..], lead, k - 1);
      assert r[..k] == [t[0]] + rest[..k - 1];
      assert t[..k] == [t[0]] + t[1..][..k - 1];
    }
  }

  /** A match at the head of `c + Unprefix(rest)` was already a match at the
      head of `c + rest`: its characters after the leading `<` contain no
      `<`, so the rewrite left them alone. */
  lemma HeadMatchFromSource(s: string, lead: string, other: string)
    requires Lead(lead) && Lead(other) && |s| > 0
    ensures PrefixLen([s[0]] + Unprefix(s[1..], lead), other) > 0 ==> PrefixLen(s, other) > 0
  {
    var rest := Unprefix(s[1..], lead);
    var r := [s[0]] + rest;
    var m := PrefixLen(r, other);
    if m > 0 {
      forall j | 0 <= j < m
        ensures rest[j] != '<'
      {
        assert rest[j] == r[j + 1];
      }
      UnprefixKeepsPrefix(s[1..], lead, m);
      assert r[..m + 1] == [s[0]] + rest[..m];
      assert s[..m + 1] == [s[0]] + s[1..][..m];
      SamePrefixSameMatch(r, s, other);
    }
  }

  lemma SuffixPrefixFree(s: string, other: string, k: nat)
    requires Lead(other) && k <= |s| && PrefixFree(s, other)
    ensures PrefixFree(s[k..], other)
  {
    forall i | 0 <= i <= |s[k..]|
      ensures PrefixLen(s[k..][i..], other) == 0
    {
      assert s[k..][i..] == s[k + i..];
    }
  }

  /** Rewriting for `lead` leaves no match for `lead`, and creates none for
      the other opening where there was none. */
  lemma {:induction false} UnprefixFree(s: string, lead: string, other: string)
    requires Lead(lead) && Lead(other)
    requires other == lead || PrefixFree(s, other)
    ensures PrefixFree(Unprefix(s, lead), other)
    decreases |s|
  {
    var r := Unprefix(s, lead);
    if |s| > 0 {
      var n := PrefixLen(s, lead);
      if n > 0 {
        if other != lead {
          SuffixPrefixFree(s, other, n + 1);
        }
        UnprefixFree(s[n + 1..], lead, other);
        var rest := Unprefix(s[n + 1..], lead);
        var h := lead + [s[n]];
        assert r == h + rest;
        forall i | 0 <= i <= |r|
          ensures PrefixLen(r[i..], other) == 0
        {
          if i >= |h| {
            assert r[i..] == rest[i - |h|..];
          } else if i == 0 {
            assert r[1] == h[1];
            assert r[|lead|] == s[n];
          } else {
            assert r[i] == h[i];
            assert r[i..][0] == r[i];
          }
        }
      } else {
        if other != lead {
          SuffixPrefixFree(s, other, 1);
        }
        UnprefixFree(s[1..], lead, other);
        var rest := Unprefix(s[1..], lead);
        assert r == [s[0]] + rest;
        forall i | 0 <= i <= |r|
          ensures PrefixLen(r[i..], other) == 0
        {
          if i > 0 {
            assert r[i..] == rest[i - 1..];
          } else {
            assert r[0..] == r;
            HeadMatchFromSource(s, lead, other);
            if other != lead {
              assert s[0..] == s;
            }
          }
        }
      }
    }
  }

  /** Text with no match is left as it is. */
  lemma {:induction false} UnprefixFixpoint(s: string, lead: string)
    requires Lead(lead) && PrefixFree(s, lead)
    ensures Unprefix(s, lead) == s
    decreases |s|
  {
    if |s| > 0 {
      assert s[0..] == s;
      SuffixPrefixFree(s, lead, 1);
      UnprefixFixpoint(s[1..], lead);
    }
  }

  /** Step 3: both substitutions, start tags first. */
  function StripPrefixes(s: string): string {
    Unprefix(Unprefix(s, "<"), "</")
  }

  /** After step 3 no `<reqif:`, `<r:`, `</reqif:` or `</r:` is followed by
      an uppercase letter, and step 3 changes nothing a second time. */
  lemma StripPrefixesClean(s: string)
    ensures PrefixFree(StripPrefixes(s), "<") && PrefixFree(StripPrefixes(s), "</")
    ensures StripPrefixes(StripPrefixes(s)) == StripPrefixes(s)
  {
    var t := Unprefix(s, "<");
    UnprefixFree(s, "<", "<");
    UnprefixFree(t, "</", "<");
    UnprefixFree(t, "</", "</");
    var u := StripPrefixes(s);
    UnprefixFixpoint(u, "<");
    UnprefixFixpoint(u, "</");
  }

  // Step 4: the namespace declaration.

  /** After `<REQ-IF` and at least one character: `xmlns="` starts at or
      after `j` with no `>` before it. */
  predicate XmlnsBeforeClose(t: string, j: nat)
    decreases |t| - j
  {
    j < |t| && (StartsWith(t[j..], "xmlns=\"") || (t[j] != '>' && XmlnsBeforeClose(t, j + 1)))
  }

  /** `<REQ-IF[^>]+xmlns="` matches at the start of `s`. */
  predicate DefaultXmlnsAt(s: string) {
    StartsWith(s, "<REQ-IF") && |s| > 7 && s[7] != '>' && XmlnsBeforeClose(s[7..], 1)
  }

  /** `re.search(r'<REQ-IF[^>]+xmlns="', s)` finds a match. */
  predicate HasDefaultXmlns(s: string)
    decreases |s|
  {
    |s| > 0 && (DefaultXmlnsAt(s) || HasDefaultXmlns(s[1..]))
  }

  /** A match of `xmlns:(reqif|r)=` at the start of `s`: its length, or 0. */
  function XmlnsPrefixLen(s: string): (n: nat)
    ensures n > 0 ==> 8 <= n <= |s| && s[0] == 'x' && s[5] == ':'
  {
    if StartsWith(s, "xmlns:reqif=") then
      assert s[..12] == "xmlns:reqif=";
      assert s[0] == s[..12][0] && s[5] == s[..12][5];
      12
    else if StartsWith(s, "xmlns:r=") then
      assert s[..8] == "xmlns:r=";
      assert s[0] == s[..8][0] && s[5] == s[..8][5];
      8
    else 0
  }

  /** `re.sub(r'xmlns:(reqif|r)=', 'xmlns=', s)`. */
  function UnprefixXmlns(s: string): string
    decreases |s|
  {
    if |s| == 0 then ""
    else
      var n := XmlnsPrefixLen(s);
      if n > 0 then "xmlns=" + UnprefixXmlns(s[n..])
      else [s[0]] + UnprefixXmlns(s[1..])
  }

  predicate XmlnsPrefixFree(s: string) {
    forall i :: 0 <= i <= |s| ==> XmlnsPrefixLen(s[i..]) == 0
  }

  /** A position that starts no match is copied. */
  lemma UnprefixXmlnsStep(s: string)
    requires |s| > 0 && XmlnsPrefixLen(s) == 0
    ensures UnprefixXmlns(s) == [s[0]] + UnprefixXmlns(s[1..])
  {
  }

  /** A head without `x` is copied as it is. */
  lemma {:induction false} UnprefixXmlnsKeepsHead(s: string, k: nat)
    requires k <= |s|
    requires forall j :: 0 <= j < k ==> s[j] != 'x'
    ensures k <= |UnprefixXmlns(s)| && UnprefixXmlns(s)[..k] == s[..k]
    decreases k
  {
    if k > 0 {
      assert XmlnsPrefixLen(s) == 0;
      UnprefixXmlnsStep(s);
      UnprefixXmlnsKeepsHead(s[1..], k - 1);
      var u := UnprefixXmlns(s[1..]);
      assert UnprefixXmlns(s)[..k] == [s[0]] + u[..k - 1];
      assert s[..k] == [s[0]] + s[1..][..k - 1];
    }
  }

  /** Up to its first `x`, the rewritten text is the original text. */
  lemma {:induction false} UnprefixXmlnsKeepsPrefix(t: string, k: nat)
    requires k <= |UnprefixXmlns(t)|
    requires forall j :: 0 <= j < k ==> UnprefixXmlns(t)[j] != 'x'
    ensures k <= |t| && UnprefixXmlns(t)[..k] == t[..k]
    decreases |t|
  {
    if k > 0 {
      var r := UnprefixXmlns(t);
      assert r[0] != 'x';
      assert XmlnsPrefixLen(t) == 0;
      var rest := UnprefixXmlns(t[1..]);
      assert r == [t[0]] + rest;
      forall j | 0 <= j < k - 1
        ensures rest[j] != 'x'
      {
        assert rest[j] == r[j + 1];
      }
      UnprefixXmlnsKeepsPrefix(t[1..], k - 1);
      assert r[..k] == [t[0]] + rest[..k - 1];
      assert t[..k] == [t[0]] + t[1..][..k - 1];
    }
  }

  lemma XmlnsHeadMatchFromSource(s: string)
    requires |s| > 0
    ensures XmlnsPrefixLen([s[0]] + UnprefixXmlns(s[1..])) > 0 ==> XmlnsPrefixLen(s) > 0
  {
    var rest := UnprefixXmlns(s[1..]);
    var r := [s[0]] + rest;
    var m := XmlnsPrefixLen(r);
    if m > 0 {
      var w := if m == 12 then "xmlns:reqif=" else "xmlns:r=";
      assert r[..m] == w;
      forall j | 0 <= j < m - 1
        ensures rest[j] != 'x'
      {
        assert rest[j] == r[j + 1] == w[j + 1];
      }
      UnprefixXmlnsKeepsPrefix(s[1..], m - 1);
      assert r[..m] == [s[0]] + rest[..m - 1];
      assert s[..m] == [s[0]] + s[1..][..m - 1];
    }
  }

  /** The rewrite leaves no `xmlns:reqif=` or `xmlns:r=` behind. */
  lemma {:induction false} UnprefixXmlnsClean(s: string)
    ensures XmlnsPrefixFree(UnprefixXmlns(s))
    decreases |s|
  {
    var r := UnprefixXmlns(s);
    if |s| > 0 {
      var n := XmlnsPrefixLen(s);
      if n > 0 {
        UnprefixXmlnsClean(s[n..]);
        var rest := UnprefixXmlns(s[n..]);
        assert r == "xmlns=" + rest;
        forall i | 0 <= i <= |r|
          ensures XmlnsPrefixLen(r[i..]) == 0
        {
          if i >= 6 {
            assert r[i..] == rest[i - 6..];
          } else {
            assert r[i] == "xmlns="[i];
            assert r[i..][0] == r[i];
            assert i == 0 ==> r[5] == '=';
          }
        }
      } else {
        UnprefixXmlnsClean(s[1..]);
        var rest := UnprefixXmlns(s[1..]);
        assert r == [s[0]] + rest;
        forall i | 0 <= i <= |r|
          ensures XmlnsPrefixLen(r[i..]) == 0
        {
          if i > 0 {
            assert r[i..] == rest[i - 1..];
          } else {
            assert r[0..] == r;
            XmlnsHeadMatchFromSource(s);
          }
        }
      }
    }
  }

  /** The length of the run of whitespace that starts `s`. */
  function SpaceRun(s: string): (n: nat)
    ensures n <= |s|
    ensures forall i :: 0 <= i < n ==> IsSpace(s[i])
    ensures n == |s| || !IsSpace(s[n])
  {
    if |s| == 0 || !IsSpace(s[0]) then 0 else 1 + SpaceRun(s[1..])
  }

  /** A match of `\s+xmlns:(reqif|r)="[^"]*"` at the start of `s`: its
      length, or 0. `\s+` can only succeed with the whole whitespace run,
      and the value ends at the first `"` after the opening one. */
  function XmlnsDeclLen(s: string): (n: nat)
    ensures n <= |s|
    ensures n > 0 ==> IsSpace(s[0])
  {
    var w := SpaceRun(s);
    if w == 0 then 0
    else
      var t := s[w..];
      var open := if StartsWith(t, "xmlns:reqif=\"") then 13 else if StartsWith(t, "xmlns:r=\"") then 9 else 0;
      if open == 0 then 0
      else
        var q := IndexFrom(t, '"', open);
        if q == -1 then 0 else w + q + 1
  }

  /** `re.sub(r'\s+xmlns:(reqif|r)="[^"]*"', '', s)`. */
  function DropXmlnsDecls(s: string): string
    decreases |s|
  {
    if |s| == 0 then ""
    else
      var n := XmlnsDeclLen(s);
      if n > 0 then DropXmlnsDecls(s[n..])
      else [s[0]] + DropXmlnsDecls(s[1..])
  }

  /** The removal only deletes characters. */
  lemma {:induction false} DropXmlnsDeclsSubseq(s: string)
    ensures IsSubseq(DropXmlnsDecls(s), s)
    decreases |s|
  {
    if |s| > 0 {
      var n := XmlnsDeclLen(s);
      if n > 0 {
        DropXmlnsDeclsSubseq(s[n..]);
        SubseqPrepend(DropXmlnsDecls(s[n..]), s[..n], s[n..]);
        assert s[..n] + s[n..] == s;
      } else {
        DropXmlnsDeclsSubseq(s[1..]);
        assert DropXmlnsDecls(s)[1..] == DropXmlnsDecls(s[1..]);
      }
    }
  }

  /** Text with no match is left as it is. */
  lemma {:induction false} DropXmlnsDeclsFixpoint(s: string)
    requires forall i :: 0 <= i <= |s| ==> XmlnsDeclLen(s[i..]) == 0
    ensures DropXmlnsDecls(s) == s
    decreases |s|
  {
    if |s| > 0 {
      assert s[0..] == s;
      forall i | 0 <= i <= |s[1..]|
        ensures XmlnsDeclLen(s[1..][i..]) == 0
      {
        assert s[1..][i..] == s[i + 1..];
      }
      DropXmlnsDeclsFixpoint(s[1..]);
    }
  }

  lemma DropXmlnsDeclsStep(s: string)
    requires |s| > 0 && !IsSpace(s[0])
    ensures DropXmlnsDecls(s) == [s[0]] + DropXmlnsDecls(s[1..])
  {
    assert XmlnsDeclLen(s) == 0;
  }

  /** A head without whitespace is copied as it is. */
  lemma {:induction false} DropXmlnsDeclsKeepsHead(s: string, k: nat)
    requires k <= |s|
    requires forall j :: 0 <= j < k ==> !IsSpace(s[j])
    ensures k <= |DropXmlnsDecls(s)| && DropXmlnsDecls(s)[..k] == s[..k]
    decreases k
  {
    if k > 0 {
      DropXmlnsDeclsStep(s);
      DropXmlnsDeclsKeepsHead(s[1..], k - 1);
      var d := DropXmlnsDecls(s[1..]);
      assert DropXmlnsDecls(s)[..k] == [s[0]] + d[..k - 1];
      assert s[..k] == [s[0]] + s[1..][..k - 1];
    }
  }

  /** Step 4: the prefixed namespace declaration becomes the default one,
      unless the root element already declares a default namespace, in which
      case the prefixed declarations are removed. */
  function RewriteXmlns(s: string): string {
    if HasDefaultXmlns(s) then DropXmlnsDecls(s) else UnprefixXmlns(s)
  }

  /** `preprocess_reqif_xml`. */
  function PreprocessXml(s: string): string {
    RewriteXmlns(StripPrefixes(TrimToDecl(DropBom(s))))
  }

  // Properties of the whole pre-pass.

  lemma UnprefixKeepsDecl(s: string, lead: string)
    requires Lead(lead) && StartsWith(s, "<?xml")
    ensures StartsWith(Unprefix(s, lead), "<?xml")
  {
    assert s[1] == '?';
    assert PrefixLen(s, lead) == 0;
    UnprefixStep(s, lead);
    UnprefixKeepsHead(s[1..], lead, 4);
    var u := Unprefix(s[1..], lead);
    assert Unprefix(s, lead)[..5] == [s[0]] + u[..4];
    assert s[..5] == [s[0]] + s[1..][..4];
  }

  /** A text starting with `xml` still does after step 4's renaming:
      either nothing matches there, or the match begins `xmlns=`. */
  lemma UnprefixXmlnsKeepsXml(t: string)
    requires StartsWith(t, "xml")
    ensures StartsWith(UnprefixXmlns(t), "xml")
  {
    if XmlnsPrefixLen(t) == 0 {
      UnprefixXmlnsStep(t);
      UnprefixXmlnsKeepsHead(t[1..], 2);
      var u := UnprefixXmlns(t[1..]);
      assert UnprefixXmlns(t)[..3] == [t[0]] + u[..2];
      assert t[1..][..2] == t[1..3];
    }
  }

  lemma UnprefixXmlnsKeepsDecl(s: string)
    requires StartsWith(s, "<?xml")
    ensures StartsWith(UnprefixXmlns(s), "<?xml")
  {
    var t := s[2..];
    UnprefixXmlnsStep(s);
    UnprefixXmlnsStep(s[1..]);
    assert s[1..][1..] == t;
    assert t[..3] == s[2..5];
    UnprefixXmlnsKeepsXml(t);
    var u := UnprefixXmlns(t);
    assert UnprefixXmlns(s) == [s[0], s[1]] + u;
    assert UnprefixXmlns(s)[..5] == [s[0], s[1]] + u[..3];
  }

  lemma RewriteXmlnsKeepsDecl(s: string)
    requires StartsWith(s, "<?xml")
    ensures StartsWith(RewriteXmlns(s), "<?xml")
  {
    if HasDefaultXmlns(s) {
      DropXmlnsDeclsKeepsHead(s, 5);
    } else {
      UnprefixXmlnsKeepsDecl(s);
    }
  }

  /** When the text holds a declaration, the output begins with `<?xml`:
      what came before it is gone. */
  lemma PreprocessKeepsDecl(s: string)
    requires DeclStart(DropBom(s), 0) != -1
    ensures StartsWith(PreprocessXml(s), "<?xml")
  {
    var t := TrimToDecl(DropBom(s));
    UnprefixKeepsDecl(t, "<");
    UnprefixKeepsDecl(Unprefix(t, "<"), "</");
    RewriteXmlnsKeepsDecl(StripPrefixes(t));
  }

  /** A leading byte-order mark makes no difference to the result. */
  lemma PreprocessIgnoresBom(t: string)
    requires |t| == 0 || t[0] != Bom
    ensures PreprocessXml([Bom] + t) == PreprocessXml(t)
  {
    assert ([Bom] + t)[1..] == t;
  }
}
