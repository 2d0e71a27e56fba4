/** `clean_html` (main_strictdoc.py:33-38): markup tags are removed with the
    pattern `<[^>]+>` and the remaining text is split on whitespace and
    re-joined with single spaces. */
module Html {
  import opened Text
  import opened Seqs

  /** A match of `<[^>]+>` starts at 0: a `<`, then at least one character
      before the first `>`. */
  predicate TagAtStart(s: string) {
    |s| > 0 && s[0] == '<' && IndexFrom(s, '>', 1) > 1
  }

  /** `re.sub(r"<[^>]+>", "", s)`: the scan goes left to right and a match
      ends at the first `>` after its opening `<`. */
  function StripTags(s: string): string
    decreases |s|
  {
    if |s| == 0 then ""
    else if TagAtStart(s) then StripTags(s[IndexFrom(s, '>', 1) + 1..])
    else [s[0]] + StripTags(s[1..])
  }

  /** No `<` in `s` opens a match of `<[^>]+>`: it is followed by no `>` at
      all, or immediately by one. */
  predicate TagFree(s: string) {
    forall i :: 0 <= i < |s| && s[i] == '<' ==> NoCloseAfter(s, i) || (i + 1 < |s| && s[i + 1] == '>')
  }

  /** No `>` follows position `i`. */
  predicate NoCloseAfter(s: string, i: nat) {
    forall j :: i < j < |s| ==> s[j] != '>'
  }

  function NotSpace(c: char): bool {
    !IsSpace(c)
  }

  lemma {:induction false} StripTagsNoClose(s: string)
    requires forall i :: 0 <= i < |s| ==> s[i] != '>'
    ensures StripTags(s) == s
    decreases |s|
  {
    if |s| > 0 {
      StripTagsNoClose(s[1..]);
    }
  }

  /** What survives `re.sub` has no match left. */
  lemma {:induction false} StripTagsTagFree(s: string)
    ensures TagFree(StripTags(s))
    decreases |s|
  {
    if |s| > 0 {
      if TagAtStart(s) {
        StripTagsTagFree(s[IndexFrom(s, '>', 1) + 1..]);
      } else {
        var rest := StripTags(s[1..]);
        StripTagsTagFree(s[1..]);
        var r := [s[0]] + rest;
        assert StripTags(s) == r;
        if s[0] == '<' {
          var c := IndexFrom(s, '>', 1);
          if c == -1 {
            StripTagsNoClose(s[1..]);
            assert rest == s[1..];
          } else {
            assert c == 1;
            assert s[1..][0] == '>';
            assert !TagAtStart(s[1..]);
            assert rest[0] == '>';
          }
        }
        forall i | 0 <= i < |r| && r[i] == '<'
          ensures NoCloseAfter(r, i) || (i + 1 < |r| && r[i + 1] == '>')
        {
          if i > 0 {
            assert rest[i - 1] == '<';
            if !NoCloseAfter(rest, i - 1) {
              assert i < |rest| && rest[i] == '>';
            }
          }
        }
      }
    }
  }

  /** A word of `str.split()`: non-empty, without whitespace. */
  predicate IsWord(w: string) {
    |w| > 0 && forall i :: 0 <= i < |w| ==> NotSpace(w[i])
  }

  /** Python's `str.split()` with no argument: the maximal runs of
      non-whitespace characters, `cur` being the run read so far. */
  function Words(s: string, cur: string): (r: seq<string>)
    requires cur == [] || IsWord(cur)
    ensures forall k :: 0 <= k < |r| ==> IsWord(r[k])
    decreases |s|
  {
    if |s| == 0 then
      (if cur == [] then [] else [cur])
    else if IsSpace(s[0]) then
      (if cur == [] then [] else [cur]) + Words(s[1..], [])
    else
      assert IsWord(cur + [s[0]]);
      Words(s[1..], cur + [s[0]])
  }

  /** Splitting loses exactly the whitespace. */
  lemma {:induction false} WordsKeepText(s: string, cur: string)
    requires cur == [] || IsWord(cur)
    ensures Flatten(Words(s, cur)) == cur + Filter(NotSpace, s)
    decreases |s|
  {
    if |s| == 0 {
      FlattenCons(cur, []);
      assert cur + [] == cur;
    } else if IsSpace(s[0]) {
      WordsKeepText(s[1..], []);
      WordsSpaceStep(s, cur);
    } else {
      assert IsWord(cur + [s[0]]);
      WordsKeepText(s[1..], cur + [s[0]]);
      WordsCharStep(s, cur);
    }
  }

  lemma WordsSpaceStep(s: string, cur: string)
    requires |s| > 0 && IsSpace(s[0]) && (cur == [] || IsWord(cur))
    requires Flatten(Words(s[1..], [])) == [] + Filter(NotSpace, s[1..])
    ensures Flatten(Words(s, cur)) == cur + Filter(NotSpace, s)
  {
    assert Filter(NotSpace, s) == Filter(NotSpace, s[1..]);
    FlattenCons(cur, Words(s[1..], []));
  }

  lemma WordsCharStep(s: string, cur: string)
    requires |s| > 0 && !IsSpace(s[0]) && (cur == [] || IsWord(cur))
    requires IsWord(cur + [s[0]])
    requires Flatten(Words(s[1..], cur + [s[0]])) == (cur + [s[0]]) + Filter(NotSpace, s[1..])
    ensures Flatten(Words(s, cur)) == cur + Filter(NotSpace, s)
  {
    assert Filter(NotSpace, s) == [s[0]] + Filter(NotSpace, s[1..]);
    AppendAssoc(cur, [s[0]], Filter(NotSpace, s[1..]));
  }

  /** The words, glued together. */
  function Flatten(ws: seq<string>): string {
    if |ws| == 0 then "" else ws[0] + Flatten(ws[1..])
  }

  lemma FlattenCons(w: string, ws: seq<string>)
    ensures Flatten((if w == [] then [] else [w]) + ws) == w + Flatten(ws)
  {
    if w != [] {
      assert ([w] + ws)[0] == w;
      assert ([w] + ws)[1..] == ws;
    } else {
      assert [] + ws == ws;
    }
  }

  /** Text that starts and ends with a non-whitespace character and whose
      whitespace is single spaces between non-whitespace characters. */
  predicate Collapsed(s: string) {
    && (|s| > 0 ==> NotSpace(s[0]) && NotSpace(s[|s| - 1]))
    && (forall i :: 0 <= i < |s| && IsSpace(s[i]) ==> s[i] == ' ')
    && (forall i :: 0 <= i < |s| - 1 && IsSpace(s[i]) ==> NotSpace(s[i + 1]))
  }

  /** A word, a space and collapsed text that starts with a non-whitespace
      character make collapsed text. */
  lemma CollapsedCons(w: string, rest: string)
    requires IsWord(w) && |rest| > 0 && Collapsed(rest)
    ensures Collapsed(w + " " + rest)
  {
    var r := w + " " + rest;
    forall i | 0 <= i < |r| && IsSpace(r[i])
      ensures r[i] == ' '
      ensures i < |r| - 1 ==> NotSpace(r[i + 1])
    {
      if i > |w| {
        assert r[i] == rest[i - |w| - 1];
        if i < |r| - 1 {
          assert r[i + 1] == rest[i - |w|];
        }
      } else if i == |w| {
        assert r[i + 1] == rest[0];
      }
    }
  }

  /** The non-whitespace characters of a word, a space and more text. */
  lemma NonSpaceCons(w: string, rest: string)
    requires IsWord(w)
    ensures Filter(NotSpace, w + " " + rest) == w + Filter(NotSpace, rest)
  {
    FilterConcat(NotSpace, w, " ");
    FilterKeepsAll(NotSpace, w);
    assert Filter(NotSpace, " ") == [];
    assert Filter(NotSpace, w + " ") == w;
    FilterConcat(NotSpace, w + " ", rest);
  }

  /** Joining non-empty, whitespace-free words with single spaces. */
  lemma {:induction false} JoinCollapsed(ws: seq<string>)
    requires forall k :: 0 <= k < |ws| ==> IsWord(ws[k])
    ensures Collapsed(JoinWith(" ", ws))
    ensures |ws| > 0 ==> StartsWith(JoinWith(" ", ws), ws[0])
    ensures Filter(NotSpace, JoinWith(" ", ws)) == Flatten(ws)
    decreases |ws|
  {
    if |ws| == 1 {
      FilterKeepsAll(NotSpace, ws[0]);
      assert Flatten(ws) == ws[0] + Flatten([]);
    } else if |ws| > 1 {
      var w := ws[0];
      var rest := JoinWith(" ", ws[1..]);
      JoinCollapsed(ws[1..]);
      assert JoinWith(" ", ws) == w + " " + rest;
      assert (w + " " + rest)[..|w|] == w;
      CollapsedCons(w, rest);
      NonSpaceCons(w, rest);
    }
  }

  /** Reading a whole word continues the current run. */
  lemma {:induction false} WordsAcrossWord(w: string, s: string, cur: string)
    requires forall i :: 0 <= i < |w| ==> NotSpace(w[i])
    requires cur == [] || IsWord(cur)
    ensures cur + w == [] || IsWord(cur + w)
    ensures Words(w + s, cur) == Words(s, cur + w)
    decreases |w|
  {
    if |w| == 0 {
      assert w + s == s && cur + w == cur;
    } else {
      assert (w + s)[0] == w[0] && (w + s)[1..] == w[1..] + s;
      assert IsWord(cur + [w[0]]);
      WordsAcrossWord(w[1..], s, cur + [w[0]]);
      assert cur + [w[0]] + w[1..] == cur + w;
    }
  }

  /** Splitting words joined by single spaces gives the words back. */
  lemma {:induction false} WordsOfJoin(ws: seq<string>)
    requires forall k :: 0 <= k < |ws| ==> IsWord(ws[k])
    ensures Words(JoinWith(" ", ws), []) == ws
    decreases |ws|
  {
    if |ws| == 1 {
      WordsAcrossWord(ws[0], "", []);
      assert ws[0] + "" == ws[0] && [] + ws[0] == ws[0];
    } else if |ws| > 1 {
      var w, rest := ws[0], JoinWith(" ", ws[1..]);
      assert JoinWith(" ", ws) == w + (" " + rest);
      WordsAcrossWord(w, " " + rest, []);
      assert [] + w == w;
      assert (" " + rest)[0] == ' ' && (" " + rest)[1..] == rest;
      WordsOfJoin(ws[1..]);
      assert ws == [w] + ws[1..];
    }
  }

  /** `clean_html`: the empty string for falsy input; otherwise the text
      with every tag removed and its whitespace collapsed. */
  function CleanHtml(s: string): (r: string)
    ensures s == "" ==> r == ""
    ensures Collapsed(r)
    ensures Filter(NotSpace, r) == Filter(NotSpace, StripTags(s))
    ensures Words(r, []) == Words(StripTags(s), [])
  {
    if s == "" then ""
    else
      var words := Words(StripTags(s), []);
      WordsKeepText(StripTags(s), []);
      JoinCollapsed(words);
      WordsOfJoin(words);
      JoinWith(" ", words)
  }
}
