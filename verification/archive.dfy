/** The archive path of main.py, `process_reqifz_file` (main.py:424-502):
    every embedded ReqIF member goes through the two-phase conversion, the
    documents of the members that converted are collected and tagged with
    the member's name, the others contribute an error line, and the
    archive's attachments are listed. Parsing the archive is a parameter:
    its outcome is either the archive's members and attachments or the text
    of the exception the parser raised. The aggregation is stated for any
    per-member conversion `run`; the archive path itself instantiates it
    with the two-phase conversion. */
module Archive {
  import opened Wrappers
  import opened Text
  import opened Seqs
  import opened ReqIF
  import opened Orchestrator

  /** The parsed archive: its ReqIF members and its attachments, each as
      (name, content), in the archive's order. */
  datatype ZBundle = ZBundle(members: seq<(string, Bundle)>, attachments: seq<(string, seq<bv8>)>)

  /** A document dictionary with its `_SOURCE_FILE` entry. */
  datatype Tagged<D> = Tagged(doc: D, sourceFile: string)

  /** The `data` dictionary of a successful archive conversion. */
  datatype ArchiveData<D> = ArchiveData(
    comment: string,
    documents: seq<Tagged<D>>,
    attachments: seq<string>,
    workarounds: Option<seq<string>>,
    partialErrors: Option<seq<string>>)

  datatype ArchiveResult<D> = ArchiveResult(success: bool, data: Option<ArchiveData<D>>, error: Option<string>, applied: seq<string>)

  const NoDocuments := "No documents found"

  /** The member contributes documents: its conversion succeeded with data
      (main.py:449). */
  predicate Delivered<D>(run: Bundle -> Conversion<D>, m: (string, Bundle)) {
    run(m.1).success && run(m.1).data.Some?
  }

  /** The member contributes at least one document. */
  predicate Contributes<D>(run: Bundle -> Conversion<D>, m: (string, Bundle)) {
    Delivered(run, m) && |run(m.1).data.value.documents| > 0
  }

  function FailsFn<D>(run: Bundle -> Conversion<D>): ((string, Bundle)) -> bool {
    m => !Delivered(run, m)
  }

  /** `f"[{bundle_name}] {text}"`. */
  function Labelled(name: string, text: string): string {
    "[" + name + "] " + text
  }

  /** The error line of a member that did not convert. */
  function ErrorLine<D>(run: Bundle -> Conversion<D>, m: (string, Bundle)): string {
    Labelled(m.0, run(m.1).error.GetOr("None"))
  }

  function ErrorLines<D>(run: Bundle -> Conversion<D>, ms: seq<(string, Bundle)>): (r: seq<string>)
    ensures |r| == |ms|
    ensures forall i :: 0 <= i < |ms| ==> r[i] == ErrorLine(run, ms[i])
  {
    if |ms| == 0 then [] else [ErrorLine(run, ms[0])] + ErrorLines(run, ms[1..])
  }

  function TagAll<D>(docs: seq<D>, name: string): (r: seq<Tagged<D>>)
    ensures |r| == |docs|
    ensures forall i :: 0 <= i < |docs| ==> r[i] == Tagged(docs[i], name)
  {
    if |docs| == 0 then [] else [Tagged(docs[0], name)] + TagAll(docs[1..], name)
  }

  function LabelAll(name: string, lines: seq<string>): (r: seq<string>)
    ensures |r| == |lines|
    ensures forall i :: 0 <= i < |lines| ==> r[i] == Labelled(name, lines[i])
  {
    if |lines| == 0 then [] else [Labelled(name, lines[0])] + LabelAll(name, lines[1..])
  }

  /** What the member loop (main.py:441-455) accumulates. */
  datatype Collected<D> = Collected(documents: seq<Tagged<D>>, workarounds: seq<string>, errors: seq<string>)

  /** The member loop: each member's documents, tagged with the member's
      name, when its conversion delivered, and otherwise one error line. */
  function CollectMembers<D>(run: Bundle -> Conversion<D>, ms: seq<(string, Bundle)>): Collected<D>
    decreases |ms|
  {
    if |ms| == 0 then Collected([], [], [])
    else
      var m := ms[0];
      var res := run(m.1);
      var rest := CollectMembers(run, ms[1..]);
      var ws := LabelAll(m.0, res.applied) + rest.workarounds;
      if res.success && res.data.Some? then
        Collected(TagAll(res.data.value.documents, m.0) + rest.documents, ws, rest.errors)
      else
        Collected(rest.documents, ws, [ErrorLine(run, m)] + rest.errors)
  }

  /** The error lines are those of the members that did not deliver, in
      member order. */
  lemma {:induction false} CollectedErrors<D>(run: Bundle -> Conversion<D>, ms: seq<(string, Bundle)>)
    ensures CollectMembers(run, ms).errors == ErrorLines(run, Filter(FailsFn(run), ms))
    decreases |ms|
  {
    if |ms| > 0 {
      CollectedErrors(run, ms[1..]);
      var fails := FailsFn(run);
      var head := if fails(ms[0]) then [ms[0]] else [];
      assert Filter(fails, ms) == head + Filter(fails, ms[1..]);
      ErrorLinesConcat(run, head, Filter(fails, ms[1..]));
    }
  }

  /** Some document is collected exactly when some member contributes one. */
  lemma {:induction false} CollectedDocumentsExist<D>(run: Bundle -> Conversion<D>, ms: seq<(string, Bundle)>)
    ensures |CollectMembers(run, ms).documents| > 0 <==> exists i :: 0 <= i < |ms| && Contributes(run, ms[i])
    decreases |ms|
  {
    if |ms| > 0 {
      CollectedDocumentsExist(run, ms[1..]);
      if exists i :: 0 <= i < |ms[1..]| && Contributes(run, ms[1..][i]) {
        var i :| 0 <= i < |ms[1..]| && Contributes(run, ms[1..][i]);
        assert Contributes(run, ms[i + 1]);
      }
      if exists i :: 0 <= i < |ms| && Contributes(run, ms[i]) {
        var i :| 0 <= i < |ms| && Contributes(run, ms[i]);
        if i > 0 {
          assert Contributes(run, ms[1..][i - 1]);
        }
      }
    }
  }

  /** Every collected document is one of the documents of a member that
      delivered, tagged with that member's own name. */
  lemma {:induction false} CollectedDocumentsTagged<D>(run: Bundle -> Conversion<D>, ms: seq<(string, Bundle)>, k: nat)
    requires k < |CollectMembers(run, ms).documents|
    ensures exists i, j ::
      && 0 <= i < |ms| && Delivered(run, ms[i]) && 0 <= j < |run(ms[i].1).data.value.documents|
      && CollectMembers(run, ms).documents[k] == Tagged(run(ms[i].1).data.value.documents[j], ms[i].0)
    decreases |ms|
  {
    var m := ms[0];
    var rest := CollectMembers(run, ms[1..]);
    var docs := CollectMembers(run, ms).documents;
    if Delivered(run, m) {
      var own := TagAll(run(m.1).data.value.documents, m.0);
      assert docs == own + rest.documents;
      if k < |own| {
        assert docs[k] == Tagged(run(ms[0].1).data.value.documents[k], ms[0].0);
      } else {
        CollectedDocumentsTagged(run, ms[1..], k - |own|);
        var i, j :| 0 <= i < |ms[1..]| && Delivered(run, ms[1..][i]) && 0 <= j < |run(ms[1..][i].1).data.value.documents|
          && rest.documents[k - |own|] == Tagged(run(ms[1..][i].1).data.value.documents[j], ms[1..][i].0);
        assert ms[1..][i] == ms[i + 1];
        assert docs[k] == Tagged(run(ms[i + 1].1).data.value.documents[j], ms[i + 1].0);
      }
    } else {
      CollectedDocumentsTagged(run, ms[1..], k);
      var i, j :| 0 <= i < |ms[1..]| && Delivered(run, ms[1..][i]) && 0 <= j < |run(ms[1..][i].1).data.value.documents|
        && rest.documents[k] == Tagged(run(ms[1..][i].1).data.value.documents[j], ms[1..][i].0);
      assert ms[1..][i] == ms[i + 1];
      assert docs[k] == Tagged(run(ms[i + 1].1).data.value.documents[j], ms[i + 1].0);
    }
  }

  /** Two collections one after the other. */
  function Combine<D>(x: Collected<D>, y: Collected<D>): Collected<D> {
    Collected(x.documents + y.documents, x.workarounds + y.workarounds, x.errors + y.errors)
  }

  /** What one member contributes: its documents tagged with its name when
      it delivered, its workaround lines labelled with its name, and one
      error line when it did not deliver. */
  lemma CollectMembersSingle<D>(run: Bundle -> Conversion<D>, m: (string, Bundle))
    ensures CollectMembers(run, [m]) == Collected(
      if Delivered(run, m) then TagAll(run(m.1).data.value.documents, m.0) else [],
      LabelAll(m.0, run(m.1).applied),
      if Delivered(run, m) then [] else [ErrorLine(run, m)])
  {
    assert [m][1..] == [];
  }

  /** The member loop over two runs of members is the two loops one after
      the other; with `CollectMembersSingle` this makes the collection the
      concatenation, in member order, of what each member contributes. */
  lemma {:induction false} CollectMembersConcat<D>(run: Bundle -> Conversion<D>, a: seq<(string, Bundle)>, b: seq<(string, Bundle)>)
    ensures CollectMembers(run, a + b) == Combine(CollectMembers(run, a), CollectMembers(run, b))
    decreases |a|
  {
    if |a| > 0 {
      assert (a + b)[0] == a[0];
      assert (a + b)[1..] == a[1..] + b;
      CollectMembersConcat(run, a[1..], b);
      var x, y := CollectMembers(run, a[1..]), CollectMembers(run, b);
      var res := run(a[0].1);
      AppendAssoc(LabelAll(a[0].0, res.applied), x.workarounds, y.workarounds);
      if res.success && res.data.Some? {
        AppendAssoc(TagAll(res.data.value.documents, a[0].0), x.documents, y.documents);
      } else {
        AppendAssoc([ErrorLine(run, a[0])], x.errors, y.errors);
      }
    } else {
      assert a + b == b;
    }
  }

  lemma {:induction false} ErrorLinesConcat<D>(run: Bundle -> Conversion<D>, a: seq<(string, Bundle)>, b: seq<(string, Bundle)>)
    ensures ErrorLines(run, a + b) == ErrorLines(run, a) + ErrorLines(run, b)
  {
  }

  /** An attachment is written out unless its payload is empty or its name
      ends with `/` (main.py:462-463). */
  predicate Extracted(a: (string, seq<bv8>)) {
    |a.1| > 0 && !EndsWith(a.0, "/")
  }

  function AttachmentPaths(atts: seq<(string, seq<bv8>)>): (r: seq<string>)
    ensures |r| == |atts|
    ensures forall i :: 0 <= i < |atts| ==> r[i] == "attachments/" + atts[i].0
  {
    if |atts| == 0 then [] else ["attachments/" + atts[0].0] + AttachmentPaths(atts[1..])
  }

  /** The extraction loop: the relative paths of the written attachments,
      in archive order. */
  function ExtractAttachments(atts: seq<(string, seq<bv8>)>): (r: seq<string>)
    ensures r == AttachmentPaths(Filter(Extracted, atts))
    decreases |atts|
  {
    if |atts| == 0 then []
    else
      var rest := ExtractAttachments(atts[1..]);
      assert Filter(Extracted, atts) == (if Extracted(atts[0]) then [atts[0]] else []) + Filter(Extracted, atts[1..]);
      (if Extracted(atts[0]) then ["attachments/" + atts[0].0] else []) + rest
  }

  /** The aggregation of `process_reqifz_file` for a per-member conversion
      `run`. */
  function Aggregate<D>(run: Bundle -> Conversion<D>, parsed: Result<ZBundle, string>): (r: ArchiveResult<D>)
    ensures parsed.Failure? ==> r == ArchiveResult(false, None, Some("Archive error: " + Take(parsed.error, 300)), [])
    ensures parsed.Success? ==>
      var z := parsed.value;
      var failed := Filter(FailsFn(run), z.members);
      && (r.success <==> exists i :: 0 <= i < |z.members| && Contributes(run, z.members[i]))
      && r.applied == CollectMembers(run, z.members).workarounds
      && (r.success ==>
            && r.data.Some? && r.error.None?
            && r.data.value.documents == CollectMembers(run, z.members).documents
            && |r.data.value.documents| > 0
            && r.data.value.comment == Comment
            && r.data.value.attachments == AttachmentPaths(Filter(Extracted, z.attachments))
            && (r.data.value.partialErrors.Some? <==> |failed| > 0)
            && (|failed| > 0 ==> r.data.value.partialErrors.value == ErrorLines(run, failed))
            && r.data.value.workarounds == (if r.applied == [] then None else Some(r.applied)))
      && (!r.success ==>
            && r.data.None?
            && r.error == Some(if |failed| == 0 then NoDocuments else JoinWith("; ", ErrorLines(run, failed))))
  {
    match parsed
    case Failure(e) => ArchiveResult(false, None, Some("Archive error: " + Take(e, 300)), [])
    case Success(z) =>
      var col := CollectMembers(run, z.members);
      CollectedDocumentsExist(run, z.members);
      CollectedErrors(run, z.members);
      if |col.documents| > 0 then
        var data := ArchiveData(
          Comment,
          col.documents,
          ExtractAttachments(z.attachments),
          if col.workarounds == [] then None else Some(col.workarounds),
          if col.errors == [] then None else Some(col.errors));
        ArchiveResult(true, Some(data), None, col.workarounds)
      else
        ArchiveResult(false, None, Some(if col.errors == [] then NoDocuments else JoinWith("; ", col.errors)), col.workarounds)
  }

  function RunFn<D>(convert: Bundle -> Result<seq<D>, string>, mapTitle: string -> string): Bundle -> Conversion<D> {
    b => ConvertReqifToJson(convert, mapTitle, b)
  }

  /** `process_reqifz_file`: the aggregation over the two-phase conversion. */
  function ProcessReqifz<D>(convert: Bundle -> Result<seq<D>, string>, mapTitle: string -> string, parsed: Result<ZBundle, string>)
    : ArchiveResult<D>
  {
    Aggregate(RunFn(convert, mapTitle), parsed)
  }

  /** Over the two-phase conversion, a member delivers exactly when it
      converts, and then it contributes a document. */
  lemma ConvertedMemberContributes<D>(convert: Bundle -> Result<seq<D>, string>, mapTitle: string -> string, m: (string, Bundle))
    ensures Contributes(RunFn(convert, mapTitle), m) <==> ConvertReqifToJson(convert, mapTitle, m.1).success
    ensures Delivered(RunFn(convert, mapTitle), m) <==> ConvertReqifToJson(convert, mapTitle, m.1).success
  {
  }

  /** The archive converts exactly when one of its members does. */
  lemma ArchiveSucceedsIffMemberConverts<D>(convert: Bundle -> Result<seq<D>, string>, mapTitle: string -> string, z: ZBundle)
    ensures ProcessReqifz(convert, mapTitle, Success(z)).success
      <==> exists i :: 0 <= i < |z.members| && ConvertReqifToJson(convert, mapTitle, z.members[i].1).success
  {
    var run := RunFn(convert, mapTitle);
    forall i | 0 <= i < |z.members|
      ensures Contributes(run, z.members[i]) <==> ConvertReqifToJson(convert, mapTitle, z.members[i].1).success
    {
      ConvertedMemberContributes(convert, mapTitle, z.members[i]);
    }
  }
}
