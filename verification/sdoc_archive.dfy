/** The member loop of the StrictDoc archive path, `process_reqifz_file`
    (main_strictdoc.py:259-335): every member is converted to documents,
    each document is serialized and tagged with the member's name, its
    requirements are flattened and tagged too, and the attachments are
    listed. The converter is a parameter; any failure, of the archive
    parser or of one member's conversion, makes the whole result None. */
module SdocArchive {
  import opened Wrappers
  import opened Dicts
  import opened Seqs
  import opened ReqIF
  import opened JsonTree
  import opened Sdoc
  import opened Flatten
  import opened Archive

  datatype FlatOut = FlatOut(requirements: seq<Requirement>, links: seq<Link>)
  datatype SdocResult = SdocResult(documents: seq<DocOut>, flat: FlatOut, attachments: seq<string>)

  function TagRequirements(reqs: seq<Requirement>, name: string): (r: seq<Requirement>)
    ensures |r| == |reqs|
    ensures forall i :: 0 <= i < |reqs| ==> r[i] == reqs[i].(sourceFile := Some(name))
  {
    if |reqs| == 0 then [] else [reqs[0].(sourceFile := Some(name))] + TagRequirements(reqs[1..], name)
  }

  /** One serialized document, tagged with the member it came from. */
  function TagDocument(d: SDocument, name: string): (r: DocOut)
    ensures r.sourceFile == Some(name)
    ensures r.nodes == SerializeItems(d.grammar, d.contents, [], 0)
  {
    SerializeDocument(d).(sourceFile := Some(name))
  }

  /** The requirements of one tagged document: one per node, each tagged. */
  function DocumentRequirements(d: DocOut, name: string): (r: seq<Requirement>)
    ensures |r| == CountNodes(d.nodes)
    ensures forall i :: 0 <= i < |r| ==> r[i].sourceFile == Some(name)
  {
    FlattenCount(d.nodes, "");
    TagRequirements(FlattenDocument(d).0, name)
  }

  /** The serialized documents of one member, each tagged with its name. */
  function TagDocuments(docs: seq<SDocument>, name: string): (r: seq<DocOut>)
    ensures |r| == |docs|
    ensures forall i :: 0 <= i < |docs| ==> r[i] == TagDocument(docs[i], name)
  {
    if |docs| == 0 then [] else [TagDocument(docs[0], name)] + TagDocuments(docs[1..], name)
  }

  /** The requirements and links of one member's documents, in order. */
  function MemberFlat(docs: seq<SDocument>, name: string): FlatOut
    decreases |docs|
  {
    if |docs| == 0 then FlatOut([], [])
    else
      var d := TagDocument(docs[0], name);
      var rest := MemberFlat(docs[1..], name);
      FlatOut(DocumentRequirements(d, name) + rest.requirements, FlattenDocument(d).1 + rest.links)
  }

  /** The inner loop over one member's documents (main_strictdoc.py:301-310). */
  function SerializeMember(docs: seq<SDocument>, name: string): SdocResult {
    SdocResult(TagDocuments(docs, name), MemberFlat(docs, name), [])
  }

  /** The outer loop over the members (main_strictdoc.py:291-310). */
  function SerializeMembers(convert: Bundle -> Result<seq<SDocument>, string>, ms: seq<(string, Bundle)>): (r: Option<SdocResult>)
    decreases |ms|
  {
    if |ms| == 0 then Some(SdocResult([], FlatOut([], []), []))
    else
      match convert(ms[0].1)
      case Failure(_) => None
      case Success(docs) =>
        var own := SerializeMember(docs, ms[0].0);
        match SerializeMembers(convert, ms[1..])
        case None => None
        case Some(rest) =>
          Some(SdocResult(own.documents + rest.documents,
                          FlatOut(own.flat.requirements + rest.flat.requirements, own.flat.links + rest.flat.links), []))
  }

  /** `process_reqifz_file` of the StrictDoc path. */
  function ProcessSdocArchive(convert: Bundle -> Result<seq<SDocument>, string>, parsed: Result<ZBundle, string>): Option<SdocResult> {
    if parsed.Failure? then None
    else
      match SerializeMembers(convert, parsed.value.members)
      case None => None
      case Some(r) => Some(r.(attachments := ExtractAttachments(parsed.value.attachments)))
  }

  predicate MemberFails(convert: Bundle -> Result<seq<SDocument>, string>, m: (string, Bundle)) {
    convert(m.1).Failure?
  }

  /** A result exists exactly when every member converts. */
  lemma {:induction false} MembersSucceedIffAllConvert(convert: Bundle -> Result<seq<SDocument>, string>, ms: seq<(string, Bundle)>)
    ensures SerializeMembers(convert, ms).Some? <==> forall i :: 0 <= i < |ms| ==> !MemberFails(convert, ms[i])
    decreases |ms|
  {
    if |ms| > 0 {
      MembersSucceedIffAllConvert(convert, ms[1..]);
      if forall i :: 0 <= i < |ms[1..]| ==> !MemberFails(convert, ms[1..][i]) {
        forall i | 0 <= i < |ms|
          ensures !MemberFails(convert, ms[i]) || i == 0
        {
          if i > 0 {
            assert ms[i] == ms[1..][i - 1];
          }
        }
      } else {
        var i :| 0 <= i < |ms[1..]| && MemberFails(convert, ms[1..][i]);
        assert MemberFails(convert, ms[i + 1]);
      }
    }
  }

  predicate ReqsTagged(rs: seq<Requirement>, name: string) {
    forall i :: 0 <= i < |rs| ==> rs[i].sourceFile == Some(name)
  }

  lemma ReqsTaggedConcat(a: seq<Requirement>, b: seq<Requirement>, name: string)
    requires ReqsTagged(a, name) && ReqsTagged(b, name)
    ensures ReqsTagged(a + b, name)
  {
    forall i | 0 <= i < |a + b|
      ensures (a + b)[i].sourceFile == Some(name)
    {
      if i >= |a| {
        assert (a + b)[i] == b[i - |a|];
      }
    }
  }

  /** Every requirement a member contributes carries the member's name. */
  lemma {:induction false} MemberRequirementsTagged(docs: seq<SDocument>, name: string)
    ensures ReqsTagged(MemberFlat(docs, name).requirements, name)
    decreases |docs|
  {
    if |docs| > 0 {
      MemberRequirementsTagged(docs[1..], name);
      var rest := MemberFlat(docs[1..], name).requirements;
      var own := DocumentRequirements(TagDocument(docs[0], name), name);
      assert MemberFlat(docs, name).requirements == own + rest;
      ReqsTaggedConcat(own, rest, name);
    }
  }

  /** A member contributes one requirement per node of its documents. */
  lemma {:induction false} MemberRequirementCount(docs: seq<SDocument>, name: string)
    ensures |MemberFlat(docs, name).requirements| == TotalNodes(TagDocuments(docs, name))
    decreases |docs|
  {
    if |docs| > 0 {
      MemberRequirementCount(docs[1..], name);
      var ds := TagDocuments(docs, name);
      assert ds[1..] == TagDocuments(docs[1..], name);
    }
  }

  /** The requirement count of a list of serialized documents. */
  function TotalNodes(docs: seq<DocOut>): nat {
    if |docs| == 0 then 0 else CountNodes(docs[0].nodes) + TotalNodes(docs[1..])
  }

  lemma {:induction false} TotalNodesConcat(a: seq<DocOut>, b: seq<DocOut>)
    ensures TotalNodes(a + b) == TotalNodes(a) + TotalNodes(b)
    decreases |a|
  {
    if |a| > 0 {
      TotalNodesConcat(a[1..], b);
      assert (a + b)[0] == a[0];
      assert (a + b)[1..] == a[1..] + b;
    } else {
      assert a + b == b;
    }
  }

  predicate DocsFrom(ds: seq<DocOut>, names: seq<string>) {
    forall i :: 0 <= i < |ds| ==> ds[i].sourceFile.Some? && ds[i].sourceFile.value in names
  }

  predicate ReqsFrom(rs: seq<Requirement>, names: seq<string>) {
    forall i :: 0 <= i < |rs| ==> rs[i].sourceFile.Some? && rs[i].sourceFile.value in names
  }

  lemma DocsFromConcat(a: seq<DocOut>, b: seq<DocOut>, name: string, names: seq<string>)
    requires forall i :: 0 <= i < |a| ==> a[i].sourceFile == Some(name)
    requires DocsFrom(b, names)
    ensures DocsFrom(a + b, [name] + names)
  {
    forall i | 0 <= i < |a + b|
      ensures (a + b)[i].sourceFile.Some? && (a + b)[i].sourceFile.value in [name] + names
    {
      if i >= |a| {
        assert (a + b)[i] == b[i - |a|];
      }
    }
  }

  lemma ReqsFromConcat(a: seq<Requirement>, b: seq<Requirement>, name: string, names: seq<string>)
    requires ReqsTagged(a, name)
    requires ReqsFrom(b, names)
    ensures ReqsFrom(a + b, [name] + names)
  {
    forall i | 0 <= i < |a + b|
      ensures (a + b)[i].sourceFile.Some? && (a + b)[i].sourceFile.value in [name] + names
    {
      if i >= |a| {
        assert (a + b)[i] == b[i - |a|];
      }
    }
  }

  /** Across the members, every document carries the name of a member. */
  lemma {:induction false} MembersDocumentsTagged(convert: Bundle -> Result<seq<SDocument>, string>, ms: seq<(string, Bundle)>)
    requires SerializeMembers(convert, ms).Some?
    ensures DocsFrom(SerializeMembers(convert, ms).value.documents, Keys(ms))
    decreases |ms|
  {
    if |ms| > 0 {
      var own := SerializeMember(convert(ms[0].1).value, ms[0].0).documents;
      MembersDocumentsTagged(convert, ms[1..]);
      var rest := SerializeMembers(convert, ms[1..]).value.documents;
      assert SerializeMembers(convert, ms).value.documents == own + rest;
      assert Keys(ms) == [ms[0].0] + Keys(ms[1..]);
      DocsFromConcat(own, rest, ms[0].0, Keys(ms[1..]));
    }
  }

  /** Across the members, every requirement carries the name of a member. */
  lemma {:induction false} MembersRequirementsTagged(convert: Bundle -> Result<seq<SDocument>, string>, ms: seq<(string, Bundle)>)
    requires SerializeMembers(convert, ms).Some?
    ensures ReqsFrom(SerializeMembers(convert, ms).value.flat.requirements, Keys(ms))
    decreases |ms|
  {
    if |ms| > 0 {
      var own := SerializeMember(convert(ms[0].1).value, ms[0].0).flat.requirements;
      MemberRequirementsTagged(convert(ms[0].1).value, ms[0].0);
      MembersRequirementsTagged(convert, ms[1..]);
      var rest := SerializeMembers(convert, ms[1..]).value.flat.requirements;
      assert SerializeMembers(convert, ms).value.flat.requirements == own + rest;
      assert Keys(ms) == [ms[0].0] + Keys(ms[1..]);
      ReqsFromConcat(own, rest, ms[0].0, Keys(ms[1..]));
    }
  }

  /** Across the members, one requirement per node of the documents. */
  lemma {:induction false} MembersRequirementCount(convert: Bundle -> Result<seq<SDocument>, string>, ms: seq<(string, Bundle)>)
    requires SerializeMembers(convert, ms).Some?
    ensures |SerializeMembers(convert, ms).value.flat.requirements| == TotalNodes(SerializeMembers(convert, ms).value.documents)
    decreases |ms|
  {
    if |ms| > 0 {
      var own := SerializeMember(convert(ms[0].1).value, ms[0].0);
      MemberRequirementCount(convert(ms[0].1).value, ms[0].0);
      MembersRequirementCount(convert, ms[1..]);
      var rest := SerializeMembers(convert, ms[1..]).value;
      var r := SerializeMembers(convert, ms).value;
      assert r.documents == own.documents + rest.documents;
      assert |r.flat.requirements| == |own.flat.requirements| + |rest.flat.requirements|;
      TotalNodesConcat(own.documents, rest.documents);
    }
  }

  /** The results of two runs of members, one after the other; a failure
      in either is a failure. */
  function Join(x: Option<SdocResult>, y: Option<SdocResult>): Option<SdocResult> {
    if x.None? || y.None? then None
    else
      Some(SdocResult(x.value.documents + y.value.documents,
                      FlatOut(x.value.flat.requirements + y.value.flat.requirements, x.value.flat.links + y.value.flat.links), []))
  }

  /** The first member, then the others. */
  lemma SerializeMembersStep(convert: Bundle -> Result<seq<SDocument>, string>, ms: seq<(string, Bundle)>)
    requires |ms| > 0
    ensures SerializeMembers(convert, ms)
      == Join(if convert(ms[0].1).Failure? then None else Some(SerializeMember(convert(ms[0].1).value, ms[0].0)),
              SerializeMembers(convert, ms[1..]))
  {
  }

  lemma JoinAssoc(x: Option<SdocResult>, y: Option<SdocResult>, z: Option<SdocResult>)
    ensures Join(x, Join(y, z)) == Join(Join(x, y), z)
  {
    if x.Some? && y.Some? && z.Some? {
      AppendAssoc(x.value.documents, y.value.documents, z.value.documents);
      AppendAssoc(x.value.flat.requirements, y.value.flat.requirements, z.value.flat.requirements);
      AppendAssoc(x.value.flat.links, y.value.flat.links, z.value.flat.links);
    }
  }

  /** Documents, requirements and links are concatenated in member order:
      the members `a` contribute before the members `b`. */
  lemma {:induction false} SerializeMembersConcat(convert: Bundle -> Result<seq<SDocument>, string>, a: seq<(string, Bundle)>, b: seq<(string, Bundle)>)
    ensures SerializeMembers(convert, a + b) == Join(SerializeMembers(convert, a), SerializeMembers(convert, b))
    decreases |a|
  {
    if |a| == 0 {
      assert a + b == b;
      assert SerializeMembers(convert, a) == Some(SdocResult([], FlatOut([], []), []));
      var y := SerializeMembers(convert, b);
      if y.Some? {
        assert [] + y.value.documents == y.value.documents;
        assert [] + y.value.flat.requirements == y.value.flat.requirements;
        assert [] + y.value.flat.links == y.value.flat.links;
      }
    } else {
      var head := if convert(a[0].1).Failure? then None else Some(SerializeMember(convert(a[0].1).value, a[0].0));
      assert (a + b)[0] == a[0];
      assert (a + b)[1..] == a[1..] + b;
      SerializeMembersStep(convert, a + b);
      SerializeMembersStep(convert, a);
      SerializeMembersConcat(convert, a[1..], b);
      JoinAssoc(head, SerializeMembers(convert, a[1..]), SerializeMembers(convert, b));
    }
  }


  /** The archive result: None on a parser failure or when some member does
      not convert; otherwise every document and requirement carries a
      member's name, the requirement count is the node count of the
      documents, and the attachments are the ones written out. */
  lemma ProcessSdocArchiveSpec(convert: Bundle -> Result<seq<SDocument>, string>, parsed: Result<ZBundle, string>)
    ensures var r := ProcessSdocArchive(convert, parsed);
      && (r.Some? <==> parsed.Success? && forall i :: 0 <= i < |parsed.value.members| ==> !MemberFails(convert, parsed.value.members[i]))
      && (r.Some? ==>
            var ms := parsed.value.members;
            && DocsFrom(r.value.documents, Keys(ms))
            && ReqsFrom(r.value.flat.requirements, Keys(ms))
            && |r.value.flat.requirements| == TotalNodes(r.value.documents)
            && r.value.attachments == AttachmentPaths(Filter(Extracted, parsed.value.attachments)))
  {
    if parsed.Success? {
      MembersSucceedIffAllConvert(convert, parsed.value.members);
      if SerializeMembers(convert, parsed.value.members).Some? {
        MembersDocumentsTagged(convert, parsed.value.members);
        MembersRequirementsTagged(convert, parsed.value.members);
        MembersRequirementCount(convert, parsed.value.members);
      }
    }
  }
}
