/** The two-phase conversion of one bundle (main.py:331-401): convert it
    directly, and only when that fails repair it and, if a repair reported
    anything, convert it once more. The downstream converter is a parameter:
    it either yields the converted documents or fails with the text of the
    exception it raised. */
module Orchestrator {
  import opened Wrappers
  import opened Text
  import opened ReqIF
  import opened Workarounds

  /** The `data` dictionary of a successful conversion: `_COMMENT`,
      `DOCUMENTS`, and `_WORKAROUNDS_APPLIED` when there are any. */
  datatype Output<D> = Output(comment: string, documents: seq<D>, workarounds: Option<seq<string>>)

  /** ConversionResult. */
  datatype Conversion<D> = Conversion(success: bool, data: Option<Output<D>>, error: Option<string>, applied: seq<string>)

  const Comment := "Normalized via StrictDoc."
  const NoSpecifications := "No specifications found in ReqIF file"

  /** The converter accepts the bundle and produces at least one document. */
  predicate Converts<D>(convert: Bundle -> Result<seq<D>, string>, b: Bundle) {
    convert(b).Success? && |convert(b).value| > 0
  }

  /** The error a failed attempt reports: the first 500 characters of the
      converter's message, or the fixed text for an empty result. */
  function AttemptError<D>(convert: Bundle -> Result<seq<D>, string>, b: Bundle): (r: string)
    ensures |r| <= 500
    ensures convert(b).Failure? ==> StartsWith(convert(b).error, r)
    ensures convert(b).Failure? ==> |r| == (if |convert(b).error| <= 500 then |convert(b).error| else 500)
    ensures convert(b).Success? ==> r == NoSpecifications
  {
    match convert(b)
    case Failure(e) => Take(e, 500)
    case Success(_) => NoSpecifications
  }

  /** `convert_bundle_to_json`. An empty document list fails without the
      workaround list; an exception keeps it. */
  function ConvertBundle<D>(convert: Bundle -> Result<seq<D>, string>, b: Bundle, applied: seq<string>): (r: Conversion<D>)
    ensures r.success <==> Converts(convert, b)
    ensures r.success ==>
      && r.error.None?
      && r.applied == applied
      && r.data == Some(Output(Comment, convert(b).value, if applied == [] then None else Some(applied)))
    ensures !r.success ==>
      && r.data.None?
      && r.error == Some(AttemptError(convert, b))
      && r.applied == (if convert(b).Failure? then applied else [])
  {
    match convert(b)
    case Failure(e) => Conversion(false, None, Some(Take(e, 500)), applied)
    case Success(docs) =>
      if |docs| == 0 then Conversion(false, None, Some(NoSpecifications), [])
      else Conversion(true, Some(Output(Comment, docs, if applied == [] then None else Some(applied))), None, applied)
  }

  /** `convert_reqif_to_json`. The converter sees the original bundle first
      and the repaired bundle at most once afterwards. */
  function ConvertReqifToJson<D>(convert: Bundle -> Result<seq<D>, string>, mapTitle: string -> string, b: Bundle)
    : (r: Conversion<D>)
    ensures var w := ApplyWorkarounds(mapTitle, b);
      r.success <==> Converts(convert, b) || (w.log != [] && Converts(convert, w.bundle))
    ensures Converts(convert, b) ==>
      r.applied == [] && r.data == Some(Output(Comment, convert(b).value, None))
    ensures var w := ApplyWorkarounds(mapTitle, b);
      !Converts(convert, b) && w.log != [] && Converts(convert, w.bundle) ==>
        r.applied == w.log && r.data == Some(Output(Comment, convert(w.bundle).value, Some(w.log)))
    ensures var w := ApplyWorkarounds(mapTitle, b);
      !r.success ==>
        && r.data.None?
        && r.applied == w.log
        && r.error == Some(AttemptError(convert, if w.log == [] then b else w.bundle))
    ensures r.success ==> r.error.None? && r.data.Some? && |r.data.value.documents| > 0
    ensures !r.success ==> r.error.Some? && |r.error.value| <= 500
  {
    var direct := ConvertBundle(convert, b, []);
    if direct.success then direct
    else
      var w := ApplyWorkarounds(mapTitle, b);
      if w.log != [] then
        var retry := ConvertBundle(convert, w.bundle, w.log);
        if retry.success then retry else Conversion(false, None, retry.error, w.log)
      else Conversion(false, None, direct.error, w.log)
  }

  /** The bundles the converter is called on, in order: never more than two,
      the original first, and the repaired one only after a failure that
      the repairs reported something about. */
  function ConverterCalls<D>(convert: Bundle -> Result<seq<D>, string>, mapTitle: string -> string, b: Bundle)
    : (r: seq<Bundle>)
    ensures 1 <= |r| <= 2 && r[0] == b
    ensures |r| == 2 <==> !Converts(convert, b) && ApplyWorkarounds(mapTitle, b).log != []
    ensures |r| == 2 ==> r[1] == ApplyWorkarounds(mapTitle, b).bundle
  {
    if Converts(convert, b) then [b]
    else
      var w := ApplyWorkarounds(mapTitle, b);
      if w.log != [] then [b, w.bundle] else [b]
  }

  /** The conversion depends on the converter only through the bundles of
      `ConverterCalls`: two converters that agree on those give the same
      result. */
  lemma ConverterCallsDetermine<D>(convert: Bundle -> Result<seq<D>, string>, convert': Bundle -> Result<seq<D>, string>,
                                   mapTitle: string -> string, b: Bundle)
    requires forall i :: 0 <= i < |ConverterCalls(convert, mapTitle, b)| ==>
      convert(ConverterCalls(convert, mapTitle, b)[i]) == convert'(ConverterCalls(convert, mapTitle, b)[i])
    ensures ConvertReqifToJson(convert, mapTitle, b) == ConvertReqifToJson(convert', mapTitle, b)
  {
    var calls := ConverterCalls(convert, mapTitle, b);
    assert convert(b) == convert'(b) by { assert calls[0] == b; }
    ConvertBundleDetermine(convert, convert', b, []);
    if !Converts(convert, b) && ApplyWorkarounds(mapTitle, b).log != [] {
      var w := ApplyWorkarounds(mapTitle, b);
      assert convert(w.bundle) == convert'(w.bundle) by { assert calls[1] == w.bundle; }
      ConvertBundleDetermine(convert, convert', w.bundle, w.log);
    }
  }

  /** One attempt depends on the converter only through the bundle it is
      given. */
  lemma ConvertBundleDetermine<D>(convert: Bundle -> Result<seq<D>, string>, convert': Bundle -> Result<seq<D>, string>,
                                  b: Bundle, applied: seq<string>)
    requires convert(b) == convert'(b)
    ensures ConvertBundle(convert, b, applied) == ConvertBundle(convert', b, applied)
  {
  }
}
