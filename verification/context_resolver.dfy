/**
 Context resolution inside `validate` (lib/flureeContext.js:145-217): a raw
 `@context` value and the outcomes of retrieving its URL references become one
 term-to-definition map. Retrieval itself (`jsonld.documentLoader`, fanned out
 with `Promise.allSettled`) is the `load` parameter: one settled outcome per URL.
 */
module ContextResolver {
  import opened Results
  import opened JsValues
  import opened Documents

  /**
   One settled retrieval: rejected, fulfilled without a document, or a document
   with its `@context` value, whatever that value is (`Undefined` when the
   document has none).
   */
  datatype Retrieval =
    | Rejected(reasonUrl: string)
    | NoDocument(documentUrl: string)
    | Retrieved(context: Value)

  /** A string element that the URL check refuses. */
  predicate Malformed(e: Value, isUrl: string -> bool) {
    e.Str? && !isUrl(e.s)
  }

  /**
   The array case (159-172): strings must be http(s) URLs and are collected in
   order; objects are spread into the inline map, later ones winning; the first
   malformed string aborts.
   */
  function SplitElements(items: seq<Value>, isUrl: string -> bool): (r: Result<Parts>)
    ensures r.Failure? <==> exists i :: 0 <= i < |items| && Malformed(items[i], isUrl)
    ensures r.Failure? ==>
              exists i :: 0 <= i < |items| && Malformed(items[i], isUrl)
                          && r.error == MalformedContextUrl(items[i].s)
                          && forall j :: 0 <= j < i ==> !Malformed(items[j], isUrl)
    ensures r.Success? ==> r.value == ExtractElements(items)
  {
    if |items| == 0 then Success(Parts([], []))
    else
      var init := items[..|items| - 1];
      var last := items[|items| - 1];
      assert forall i :: 0 <= i < |init| ==> init[i] == items[i];
      var p :- SplitElements(init, isUrl);
      match last
      case Str(s) =>
        if !isUrl(s) then Failure(MalformedContextUrl(s))
        else Success(Parts(p.strings + [s], p.terms))
      case Obj(fs) => Success(Parts(p.strings, Spread(p.terms, fs)))
      case _ => Success(p)
  }

  /**
   The URL references and inline map of a context (154-173). A lone string is a
   URL taken without the URL check; a lone object contributes NOTHING (only the
   string and array cases are handled); any other value contributes nothing.
   */
  function ContextReferences(ctx: Value, isUrl: string -> bool): (r: Result<Parts>)
    ensures ctx.Str? ==> r == Success(Parts([ctx.s], []))
    ensures ctx.Arr? ==> r == SplitElements(ctx.items, isUrl)
    ensures !ctx.Str? && !ctx.Arr? ==> r == Success(Parts([], []))
  {
    match ctx
    case Str(s) => Success(Parts([s], []))
    case Arr(items) => SplitElements(items, isUrl)
    case _ => Success(Parts([], []))
  }

  /** Index of the first rejected retrieval, or -1. */
  function FirstRejected(outs: seq<Retrieval>): (i: int)
    ensures -1 <= i < |outs|
    ensures i == -1 <==> forall j :: 0 <= j < |outs| ==> !outs[j].Rejected?
    ensures 0 <= i ==> outs[i].Rejected? && forall j :: 0 <= j < i ==> !outs[j].Rejected?
  {
    if |outs| == 0 then -1
    else if outs[0].Rejected? then 0
    else
      var j := FirstRejected(outs[1..]);
      if j == -1 then -1 else j + 1
  }

  /** Index of the first fulfilled retrieval without a document, or -1. */
  function FirstEmpty(outs: seq<Retrieval>): (i: int)
    ensures -1 <= i < |outs|
    ensures i == -1 <==> forall j :: 0 <= j < |outs| ==> !outs[j].NoDocument?
    ensures 0 <= i ==> outs[i].NoDocument? && forall j :: 0 <= j < i ==> !outs[j].NoDocument?
  {
    if |outs| == 0 then -1
    else if outs[0].NoDocument? then 0
    else
      var j := FirstEmpty(outs[1..]);
      if j == -1 then -1 else j + 1
  }

  /**
   The errorOnLookupFailure checks (185-209): a rejected retrieval is reported
   first, then a retrieval without a document; without the flag nothing fails.
   */
  function CheckRetrievals(outs: seq<Retrieval>, errorOnLookupFailure: bool): (r: Result<()>)
    ensures r.Failure? <==>
              errorOnLookupFailure && exists j :: 0 <= j < |outs| && !outs[j].Retrieved?
    ensures r.Failure? && FirstRejected(outs) >= 0 ==>
              r.error == LookupFailure(outs[FirstRejected(outs)].reasonUrl)
    ensures r.Failure? && FirstRejected(outs) == -1 ==>
              r.error == LookupFailure(outs[FirstEmpty(outs)].documentUrl)
  {
    if !errorOnLookupFailure then Success(())
    else
      var i := FirstRejected(outs);
      if i >= 0 then Failure(LookupFailure(outs[i].reasonUrl))
      else
        var j := FirstEmpty(outs);
        if j >= 0 then Failure(LookupFailure(outs[j].documentUrl))
        else Success(())
  }

  /**
   Folding retrieved context documents into the map (211-217), in order, each as
   `{...retrieved, ...accumulated}`: what is already accumulated wins. The spread
   copies the own properties of whatever the retrieved `@context` is, so an
   array contributes its indices and a string its character positions.
   */
  function FoldRetrieved(inline: seq<Field>, outs: seq<Retrieval>): (r: seq<Field>)
    ensures forall k :: Has(r, k) <==> Has(inline, k) || RetrievedDefines(outs, k)
  {
    if |outs| == 0 then inline
    else
      var init := outs[..|outs| - 1];
      var e := outs[|outs| - 1];
      assert init + [e] == outs;
      var prev := FoldRetrieved(inline, init);
      FirstRetrievedSnocAll(init, e);
      match e
      case Retrieved(c) => Spread(OwnProperties(c), prev)
      case _ => prev
  }

  /** FirstRetrievedSnoc's first clause, for every name at once. */
  lemma FirstRetrievedSnocAll(outs: seq<Retrieval>, e: Retrieval)
    ensures forall k :: RetrievedDefines(outs + [e], k) <==> RetrievedDefines(outs, k) || Has(TermsOf(e), k)
  {
    forall k {
      FirstRetrievedSnoc(outs, e, k);
    }
  }

  /** The names a retrieval contributes: the own properties of a retrieved `@context`, else none. */
  function TermsOf(r: Retrieval): seq<Field> {
    if r.Retrieved? then OwnProperties(r.context) else []
  }

  /** Whether some retrieved context document defines `k`. */
  predicate RetrievedDefines(outs: seq<Retrieval>, k: string) {
    exists i :: 0 <= i < |outs| && Has(TermsOf(outs[i]), k)
  }

  /** The definition of `k` in the FIRST retrieved context document that defines it. */
  function FirstRetrievedDefinition(outs: seq<Retrieval>, k: string): Value
  {
    if |outs| == 0 then Undefined
    else if Has(TermsOf(outs[0]), k) then Get(TermsOf(outs[0]), k)
    else FirstRetrievedDefinition(outs[1..], k)
  }

  /** RetrievedDefines, one retrieval at a time from the front. */
  lemma RetrievedDefinesCons(outs: seq<Retrieval>, k: string)
    requires |outs| > 0
    ensures RetrievedDefines(outs, k) <==> Has(TermsOf(outs[0]), k) || RetrievedDefines(outs[1..], k)
  {
    if RetrievedDefines(outs, k) {
      var i :| 0 <= i < |outs| && Has(TermsOf(outs[i]), k);
      if i > 0 {
        assert outs[1..][i - 1] == outs[i];
      }
    }
    if RetrievedDefines(outs[1..], k) {
      var i :| 0 <= i < |outs[1..]| && Has(TermsOf(outs[1..][i]), k);
      assert outs[i + 1] == outs[1..][i];
    }
  }

  /** Every retrieved `@context` that is an object has distinct names, as parsed JSON does. */
  predicate RetrievedAreMaps(outs: seq<Retrieval>) {
    forall i :: 0 <= i < |outs| && outs[i].Retrieved? ==> ValueIsMap(outs[i].context)
  }

  lemma {:induction false} FirstRetrievedSnoc(outs: seq<Retrieval>, e: Retrieval, k: string)
    ensures RetrievedDefines(outs + [e], k) <==> RetrievedDefines(outs, k) || Has(TermsOf(e), k)
    ensures FirstRetrievedDefinition(outs + [e], k) ==
              if RetrievedDefines(outs, k) then FirstRetrievedDefinition(outs, k)
              else if Has(TermsOf(e), k) then Get(TermsOf(e), k)
              else Undefined
    decreases |outs|
  {
    var s := outs + [e];
    if |outs| > 0 {
      assert s[0] == outs[0];
      assert s[1..] == outs[1..] + [e];
      FirstRetrievedSnoc(outs[1..], e, k);
      RetrievedDefinesCons(outs, k);
      RetrievedDefinesCons(s, k);
    } else {
      assert s[0] == e && s[1..] == [];
      RetrievedDefinesCons(s, k);
    }
  }

  /**
   Precedence of the folded map: a term of the inline map keeps its inline
   definition; any other term gets its definition from the first retrieved
   document defining it; the map defines nothing else.
   */
  /** The retrievals before the last one are maps when all are. */
  lemma RetrievedAreMapsInit(outs: seq<Retrieval>)
    requires |outs| > 0 && RetrievedAreMaps(outs)
    ensures RetrievedAreMaps(outs[..|outs| - 1])
  {
    var init := outs[..|outs| - 1];
    forall i | 0 <= i < |init| && init[i].Retrieved?
      ensures ValueIsMap(init[i].context)
    {
      assert init[i] == outs[i];
    }
  }

  /** Spreading an accumulated map over a retrieved one: the accumulated definition wins, else the retrieved one. */
  lemma SpreadUnder(cs: seq<Field>, prev: seq<Field>, k: string)
    requires Distinct(Keys(cs)) && Distinct(Keys(prev))
    ensures Distinct(Keys(Spread(cs, prev)))
    ensures Get(Spread(cs, prev), k) ==
              if Has(prev, k) then Get(prev, k) else if Has(cs, k) then Get(cs, k) else Undefined
  {
    SpreadDistinct(cs, prev);
    SpreadGet(cs, prev, k);
    if !Has(cs, k) {
      GetAbsent(cs, k);
    }
  }

  lemma {:induction false} FoldRetrievedPrecedence(inline: seq<Field>, outs: seq<Retrieval>, k: string)
    requires Distinct(Keys(inline))
    requires RetrievedAreMaps(outs)
    ensures Distinct(Keys(FoldRetrieved(inline, outs)))
    ensures Has(FoldRetrieved(inline, outs), k) <==> Has(inline, k) || RetrievedDefines(outs, k)
    ensures Get(FoldRetrieved(inline, outs), k) ==
              if Has(inline, k) then Get(inline, k) else FirstRetrievedDefinition(outs, k)
    decreases |outs|
  {
    if |outs| > 0 {
      var init := outs[..|outs| - 1];
      var e := outs[|outs| - 1];
      assert init + [e] == outs;
      RetrievedAreMapsInit(outs);
      FoldRetrievedPrecedence(inline, init, k);
      FirstRetrievedSnoc(init, e, k);
      var prev := FoldRetrieved(inline, init);
      match e
      case Retrieved(c) =>
        assert FoldRetrieved(inline, outs) == Spread(OwnProperties(c), prev);
        assert TermsOf(e) == OwnProperties(c);
        OwnPropertiesDistinct(c);
        SpreadUnder(OwnProperties(c), prev, k);
      case _ =>
        assert FoldRetrieved(inline, outs) == prev;
        assert TermsOf(e) == [];
        if !Has(inline, k) && !RetrievedDefines(init, k) {
          GetAbsent(prev, k);
        }
    } else if !Has(inline, k) {
      GetAbsent(inline, k);
    }
  }

  /**
   Context resolution (154-217): split the context, retrieve every URL reference
   (one settled outcome per URL, in order), apply the errorOnLookupFailure checks,
   and fold the retrieved documents under the inline map.
   */
  function Resolve(ctx: Value, errorOnLookupFailure: bool, isUrl: string -> bool,
                   load: string -> Retrieval): (r: Result<seq<Field>>)
    ensures ctx.Obj? ==> r == Success([])
    ensures r.Failure? && r.error.MalformedContextUrl? ==> ctx.Arr?
    ensures r.Failure? ==> r.error.MalformedContextUrl? || (errorOnLookupFailure && r.error.LookupFailure?)
    ensures !errorOnLookupFailure && !ctx.Arr? ==> r.Success?
  {
    var refs :- ContextReferences(ctx, isUrl);
    var outs := Retrieve(refs.strings, load);
    var _ :- CheckRetrievals(outs, errorOnLookupFailure);
    Success(FoldRetrieved(refs.terms, outs))
  }

  /** The settled retrievals of all URL references (176-184): one outcome per URL, in URL order. */
  function Retrieve(urls: seq<string>, load: string -> Retrieval): (outs: seq<Retrieval>)
    ensures |outs| == |urls|
    ensures forall i :: 0 <= i < |urls| ==> outs[i] == load(urls[i])
  {
    seq(|urls|, i requires 0 <= i < |urls| => load(urls[i]))
  }

  /**
   For an array context whose URLs all pass the check: inline terms win, and a
   term the inline objects do not define takes the first retrieved definition.
   */
  lemma ResolveArrayPrecedence(items: seq<Value>, errorOnLookupFailure: bool,
                               isUrl: string -> bool, load: string -> Retrieval, k: string)
    requires ObjectsAreMaps(items)
    requires forall u :: load(u).Retrieved? ==> ValueIsMap(load(u).context)
    requires Resolve(Arr(items), errorOnLookupFailure, isUrl, load).Success?
    ensures var defs := Resolve(Arr(items), errorOnLookupFailure, isUrl, load).value;
            var outs := Retrieve(StringsIn(items), load);
            && Distinct(Keys(defs))
            && Get(defs, k) == if Defines(items, k) then LastDefinition(items, k)
                               else FirstRetrievedDefinition(outs, k)
  {
    var refs := ExtractElements(items);
    ExtractElementsStrings(items);
    ExtractElementsMap(items, k);
    var outs := Retrieve(refs.strings, load);
    assert RetrievedAreMaps(outs);
    FoldRetrievedPrecedence(refs.terms, outs, k);
  }

  /**
   A lone string context (155-156) is one reference, taken without the URL
   check: it fails exactly when errorOnLookupFailure is set and the retrieval
   brings no document; otherwise the map is the retrieved `@context` spread on
   its own, or empty when nothing was retrieved.
   */
  lemma ResolveStringContext(u: string, errorOnLookupFailure: bool, isUrl: string -> bool, load: string -> Retrieval)
    ensures var r := Resolve(Str(u), errorOnLookupFailure, isUrl, load);
            && (r.Failure? <==> errorOnLookupFailure && !load(u).Retrieved?)
            && (r.Success? ==> r.value == TermsOf(load(u)))
            && (r.Success? && load(u).Retrieved? && ValueIsMap(load(u).context) ==> Distinct(Keys(r.value)))
  {
    var outs := Retrieve([u], load);
    assert outs == [load(u)];
    assert outs[..0] == [];
    assert FoldRetrieved([], outs) == TermsOf(load(u));
    if load(u).Retrieved? && ValueIsMap(load(u).context) {
      OwnPropertiesDistinct(load(u).context);
    }
  }

  /**
   A retrieved `@context` that is an array is spread by index (214): the map
   gains the names "0" and "1", and none of the terms the array's object holds.
   */
  lemma RetrievedArrayContextSpreadsIndices(isUrl: string -> bool, load: string -> Retrieval, url: string)
    requires load(url) == Retrieved(Arr([Str("http://example.org/base"),
                                         Obj([Field("name", Str("http://schema.org/name"))])]))
    ensures var r := Resolve(Str(url), false, isUrl, load);
            r.Success? && Keys(r.value) == ["0", "1"] && !Has(r.value, "name")
  {
    var c := load(url).context;
    var outs := Retrieve([url], load);
    assert outs == [load(url)];
    assert FoldRetrieved([], outs) == Spread(OwnProperties(c), []);
    assert NatToString(0) == "0" && NatToString(1) == "1";
    assert Keys(OwnProperties(c)) == ["0", "1"];
  }
}
