/**
 The library's `validate` and `isValid` entry points (lib/flureeContext.js:112-351):
 argument checks, context resolution, the intersection filter, attaching the
 output context, and the errorOnInvalid escalation.
 */
module Validator {
  import opened Results
  import opened JsValues
  import opened Documents
  import opened ContextResolver
  import opened Intersection
  import opened IntersectionProperties

  datatype Options = Options(errorOnInvalid: bool, errorOnLookupFailure: bool, expandContext: bool)

  /** The defaults `validate` merges the caller's options over (133-137). */
  const Defaults := Options(false, false, true)

  /**
   `validate(jsonldDoc, options)`: the filtered document with its `@context`
   replaced by the output context, which is the original `@context` unless
   expandContext is set (220, 307). With expandContext it is the map's
   definitions of the names the filter records, each at the place where it is
   first recorded (`Intersection.Used`).
   */
  function Validate(doc: Value, opts: Options, isUrl: string -> bool, load: string -> Retrieval)
    : (r: Result<Value>)
    ensures doc.Null? || doc.Undefined? ==> r == Failure(ArgumentError(ArgumentProblem.NoDocument))
    ensures r.Success? ==> doc.Obj? && r.value.Obj?
    ensures r.Success? && !opts.expandContext ==>
              Get(r.value.fields, "@context") == Get(doc.fields, "@context")
    ensures r.Success? ==> DefsOf(doc.fields, opts, isUrl, load).Success?
    ensures r.Success? && opts.expandContext ==>
              var defs := DefsOf(doc.fields, opts, isUrl, load).value;
              Get(r.value.fields, "@context") == Obj(Definitions(AddNames([], Used(doc.fields, defs)), defs))
    ensures r.Success? && opts.errorOnInvalid ==> ErrorsOf(doc.fields, DefsOf(doc.fields, opts, isUrl, load).value) == []
  {
    var fs :- CheckArgument(doc);
    var ctx := Get(fs, "@context");
    var defs :- Resolve(ctx, opts.errorOnLookupFailure, isUrl, load);
    var filtered :- FilterFields(fs, defs, opts.expandContext, Acc([], []));
    var newContext :=
      if opts.expandContext then
        ExpandedContext(fs, defs, Acc([], []));
        Obj(filtered.1.context)
      else ctx;
    if opts.errorOnInvalid && |filtered.1.errors| > 0 then
      Failure(ValidationFailure(filtered.1.errors))
    else
      Success(Obj(Put(filtered.0, "@context", newContext)))
  }

  /** The map a document is validated against, when its context resolves. */
  function DefsOf(fs: seq<Field>, opts: Options, isUrl: string -> bool, load: string -> Retrieval)
    : Result<seq<Field>>
  {
    Resolve(Get(fs, "@context"), opts.errorOnLookupFailure, isUrl, load)
  }

  /**
   Once the arguments pass and the context resolves: validation completes exactly
   when the filter completes and, under errorOnInvalid, no term is reported; the
   failure under errorOnInvalid lists every reported term at any depth; and the
   result is the kept part of the document.
   */
  lemma ValidateOutcome(fs: seq<Field>, opts: Options, isUrl: string -> bool, load: string -> Retrieval)
    requires Truthy(Get(fs, "@context"))
    requires DefsOf(fs, opts, isUrl, load).Success?
    ensures var defs := DefsOf(fs, opts, isUrl, load).value;
            var r := Validate(Obj(fs), opts, isUrl, load);
            && (r.Success? <==>
                  Admissible(fs, defs, opts.expandContext) && !(opts.errorOnInvalid && ErrorsOf(fs, defs) != []))
            && (opts.errorOnInvalid && Admissible(fs, defs, opts.expandContext) && ErrorsOf(fs, defs) != [] ==>
                  r == Failure(ValidationFailure(ErrorsOf(fs, defs))))
            && (r.Success? ==> forall k :: k != "@context" ==>
                  Get(r.value.fields, k) == Get(Kept(fs, defs), k))
  {
    var defs := DefsOf(fs, opts, isUrl, load).value;
    var f := FilterFields(fs, defs, opts.expandContext, Acc([], []));
    if f.Success? {
      assert f.value.1.errors == ErrorsOf(fs, defs);
    }
  }

  /**
   Idempotence: without context expansion, validating the output of a successful
   validation succeeds and returns it unchanged.
   */
  lemma ValidateIdempotent(doc: Value, opts: Options, isUrl: string -> bool, load: string -> Retrieval)
    requires !opts.expandContext
    requires Validate(doc, opts, isUrl, load).Success?
    ensures var out := Validate(doc, opts, isUrl, load).value;
            Validate(out, opts, isUrl, load) == Success(out)
  {
    var fs := doc.fields;
    var ctx := Get(fs, "@context");
    var defs := Resolve(ctx, opts.errorOnLookupFailure, isUrl, load).value;
    var kept := Kept(fs, defs);
    assert Has(fs, "@context") by {
      if !Has(fs, "@context") {
        GetAbsent(fs, "@context");
      }
    }
    KeptReserved(fs, defs, "@context");
    PutSame(kept, "@context");
    assert Validate(doc, opts, isUrl, load) == Success(Obj(kept));
    FilterIdempotent(fs, defs, Acc([], []), Acc([], []));
  }

  /**
   `isValid(jsonldDoc)`: the argument checks still throw; otherwise true exactly
   when `validate` with errorOnInvalid (and the other defaults) succeeds (328-351).
   */
  function IsValid(doc: Value, isUrl: string -> bool, load: string -> Retrieval): (r: Result<bool>)
    ensures r.Failure? <==> CheckArgument(doc).Failure?
  {
    var _ :- CheckArgument(doc);
    Success(Validate(doc, Options(true, false, true), isUrl, load).Success?)
  }

  /**
   A document is valid exactly when its context resolves, filtering with context
   expansion completes, and no term at any depth is undefined in the map.
   */
  lemma IsValidIff(fs: seq<Field>, isUrl: string -> bool, load: string -> Retrieval)
    requires Truthy(Get(fs, "@context"))
    ensures var res := Resolve(Get(fs, "@context"), false, isUrl, load);
            IsValid(Obj(fs), isUrl, load) == Success(true) <==>
              res.Success? && Admissible(fs, res.value, true) && ErrorsOf(fs, res.value) == []
  {
    var res := Resolve(Get(fs, "@context"), false, isUrl, load);
    if res.Success? {
      ValidateOutcome(fs, Options(true, false, true), isUrl, load);
    }
  }
}
