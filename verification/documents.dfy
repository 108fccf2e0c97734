/**
 Helpers over whole documents shared by validation and vocabulary aggregation:
 the argument checks (lib/flureeContext.js:120-130, repeated at 335-343 and
 378-386), `removeContext` (32-35) and `extractStringsAndMap` (37-77).
 */
module Documents {
  import opened Results
  import opened JsValues

  /**
   The entry checks: a document must be given, must not be null, and must carry a
   truthy `@context`. A value that is not an object has no `@context` property.
   */
  function CheckArgument(doc: Value): (r: Result<seq<Field>>)
    ensures r.Success? <==> doc.Obj? && Truthy(Get(doc.fields, "@context"))
    ensures r.Success? ==> r.value == doc.fields
    ensures doc.Null? || doc.Undefined? ==> r == Failure(ArgumentError(NoDocument))
  {
    match doc
    case Undefined => Failure(ArgumentError(NoDocument))
    case Null => Failure(ArgumentError(NoDocument))
    case Obj(fs) =>
      if Truthy(Get(fs, "@context")) then Success(fs) else Failure(ArgumentError(NoContext))
    case _ => Failure(ArgumentError(NoContext))
  }

  /** `removeContext`: the node without its `@context` property, everything else in order. */
  function RemoveContext(fs: seq<Field>): (r: seq<Field>)
    ensures !Has(r, "@context")
    ensures forall k :: k != "@context" ==> Get(r, k) == Get(fs, k) && (Has(r, k) <==> Has(fs, k))
  {
    Remove(fs, "@context")
  }

  /** URL references and the merged inline term map of a context value. */
  datatype Parts = Parts(strings: seq<string>, terms: seq<Field>)

  /**
   `extractStringsAndMap`: a string is one URL reference; an array contributes its
   strings in order and spreads its objects into one map, later ones winning; a
   lone object is spread into the map; anything else contributes nothing.
   */
  function ExtractStringsAndMap(v: Value): (p: Parts)
    ensures Distinct(Keys(p.terms))
    ensures v.Str? ==> p == Parts([v.s], [])
    ensures v.Arr? ==> p == ExtractElements(v.items)
    ensures v.Obj? && Distinct(Keys(v.fields)) ==> p == Parts([], v.fields)
    ensures !v.Str? && !v.Arr? && !v.Obj? ==> p == Parts([], [])
  {
    match v
    case Str(s) => Parts([s], [])
    case Arr(items) => ExtractElements(items)
    case Obj(fs) =>
      SpreadDistinct([], fs);
      if Distinct(Keys(fs)) then
        SpreadAppends([], fs);
        Parts([], Spread([], fs))
      else
        Parts([], Spread([], fs))
    case _ => Parts([], [])
  }

  /** The array case of `extractStringsAndMap`, element by element from the left. */
  function ExtractElements(items: seq<Value>): (p: Parts)
    ensures Distinct(Keys(p.terms))
  {
    if |items| == 0 then Parts([], [])
    else
      var p := ExtractElements(items[..|items| - 1]);
      match items[|items| - 1]
      case Str(s) => Parts(p.strings + [s], p.terms)
      case Obj(fs) =>
        SpreadDistinct(p.terms, fs);
        Parts(p.strings, Spread(p.terms, fs))
      case _ => p
  }

  /** The string elements of an array context, in order. */
  function StringsIn(items: seq<Value>): seq<string>
  {
    if |items| == 0 then []
    else (if items[0].Str? then [items[0].s] else []) + StringsIn(items[1..])
  }

  /** Whether some object element of an array context defines `k`. */
  predicate Defines(items: seq<Value>, k: string) {
    exists i :: 0 <= i < |items| && items[i].Obj? && Has(items[i].fields, k)
  }

  /** The definition of `k` in the LAST object element that defines it, `undefined` if none does. */
  function LastDefinition(items: seq<Value>, k: string): Value
  {
    if |items| == 0 then Undefined
    else
      var e := items[|items| - 1];
      if e.Obj? && Has(e.fields, k) then Get(e.fields, k)
      else LastDefinition(items[..|items| - 1], k)
  }

  /** Every object element of an array context has distinct property names (always so for parsed JSON). */
  predicate ObjectsAreMaps(items: seq<Value>) {
    forall i :: 0 <= i < |items| && items[i].Obj? ==> Distinct(Keys(items[i].fields))
  }

  lemma {:induction false} StringsInSnoc(items: seq<Value>, e: Value)
    ensures StringsIn(items + [e]) == StringsIn(items) + (if e.Str? then [e.s] else [])
    decreases |items|
  {
    if |items| == 0 {
      assert items + [e] == [e];
    } else {
      assert (items + [e])[1..] == items[1..] + [e];
      StringsInSnoc(items[1..], e);
    }
  }

  /** The URL references of an array context are exactly its string elements, in order. */
  lemma {:induction false} ExtractElementsStrings(items: seq<Value>)
    ensures ExtractElements(items).strings == StringsIn(items)
    decreases |items|
  {
    if |items| > 0 {
      var init := items[..|items| - 1];
      ExtractElementsStrings(init);
      StringsInSnoc(init, items[|items| - 1]);
      assert init + [items[|items| - 1]] == items;
    }
  }

  /**
   The merged inline map of an array context defines exactly the terms some object
   element defines, each with the value from the last element defining it.
   */
  lemma {:induction false} ExtractElementsMap(items: seq<Value>, k: string)
    requires ObjectsAreMaps(items)
    ensures Has(ExtractElements(items).terms, k) <==> Defines(items, k)
    ensures Get(ExtractElements(items).terms, k) == LastDefinition(items, k)
    decreases |items|
  {
    if |items| > 0 {
      var init := items[..|items| - 1];
      var e := items[|items| - 1];
      assert ObjectsAreMaps(init) by {
        forall i | 0 <= i < |init| && init[i].Obj?
          ensures Distinct(Keys(init[i].fields))
        {
          assert init[i] == items[i];
        }
      }
      ExtractElementsMap(init, k);
      assert Defines(items, k) <==> Defines(init, k) || (e.Obj? && Has(e.fields, k)) by {
        if Defines(items, k) {
          var i :| 0 <= i < |items| && items[i].Obj? && Has(items[i].fields, k);
          if i < |items| - 1 {
            assert init[i] == items[i];
          }
        }
        if Defines(init, k) {
          var i :| 0 <= i < |init| && init[i].Obj? && Has(init[i].fields, k);
          assert items[i] == init[i];
        }
      }
      match e
      case Obj(fs) =>
        SpreadGet(ExtractElements(init).terms, fs, k);
        if !Has(fs, k) {
          GetAbsent(fs, k);
        }
      case _ =>
    }
  }
}
