/**
 The intersection filter `returnIntersection` (lib/flureeContext.js:223-298): a
 node is filtered, key by key in its own order, against the dereferenced context
 map `defs`. In the library the error list (147-150) and the output context
 (220) are variables of the enclosing `validate` call shared by every recursion
 frame; here one explicit accumulator `Acc` is threaded through the recursion, so
 errors found in nested objects reach the same list.

 Next to the filter stand three reference definitions that ignore the
 accumulator: `Kept` (what survives), `ErrorsOf` (which terms are reported) and
 `Admissible` (when the filter completes instead of throwing).
 */
module Intersection {
  import opened Results
  import opened JsValues
  import opened Terms

  /** The shared state of one validate call: reported terms, and the output context. */
  datatype Acc = Acc(errors: seq<string>, context: seq<Field>)

  /** Keys copied verbatim and never checked (229-230). */
  predicate Reserved(k: string) {
    k == "@context" || k == "@graph" || k == "@id"
  }

  /** `def?.['@id']`: the identifier of a definition, `undefined` unless it is an object. */
  function IdOf(def: Value): Value {
    if def.Obj? then Get(def.fields, "@id") else Undefined
  }

  /**
   `getInitialString(v)` (79-88) on any value: a string gives its text before the
   first colon. An array has an `indexOf` of its own and comes back whole, unless
   it holds the string ":", whose position then meets a missing `substring`.
   Every other value has no `indexOf` and throws.
   */
  function InitialOf(v: Value): (r: Result<Value>)
    ensures r.Success? <==> v.Str? || (v.Arr? && Str(":") !in v.items)
    ensures v.Str? ==> r == Success(Str(InitialString(v.s)))
    ensures v.Arr? && r.Success? ==> r.value == v
    ensures r.Failure? ==> r.error == NonStringType
  {
    match v
    case Str(s) => Success(Str(InitialString(s)))
    case Arr(items) => if Str(":") in items then Failure(NonStringType) else Success(v)
    case _ => Failure(NonStringType)
  }

  /**
   Whether recording a definition succeeds: a class used in an array `@type`
   needs a truthy identifier (239-243), and `getInitialString` must accept the
   identifier (245, 261, 282).
   */
  predicate IdOk(def: Value, classCheck: bool) {
    (classCheck ==> Truthy(IdOf(def))) && InitialOf(IdOf(def)).Success?
  }

  /** Every entry of an output context holds the map's definition of its name. */
  predicate Consistent(out: seq<Field>, defs: seq<Field>) {
    forall i :: 0 <= i < |out| ==> out[i].val == Get(defs, out[i].key)
  }

  /** The output context only gains names. */
  ghost predicate Grows(before: seq<Field>, after: seq<Field>) {
    forall x :: Has(before, x) ==> Has(after, x)
  }

  lemma GrowsTransitive(a: seq<Field>, b: seq<Field>, c: seq<Field>)
    requires Grows(a, b) && Grows(b, c)
    ensures Grows(a, c)
  {
  }

  lemma GrowsHas(a: seq<Field>, b: seq<Field>, x: string)
    requires Grows(a, b) && Has(a, x)
    ensures Has(b, x)
  {
  }

  lemma PutKeepsConsistent(out: seq<Field>, defs: seq<Field>, x: string)
    ensures Consistent(out, defs) ==> Consistent(Put(out, x, Get(defs, x)), defs)
  {
    var r := Put(out, x, Get(defs, x));
    if !Consistent(out, defs) {
      return;
    }
    forall i | 0 <= i < |r| ensures r[i].val == Get(defs, r[i].key) {
      assert Keys(r)[i] == r[i].key;
      if Has(out, x) {
        assert Keys(r) == Keys(out);
        PutShape(out, x, Get(defs, x), i);
      } else {
        assert Keys(r) == Keys(out) + [x];
        PutShape(out, x, Get(defs, x), i);
      }
    }
  }

  /** Each entry of `Put(out, x, v)` is either the entry of `out` at that position or the new `x`. */
  lemma {:induction false} PutShape(out: seq<Field>, x: string, v: Value, i: nat)
    requires i < |Put(out, x, v)|
    ensures var r := Put(out, x, v);
            (r[i].key == x && r[i].val == v) || (i < |out| && r[i] == out[i])
    decreases |out|
  {
    if |out| > 0 && out[0].key != x && i > 0 {
      PutShape(out[1..], x, v, i - 1);
    }
  }

  /**
   Writing a term and its namespace into the output context (236-248 for an
   array `@type`, 259-265 for a scalar `@type`, 280-286 for a property): the
   term's definition, then, when `getInitialString` of its identifier is truthy,
   the definition of that namespace's property name (`undefined` when the map
   lacks it).
   */
  function Record(term: string, defs: seq<Field>, out: seq<Field>, classCheck: bool): (r: Result<seq<Field>>)
    ensures r.Success? <==> IdOk(Get(defs, term), classCheck)
    ensures r.Success? ==> Has(r.value, term) && Grows(out, r.value)
    ensures r.Success? ==>
              var ns := InitialOf(IdOf(Get(defs, term))).value;
              Truthy(ns) ==> Has(r.value, PropertyKey(ns))
    ensures r.Success? && Consistent(out, defs) ==> Consistent(r.value, defs)
  {
    var def := Get(defs, term);
    var out1 := Put(out, term, def);
    var id := IdOf(def);
    if classCheck && !Truthy(id) then Failure(NotAClass(term))
    else
      match InitialOf(id)
      case Failure(_) => Failure(IdentifierNotString(term))
      case Success(ns) =>
        var nk := PropertyKey(ns);
        PutKeepsConsistent(out, defs, term);
        PutKeepsConsistent(out1, defs, nk);
        if Truthy(ns) then Success(Put(out1, nk, Get(defs, nk))) else Success(out1)
  }

  /**
   A `@type` entry is kept when the map has the entry's property name (235), or
   the property name of its `getInitialString` (250); `hasOwnProperty` coerces
   a non-string entry to a string, so `5` finds the term "5".
   */
  predicate TypeMatches(t: Value, defs: seq<Field>) {
    Has(defs, PropertyKey(t)) || (InitialOf(t).Success? && Has(defs, PropertyKey(InitialOf(t).value)))
  }

  /** The entries of an array `@type` that are kept, in order. */
  function MatchingTypes(items: seq<Value>, defs: seq<Field>): seq<Value>
  {
    if |items| == 0 then []
    else (if TypeMatches(items[0], defs) then [items[0]] else []) + MatchingTypes(items[1..], defs)
  }

  /**
   When one array `@type` entry passes: with expansion an exact match must be a
   class with a usable identifier (239-246); an entry without an exact match
   must survive `getInitialString` (250).
   */
  predicate EntryAdmissible(t: Value, defs: seq<Field>, expand: bool) {
    if Has(defs, PropertyKey(t)) then expand ==> IdOk(Get(defs, PropertyKey(t)), true)
    else InitialOf(t).Success?
  }

  /** When an array `@type` completes: every entry passes. */
  predicate TypesAdmissible(items: seq<Value>, defs: seq<Field>, expand: bool) {
    forall i :: 0 <= i < |items| ==> EntryAdmissible(items[i], defs, expand)
  }

  /** TypesAdmissible, one entry at a time from the front. */
  lemma TypesAdmissibleCons(items: seq<Value>, defs: seq<Field>, expand: bool)
    requires |items| > 0
    ensures TypesAdmissible(items, defs, expand) <==>
              EntryAdmissible(items[0], defs, expand) && TypesAdmissible(items[1..], defs, expand)
  {
    var tail := items[1..];
    assert forall i :: 0 <= i < |tail| ==> tail[i] == items[i + 1];
    if !TypesAdmissible(tail, defs, expand) {
      var j :| 0 <= j < |tail| && !EntryAdmissible(tail[j], defs, expand);
      assert items[j + 1] == tail[j];
    }
  }

  /**
   An array `@type` (232-256): keep the entries whose property name or prefix
   the map defines, in order, dropping the rest without reporting them; with
   expansion, record each exact match.
   */
  function FilterTypes(items: seq<Value>, defs: seq<Field>, expand: bool, out: seq<Field>)
    : (r: Result<(seq<Value>, seq<Field>)>)
    ensures r.Success? <==> TypesAdmissible(items, defs, expand)
    ensures r.Success? ==> r.value.0 == MatchingTypes(items, defs)
    ensures r.Success? && !expand ==> r.value.1 == out
    ensures r.Success? ==> Grows(out, r.value.1)
    ensures r.Success? && Consistent(out, defs) ==> Consistent(r.value.1, defs)
    ensures r.Success? && expand ==> Covers(items, defs, r.value.1)
  {
    if |items| == 0 then Success(([], out))
    else
      var tail := items[1..];
      assert forall i :: 0 <= i < |tail| ==> tail[i] == items[i + 1];
      TypesAdmissibleCons(items, defs, expand);
      var t := PropertyKey(items[0]);
      if Has(defs, t) then
        var out1 :- if expand then Record(t, defs, out, true) else Success(out);
        var rest :- FilterTypes(tail, defs, expand, out1);
        GrowsTransitive(out, out1, rest.1);
        CoversCons(items, defs, rest.1, expand);
        assert MatchingTypes(items, defs) == [items[0]] + MatchingTypes(tail, defs);
        Success(([items[0]] + rest.0, rest.1))
      else
        var ns :- InitialOf(items[0]);
        var rest :- FilterTypes(tail, defs, expand, out);
        CoversCons(items, defs, rest.1, expand);
        if Has(defs, PropertyKey(ns)) then
          assert MatchingTypes(items, defs) == [items[0]] + MatchingTypes(tail, defs);
          Success(([items[0]] + rest.0, rest.1))
        else
          assert MatchingTypes(items, defs) == MatchingTypes(tail, defs);
          Success(rest)
  }

  /** Every entry whose property name the map defines has that name in the output context. */
  predicate Covers(items: seq<Value>, defs: seq<Field>, ctx: seq<Field>) {
    forall i :: 0 <= i < |items| && Has(defs, PropertyKey(items[i])) ==> Has(ctx, PropertyKey(items[i]))
  }

  lemma CoversCons(items: seq<Value>, defs: seq<Field>, ctx: seq<Field>, expand: bool)
    requires |items| > 0
    requires expand ==> (Has(defs, PropertyKey(items[0])) ==> Has(ctx, PropertyKey(items[0])))
    requires expand ==> Covers(items[1..], defs, ctx)
    ensures expand ==> Covers(items, defs, ctx)
  {
    forall i | 0 < i < |items| ensures items[i] == items[1..][i - 1] { }
  }

  // ---------------------------------------------------------------------------
  // Reference definitions

  /** Whether a property survives the filter. */
  predicate Survives(k: string, v: Value, defs: seq<Field>) {
    if Reserved(k) then true
    else if k == "@type" then
      match v
      case Arr(items) => |MatchingTypes(items, defs)| > 0
      case _ => Has(defs, PropertyKey(v))
    else Has(defs, k) || Has(defs, InitialString(k))
  }

  /**
   The value a surviving property carries: reserved keys and prefix matches keep
   their value; an array `@type` keeps its matching entries; an object under an
   exactly matched term is filtered with the SAME map.
   */
  function KeptValue(k: string, v: Value, defs: seq<Field>): Value
    decreases v
  {
    if Reserved(k) then v
    else if k == "@type" then (if v.Arr? then Arr(MatchingTypes(v.items, defs)) else v)
    else if Has(defs, k) && v.Obj? then Obj(Kept(v.fields, defs))
    else v
  }

  /** A property's contribution to the output: itself with its kept value, or nothing. */
  function KeptField(f: Field, defs: seq<Field>): seq<Field>
    decreases f
  {
    if Survives(f.key, f.val, defs) then [Field(f.key, KeptValue(f.key, f.val, defs))] else []
  }

  /** The surviving properties of a node, in the node's order. */
  function Kept(fs: seq<Field>, defs: seq<Field>): seq<Field>
    decreases fs
  {
    if |fs| == 0 then [] else KeptField(fs[0], defs) + Kept(fs[1..], defs)
  }

  /** A key is reported when neither it nor its prefix is a term of the map. */
  predicate Unmatched(k: string, defs: seq<Field>) {
    !Reserved(k) && k != "@type" && !Has(defs, k) && !Has(defs, InitialString(k))
  }

  /** The terms a property reports: itself when undefined, or those inside an object under an exact match. */
  function FieldErrors(k: string, v: Value, defs: seq<Field>): seq<string>
    decreases v
  {
    if Reserved(k) || k == "@type" then []
    else if Has(defs, k) then (if v.Obj? then ErrorsOf(v.fields, defs) else [])
    else if Has(defs, InitialString(k)) then []
    else [k]
  }

  /** The terms a node reports, at any depth, in traversal order. */
  function ErrorsOf(fs: seq<Field>, defs: seq<Field>): seq<string>
    decreases fs
  {
    if |fs| == 0 then [] else FieldErrors(fs[0].key, fs[0].val, defs) + ErrorsOf(fs[1..], defs)
  }

  /**
   When filtering a property completes. It throws on an unmatched array `@type`
   entry that `getInitialString` refuses (a number, say), on a matched class
   without identifier, on an array value under an exact match (273, where
   `every` is handed a boolean instead of a callback), on a null value there
   (`Object.keys(null)`), and, with expansion, on a matched term whose
   identifier `getInitialString` refuses (245, 261, 282).
   */
  predicate FieldAdmissible(k: string, v: Value, defs: seq<Field>, expand: bool)
    decreases v
  {
    if Reserved(k) then true
    else if k == "@type" then
      match v
      case Arr(items) => TypesAdmissible(items, defs, expand)
      case _ => expand && Has(defs, PropertyKey(v)) ==> IdOk(Get(defs, PropertyKey(v)), false)
    else if Has(defs, k) then
      && !v.Arr? && !v.Null?
      && (v.Obj? ==> Admissible(v.fields, defs, expand))
      && (expand ==> IdOk(Get(defs, k), false))
    else true
  }

  predicate Admissible(fs: seq<Field>, defs: seq<Field>, expand: bool)
    decreases fs
  {
    |fs| == 0 || (FieldAdmissible(fs[0].key, fs[0].val, defs, expand) && Admissible(fs[1..], defs, expand))
  }

  /**
   The names recording `term` writes (236-248, 259-265, 280-286): the term,
   then the property name of its identifier's namespace when that is truthy.
   */
  function RecordNames(term: string, defs: seq<Field>): seq<string> {
    var ns := InitialOf(IdOf(Get(defs, term)));
    [term] + (if ns.Success? && Truthy(ns.value) then [PropertyKey(ns.value)] else [])
  }

  /** The names an array `@type` records with expansion: those of each exactly matched entry, in order. */
  function UsedTypes(items: seq<Value>, defs: seq<Field>): seq<string>
  {
    if |items| == 0 then []
    else
      (if Has(defs, PropertyKey(items[0])) then RecordNames(PropertyKey(items[0]), defs) else [])
      + UsedTypes(items[1..], defs)
  }

  /**
   The names one property records with expansion: an exactly matched `@type`
   value or entry, and an exactly matched term after the terms recorded inside
   its object value.
   */
  function FieldUsed(k: string, v: Value, defs: seq<Field>): seq<string>
    decreases v
  {
    if Reserved(k) then []
    else if k == "@type" then
      match v
      case Arr(items) => UsedTypes(items, defs)
      case _ => if Has(defs, PropertyKey(v)) then RecordNames(PropertyKey(v), defs) else []
    else if Has(defs, k) then (if v.Obj? then Used(v.fields, defs) else []) + RecordNames(k, defs)
    else []
  }

  /** The names a node records with expansion, at any depth, in traversal order and with repeats. */
  function Used(fs: seq<Field>, defs: seq<Field>): seq<string>
    decreases fs
  {
    if |fs| == 0 then [] else FieldUsed(fs[0].key, fs[0].val, defs) + Used(fs[1..], defs)
  }

  /** The object holding, for each of `names` in order, the map's definition of it. */
  function Definitions(names: seq<string>, defs: seq<Field>): (r: seq<Field>)
    ensures Keys(r) == names
    ensures Consistent(r, defs)
  {
    seq(|names|, i requires 0 <= i < |names| => Field(names[i], Get(defs, names[i])))
  }

  // ---------------------------------------------------------------------------
  // The filter

  /** One property of `returnIntersection`'s loop (229-293). */
  function FilterField(k: string, v: Value, defs: seq<Field>, expand: bool, acc: Acc)
    : (r: Result<(seq<Field>, Acc)>)
    decreases v
    ensures r.Success? <==> FieldAdmissible(k, v, defs, expand)
    ensures r.Success? ==> r.value.0 == KeptField(Field(k, v), defs)
    ensures r.Success? ==> r.value.1.errors == acc.errors + FieldErrors(k, v, defs)
    ensures r.Success? && !expand ==> r.value.1.context == acc.context
    ensures r.Success? ==> Grows(acc.context, r.value.1.context)
    ensures r.Success? && Consistent(acc.context, defs) ==> Consistent(r.value.1.context, defs)
    ensures r.Success? && expand && !Reserved(k) && k != "@type" && Has(defs, k) ==>
              Has(r.value.1.context, k)
  {
    if Reserved(k) then Success(([Field(k, v)], acc))
    else if k == "@type" then
      match v
      case Arr(items) =>
        var p :- FilterTypes(items, defs, expand, acc.context);
        Success((if |p.0| > 0 then [Field(k, Arr(p.0))] else [], Acc(acc.errors, p.1)))
      case _ =>
        var t := PropertyKey(v);
        if Has(defs, t) then
          var out :- if expand then Record(t, defs, acc.context, false) else Success(acc.context);
          Success(([Field(k, v)], Acc(acc.errors, out)))
        else Success(([], acc))
    else if Has(defs, k) then
      var inner :-
        match v
        case Obj(g) =>
          var p :- FilterFields(g, defs, expand, acc);
          Success((Obj(p.0), p.1))
        case Arr(_) => Failure(ArrayCallback(k))
        case Null => Failure(NullValue(k))
        case _ => Success((v, acc));
      var out :- if expand then Record(k, defs, inner.1.context, false) else Success(inner.1.context);
      Success(([Field(k, inner.0)], Acc(inner.1.errors, out)))
    else if Has(defs, InitialString(k)) then Success(([Field(k, v)], acc))
    else Success(([], Acc(acc.errors + [k], acc.context)))
  }

  /** `returnIntersection(obj1, obj2, expandContext)` over the properties of `obj1`, in order. */
  function FilterFields(fs: seq<Field>, defs: seq<Field>, expand: bool, acc: Acc)
    : (r: Result<(seq<Field>, Acc)>)
    decreases fs
    ensures r.Success? <==> Admissible(fs, defs, expand)
    ensures r.Success? ==> r.value.0 == Kept(fs, defs)
    ensures r.Success? ==> r.value.1.errors == acc.errors + ErrorsOf(fs, defs)
    ensures r.Success? && !expand ==> r.value.1.context == acc.context
    ensures r.Success? ==> Grows(acc.context, r.value.1.context)
    ensures r.Success? && Consistent(acc.context, defs) ==> Consistent(r.value.1.context, defs)
  {
    if |fs| == 0 then Success(([], acc))
    else
      var first :- FilterField(fs[0].key, fs[0].val, defs, expand, acc);
      var rest :- FilterFields(fs[1..], defs, expand, first.1);
      var fe := FieldErrors(fs[0].key, fs[0].val, defs);
      assert ErrorsOf(fs, defs) == fe + ErrorsOf(fs[1..], defs);
      assert rest.1.errors == acc.errors + ErrorsOf(fs, defs) by {
        assert (acc.errors + fe) + ErrorsOf(fs[1..], defs) == acc.errors + (fe + ErrorsOf(fs[1..], defs));
      }
      GrowsTransitive(acc.context, first.1.context, rest.1.context);
      Success((first.0 + rest.0, rest.1))
  }
}

/**
 Properties of the intersection filter, stated over its reference definitions
 and connected to the filter by FilterFields' contract.
 */
module IntersectionProperties {
  import opened Results
  import opened JsValues
  import opened Terms
  import opened Intersection

  /** Recording a term adds its names to the output context's names. */
  lemma RecordKeys(term: string, defs: seq<Field>, out: seq<Field>, classCheck: bool)
    requires Record(term, defs, out, classCheck).Success?
    ensures Keys(Record(term, defs, out, classCheck).value) == AddNames(Keys(out), RecordNames(term, defs))
  {
    var def := Get(defs, term);
    var out1 := Put(out, term, def);
    PutNames(out, term, def);
    var ns := InitialOf(IdOf(def)).value;
    if Truthy(ns) {
      PutNames(out1, PropertyKey(ns), Get(defs, PropertyKey(ns)));
      AddNamesConcat(Keys(out), [term], [PropertyKey(ns)]);
    } else {
      assert RecordNames(term, defs) == [term];
    }
  }

  /** With expansion, an array `@type` adds exactly the names of its exactly matched entries. */
  lemma {:induction false} FilterTypesKeys(items: seq<Value>, defs: seq<Field>, out: seq<Field>)
    requires FilterTypes(items, defs, true, out).Success?
    ensures Keys(FilterTypes(items, defs, true, out).value.1) == AddNames(Keys(out), UsedTypes(items, defs))
    decreases |items|
  {
    if |items| > 0 {
      var tail := items[1..];
      var t := PropertyKey(items[0]);
      if Has(defs, t) {
        RecordKeys(t, defs, out, true);
        FilterTypesKeys(tail, defs, Record(t, defs, out, true).value);
        AddNamesConcat(Keys(out), RecordNames(t, defs), UsedTypes(tail, defs));
      } else {
        FilterTypesKeys(tail, defs, out);
        assert UsedTypes(items, defs) == UsedTypes(tail, defs);
      }
    }
  }

  /** With expansion, one property adds exactly its recorded names to the output context's names. */
  lemma {:induction false} FilterFieldKeys(k: string, v: Value, defs: seq<Field>, acc: Acc)
    requires FilterField(k, v, defs, true, acc).Success?
    ensures Keys(FilterField(k, v, defs, true, acc).value.1.context) == AddNames(Keys(acc.context), FieldUsed(k, v, defs))
    decreases v
  {
    if Reserved(k) {
    } else if k == "@type" {
      if v.Arr? {
        FilterTypesKeys(v.items, defs, acc.context);
      } else if Has(defs, PropertyKey(v)) {
        RecordKeys(PropertyKey(v), defs, acc.context, false);
      }
    } else if Has(defs, k) {
      if v.Obj? {
        var inner := FilterFields(v.fields, defs, true, acc).value;
        FilterFieldsKeys(v.fields, defs, acc);
        RecordKeys(k, defs, inner.1.context, false);
        AddNamesConcat(Keys(acc.context), Used(v.fields, defs), RecordNames(k, defs));
      } else {
        RecordKeys(k, defs, acc.context, false);
        assert FieldUsed(k, v, defs) == RecordNames(k, defs);
      }
    }
  }

  /**
   With expansion, a node adds exactly its recorded names, in traversal order,
   each name kept at its first position.
   */
  lemma {:induction false} FilterFieldsKeys(fs: seq<Field>, defs: seq<Field>, acc: Acc)
    requires FilterFields(fs, defs, true, acc).Success?
    ensures Keys(FilterFields(fs, defs, true, acc).value.1.context) == AddNames(Keys(acc.context), Used(fs, defs))
    decreases fs
  {
    if |fs| > 0 {
      var first := FilterField(fs[0].key, fs[0].val, defs, true, acc).value;
      FilterFieldKeys(fs[0].key, fs[0].val, defs, acc);
      FilterFieldsKeys(fs[1..], defs, first.1);
      AddNamesConcat(Keys(acc.context), FieldUsed(fs[0].key, fs[0].val, defs), Used(fs[1..], defs));
    }
  }

  /** An output context holding the map's definitions is determined by its names. */
  lemma ConsistentIsDefinitions(ctx: seq<Field>, defs: seq<Field>)
    requires Consistent(ctx, defs)
    ensures ctx == Definitions(Keys(ctx), defs)
  {
    var d := Definitions(Keys(ctx), defs);
    assert forall i :: 0 <= i < |ctx| ==> d[i].key == ctx[i].key;
  }

  /**
   With expansion, the output context of a node is exactly the map's
   definitions of the names the node records, in the order they are first
   recorded, after the names already there.
   */
  lemma ExpandedContext(fs: seq<Field>, defs: seq<Field>, acc: Acc)
    requires FilterFields(fs, defs, true, acc).Success?
    requires Consistent(acc.context, defs)
    ensures FilterFields(fs, defs, true, acc).value.1.context ==
              Definitions(AddNames(Keys(acc.context), Used(fs, defs)), defs)
  {
    var ctx := FilterFields(fs, defs, true, acc).value.1.context;
    FilterFieldsKeys(fs, defs, acc);
    ConsistentIsDefinitions(ctx, defs);
  }

  /** `@context`, `@graph` and `@id` are copied verbatim: reading one from the output reads the input. */
  lemma {:induction false} KeptReserved(fs: seq<Field>, defs: seq<Field>, k: string)
    requires Reserved(k)
    ensures Has(Kept(fs, defs), k) <==> Has(fs, k)
    ensures Get(Kept(fs, defs), k) == Get(fs, k)
    decreases |fs|
  {
    if |fs| > 0 {
      var h := KeptField(fs[0], defs);
      KeptReserved(fs[1..], defs, k);
      assert Kept(fs, defs) == h + Kept(fs[1..], defs);
      GetConcat(h, Kept(fs[1..], defs), k);
      GetConcat([fs[0]], fs[1..], k);
      assert [fs[0]] + fs[1..] == fs;
      assert Keys(h) == if h == [] then [] else [fs[0].key];
      if fs[0].key == k {
        assert KeptValue(k, fs[0].val, defs) == fs[0].val;
        assert h == [fs[0]];
      }
    }
  }

  /** The output has no property the input lacks. */
  lemma {:induction false} KeptHasNoNewKeys(fs: seq<Field>, defs: seq<Field>, k: string)
    requires Has(Kept(fs, defs), k)
    ensures Has(fs, k)
    decreases |fs|
  {
    var h := KeptField(fs[0], defs);
    GetConcat(h, Kept(fs[1..], defs), k);
    GetConcat([fs[0]], fs[1..], k);
    assert [fs[0]] + fs[1..] == fs;
    assert Keys(h) == if h == [] then [] else [fs[0].key];
    if !Has(h, k) {
      KeptHasNoNewKeys(fs[1..], defs, k);
    }
  }

  /**
   Per key, for a node with distinct names: a property is in the output exactly
   when it survives, and then carries its kept value.
   */
  lemma {:induction false} KeptLookup(fs: seq<Field>, defs: seq<Field>, k: string)
    requires Distinct(Keys(fs))
    ensures Has(Kept(fs, defs), k) <==> Has(fs, k) && Survives(k, Get(fs, k), defs)
    ensures Has(Kept(fs, defs), k) ==> Get(Kept(fs, defs), k) == KeptValue(k, Get(fs, k), defs)
    decreases |fs|
  {
    if |fs| > 0 {
      var h := KeptField(fs[0], defs);
      var rest := Kept(fs[1..], defs);
      assert Keys(fs) == [fs[0].key] + Keys(fs[1..]);
      assert Distinct(Keys(fs[1..]));
      KeptLookup(fs[1..], defs, k);
      GetConcat(h, rest, k);
      GetConcat([fs[0]], fs[1..], k);
      assert [fs[0]] + fs[1..] == fs;
      assert Keys(h) == if h == [] then [] else [fs[0].key];
      if k == fs[0].key {
        assert !Has(fs[1..], k) by {
          forall j | 0 <= j < |fs[1..]| ensures Keys(fs[1..])[j] != k {
            assert Keys(fs)[0] != Keys(fs)[j + 1];
          }
        }
      }
    }
  }

  /** Every reported term, at any depth, is undefined in the map (neither it nor its prefix is a term). */
  lemma {:induction false} ErrorsAreUnmatched(fs: seq<Field>, defs: seq<Field>)
    ensures forall e :: e in ErrorsOf(fs, defs) ==> Unmatched(e, defs)
    decreases fs
  {
    if |fs| > 0 {
      FieldErrorsAreUnmatched(fs[0].key, fs[0].val, defs);
      ErrorsAreUnmatched(fs[1..], defs);
    }
  }

  lemma {:induction false} FieldErrorsAreUnmatched(k: string, v: Value, defs: seq<Field>)
    ensures forall e :: e in FieldErrors(k, v, defs) ==> Unmatched(e, defs)
    decreases v
  {
    if !Reserved(k) && k != "@type" && Has(defs, k) && v.Obj? {
      ErrorsAreUnmatched(v.fields, defs);
    }
  }

  /** Every top-level property that is undefined in the map is reported. */
  lemma {:induction false} UnmatchedAreErrors(fs: seq<Field>, defs: seq<Field>, i: nat)
    requires i < |fs|
    requires Unmatched(fs[i].key, defs)
    ensures fs[i].key in ErrorsOf(fs, defs)
    decreases i
  {
    if i > 0 {
      UnmatchedAreErrors(fs[1..], defs, i - 1);
    }
  }

  /**
   Term-level monotonicity: after adding entries to the map, every reported term
   was already undefined in the smaller map, so no term that was valid becomes
   invalid.
   */
  lemma ErrorsMonotoneByTerm(fs: seq<Field>, defs: seq<Field>, bigger: seq<Field>)
    requires forall x :: Has(defs, x) ==> Has(bigger, x)
    ensures forall e :: e in ErrorsOf(fs, bigger) ==> Unmatched(e, defs)
  {
    ErrorsAreUnmatched(fs, bigger);
  }

  /** No object is checked under the bigger map that the smaller map left unchecked. */
  ghost predicate NoNewOpenings(fs: seq<Field>, defs: seq<Field>, bigger: seq<Field>)
    decreases fs
  {
    |fs| == 0 ||
    (&& (fs[0].val.Obj? && !Reserved(fs[0].key) && fs[0].key != "@type" && Has(bigger, fs[0].key)
         ==> Has(defs, fs[0].key) && NoNewOpenings(fs[0].val.fields, defs, bigger))
     && NoNewOpenings(fs[1..], defs, bigger))
  }

  /**
   Error-set monotonicity: when the added entries open no object the smaller map
   left unchecked, every term reported under the bigger map is reported under the
   smaller one.
   */
  lemma {:induction false} ErrorsMonotone(fs: seq<Field>, defs: seq<Field>, bigger: seq<Field>)
    requires forall x :: Has(defs, x) ==> Has(bigger, x)
    requires NoNewOpenings(fs, defs, bigger)
    ensures forall e :: e in ErrorsOf(fs, bigger) ==> e in ErrorsOf(fs, defs)
    decreases fs
  {
    if |fs| > 0 {
      var k := fs[0].key;
      var v := fs[0].val;
      ErrorsMonotone(fs[1..], defs, bigger);
      if v.Obj? && !Reserved(k) && k != "@type" && Has(bigger, k) {
        ErrorsMonotone(v.fields, defs, bigger);
      }
      assert forall e :: e in FieldErrors(k, v, bigger) ==> e in FieldErrors(k, v, defs);
      assert ErrorsOf(fs, bigger) == FieldErrors(k, v, bigger) + ErrorsOf(fs[1..], bigger);
      assert ErrorsOf(fs, defs) == FieldErrors(k, v, defs) + ErrorsOf(fs[1..], defs);
    }
  }

  /**
   Without that side condition the error set can grow: a compact IRI `p:w`
   matched only by its prefix `p` is kept unchecked, but once the map defines
   `p:w` itself its object value is checked and its undefined property `t` is
   reported.
   */
  lemma NestedObjectOpensNewErrors()
    ensures var fs := [Field("p:w", Obj([Field("t", Str("x"))]))];
            var defs := [Field("p", Str("http://example.org/"))];
            var bigger := defs + [Field("p:w", Obj([Field("@id", Str("p:w"))]))];
            && ErrorsOf(fs, defs) == []
            && ErrorsOf(fs, bigger) == ["t"]
  {
    var inner := [Field("t", Str("x"))];
    var fs := [Field("p:w", Obj(inner))];
    var defs := [Field("p", Str("http://example.org/"))];
    var bigger := defs + [Field("p:w", Obj([Field("@id", Str("p:w"))]))];
    assert Keys(defs) == ["p"];
    assert Keys(bigger) == ["p", "p:w"];
    CompactIriPrefix("p", "w");
    assert "p" + ":" + "w" == "p:w";
    assert InitialString("p:w") == "p";
    InitialStringUnique("t", "t");
    assert Unmatched("t", bigger);
    assert ErrorsOf(inner, bigger) == ["t"] by {
      assert FieldErrors("t", Str("x"), bigger) == ["t"];
      assert ErrorsOf(inner[1..], bigger) == [];
    }
    assert ErrorsOf(fs, bigger) == ["t"] by {
      assert Has(bigger, "p:w");
      assert FieldErrors("p:w", Obj(inner), bigger) == ["t"];
      assert ErrorsOf(fs[1..], bigger) == [];
    }
    assert ErrorsOf(fs, defs) == [] by {
      assert !Has(defs, "p:w") && Has(defs, InitialString("p:w"));
      assert !Reserved("p:w") && "p:w" != "@type";
      assert FieldErrors("p:w", Obj(inner), defs) == [];
      assert ErrorsOf(fs[1..], defs) == [];
    }
  }

  /**
   `hasOwnProperty` turns a `@type` entry into a property name first (235): the
   number 5 finds the term "5" and is kept as the number it was.
   */
  lemma NumericTypeEntryFindsTerm()
    ensures var defs := [Field("5", Obj([Field("@id", Str("http://example.org/Five"))]))];
            FilterTypes([Num(5)], defs, false, []) == Success(([Num(5)], []))
  {
    var defs := [Field("5", Obj([Field("@id", Str("http://example.org/Five"))]))];
    assert PropertyKey(Num(5)) == "5";
    assert Keys(defs) == ["5"];
    assert MatchingTypes([Num(5)], defs) == [Num(5)];
  }

  /**
   An array entry of `@type` that no term matches is dropped without a throw:
   `getInitialString` hands the array back (250), so its name is looked up again.
   */
  lemma ArrayTypeEntryDropped()
    ensures var defs := [Field("Person", Obj([Field("@id", Str("http://schema.org/Person"))]))];
            FilterTypes([Arr([Str("Movie")])], defs, true, []) == Success(([], []))
  {
    var defs := [Field("Person", Obj([Field("@id", Str("http://schema.org/Person"))]))];
    var e := Arr([Str("Movie")]);
    assert PropertyKey(e) == "Movie";
    assert Keys(defs) == ["Person"];
    assert InitialOf(e) == Success(e);
    assert MatchingTypes([e], defs) == [];
  }

  /**
   A definition whose `@id` is an array is recorded without a throw (245, 282):
   `getInitialString` returns the array, whose property name is its joined text.
   */
  lemma ArrayIdentifierRecorded()
    ensures var defs := [Field("t", Obj([Field("@id", Arr([Str("x")]))]))];
            var r := Record("t", defs, [], false);
            r.Success? && Has(r.value, "t") && Has(r.value, "x")
  {
  }

  lemma {:induction false} MatchingTypesIdempotent(items: seq<Value>, defs: seq<Field>)
    ensures MatchingTypes(MatchingTypes(items, defs), defs) == MatchingTypes(items, defs)
    decreases |items|
  {
    if |items| > 0 {
      MatchingTypesIdempotent(items[1..], defs);
      var rest := MatchingTypes(items[1..], defs);
      if TypeMatches(items[0], defs) {
        var m := [items[0]] + rest;
        assert MatchingTypes(items, defs) == m;
        assert m[0] == items[0] && m[1..] == rest;
        assert MatchingTypes(m, defs) == [items[0]] + MatchingTypes(rest, defs);
      } else {
        assert MatchingTypes(items, defs) == rest;
      }
    }
  }

  /** Filtering the output again changes nothing. */
  lemma {:induction false} KeptIdempotent(fs: seq<Field>, defs: seq<Field>)
    ensures Kept(Kept(fs, defs), defs) == Kept(fs, defs)
    ensures ErrorsOf(Kept(fs, defs), defs) == []
    decreases fs
  {
    if |fs| > 0 {
      var k := fs[0].key;
      var v := fs[0].val;
      KeptIdempotent(fs[1..], defs);
      var rest := Kept(fs[1..], defs);
      if Survives(k, v, defs) {
        KeptValueIdempotent(k, v, defs);
        var f := Field(k, KeptValue(k, v, defs));
        var K := [f] + rest;
        assert Kept(fs, defs) == K;
        assert K[0] == f && K[1..] == rest;
        assert KeptField(f, defs) == [f];
        assert Kept(K, defs) == [f] + Kept(rest, defs);
        assert ErrorsOf(K, defs) == FieldErrors(k, f.val, defs) + ErrorsOf(rest, defs);
      } else {
        assert Kept(fs, defs) == rest;
      }
    }
  }

  lemma {:induction false} KeptValueIdempotent(k: string, v: Value, defs: seq<Field>)
    requires Survives(k, v, defs)
    ensures Survives(k, KeptValue(k, v, defs), defs)
    ensures KeptValue(k, KeptValue(k, v, defs), defs) == KeptValue(k, v, defs)
    ensures FieldErrors(k, KeptValue(k, v, defs), defs) == []
    decreases v
  {
    if Reserved(k) {
    } else if k == "@type" {
      if v.Arr? {
        MatchingTypesIdempotent(v.items, defs);
      }
    } else if Has(defs, k) && v.Obj? {
      KeptIdempotent(v.fields, defs);
    }
  }

  lemma {:induction false} MatchingTypesAdmissible(items: seq<Value>, defs: seq<Field>, expand: bool)
    requires TypesAdmissible(items, defs, expand)
    ensures TypesAdmissible(MatchingTypes(items, defs), defs, expand)
    decreases |items|
  {
    if |items| > 0 {
      assert TypesAdmissible(items[1..], defs, expand) by {
        forall i | 0 <= i < |items[1..]| ensures items[1..][i] == items[i + 1] { }
      }
      MatchingTypesAdmissible(items[1..], defs, expand);
      var m := MatchingTypes(items, defs);
      var rest := MatchingTypes(items[1..], defs);
      if TypeMatches(items[0], defs) {
        assert m == [items[0]] + rest;
        forall i | 0 <= i < |m|
          ensures EntryAdmissible(m[i], defs, expand)
        {
          if i > 0 {
            assert m[i] == rest[i - 1];
          }
        }
      }
    }
  }

  /** What completes once still completes when filtered again. */
  lemma {:induction false} KeptAdmissible(fs: seq<Field>, defs: seq<Field>, expand: bool)
    requires Admissible(fs, defs, expand)
    ensures Admissible(Kept(fs, defs), defs, expand)
    decreases fs
  {
    if |fs| > 0 {
      var k := fs[0].key;
      var v := fs[0].val;
      KeptAdmissible(fs[1..], defs, expand);
      var rest := Kept(fs[1..], defs);
      if Survives(k, v, defs) {
        KeptValueAdmissible(k, v, defs, expand);
        var f := Field(k, KeptValue(k, v, defs));
        var K := [f] + rest;
        assert Kept(fs, defs) == K;
        assert K[0] == f && K[1..] == rest;
      } else {
        assert Kept(fs, defs) == rest;
      }
    }
  }

  lemma {:induction false} KeptValueAdmissible(k: string, v: Value, defs: seq<Field>, expand: bool)
    requires FieldAdmissible(k, v, defs, expand)
    ensures FieldAdmissible(k, KeptValue(k, v, defs), defs, expand)
    decreases v
  {
    if Reserved(k) {
    } else if k == "@type" {
      if v.Arr? {
        MatchingTypesAdmissible(v.items, defs, expand);
      }
    } else if Has(defs, k) && v.Obj? {
      KeptAdmissible(v.fields, defs, expand);
    }
  }

  /**
   Idempotence: without context expansion, filtering the output of a completed
   filter completes, reports nothing, and returns its input unchanged.
   */
  lemma FilterIdempotent(fs: seq<Field>, defs: seq<Field>, acc: Acc, acc2: Acc)
    requires FilterFields(fs, defs, false, acc).Success?
    ensures var out := FilterFields(fs, defs, false, acc).value.0;
            FilterFields(out, defs, false, acc2) == Success((out, acc2))
  {
    KeptAdmissible(fs, defs, false);
    KeptIdempotent(fs, defs);
    var out := Kept(fs, defs);
    var r := FilterFields(out, defs, false, acc2);
    assert r.Success?;
    assert r.value.0 == out;
    assert r.value.1.errors == acc2.errors + [] == acc2.errors;
    assert r.value.1 == acc2;
  }

  /** Whatever completes with expansion completes without it. */
  lemma {:induction false} AdmissibleWithoutExpansion(fs: seq<Field>, defs: seq<Field>)
    requires Admissible(fs, defs, true)
    ensures Admissible(fs, defs, false)
    decreases fs
  {
    if |fs| > 0 {
      FieldAdmissibleWithoutExpansion(fs[0].key, fs[0].val, defs);
      AdmissibleWithoutExpansion(fs[1..], defs);
    }
  }

  lemma {:induction false} FieldAdmissibleWithoutExpansion(k: string, v: Value, defs: seq<Field>)
    requires FieldAdmissible(k, v, defs, true)
    ensures FieldAdmissible(k, v, defs, false)
    decreases v
  {
    if !Reserved(k) && k != "@type" && Has(defs, k) && v.Obj? {
      AdmissibleWithoutExpansion(v.fields, defs);
    }
  }

  /**
   Expansion changes only the output context and whether the call throws: the
   filtered node and the reported terms are those of the unexpanded filter.
   */
  lemma ExpansionOnlyAddsContext(fs: seq<Field>, defs: seq<Field>, acc: Acc)
    requires FilterFields(fs, defs, true, acc).Success?
    ensures var r := FilterFields(fs, defs, true, acc).value;
            FilterFields(fs, defs, false, acc) == Success((r.0, Acc(r.1.errors, acc.context)))
  {
    AdmissibleWithoutExpansion(fs, defs);
  }

  /**
   With expansion, every top-level property matched by its exact term has that
   term's definition in the output context.
   */
  lemma {:induction false} ExpandedContextCoversTerms(fs: seq<Field>, defs: seq<Field>, acc: Acc, i: nat)
    requires Consistent(acc.context, defs)
    requires FilterFields(fs, defs, true, acc).Success?
    requires i < |fs|
    requires !Reserved(fs[i].key) && fs[i].key != "@type" && Has(defs, fs[i].key)
    ensures var ctx := FilterFields(fs, defs, true, acc).value.1.context;
            Has(ctx, fs[i].key) && Consistent(ctx, defs)
    decreases i
  {
    var first := FilterField(fs[0].key, fs[0].val, defs, true, acc).value;
    var rest := FilterFields(fs[1..], defs, true, first.1).value;
    assert FilterFields(fs, defs, true, acc).value.1 == rest.1;
    if i > 0 {
      assert fs[1..][i - 1] == fs[i];
      ExpandedContextCoversTerms(fs[1..], defs, first.1, i - 1);
    } else {
      GrowsHas(first.1.context, rest.1.context, fs[0].key);
    }
  }
}
