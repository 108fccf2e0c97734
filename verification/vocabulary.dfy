/**
 Vocabulary aggregation, `includeVocabulary` after expansion
 (lib/flureeContext.js:371-494): walk the expanded node's properties, fetch the
 vocabulary document behind every URL property name and every URL type, and
 merge each fetched `@context` and `@graph` into the aggregate, the entries
 already present winning. The graph is an object keyed by `String(node['@id'])`
 whose values are reversed at the end.
 */
module Vocabulary {
  import opened Results
  import opened JsValues
  import opened Documents

  datatype VocabularyOptions = VocabularyOptions(errorOnUndefinedProperties: bool)

  /** What fetching a vocabulary page and parsing its embedded JSON-LD yields. */
  datatype Fetch = Unavailable | Fetched(json: Value)

  /** The stand-in for a vocabulary that could not be fetched: `{ '@graph': [], '@context': [] }`. */
  const EmptyVocabulary := Obj([Field("@graph", Arr([])), Field("@context", Arr([]))])

  /** `pullVocabulary(url)`: the fetched document, or the empty stand-in unless errorOnUndefinedProperties (402-431). */
  function PullVocabulary(url: string, pull: string -> Fetch, strict: bool): (r: Result<Value>)
    ensures r.Failure? <==> strict && pull(url).Unavailable?
    ensures r.Failure? ==> r.error == UndefinedProperty(url)
    ensures r.Success? ==> r.value == if pull(url).Fetched? then pull(url).json else EmptyVocabulary
  {
    match pull(url)
    case Fetched(json) => Success(json)
    case Unavailable =>
      if strict then Failure(UndefinedProperty(url)) else Success(EmptyVocabulary)
  }

  /**
   `v[k]` for the `@`-keywords the library reads: reading from `null` or
   `undefined` throws, any other value reads its own property.
   */
  function Property(v: Value, k: string): (r: Result<Value>)
    ensures r.Failure? <==> v.Null? || v.Undefined?
    ensures v.Obj? ==> r == Success(Get(v.fields, k))
  {
    if v.Null? || v.Undefined? then Failure(MalformedVocabulary)
    else Success(Get(OwnProperties(v), k))
  }

  /** The graph key of a node: `String(node['@id'])`. */
  function NodeKey(node: Value): (r: Result<string>)
    ensures r.Failure? <==> node.Null? || node.Undefined?
    ensures node.Obj? ==> r == Success(PropertyKey(Get(node.fields, "@id")))
  {
    var id :- Property(node, "@id");
    Success(PropertyKey(id))
  }

  /** Every node of a graph object sits under its own key. */
  predicate KeyedById(graph: seq<Field>) {
    forall f :: f in graph ==> NodeKey(f.val) == Success(f.key)
  }

  /**
   `customReducer` (433-434): the nodes folded, from an empty object, into one
   object keyed by the text of each node's `@id`, each new key appended and a
   repeated key overwritten in place. It throws at the first node that is `null`
   or `undefined`.
   */
  function Reduce(nodes: seq<Value>): (r: Result<seq<Field>>)
    ensures r.Success? ==> Distinct(Keys(r.value)) && KeyedById(r.value)
  {
    ReduceFrom([], nodes)
  }

  /** The fold of Reduce from an intermediate object `prev`. */
  function ReduceFrom(prev: seq<Field>, nodes: seq<Value>): (r: Result<seq<Field>>)
    ensures r.Success? && Distinct(Keys(prev)) && KeyedById(prev) ==> Distinct(Keys(r.value)) && KeyedById(r.value)
    decreases |nodes|
  {
    if |nodes| == 0 then Success(prev)
    else
      var key :- NodeKey(nodes[0]);
      var next := Put(prev, key, nodes[0]);
      PutKeyed(prev, key, nodes[0]);
      ReduceFrom(next, nodes[1..])
  }

  /** Writing a node under its own key keeps a graph object keyed by `@id` with distinct names. */
  lemma PutKeyed(graph: seq<Field>, key: string, node: Value)
    requires NodeKey(node) == Success(key)
    ensures Distinct(Keys(graph)) && KeyedById(graph) ==>
              Distinct(Keys(Put(graph, key, node))) && KeyedById(Put(graph, key, node))
  {
    PutFrom(graph, key, node);
    if !Has(graph, key) {
      assert Keys(Put(graph, key, node)) == Keys(graph) + [key];
    }
  }

  /** The fold throws exactly when some node is `null` or `undefined`. */
  lemma {:induction false} ReduceSucceeds(prev: seq<Field>, nodes: seq<Value>)
    ensures ReduceFrom(prev, nodes).Success? <==>
              forall i :: 0 <= i < |nodes| ==> !(nodes[i].Null? || nodes[i].Undefined?)
    decreases |nodes|
  {
    if |nodes| > 0 && NodeKey(nodes[0]).Success? {
      var tail := nodes[1..];
      ReduceSucceeds(Put(prev, NodeKey(nodes[0]).value, nodes[0]), tail);
      assert forall i :: 0 <= i < |tail| ==> tail[i] == nodes[i + 1];
    }
  }

  /** Whether some node has key `k`. */
  predicate KeyedIn(nodes: seq<Value>, k: string) {
    exists i :: 0 <= i < |nodes| && NodeKey(nodes[i]) == Success(k)
  }

  /** Reference definition: the last node whose key is `k`, `undefined` if there is none. */
  function LastKeyed(nodes: seq<Value>, k: string): Value
  {
    if |nodes| == 0 then Undefined
    else if KeyedIn(nodes[1..], k) then LastKeyed(nodes[1..], k)
    else if NodeKey(nodes[0]) == Success(k) then nodes[0]
    else Undefined
  }

  /** KeyedIn, one node at a time from the front. */
  lemma KeyedInCons(nodes: seq<Value>, k: string)
    requires |nodes| > 0
    ensures KeyedIn(nodes, k) <==> NodeKey(nodes[0]) == Success(k) || KeyedIn(nodes[1..], k)
  {
    if KeyedIn(nodes, k) {
      var i :| 0 <= i < |nodes| && NodeKey(nodes[i]) == Success(k);
      KeyedInTail(nodes, k, i);
    }
    if KeyedIn(nodes[1..], k) {
      var i :| 0 <= i < |nodes[1..]| && NodeKey(nodes[1..][i]) == Success(k);
      assert nodes[i + 1] == nodes[1..][i];
    }
  }

  /** A node with key `k` after the first is a node of the tail. */
  lemma KeyedInTail(nodes: seq<Value>, k: string, i: nat)
    requires i < |nodes|
    requires NodeKey(nodes[i]) == Success(k)
    ensures NodeKey(nodes[0]) == Success(k) || KeyedIn(nodes[1..], k)
  {
    if i > 0 {
      assert nodes[1..][i - 1] == nodes[i];
    }
  }

  /**
   Within one graph the last node with a given `@id` wins over earlier ones and
   over the starting object, and exactly the keys of the nodes are added.
   */
  lemma {:induction false} ReduceKeepsLastNode(prev: seq<Field>, nodes: seq<Value>, k: string)
    requires ReduceFrom(prev, nodes).Success?
    ensures Has(ReduceFrom(prev, nodes).value, k) <==> Has(prev, k) || KeyedIn(nodes, k)
    ensures Get(ReduceFrom(prev, nodes).value, k) == if KeyedIn(nodes, k) then LastKeyed(nodes, k) else Get(prev, k)
    decreases |nodes|
  {
    if |nodes| > 0 {
      var key := NodeKey(nodes[0]).value;
      var next := Put(prev, key, nodes[0]);
      KeyedInCons(nodes, k);
      ReduceKeepsLastNode(next, nodes[1..], k);
    }
  }

  /**
   The graph the aggregate starts from: the document's own `@graph` spread into
   an array when it is truthy, the document without its `@context` otherwise
   (437-440). Spreading anything but an array or a string throws.
   */
  function InitialNodes(fs: seq<Field>): (r: Result<seq<Value>>)
    ensures !Truthy(Get(fs, "@graph")) ==> r == Success([Obj(RemoveContext(fs))])
    ensures Get(fs, "@graph").Arr? ==> r == Success(Get(fs, "@graph").items)
    ensures r.Failure? <==> Truthy(Get(fs, "@graph")) && !(Get(fs, "@graph").Arr? || Get(fs, "@graph").Str?)
  {
    var g := Get(fs, "@graph");
    if !Truthy(g) then Success([Obj(RemoveContext(fs))])
    else if g.Arr? then Success(g.items)
    else if g.Str? then Success(Values(OwnProperties(g)))
    else Failure(MalformedVocabulary)
  }

  /**
   The nodes a fetched document contributes, keyed: its `@graph` when truthy,
   which must then be an array, otherwise the document itself without its
   `@context` (463-471, 479-484).
   */
  function FetchedNodes(doc: Value): (r: Result<seq<Field>>)
    ensures r.Success? ==> Distinct(Keys(r.value)) && KeyedById(r.value)
    ensures doc.Obj? && Get(doc.fields, "@graph").Arr? ==> r == Reduce(Get(doc.fields, "@graph").items)
    ensures doc.Obj? && !Truthy(Get(doc.fields, "@graph")) ==> r == Reduce([Obj(RemoveContext(doc.fields))])
  {
    var list :- FetchedList(doc);
    Reduce(list)
  }

  /** The unkeyed nodes of a fetched document, as FetchedNodes reads them. */
  function FetchedList(doc: Value): (r: Result<seq<Value>>)
    ensures r.Failure? <==> doc.Null? || doc.Undefined? || (Truthy(Get(OwnProperties(doc), "@graph")) && !Get(OwnProperties(doc), "@graph").Arr?)
    ensures r.Success? && Truthy(Get(OwnProperties(doc), "@graph")) ==> r.value == Get(OwnProperties(doc), "@graph").items
    ensures r.Success? && !Truthy(Get(OwnProperties(doc), "@graph")) ==> r.value == [Obj(Remove(OwnProperties(doc), "@context"))]
  {
    var g :- Property(doc, "@graph");
    if Truthy(g) then
      if g.Arr? then Success(g.items) else Failure(MalformedVocabulary)
    else
      Success([Obj(Remove(OwnProperties(doc), "@context"))])
  }

  /**
   The keyed nodes of a fetched document are its last node under each `@id`
   key, and only keys some node has.
   */
  lemma FetchedNodesLastKeyed(doc: Value, k: string)
    requires FetchedNodes(doc).Success?
    ensures var list := FetchedList(doc).value;
            && (Has(FetchedNodes(doc).value, k) <==> KeyedIn(list, k))
            && Get(FetchedNodes(doc).value, k) == if KeyedIn(list, k) then LastKeyed(list, k) else Undefined
  {
    ReduceKeepsLastNode([], FetchedList(doc).value, k);
  }

  /** The running aggregate: `interimContext` (URL strings and term map) and `updatedGraph`. */
  datatype Aggregate = Aggregate(strings: seq<string>, terms: seq<Field>, graph: seq<Field>)

  /** The invariant of the aggregate: both objects have distinct names and the graph is keyed by `@id`. */
  predicate WellFormed(agg: Aggregate) {
    Distinct(Keys(agg.terms)) && Distinct(Keys(agg.graph)) && KeyedById(agg.graph)
  }

  /**
   Merging one fetched document: `{...fetched['@context'], ...map}` and
   `{...customReducer(fetched nodes), ...updatedGraph}` (459-471, 475-484).
   */
  function Merge(agg: Aggregate, doc: Value): (r: Result<Aggregate>)
    ensures r.Failure? <==> doc.Null? || doc.Undefined? || FetchedNodes(doc).Failure?
    ensures r.Success? ==> r.value.strings == agg.strings
  {
    var ctx :- Property(doc, "@context");
    var nodes :- FetchedNodes(doc);
    Success(Aggregate(agg.strings, Spread(OwnProperties(ctx), agg.terms), Spread(nodes, agg.graph)))
  }

  /** A fetched document whose `@context` has distinct names (JSON parsing guarantees it). */
  predicate VocabularyIsMap(doc: Value) {
    ValueIsMap(Get(OwnProperties(doc), "@context"))
  }

  /**
   A merge keeps the aggregate well formed, keeps every entry already present
   with its value in both objects, adds exactly the fetched names, and orders the
   graph as the fetched nodes followed by the earlier nodes they do not repeat.
   */
  lemma MergePreserves(agg: Aggregate, doc: Value)
    requires WellFormed(agg) && VocabularyIsMap(doc)
    requires Merge(agg, doc).Success?
    ensures var r := Merge(agg, doc).value;
            var nodes := FetchedNodes(doc).value;
            && WellFormed(r)
            && (forall k :: Has(agg.terms, k) ==> Has(r.terms, k) && Get(r.terms, k) == Get(agg.terms, k))
            && (forall k :: Has(agg.graph, k) ==> Has(r.graph, k) && Get(r.graph, k) == Get(agg.graph, k))
            && (forall k :: Has(r.terms, k) <==> Has(agg.terms, k) || Has(OwnProperties(Property(doc, "@context").value), k))
            && (forall k :: Has(r.graph, k) <==> Has(agg.graph, k) || Has(nodes, k))
            && Keys(r.graph) == Keys(nodes) + Without(Keys(agg.graph), Keys(nodes))
  {
    var ctx := Property(doc, "@context").value;
    var c := OwnProperties(ctx);
    var nodes := FetchedNodes(doc).value;
    var r := Merge(agg, doc).value;
    OwnPropertiesDistinct(ctx);
    SpreadDistinct(c, agg.terms);
    SpreadDistinct(nodes, agg.graph);
    SpreadFrom(nodes, agg.graph);
    SpreadKeys(nodes, agg.graph);
    forall k | Has(agg.terms, k) ensures Get(r.terms, k) == Get(agg.terms, k) {
      SpreadGet(c, agg.terms, k);
    }
    forall k | Has(agg.graph, k) ensures Get(r.graph, k) == Get(agg.graph, k) {
      SpreadGet(nodes, agg.graph, k);
    }
  }

  /**
   What a merge reads for every name: an entry already present keeps its value,
   and any other name reads the fetched document's `@context` definition (a
   term) or its keyed node (a graph entry), `undefined` when that lacks it too.
   */
  lemma MergeValues(agg: Aggregate, doc: Value, k: string)
    requires WellFormed(agg) && VocabularyIsMap(doc)
    requires Merge(agg, doc).Success?
    ensures var r := Merge(agg, doc).value;
            && Get(r.terms, k) == (if Has(agg.terms, k) then Get(agg.terms, k) else Get(ContextTerms(doc), k))
            && Get(r.graph, k) == (if Has(agg.graph, k) then Get(agg.graph, k) else Get(FetchedNodes(doc).value, k))
  {
    SpreadGet(ContextTerms(doc), agg.terms, k);
    SpreadGet(FetchedNodes(doc).value, agg.graph, k);
  }

  /**
   The terms a fetched document offers: the own properties of its `@context`
   (nothing for `null` or `undefined`, which the merge rejects anyway).
   */
  function ContextTerms(doc: Value): (c: seq<Field>)
    ensures !(doc.Null? || doc.Undefined?) ==> c == OwnProperties(Property(doc, "@context").value)
  {
    OwnProperties(Get(OwnProperties(doc), "@context"))
  }

  /** The name last in the earlier graph stays last after the fetched names are put in front, unless they repeat it. */
  lemma LastSurvives(kr: seq<string>, kn: seq<string>, kg: seq<string>, d: string)
    requires kr == kn + Without(kg, kn)
    requires |kg| > 0 && kg[|kg| - 1] == d && d !in kn
    ensures |kr| > 0 && kr[|kr| - 1] == d
  {
    WithoutKeepsLast(kg, kn);
  }

  /** The graph step of MergeExtends, over the three graph objects alone. */
  lemma GraphKeepsLast(graph: seq<Field>, nodes: seq<Field>, merged: seq<Field>, d: string)
    requires Keys(merged) == Keys(nodes) + Without(Keys(graph), Keys(nodes))
    requires EndsWith(graph, d) && !Has(nodes, d)
    ensures EndsWith(merged, d)
  {
    var kg, kr := Keys(graph), Keys(merged);
    LastSurvives(kr, Keys(nodes), kg, d);
    assert kr[|kr| - 1] == merged[|merged| - 1].key;
  }

  /** An unavailable vocabulary, replaced by the empty stand-in, leaves the aggregate unchanged. */
  lemma MergeEmptyVocabulary(agg: Aggregate)
    requires WellFormed(agg)
    ensures Merge(agg, EmptyVocabulary) == Success(agg)
  {
    var fs := EmptyVocabulary.fields;
    assert Get(fs, "@graph") == Arr([]);
    assert Get(fs, "@context") == Arr([]);
    assert OwnProperties(Arr([])) == [];
    assert Reduce([]) == Success([]);
    assert FetchedNodes(EmptyVocabulary) == Success([]);
    SpreadAppends([], agg.terms);
    SpreadAppends([], agg.graph);
    assert [] + agg.terms == agg.terms && [] + agg.graph == agg.graph;
  }

  /** A fetched document whose graph does not hold a node keyed `d`. */
  predicate Omits(doc: Value, d: string) {
    FetchedNodes(doc).Success? ==> !Has(FetchedNodes(doc).value, d)
  }

  /** Every vocabulary the fetcher can return has a map as its `@context`. */
  ghost predicate VocabulariesAreMaps(pull: string -> Fetch) {
    forall u :: pull(u).Fetched? ==> VocabularyIsMap(pull(u).json)
  }

  /** No vocabulary the fetcher can return holds a node keyed `d`. */
  ghost predicate NeverFetches(pull: string -> Fetch, d: string) {
    forall u :: pull(u).Fetched? ==> Omits(pull(u).json, d)
  }

  /** The aggregate `after` keeps everything `before` had: its URL strings, and each entry with its value. */
  ghost predicate Extends(before: Aggregate, after: Aggregate) {
    && after.strings == before.strings
    && (forall k :: Has(before.terms, k) ==> Has(after.terms, k) && Get(after.terms, k) == Get(before.terms, k))
    && (forall k :: Has(before.graph, k) ==> Has(after.graph, k) && Get(after.graph, k) == Get(before.graph, k))
  }

  /** The graph object's last name is `d`. */
  predicate EndsWith(graph: seq<Field>, d: string) {
    |graph| > 0 && graph[|graph| - 1].key == d
  }

  /** A merge extends the aggregate, and a node last in the graph stays last unless the fetched graph repeats it. */
  lemma MergeExtends(agg: Aggregate, doc: Value, d: string)
    requires WellFormed(agg) && VocabularyIsMap(doc)
    requires Merge(agg, doc).Success?
    ensures var r := Merge(agg, doc).value;
            && WellFormed(r) && Extends(agg, r)
            && (EndsWith(agg.graph, d) && Omits(doc, d) ==> EndsWith(r.graph, d))
  {
    MergePreserves(agg, doc);
    var r := Merge(agg, doc).value;
    var nodes := FetchedNodes(doc).value;
    if EndsWith(agg.graph, d) && Omits(doc, d) {
      GraphKeepsLast(agg.graph, nodes, r.graph, d);
    }
  }

  /** Pulling every `@type` URL at once (450): every document, or the failure of the first URL in order that fails. */
  function PullAll(urls: seq<string>, pull: string -> Fetch, strict: bool): (r: Result<seq<Value>>)
    ensures r.Failure? <==> strict && exists i :: 0 <= i < |urls| && pull(urls[i]).Unavailable?
    ensures r.Success? ==> |r.value| == |urls|
    ensures r.Success? ==> forall i :: 0 <= i < |urls| ==>
              r.value[i] == (if pull(urls[i]).Fetched? then pull(urls[i]).json else EmptyVocabulary)
    ensures r.Failure? ==> exists i :: (0 <= i < |urls| && r.error == UndefinedProperty(urls[i]) &&
              pull(urls[i]).Unavailable? && forall j :: 0 <= j < i ==> pull(urls[j]).Fetched?)
  {
    if |urls| == 0 then Success([])
    else
      var tail := urls[1..];
      assert forall i :: 0 <= i < |tail| ==> tail[i] == urls[i + 1];
      var d :- PullVocabulary(urls[0], pull, strict);
      var rest :- PullAll(tail, pull, strict);
      Success([d] + rest)
  }

  /**
   `x['@graph'].length > 0` once `x['@graph']` is neither `null` nor `undefined`:
   arrays and strings by their length, an object by a numeric or boolean `length`
   property, anything else is not above zero.
   */
  predicate PositiveLength(g: Value) {
    match g
    case Arr(items) => |items| > 0
    case Str(s) => |s| > 0
    case Obj(fs) =>
      (match Get(fs, "length")
       case Num(n) => n > 0
       case Bool(b) => b
       case _ => false)
    case _ => false
  }

  /** The filter's test on one fetched document (451); reading `.length` of a missing graph throws. */
  function GraphNonEmpty(x: Value): (r: Result<bool>)
    ensures r.Failure? <==> x.Null? || x.Undefined? || Get(OwnProperties(x), "@graph").Null? || Get(OwnProperties(x), "@graph").Undefined?
    ensures r.Success? ==> r.value == PositiveLength(Get(OwnProperties(x), "@graph"))
  {
    var g :- Property(x, "@graph");
    if g.Null? || g.Undefined? then Failure(MalformedVocabulary) else Success(PositiveLength(g))
  }

  /** The positions holding `true`, in increasing order. */
  function TruePositions(flags: seq<bool>): (p: seq<nat>)
    ensures forall j :: 0 <= j < |p| ==> p[j] < |flags|
    ensures forall j, l :: 0 <= j < l < |p| ==> p[j] < p[l]
    ensures forall i :: 0 <= i < |flags| ==> (i in p <==> flags[i])
  {
    if |flags| == 0 then []
    else
      var rest := TruePositions(flags[1..]);
      var shifted := Shift(rest);
      var head: seq<nat> := if flags[0] then [0] else [];
      ShiftFacts(rest, |flags[1..]|);
      ConsFlags(flags, head, shifted, rest);
      head + shifted
  }

  /** Every position moved one place to the right. */
  function Shift(s: seq<nat>): (r: seq<nat>)
    ensures |r| == |s|
    ensures forall j :: 0 <= j < |s| ==> r[j] == s[j] + 1
  {
    seq(|s|, j requires 0 <= j < |s| => s[j] + 1)
  }

  lemma ShiftFacts(s: seq<nat>, n: nat)
    requires forall j :: 0 <= j < |s| ==> s[j] < n
    requires forall j, l :: 0 <= j < l < |s| ==> s[j] < s[l]
    ensures forall j :: 0 <= j < |s| ==> 1 <= Shift(s)[j] < n + 1
    ensures forall j, l :: 0 <= j < l < |s| ==> Shift(s)[j] < Shift(s)[l]
    ensures forall i :: 0 < i ==> (i in Shift(s) <==> i - 1 in s)
  {
    var r := Shift(s);
    forall i | 0 < i ensures i in r <==> i - 1 in s {
      if i in r {
        var j :| 0 <= j < |r| && r[j] == i;
      }
      if i - 1 in s {
        var j :| 0 <= j < |s| && s[j] == i - 1;
        assert r[j] == i;
      }
    }
  }

  /** The positions of a list from its head's own flag and the tail's positions moved by one. */
  lemma ConsFlags(flags: seq<bool>, head: seq<nat>, shifted: seq<nat>, rest: seq<nat>)
    requires |flags| > 0
    requires head == if flags[0] then [0] else []
    requires forall j :: 0 <= j < |shifted| ==> 1 <= shifted[j] < |flags|
    requires forall j, l :: 0 <= j < l < |shifted| ==> shifted[j] < shifted[l]
    requires forall i :: 0 < i ==> (i in shifted <==> i - 1 in rest)
    requires forall i :: 0 <= i < |flags[1..]| ==> (i in rest <==> flags[1..][i])
    ensures var p := head + shifted;
            && (forall j :: 0 <= j < |p| ==> p[j] < |flags|)
            && (forall j, l :: 0 <= j < l < |p| ==> p[j] < p[l])
            && (forall i :: 0 <= i < |flags| ==> (i in p <==> flags[i]))
  {
    var p := head + shifted;
    assert forall j :: 0 <= j < |shifted| ==> p[|head| + j] == shifted[j];
    forall i | 0 <= i < |flags| ensures i in p <==> flags[i] {
      if i > 0 {
        assert flags[1..][i - 1] == flags[i];
      }
    }
  }

  /** Whether the filter at 451 keeps each fetched document. */
  function KeepFlags(docs: seq<Value>): (f: seq<bool>)
    ensures |f| == |docs|
    ensures forall i :: 0 <= i < |docs| ==> f[i] == (GraphNonEmpty(docs[i]) == Success(true))
  {
    seq(|docs|, i requires 0 <= i < |docs| => GraphNonEmpty(docs[i]) == Success(true))
  }

  /** TruePositions of a list headed by `b`: `b`'s own position, then the tail's positions moved by one. */
  lemma TruePositionsCons(flags: seq<bool>)
    requires |flags| > 0
    ensures var p := TruePositions(flags);
            var rest := TruePositions(flags[1..]);
            |p| == (if flags[0] then 1 else 0) + |rest|
            && (flags[0] ==> p[0] == 0)
            && forall j :: 0 <= j < |rest| ==> p[j + (if flags[0] then 1 else 0)] == rest[j] + 1
  {
    var rest := TruePositions(flags[1..]);
    var head: seq<nat> := if flags[0] then [0] else [];
    assert TruePositions(flags) == head + Shift(rest);
  }

  /**
   The filter over the fetched documents (451), which keeps a document when its
   graph's length is above zero: it fails when some document's graph is
   missing; otherwise it keeps exactly the documents whose graph is non-empty,
   in their original order, each once.
   */
  function KeepNonEmpty(docs: seq<Value>): (r: Result<seq<Value>>)
    ensures r.Success? <==> forall i :: 0 <= i < |docs| ==> GraphNonEmpty(docs[i]).Success?
    ensures r.Success? ==> forall x :: x in r.value <==> x in docs && GraphNonEmpty(x) == Success(true)
    ensures r.Success? ==>
              var p := TruePositions(KeepFlags(docs));
              |r.value| == |p| && forall j :: 0 <= j < |p| ==> r.value[j] == docs[p[j]]
  {
    if |docs| == 0 then Success([])
    else
      var tail := docs[1..];
      assert forall i :: 0 <= i < |tail| ==> tail[i] == docs[i + 1];
      assert docs == [docs[0]] + tail;
      var keep :- GraphNonEmpty(docs[0]);
      var rest :- KeepNonEmpty(tail);
      var out := (if keep then [docs[0]] else []) + rest;
      KeepFlagsTail(docs);
      KeepInOrder(docs, KeepFlags(docs), rest);
      KeepMembers(docs[0], keep, tail, rest);
      Success(out)
  }

  /** One step of the filter, by membership. */
  lemma KeepMembers(d: Value, keep: bool, tail: seq<Value>, rest: seq<Value>)
    requires keep == (GraphNonEmpty(d) == Success(true))
    requires forall x :: x in rest <==> x in tail && GraphNonEmpty(x) == Success(true)
    ensures forall x :: x in (if keep then [d] else []) + rest <==>
                          x in [d] + tail && GraphNonEmpty(x) == Success(true)
  {
  }

  /** One step of an order-keeping filter: the head when flagged, then the tail's picks. */
  lemma KeepInOrder<T>(docs: seq<T>, flags: seq<bool>, rest: seq<T>)
    requires 0 < |flags| == |docs|
    requires var q := TruePositions(flags[1..]);
             |rest| == |q| && forall j :: 0 <= j < |q| ==> rest[j] == docs[1..][q[j]]
    ensures var p := TruePositions(flags);
            var out := (if flags[0] then [docs[0]] else []) + rest;
            |out| == |p| && forall j :: 0 <= j < |p| ==> out[j] == docs[p[j]]
  {
    TruePositionsCons(flags);
  }

  lemma KeepFlagsTail(docs: seq<Value>)
    requires |docs| > 0
    ensures KeepFlags(docs)[1..] == KeepFlags(docs[1..])
  {
  }

  /** The loop over one batch of fetched documents (458-472), in order. */
  function MergeAll(agg: Aggregate, docs: seq<Value>): (r: Result<Aggregate>)
    ensures r.Success? ==> r.value.strings == agg.strings
    decreases |docs|
  {
    if |docs| == 0 then Success(agg)
    else
      var next :- Merge(agg, docs[0]);
      MergeAll(next, docs[1..])
  }

  /** A batch of merges extends the aggregate, and keeps a last node last when no document repeats it. */
  lemma {:induction false} MergeAllExtends(agg: Aggregate, docs: seq<Value>, d: string)
    requires WellFormed(agg)
    requires forall x :: x in docs ==> VocabularyIsMap(x)
    requires MergeAll(agg, docs).Success?
    ensures var r := MergeAll(agg, docs).value;
            && WellFormed(r) && Extends(agg, r)
            && (EndsWith(agg.graph, d) && (forall x :: x in docs ==> Omits(x, d)) ==> EndsWith(r.graph, d))
    decreases |docs|
  {
    if |docs| > 0 {
      MergeExtends(agg, docs[0], d);
      var next := Merge(agg, docs[0]).value;
      assert forall x :: x in docs[1..] ==> x in docs;
      MergeAllExtends(next, docs[1..], d);
    }
  }

  /**
   Reference definition: the definition of term `k` in the first of `docs`
   whose `@context` defines it, `undefined` if none does.
   */
  function FirstVocabularyDefinition(docs: seq<Value>, k: string): Value
    decreases |docs|
  {
    if |docs| == 0 then Undefined
    else if Has(ContextTerms(docs[0]), k) then Get(ContextTerms(docs[0]), k)
    else FirstVocabularyDefinition(docs[1..], k)
  }

  /** Reference definition: the node keyed `k` in the first of `docs` whose keyed graph holds one, `undefined` if none does. */
  function FirstVocabularyNode(docs: seq<Value>, k: string): Value
    decreases |docs|
  {
    if |docs| == 0 then Undefined
    else if FetchedNodes(docs[0]).Success? && Has(FetchedNodes(docs[0]).value, k) then Get(FetchedNodes(docs[0]).value, k)
    else FirstVocabularyNode(docs[1..], k)
  }

  /**
   A batch merge leaves a term or node already present as it was; a missing one
   takes its value from the FIRST document of the batch that supplies it, since
   each later merge spreads under what the earlier ones added.
   */
  lemma {:induction false} MergeAllFirstDefinition(agg: Aggregate, docs: seq<Value>, k: string)
    requires WellFormed(agg)
    requires forall x :: x in docs ==> VocabularyIsMap(x)
    requires MergeAll(agg, docs).Success?
    ensures var r := MergeAll(agg, docs).value;
            && Get(r.terms, k) == (if Has(agg.terms, k) then Get(agg.terms, k) else FirstVocabularyDefinition(docs, k))
            && Get(r.graph, k) == (if Has(agg.graph, k) then Get(agg.graph, k) else FirstVocabularyNode(docs, k))
    decreases |docs|
  {
    if |docs| == 0 {
      if !Has(agg.terms, k) {
        GetAbsent(agg.terms, k);
      }
      if !Has(agg.graph, k) {
        GetAbsent(agg.graph, k);
      }
    } else {
      MergePreserves(agg, docs[0]);
      MergeValues(agg, docs[0], k);
      var next := Merge(agg, docs[0]).value;
      assert forall x :: x in docs[1..] ==> x in docs;
      MergeAllFirstDefinition(next, docs[1..], k);
    }
  }

  /** Whether some `@type` entry is not a URL (447), where `url.parse` throws on an entry that is not a string. */
  function AnyNonUrl(items: seq<Value>, isUrl: string -> bool): (r: Result<bool>)
    ensures r == Success(false) <==> forall i :: 0 <= i < |items| ==> items[i].Str? && isUrl(items[i].s)
    ensures r == Success(true) ==>
              exists i :: 0 <= i < |items| && items[i].Str? && !isUrl(items[i].s) && UrlsBefore(items, i, isUrl)
    ensures r.Failure? ==> r.error == NonStringType
    ensures r.Failure? ==> exists i :: 0 <= i < |items| && !items[i].Str? && UrlsBefore(items, i, isUrl)
  {
    if |items| == 0 then Success(false)
    else
      var tail := items[1..];
      assert forall i :: 0 <= i < |tail| ==> tail[i] == items[i + 1];
      if !items[0].Str? then Failure(NonStringType)
      else if !isUrl(items[0].s) then Success(true)
      else AnyNonUrl(tail, isUrl)
  }

  /** Every entry before position `i` is a URL string: `some` has looked at them and gone on. */
  predicate UrlsBefore(items: seq<Value>, i: int, isUrl: string -> bool)
    requires 0 <= i <= |items|
  {
    forall j :: 0 <= j < i ==> items[j].Str? && isUrl(items[j].s)
  }

  /** The texts of string entries. */
  function Texts(items: seq<Value>): (r: seq<string>)
    requires forall i :: 0 <= i < |items| ==> items[i].Str?
    ensures |r| == |items| && forall i :: 0 <= i < |items| ==> r[i] == items[i].s
  {
    seq(|items|, i requires 0 <= i < |items| => items[i].s)
  }

  /** Fetching one vocabulary and merging it (456, 473-484). */
  function MergePulled(agg: Aggregate, url: string, pull: string -> Fetch, strict: bool): (r: Result<Aggregate>)
    ensures r.Success? ==> r.value.strings == agg.strings
  {
    var doc :- PullVocabulary(url, pull, strict);
    Merge(agg, doc)
  }

  /** What one key of the walk does: go on with a new aggregate, or end the walk (`return`). */
  datatype Outcome = Continue(agg: Aggregate) | Stop

  /** A `@type` whose value names something that is not a URL ends the whole walk (447-448, 453-454). */
  predicate Stops(f: Field, isUrl: string -> bool) {
    f.key == "@type" &&
    match f.val
    case Str(s) => !isUrl(s)
    case Arr(items) => AnyNonUrl(items, isUrl) == Success(true)
    case _ => false
  }

  /** One iteration of `collectVocabulary`'s loop (444-485). */
  function Step(f: Field, agg: Aggregate, strict: bool, isUrl: string -> bool, pull: string -> Fetch)
    : (r: Result<Outcome>)
    ensures r == Success(Stop) <==> Stops(f, isUrl)
    ensures f.key != "@type" && !isUrl(f.key) ==> r == Success(Continue(agg))
    ensures r.Success? && r.value.Continue? ==> r.value.agg.strings == agg.strings
  {
    if f.key == "@type" then
      match f.val
      case Arr(items) =>
        var stop :- AnyNonUrl(items, isUrl);
        if stop then Success(Stop)
        else
          var docs :- PullAll(Texts(items), pull, strict);
          var kept :- KeepNonEmpty(docs);
          var next :- MergeAll(agg, kept);
          Success(Continue(next))
      case Str(s) =>
        if !isUrl(s) then Success(Stop)
        else
          var next :- MergePulled(agg, s, pull, strict);
          Success(Continue(next))
      case _ => Failure(NonStringType)
    else if isUrl(f.key) then
      var next :- MergePulled(agg, f.key, pull, strict);
      Success(Continue(next))
    else Success(Continue(agg))
  }

  /** `collectVocabulary(expandedDoc)` over the expanded node's properties, in order (442-487). */
  function Collect(fs: seq<Field>, agg: Aggregate, strict: bool, isUrl: string -> bool, pull: string -> Fetch)
    : (r: Result<Aggregate>)
    ensures r.Success? ==> r.value.strings == agg.strings
    decreases |fs|
  {
    if |fs| == 0 then Success(agg)
    else
      var o :- Step(fs[0], agg, strict, isUrl, pull);
      match o
      case Stop => Success(agg)
      case Continue(next) => Collect(fs[1..], next, strict, isUrl, pull)
  }

  /** What one key of the walk fetches: the documents it merges, or the end of the walk. */
  datatype Walked = Go(docs: seq<Value>) | Halt

  /**
   Reference definition of one key's fetches, without merging: a URL `@type`
   or URL property name gives its one vocabulary, an array `@type` of URLs the
   vocabularies with a non-empty graph, and any other key nothing.
   */
  function StepDocs(f: Field, strict: bool, isUrl: string -> bool, pull: string -> Fetch): (r: Result<Walked>)
    ensures r == Success(Halt) <==> Stops(f, isUrl)
    ensures f.key != "@type" && !isUrl(f.key) ==> r == Success(Go([]))
    ensures f.key != "@type" && isUrl(f.key) ==>
              r == (if PullVocabulary(f.key, pull, strict).Success? then Success(Go([PullVocabulary(f.key, pull, strict).value]))
                    else Failure(UndefinedProperty(f.key)))
  {
    if f.key == "@type" then
      match f.val
      case Arr(items) =>
        var stop :- AnyNonUrl(items, isUrl);
        if stop then Success(Halt)
        else
          var docs :- PullAll(Texts(items), pull, strict);
          var kept :- KeepNonEmpty(docs);
          Success(Go(kept))
      case Str(s) =>
        if !isUrl(s) then Success(Halt)
        else
          var doc :- PullVocabulary(s, pull, strict);
          Success(Go([doc]))
      case _ => Failure(NonStringType)
    else if isUrl(f.key) then
      var doc :- PullVocabulary(f.key, pull, strict);
      Success(Go([doc]))
    else Success(Go([]))
  }

  /** Reference definition of the walk's fetches: every document it merges, in key order, up to the key that ends it. */
  function WalkedDocs(fs: seq<Field>, strict: bool, isUrl: string -> bool, pull: string -> Fetch): (r: Result<seq<Value>>)
    decreases |fs|
  {
    if |fs| == 0 then Success([])
    else
      var w :- StepDocs(fs[0], strict, isUrl, pull);
      match w
      case Halt => Success([])
      case Go(docs) =>
        var rest :- WalkedDocs(fs[1..], strict, isUrl, pull);
        Success(docs + rest)
  }

  /** Merging a batch in two parts is merging it whole: the second part starts from the first part's result. */
  lemma {:induction false} MergeAllConcat(agg: Aggregate, a: seq<Value>, b: seq<Value>)
    ensures MergeAll(agg, a + b) ==
              if MergeAll(agg, a).Success? then MergeAll(MergeAll(agg, a).value, b) else Failure(MergeAll(agg, a).error)
    decreases |a|
  {
    if |a| == 0 {
      assert a + b == b;
    } else {
      assert (a + b)[0] == a[0] && (a + b)[1..] == a[1..] + b;
      var m := Merge(agg, a[0]);
      if m.Success? {
        MergeAllConcat(m.value, a[1..], b);
      }
    }
  }

  /** What a step does with the documents a key fetches: end the walk, or merge them all and go on. */
  function MergeOutcome(agg: Aggregate, w: Walked): (r: Result<Outcome>)
    ensures w.Halt? ==> r == Success(Stop)
    ensures w.Go? ==> (r.Success? <==> MergeAll(agg, w.docs).Success?)
    ensures w.Go? && r.Success? ==> r.value == Continue(MergeAll(agg, w.docs).value)
  {
    match w
    case Halt => Success(Stop)
    case Go(docs) =>
      var m :- MergeAll(agg, docs);
      Success(Continue(m))
  }

  /** A batch of one document is that document's merge. */
  lemma MergeAllSingle(agg: Aggregate, doc: Value)
    ensures MergeAll(agg, [doc]) == Merge(agg, doc)
  {
    assert [doc][1..] == [];
    if Merge(agg, doc).Success? {
      assert MergeAll(agg, [doc]) == MergeAll(Merge(agg, doc).value, []);
    }
  }

  /** One key of the walk merges exactly the documents StepDocs lists, or ends the walk where StepDocs does. */
  lemma StepMergesFetched(f: Field, agg: Aggregate, strict: bool, isUrl: string -> bool, pull: string -> Fetch)
    requires StepDocs(f, strict, isUrl, pull).Success?
    ensures Step(f, agg, strict, isUrl, pull) == MergeOutcome(agg, StepDocs(f, strict, isUrl, pull).value)
  {
    if f.key == "@type" {
      match f.val
      case Arr(items) =>
        if AnyNonUrl(items, isUrl) == Success(false) {
          var docs := PullAll(Texts(items), pull, strict).value;
          var kept := KeepNonEmpty(docs).value;
          assert StepDocs(f, strict, isUrl, pull) == Success(Go(kept));
          var m := MergeAll(agg, kept);
          assert Step(f, agg, strict, isUrl, pull) == if m.Success? then Success(Continue(m.value)) else Failure(m.error);
        }
      case Str(u) =>
        if isUrl(u) {
          MergeAllSingle(agg, PullVocabulary(u, pull, strict).value);
        }
    } else if isUrl(f.key) {
      MergeAllSingle(agg, PullVocabulary(f.key, pull, strict).value);
    } else {
      assert MergeAll(agg, []) == Success(agg);
    }
  }

  /**
   The walk is the batch merge of the documents it fetches: it completes only
   when fetching them does, and then its result is merging them in key order.
   */
  lemma {:induction false} CollectMergesWalked(fs: seq<Field>, agg: Aggregate, strict: bool,
                                               isUrl: string -> bool, pull: string -> Fetch)
    ensures Collect(fs, agg, strict, isUrl, pull).Success? ==> WalkedDocs(fs, strict, isUrl, pull).Success?
    ensures WalkedDocs(fs, strict, isUrl, pull).Success? ==>
              Collect(fs, agg, strict, isUrl, pull) == MergeAll(agg, WalkedDocs(fs, strict, isUrl, pull).value)
    decreases |fs|
  {
    if |fs| > 0 {
      var sd := StepDocs(fs[0], strict, isUrl, pull);
      if sd.Success? {
        StepMergesFetched(fs[0], agg, strict, isUrl, pull);
        match sd.value
        case Halt =>
        case Go(docs) =>
          var m := MergeAll(agg, docs);
          var rest := WalkedDocs(fs[1..], strict, isUrl, pull);
          if m.Success? {
            CollectMergesWalked(fs[1..], m.value, strict, isUrl, pull);
          }
          if rest.Success? {
            MergeAllConcat(agg, docs, rest.value);
          }
      } else {
        StepFailsWithFetch(fs[0], agg, strict, isUrl, pull);
      }
    }
  }

  /** A key whose fetching fails makes its step fail. */
  lemma StepFailsWithFetch(f: Field, agg: Aggregate, strict: bool, isUrl: string -> bool, pull: string -> Fetch)
    requires StepDocs(f, strict, isUrl, pull).Failure?
    ensures Step(f, agg, strict, isUrl, pull).Failure?
  {
  }

  /** Every document the walk fetches is a map, when every vocabulary is. */
  lemma {:induction false} WalkedAreMaps(fs: seq<Field>, strict: bool, isUrl: string -> bool, pull: string -> Fetch)
    requires VocabulariesAreMaps(pull)
    requires WalkedDocs(fs, strict, isUrl, pull).Success?
    ensures forall x :: x in WalkedDocs(fs, strict, isUrl, pull).value ==> VocabularyIsMap(x)
    decreases |fs|
  {
    if |fs| > 0 {
      var f := fs[0];
      EmptyVocabularyFacts("");
      var w := StepDocs(f, strict, isUrl, pull).value;
      if w.Go? {
        WalkedAreMaps(fs[1..], strict, isUrl, pull);
        forall x | x in w.docs ensures VocabularyIsMap(x) {
          if f.key == "@type" && f.val.Arr? {
            PulledAreMaps(Texts(f.val.items), pull, strict, "");
          } else if f.key == "@type" && f.val.Str? {
            assert pull(f.val.s).Fetched? ==> x == pull(f.val.s).json;
          } else {
            assert pull(f.key).Fetched? ==> x == pull(f.key).json;
          }
        }
      }
    }
  }

  /**
   A `@type` that names a non-URL ends the walk: whatever keys follow it, the
   result is that of the walk up to and including it.
   */
  lemma {:induction false} StopIgnoresLaterKeys(fs: seq<Field>, later: seq<Field>, agg: Aggregate,
                                                strict: bool, isUrl: string -> bool, pull: string -> Fetch)
    requires |fs| > 0 && Stops(fs[|fs| - 1], isUrl)
    ensures Collect(fs + later, agg, strict, isUrl, pull) == Collect(fs, agg, strict, isUrl, pull)
    decreases |fs|
  {
    assert (fs + later)[0] == fs[0];
    assert (fs + later)[1..] == fs[1..] + later;
    if |fs| > 1 {
      var o := Step(fs[0], agg, strict, isUrl, pull);
      if o.Success? && o.value.Continue? {
        StopIgnoresLaterKeys(fs[1..], later, o.value.agg, strict, isUrl, pull);
      }
    }
  }

  /** The stand-in for an unavailable vocabulary is a map and contributes no node. */
  lemma EmptyVocabularyFacts(d: string)
    ensures VocabularyIsMap(EmptyVocabulary) && Omits(EmptyVocabulary, d)
  {
    var fs := EmptyVocabulary.fields;
    assert Get(fs, "@graph") == Arr([]);
    assert Get(fs, "@context") == Arr([]);
    assert Reduce([]) == Success([]);
  }

  /** Extending is transitive. */
  lemma ExtendsTransitive(a: Aggregate, b: Aggregate, c: Aggregate)
    requires Extends(a, b) && Extends(b, c)
    ensures Extends(a, c)
  {
  }

  /** Every document of a batch the fetcher produced is a map without a node keyed `d`, when every vocabulary is. */
  lemma PulledAreMaps(urls: seq<string>, pull: string -> Fetch, strict: bool, d: string)
    requires VocabulariesAreMaps(pull)
    requires PullAll(urls, pull, strict).Success?
    ensures forall x :: x in PullAll(urls, pull, strict).value ==> VocabularyIsMap(x)
    ensures NeverFetches(pull, d) ==> forall x :: x in PullAll(urls, pull, strict).value ==> Omits(x, d)
  {
    var docs := PullAll(urls, pull, strict).value;
    EmptyVocabularyFacts(d);
    forall x | x in docs
      ensures VocabularyIsMap(x) && (NeverFetches(pull, d) ==> Omits(x, d))
    {
      var i :| 0 <= i < |docs| && docs[i] == x;
      assert pull(urls[i]).Fetched? ==> x == pull(urls[i]).json;
    }
  }

  /** Fetching and merging one URL extends the aggregate and keeps a last node last when it is never fetched. */
  lemma MergePulledExtends(agg: Aggregate, url: string, pull: string -> Fetch, strict: bool, d: string)
    requires WellFormed(agg) && VocabulariesAreMaps(pull)
    requires MergePulled(agg, url, pull, strict).Success?
    ensures var r := MergePulled(agg, url, pull, strict).value;
            && WellFormed(r) && Extends(agg, r)
            && (EndsWith(agg.graph, d) && NeverFetches(pull, d) ==> EndsWith(r.graph, d))
  {
    EmptyVocabularyFacts(d);
    var doc := PullVocabulary(url, pull, strict).value;
    assert pull(url).Fetched? ==> doc == pull(url).json;
    MergeExtends(agg, doc, d);
  }

  /**
   Fetching and merging one URL merges that URL's vocabulary: an entry already
   present keeps its value, and any other name reads the fetched document's
   `@context` definition or keyed node (the empty stand-in's when unavailable).
   */
  lemma MergePulledValues(agg: Aggregate, url: string, pull: string -> Fetch, strict: bool, k: string)
    requires WellFormed(agg) && VocabulariesAreMaps(pull)
    requires MergePulled(agg, url, pull, strict).Success?
    ensures var r := MergePulled(agg, url, pull, strict).value;
            var doc := if pull(url).Fetched? then pull(url).json else EmptyVocabulary;
            && Get(r.terms, k) == (if Has(agg.terms, k) then Get(agg.terms, k) else Get(ContextTerms(doc), k))
            && Get(r.graph, k) == (if Has(agg.graph, k) then Get(agg.graph, k) else Get(FetchedNodes(doc).value, k))
  {
    EmptyVocabularyFacts(k);
    var doc := PullVocabulary(url, pull, strict).value;
    MergeValues(agg, doc, k);
  }

  /**
   One key of the walk that goes on extends the aggregate, and keeps the node
   last in the graph last when no vocabulary holds a node with its key.
   */
  lemma StepExtends(f: Field, agg: Aggregate, strict: bool, isUrl: string -> bool, pull: string -> Fetch, d: string)
    requires WellFormed(agg) && VocabulariesAreMaps(pull)
    requires Step(f, agg, strict, isUrl, pull).Success? && Step(f, agg, strict, isUrl, pull).value.Continue?
    ensures var r := Step(f, agg, strict, isUrl, pull).value.agg;
            && WellFormed(r) && Extends(agg, r)
            && (EndsWith(agg.graph, d) && NeverFetches(pull, d) ==> EndsWith(r.graph, d))
  {
    if f.key == "@type" {
      match f.val
      case Arr(items) =>
        var urls := Texts(items);
        var docs := PullAll(urls, pull, strict).value;
        var kept := KeepNonEmpty(docs).value;
        PulledAreMaps(urls, pull, strict, d);
        MergeAllExtends(agg, kept, d);
      case Str(s) =>
        MergePulledExtends(agg, s, pull, strict, d);
    } else if isUrl(f.key) {
      MergePulledExtends(agg, f.key, pull, strict, d);
    }
  }

  /**
   The whole walk extends the starting aggregate: the document's own URL strings
   stay as they are, and every term and node already present keeps its value; a
   node last in the graph stays last when no vocabulary holds a node with its key.
   */
  lemma {:induction false} CollectExtends(fs: seq<Field>, agg: Aggregate, strict: bool, isUrl: string -> bool,
                                          pull: string -> Fetch, d: string)
    requires WellFormed(agg) && VocabulariesAreMaps(pull)
    requires Collect(fs, agg, strict, isUrl, pull).Success?
    ensures var r := Collect(fs, agg, strict, isUrl, pull).value;
            && WellFormed(r) && Extends(agg, r)
            && (EndsWith(agg.graph, d) && NeverFetches(pull, d) ==> EndsWith(r.graph, d))
    decreases |fs|
  {
    if |fs| > 0 {
      var o := Step(fs[0], agg, strict, isUrl, pull).value;
      if o.Continue? {
        StepExtends(fs[0], agg, strict, isUrl, pull, d);
        CollectExtends(fs[1..], o.agg, strict, isUrl, pull, d);
        var r := Collect(fs[1..], o.agg, strict, isUrl, pull).value;
        ExtendsTransitive(agg, o.agg, r);
      }
    }
  }

  /** Keys that are neither `@type` nor URLs fetch nothing: the walk over them returns the aggregate unchanged. */
  lemma {:induction false} CollectIgnoresPlainKeys(fs: seq<Field>, agg: Aggregate, strict: bool,
                                                   isUrl: string -> bool, pull: string -> Fetch)
    requires forall i :: 0 <= i < |fs| ==> fs[i].key != "@type" && !isUrl(fs[i].key)
    ensures Collect(fs, agg, strict, isUrl, pull) == Success(agg)
    decreases |fs|
  {
    if |fs| > 0 {
      var tail := fs[1..];
      assert forall i :: 0 <= i < |tail| ==> tail[i] == fs[i + 1];
      CollectIgnoresPlainKeys(tail, agg, strict, isUrl, pull);
    }
  }

  /** The URL strings as the array elements `[...interimContext.strings]`. */
  function StrValues(ss: seq<string>): (r: seq<Value>)
    ensures |r| == |ss| && forall i :: 0 <= i < |ss| ==> r[i] == Str(ss[i])
  {
    seq(|ss|, i requires 0 <= i < |ss| => Str(ss[i]))
  }

  /** The aggregate the walk starts from: the document's own context parts and its keyed nodes (436-440). */
  function Initial(fs: seq<Field>): (r: Result<Aggregate>)
    ensures r.Success? ==> WellFormed(r.value)
    ensures r.Success? ==> r.value.strings == ExtractStringsAndMap(Get(fs, "@context")).strings
    ensures r.Success? ==> r.value.terms == ExtractStringsAndMap(Get(fs, "@context")).terms
  {
    var parts := ExtractStringsAndMap(Get(fs, "@context"));
    var nodes :- InitialNodes(fs);
    var graph :- Reduce(nodes);
    Success(Aggregate(parts.strings, parts.terms, graph))
  }

  /**
   The enriched document (490-493): the context as the URL strings followed by
   the merged map, and the graph's nodes last-first, so the node the graph
   object holds last comes out first.
   */
  function Output(agg: Aggregate): (r: Value)
    ensures r.Obj? && Keys(r.fields) == ["@context", "@graph"]
    ensures var nodes := Get(r.fields, "@graph");
            && nodes.Arr? && |nodes.items| == |agg.graph|
            && forall i :: 0 <= i < |agg.graph| ==> nodes.items[i] == agg.graph[|agg.graph| - 1 - i].val
  {
    Obj([Field("@context", Arr(StrValues(agg.strings) + [Obj(agg.terms)])),
         Field("@graph", Arr(Reverse(Values(agg.graph))))])
  }

  /**
   `includeVocabulary(jsonldDoc, options)` given the expansion of the document
   (371-494): the argument checks, the starting aggregate, the walk over the
   first expanded node's properties, and the enriched document.
   */
  function IncludeVocabulary(doc: Value, expanded: seq<Value>, opts: VocabularyOptions,
                             isUrl: string -> bool, pull: string -> Fetch): (r: Result<Value>)
    ensures doc.Null? || doc.Undefined? ==> r == Failure(ArgumentError(ArgumentProblem.NoDocument))
    ensures CheckArgument(doc).Failure? ==> r.Failure? && r.error.ArgumentError?
    ensures r.Success? ==> CheckArgument(doc).Success? && Initial(doc.fields).Success?
    ensures r.Success? ==> |expanded| > 0 && !(expanded[0].Null? || expanded[0].Undefined?)
  {
    var fs :- CheckArgument(doc);
    var start :- Initial(fs);
    if |expanded| == 0 || expanded[0].Null? || expanded[0].Undefined? then Failure(NoExpandedNode)
    else
      var agg :- Collect(OwnProperties(expanded[0]), start, opts.errorOnUndefinedProperties, isUrl, pull);
      Success(Output(agg))
  }

  /** In a graph object with distinct names, the node under any present key is among the output's nodes. */
  lemma ValuesReverseMember(graph: seq<Field>, k: string)
    requires Distinct(Keys(graph)) && Has(graph, k)
    ensures Get(graph, k) in Reverse(Values(graph))
  {
    var ks := Keys(graph);
    var i :| 0 <= i < |ks| && ks[i] == k;
    GetAt(graph, i);
    assert Reverse(Values(graph))[|graph| - 1 - i] == graph[i].val;
  }

  /**
   The shape of an enriched document built from a starting aggregate's parts:
   exactly a `@context` and a `@graph`, as EnrichedContext and EnrichedGraph
   describe them.
   */
  ghost predicate Enriched(out: Value, strings: seq<string>, terms: seq<Field>, graph: seq<Field>) {
    && out.Obj? && Keys(out.fields) == ["@context", "@graph"]
    && EnrichedContext(Get(out.fields, "@context"), strings, terms)
    && EnrichedGraph(Get(out.fields, "@graph"), graph)
  }

  /** The URL references in order, then one map in which the starting terms keep their definitions. */
  ghost predicate EnrichedContext(ctx: Value, strings: seq<string>, terms: seq<Field>) {
    && ctx.Arr? && |ctx.items| == |strings| + 1
    && (forall i :: 0 <= i < |strings| ==> ctx.items[i] == Str(strings[i]))
    && ctx.items[|strings|].Obj?
    && (forall k :: Has(terms, k) ==> Get(ctx.items[|strings|].fields, k) == Get(terms, k))
  }

  /** Every starting node is among the nodes, and no two nodes share an `@id` key. */
  ghost predicate EnrichedGraph(nodes: Value, graph: seq<Field>) {
    && nodes.Arr?
    && (forall k :: Has(graph, k) ==> Get(graph, k) in nodes.items)
    && (forall i, j :: 0 <= i < |nodes.items| && 0 <= j < |nodes.items| && i != j ==>
          NodeKey(nodes.items[i]).Success? && NodeKey(nodes.items[i]) != NodeKey(nodes.items[j]))
  }

  /** The output built from any well-formed extension of a starting aggregate has the enriched shape. */
  lemma OutputEnriched(start: Aggregate, agg: Aggregate)
    requires WellFormed(agg) && Extends(start, agg)
    ensures Enriched(Output(agg), start.strings, start.terms, start.graph)
  {
    var out := Output(agg);
    assert Get(out.fields, "@context") == out.fields[0].val;
    assert Get(out.fields, "@graph") == out.fields[1].val;
    ContextEnriched(start, agg);
    GraphEnriched(start, agg);
  }

  /** The output's context lists the starting strings and keeps the starting terms. */
  lemma ContextEnriched(start: Aggregate, agg: Aggregate)
    requires Extends(start, agg)
    ensures EnrichedContext(Arr(StrValues(agg.strings) + [Obj(agg.terms)]), start.strings, start.terms)
  {
    var items := StrValues(agg.strings) + [Obj(agg.terms)];
    assert items[|start.strings|] == Obj(agg.terms);
  }

  /** The output's graph holds every starting node, and its nodes are keyed apart. */
  lemma GraphEnriched(start: Aggregate, agg: Aggregate)
    requires WellFormed(agg) && Extends(start, agg)
    ensures EnrichedGraph(Arr(Reverse(Values(agg.graph))), start.graph)
  {
    forall k | Has(start.graph, k)
      ensures Get(start.graph, k) in Reverse(Values(agg.graph))
    {
      ValuesReverseMember(agg.graph, k);
    }
    NodesKeyedApart(agg.graph);
  }

  /** The enriched document has the shape Enriched describes, over the document's own context parts and nodes. */
  lemma IncludeVocabularyShape(doc: Value, expanded: seq<Value>, opts: VocabularyOptions,
                               isUrl: string -> bool, pull: string -> Fetch)
    requires VocabulariesAreMaps(pull)
    requires IncludeVocabulary(doc, expanded, opts, isUrl, pull).Success?
    ensures var parts := ExtractStringsAndMap(Get(doc.fields, "@context"));
            Enriched(IncludeVocabulary(doc, expanded, opts, isUrl, pull).value,
                     parts.strings, parts.terms, Initial(doc.fields).value.graph)
  {
    var start := Initial(doc.fields).value;
    var fs := OwnProperties(expanded[0]);
    var strict := opts.errorOnUndefinedProperties;
    CollectExtends(fs, start, strict, isUrl, pull, "");
    OutputEnriched(start, Collect(fs, start, strict, isUrl, pull).value);
  }

  /**
   Across the whole walk, a term or node already present keeps its value, and a
   missing one takes the value from the FIRST document the walk fetches that
   supplies it.
   */
  lemma CollectFirstDefinition(fs: seq<Field>, agg: Aggregate, strict: bool, isUrl: string -> bool,
                               pull: string -> Fetch, k: string)
    requires WellFormed(agg) && VocabulariesAreMaps(pull)
    requires Collect(fs, agg, strict, isUrl, pull).Success?
    ensures WalkedDocs(fs, strict, isUrl, pull).Success?
    ensures var r := Collect(fs, agg, strict, isUrl, pull).value;
            var docs := WalkedDocs(fs, strict, isUrl, pull).value;
            && Get(r.terms, k) == (if Has(agg.terms, k) then Get(agg.terms, k) else FirstVocabularyDefinition(docs, k))
            && Get(r.graph, k) == (if Has(agg.graph, k) then Get(agg.graph, k) else FirstVocabularyNode(docs, k))
  {
    CollectMergesWalked(fs, agg, strict, isUrl, pull);
    var docs := WalkedDocs(fs, strict, isUrl, pull).value;
    WalkedAreMaps(fs, strict, isUrl, pull);
    MergeAllFirstDefinition(agg, docs, k);
  }

  /**
   Which vocabulary reaches the enriched document: its map reads each term as
   the document's own context defines it, otherwise as the first vocabulary the
   walk fetches that defines it; and the output node keyed `k` is the
   document's own node under that key, otherwise the first fetched one.
   */
  lemma IncludeVocabularyFirstDefinition(doc: Value, expanded: seq<Value>, opts: VocabularyOptions,
                                         isUrl: string -> bool, pull: string -> Fetch, k: string)
    requires VocabulariesAreMaps(pull)
    requires IncludeVocabulary(doc, expanded, opts, isUrl, pull).Success?
    ensures WalkedDocs(OwnProperties(expanded[0]), opts.errorOnUndefinedProperties, isUrl, pull).Success?
    ensures var start := Initial(doc.fields).value;
            var docs := WalkedDocs(OwnProperties(expanded[0]), opts.errorOnUndefinedProperties, isUrl, pull).value;
            var out := IncludeVocabulary(doc, expanded, opts, isUrl, pull).value;
            var ctx := Get(out.fields, "@context");
            var nodes := Get(out.fields, "@graph");
            && ctx.Arr? && |ctx.items| > 0 && ctx.items[|ctx.items| - 1].Obj?
            && Get(ctx.items[|ctx.items| - 1].fields, k) ==
                 (if Has(start.terms, k) then Get(start.terms, k) else FirstVocabularyDefinition(docs, k))
            && nodes.Arr?
            && forall i :: 0 <= i < |nodes.items| && NodeKey(nodes.items[i]) == Success(k) ==>
                 nodes.items[i] == (if Has(start.graph, k) then Get(start.graph, k) else FirstVocabularyNode(docs, k))
  {
    var start := Initial(doc.fields).value;
    var fs := OwnProperties(expanded[0]);
    var strict := opts.errorOnUndefinedProperties;
    var agg := Collect(fs, start, strict, isUrl, pull).value;
    CollectFirstDefinition(fs, start, strict, isUrl, pull, k);
    CollectExtends(fs, start, strict, isUrl, pull, "");
    assert IncludeVocabulary(doc, expanded, opts, isUrl, pull).value == Output(agg);
    OutputReads(agg, k);
  }

  /** The output's map is the aggregate's term map, and its node keyed `k` is the graph's entry under `k`. */
  lemma OutputReads(agg: Aggregate, k: string)
    requires WellFormed(agg)
    ensures var out := Output(agg);
            var ctx := Get(out.fields, "@context");
            var nodes := Get(out.fields, "@graph");
            && ctx.Arr? && |ctx.items| > 0 && ctx.items[|ctx.items| - 1] == Obj(agg.terms)
            && nodes.Arr?
            && forall i :: 0 <= i < |nodes.items| && NodeKey(nodes.items[i]) == Success(k) ==> nodes.items[i] == Get(agg.graph, k)
  {
    var out := Output(agg);
    assert Get(out.fields, "@context") == Arr(StrValues(agg.strings) + [Obj(agg.terms)]);
    var nodes := Get(out.fields, "@graph");
    forall i | 0 <= i < |nodes.items| && NodeKey(nodes.items[i]) == Success(k)
      ensures nodes.items[i] == Get(agg.graph, k)
    {
      var j := |agg.graph| - 1 - i;
      assert agg.graph[j] in agg.graph;
      GetAt(agg.graph, j);
    }
  }

  /** Two different entries of a well-formed graph object hold nodes with different keys. */
  lemma KeyedApartAt(graph: seq<Field>, p: nat, q: nat)
    requires Distinct(Keys(graph)) && KeyedById(graph)
    requires p < |graph| && q < |graph| && p != q
    ensures NodeKey(graph[p].val) == Success(graph[p].key)
    ensures NodeKey(graph[p].val) != NodeKey(graph[q].val)
  {
    assert graph[p] in graph && graph[q] in graph;
    assert Keys(graph)[p] != Keys(graph)[q];
  }

  /** The nodes of a well-formed graph object, in reverse, have pairwise different keys. */
  lemma NodesKeyedApart(graph: seq<Field>)
    requires Distinct(Keys(graph)) && KeyedById(graph)
    ensures var items := Reverse(Values(graph));
            forall i, j :: 0 <= i < |items| && 0 <= j < |items| && i != j ==>
              NodeKey(items[i]).Success? && NodeKey(items[i]) != NodeKey(items[j])
  {
    var items := Reverse(Values(graph));
    var n := |graph|;
    forall i, j | 0 <= i < |items| && 0 <= j < |items| && i != j
      ensures NodeKey(items[i]).Success? && NodeKey(items[i]) != NodeKey(items[j])
    {
      KeyedApartAt(graph, n - 1 - i, n - 1 - j);
    }
  }

  /** Folding a single node that is not `null` or `undefined` gives an object holding just it, under its key. */
  lemma ReduceSingle(node: Value)
    requires !(node.Null? || node.Undefined?)
    ensures Reduce([node]) == Success([Field(NodeKey(node).value, node)])
  {
    var d := NodeKey(node).value;
    PutAppends([], d, node);
    assert [node][1..] == [];
    assert ReduceFrom([Field(d, node)], []) == Success([Field(d, node)]);
  }

  /** A document without a graph of its own starts the graph object as itself, without its `@context`, under its key. */
  lemma InitialSingleNode(fs: seq<Field>)
    requires !Truthy(Get(fs, "@graph"))
    ensures var node := Obj(RemoveContext(fs));
            var d := NodeKey(node).value;
            && Initial(fs).Success? && EndsWith(Initial(fs).value.graph, d)
            && Has(Initial(fs).value.graph, d) && Get(Initial(fs).value.graph, d) == node
  {
    var node := Obj(RemoveContext(fs));
    ReduceSingle(node);
    assert Keys([Field(NodeKey(node).value, node)])[0] == NodeKey(node).value;
  }

  /** The node last in a well-formed final graph is the first node of the output. */
  lemma OutputFirst(agg: Aggregate, d: string)
    requires WellFormed(agg) && EndsWith(agg.graph, d)
    ensures var nodes := Get(Output(agg).fields, "@graph");
            nodes.Arr? && |nodes.items| > 0 && nodes.items[0] == Get(agg.graph, d)
  {
    var last := |agg.graph| - 1;
    GetAt(agg.graph, last);
    assert Get(Output(agg).fields, "@graph") == Arr(Reverse(Values(agg.graph)));
    assert Reverse(Values(agg.graph))[0] == agg.graph[last].val;
  }

  /**
   A document without a graph of its own comes back as the FIRST node of the
   enriched graph, without its `@context`, as long as no vocabulary holds a node
   with its `@id` key.
   */
  lemma DocumentNodeFirst(doc: Value, expanded: seq<Value>, opts: VocabularyOptions,
                          isUrl: string -> bool, pull: string -> Fetch)
    requires doc.Obj? && !Truthy(Get(doc.fields, "@graph"))
    requires VocabulariesAreMaps(pull)
    requires NeverFetches(pull, NodeKey(Obj(RemoveContext(doc.fields))).value)
    requires IncludeVocabulary(doc, expanded, opts, isUrl, pull).Success?
    ensures var nodes := Get(IncludeVocabulary(doc, expanded, opts, isUrl, pull).value.fields, "@graph");
            nodes.Arr? && |nodes.items| > 0 && nodes.items[0] == Obj(RemoveContext(doc.fields))
  {
    var node := Obj(RemoveContext(doc.fields));
    var d := NodeKey(node).value;
    InitialSingleNode(doc.fields);
    var start := Initial(doc.fields).value;
    var fs := OwnProperties(expanded[0]);
    var strict := opts.errorOnUndefinedProperties;
    var r := Collect(fs, start, strict, isUrl, pull).value;
    assert IncludeVocabulary(doc, expanded, opts, isUrl, pull) == Success(Output(r));
    CollectExtends(fs, start, strict, isUrl, pull, d);
    assert Get(r.graph, d) == node;
    OutputFirst(r, d);
  }
}
