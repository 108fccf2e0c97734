/**
 JavaScript values as the library sees them: the JSON shapes plus `undefined`,
 with objects as insertion-ordered association lists. The operations mirror the
 three object idioms the library uses: property read `o[k]` (Get), property
 write `o[k] = v` (Put) and object spread `{...a, ...b}` (Spread).
 */
module JsValues {

  datatype Value =
    | Undefined
    | Null
    | Bool(b: bool)
    | Num(n: int)
    | Str(s: string)
    | Arr(items: seq<Value>)
    | Obj(fields: seq<Field>)

  /** One own property of an object, in insertion order. */
  datatype Field = Field(key: string, val: Value)

  /** JavaScript truthiness: `undefined`, `null`, `false`, `0` and `""` are falsy. */
  predicate Truthy(v: Value) {
    match v
    case Undefined => false
    case Null => false
    case Bool(b) => b
    case Num(n) => n != 0
    case Str(s) => s != ""
    case Arr(_) => true
    case Obj(_) => true
  }

  /** `Object.keys`: the property names in insertion order. */
  function Keys(fs: seq<Field>): (ks: seq<string>)
    ensures |ks| == |fs|
    ensures forall i :: 0 <= i < |fs| ==> ks[i] == fs[i].key
  {
    seq(|fs|, i requires 0 <= i < |fs| => fs[i].key)
  }

  /** `Object.values`: the property values in insertion order. */
  function Values(fs: seq<Field>): (vs: seq<Value>)
    ensures |vs| == |fs|
    ensures forall i :: 0 <= i < |fs| ==> vs[i] == fs[i].val
  {
    seq(|fs|, i requires 0 <= i < |fs| => fs[i].val)
  }

  predicate Distinct(ks: seq<string>) {
    forall i, j :: 0 <= i < j < |ks| ==> ks[i] != ks[j]
  }

  /** `o.hasOwnProperty(k)`. */
  predicate Has(fs: seq<Field>, k: string) {
    k in Keys(fs)
  }

  /** `o[k]`: the value of the first property named `k`, `undefined` when there is none. */
  function Get(fs: seq<Field>, k: string): Value
  {
    if |fs| == 0 then Undefined
    else if fs[0].key == k then fs[0].val
    else Get(fs[1..], k)
  }

  /** The elements of `s` that do not occur in `ex`, in order. */
  function Without(s: seq<string>, ex: seq<string>): seq<string>
  {
    if |s| == 0 then []
    else (if s[0] in ex then [] else [s[0]]) + Without(s[1..], ex)
  }

  /** Without keeps exactly the elements of `s` not in `ex`. */
  lemma {:induction false} WithoutMembers(s: seq<string>, ex: seq<string>, x: string)
    ensures x in Without(s, ex) <==> x in s && x !in ex
    decreases |s|
  {
    if |s| > 0 {
      WithoutMembers(s[1..], ex, x);
      assert s == [s[0]] + s[1..];
    }
  }

  /** The names of a concatenation are the names of its parts. */
  lemma KeysConcat(a: seq<Field>, b: seq<Field>)
    ensures Keys(a + b) == Keys(a) + Keys(b)
  {
  }

  /** `o[k] = v`: an existing property keeps its position, a new one is appended. */
  function Put(fs: seq<Field>, k: string, v: Value): (r: seq<Field>)
    ensures Keys(r) == if Has(fs, k) then Keys(fs) else Keys(fs) + [k]
    ensures Get(r, k) == v
    ensures forall j :: j != k ==> Get(r, j) == Get(fs, j)
  {
    if |fs| == 0 then [Field(k, v)]
    else if fs[0].key == k then
      PutHead(fs, v);
      [Field(k, v)] + fs[1..]
    else
      var rest := Put(fs[1..], k, v);
      PutStep(fs, rest, k, v);
      [fs[0]] + rest
  }

  /** Put on the first property: the value is replaced in place. */
  lemma PutHead(fs: seq<Field>, v: Value)
    requires |fs| > 0
    ensures var k, r := fs[0].key, [Field(fs[0].key, v)] + fs[1..];
            && Has(fs, k) && Keys(r) == Keys(fs) && Get(r, k) == v
            && forall j :: j != k ==> Get(r, j) == Get(fs, j)
  {
    ConsFacts(Field(fs[0].key, v), fs[1..]);
    ConsFacts(fs[0], fs[1..]);
    assert fs == [fs[0]] + fs[1..];
  }

  /** Put past the first property: Put's contract for the tail carries over to the whole object. */
  lemma PutStep(fs: seq<Field>, rest: seq<Field>, k: string, v: Value)
    requires |fs| > 0 && fs[0].key != k
    requires Keys(rest) == if Has(fs[1..], k) then Keys(fs[1..]) else Keys(fs[1..]) + [k]
    requires Get(rest, k) == v
    requires forall j :: j != k ==> Get(rest, j) == Get(fs[1..], j)
    ensures var r := [fs[0]] + rest;
            && Keys(r) == (if Has(fs, k) then Keys(fs) else Keys(fs) + [k])
            && Get(r, k) == v
            && forall j :: j != k ==> Get(r, j) == Get(fs, j)
  {
    PutStepKeys(fs, rest, k);
    ConsGets(fs[0], rest);
    ConsGets(fs[0], fs[1..]);
    assert fs == [fs[0]] + fs[1..];
  }

  /** The names part of PutStep. */
  lemma PutStepKeys(fs: seq<Field>, rest: seq<Field>, k: string)
    requires |fs| > 0 && fs[0].key != k
    requires Keys(rest) == if k in Keys(fs[1..]) then Keys(fs[1..]) else Keys(fs[1..]) + [k]
    ensures Keys([fs[0]] + rest) == if k in Keys(fs) then Keys(fs) else Keys(fs) + [k]
  {
    var h := fs[0];
    KeysCons(fs);
    KeysConcat([h], rest);
    assert Keys([h]) == [h.key];
    ConsKeysStep(h.key, Keys(fs[1..]), Keys(rest), k);
  }

  /** The name-list part of PutStep. */
  lemma ConsKeysStep(h: string, kt: seq<string>, kr: seq<string>, k: string)
    requires h != k
    requires kr == if k in kt then kt else kt + [k]
    ensures [h] + kr == if k in [h] + kt then [h] + kt else ([h] + kt) + [k]
  {
  }

  /** Reading a name on an object with one more property in front. */
  lemma ConsGets(f: Field, rest: seq<Field>)
    ensures forall j :: Get([f] + rest, j) == if f.key == j then f.val else Get(rest, j)
  {
    assert ([f] + rest)[1..] == rest;
  }

  /**
   `{...a, ...b}`: a's properties in order, then b's new ones; on a shared name
   b's value lands in a's position.
   */
  function Spread(a: seq<Field>, b: seq<Field>): (r: seq<Field>)
    ensures |Keys(a)| <= |Keys(r)| && Keys(r)[..|a|] == Keys(a)
    ensures forall k :: Has(r, k) <==> Has(a, k) || Has(b, k)
    decreases |b|
  {
    if |b| == 0 then a
    else
      var a' := Put(a, b[0].key, b[0].val);
      var r := Spread(a', b[1..]);
      KeysCons(b);
      PrefixStep(Keys(r), Keys(a'), Keys(a), b[0].key);
      r
  }

  /** The name-list step of Spread: a's names stay a prefix through one Put and the rest of the spread. */
  lemma PrefixStep(kr: seq<string>, ka': seq<string>, ka: seq<string>, x: string)
    requires ka' == if x in ka then ka else ka + [x]
    requires |ka'| <= |kr| && kr[..|ka'|] == ka'
    ensures |ka| <= |kr| && kr[..|ka|] == ka
    ensures forall k :: k in ka' <==> k in ka || k == x
  {
    assert ka'[..|ka|] == ka;
    assert kr[..|ka|] == ka'[..|ka|];
  }

  /** Spreading into an object with distinct names keeps the names distinct. */
  lemma {:induction false} SpreadDistinct(a: seq<Field>, b: seq<Field>)
    requires Distinct(Keys(a))
    ensures Distinct(Keys(Spread(a, b)))
    decreases |b|
  {
    if |b| > 0 {
      var a' := Put(a, b[0].key, b[0].val);
      if !Has(a, b[0].key) {
        assert Keys(a') == Keys(a) + [b[0].key];
      }
      SpreadDistinct(a', b[1..]);
    }
  }

  /** The right operand wins on a shared name; other names read through to the left one. */
  lemma {:induction false} SpreadGet(a: seq<Field>, b: seq<Field>, k: string)
    requires Distinct(Keys(b))
    ensures Get(Spread(a, b), k) == if Has(b, k) then Get(b, k) else Get(a, k)
    decreases |b|
  {
    if |b| > 0 {
      var a' := Put(a, b[0].key, b[0].val);
      assert Keys(b) == [b[0].key] + Keys(b[1..]);
      assert Distinct(Keys(b[1..]));
      SpreadGet(a', b[1..], k);
      if k == b[0].key {
        assert !Has(b[1..], k);
      }
    }
  }

  /** The result's names are a's names, then b's names that a lacks, in b's order. */
  lemma {:induction false} SpreadKeys(a: seq<Field>, b: seq<Field>)
    requires Distinct(Keys(b))
    ensures Keys(Spread(a, b)) == Keys(a) + Without(Keys(b), Keys(a))
    decreases |b|
  {
    if |b| > 0 {
      var x := b[0].key;
      var a' := Put(a, x, b[0].val);
      KeysCons(b);
      SpreadKeys(a', b[1..]);
      SpreadKeysStep(Keys(Spread(a', b[1..])), Keys(a), Keys(a'), Keys(b[1..]), Keys(b), x);
    }
  }

  /** The list step of SpreadKeys, over plain name lists. */
  lemma SpreadKeysStep(kr: seq<string>, ka: seq<string>, ka': seq<string>, kb: seq<string>, kbs: seq<string>, x: string)
    requires kbs == [x] + kb && x !in kb
    requires ka' == if x in ka then ka else ka + [x]
    requires kr == ka' + Without(kb, ka')
    ensures kr == ka + Without(kbs, ka)
  {
    if x in ka {
      WithoutCons(x, kb, ka);
    } else {
      AppendStep(kr, ka, kb, kbs, x);
    }
  }

  /** The names of a non-empty object, head and tail; distinct names leave the tail distinct and without the head's name. */
  lemma KeysCons(b: seq<Field>)
    requires |b| > 0
    ensures Keys(b) == [b[0].key] + Keys(b[1..])
    ensures Distinct(Keys(b)) ==> Distinct(Keys(b[1..])) && b[0].key !in Keys(b[1..])
  {
    ConsFacts(b[0], b[1..]);
    assert b == [b[0]] + b[1..];
    if Distinct(Keys(b)) {
      DistinctTail(Keys(b));
    }
  }

  /** The list step of SpreadKeys for a name the left operand lacks, over plain name lists. */
  lemma AppendStep(kr: seq<string>, ka: seq<string>, kb: seq<string>, kbs: seq<string>, x: string)
    requires x !in ka && x !in kb
    requires kbs == [x] + kb
    requires kr == (ka + [x]) + Without(kb, ka + [x])
    ensures kr == ka + Without(kbs, ka)
  {
    WithoutExtend(kb, ka, x);
    WithoutCons(x, kb, ka);
    assert (ka + [x]) + Without(kb, ka) == ka + ([x] + Without(kb, ka));
  }

  /** The tail of a list of distinct names is distinct and lacks the head. */
  lemma DistinctTail(ks: seq<string>)
    requires Distinct(ks) && |ks| > 0
    ensures Distinct(ks[1..]) && ks[0] !in ks[1..]
  {
  }

  /** Without, one element at a time from the front. */
  lemma WithoutCons(x: string, s: seq<string>, ex: seq<string>)
    ensures Without([x] + s, ex) == (if x in ex then [] else [x]) + Without(s, ex)
  {
    assert ([x] + s)[1..] == s;
  }

  lemma {:induction false} WithoutExtend(s: seq<string>, ex: seq<string>, x: string)
    requires x !in s
    ensures Without(s, ex + [x]) == Without(s, ex)
    decreases |s|
  {
    if |s| > 0 {
      WithoutExtend(s[1..], ex, x);
    }
  }

  /** Reading and testing a name on an object with one more property in front. */
  lemma ConsFacts(f: Field, rest: seq<Field>)
    ensures Keys([f] + rest) == [f.key] + Keys(rest)
    ensures forall j :: Get([f] + rest, j) == if f.key == j then f.val else Get(rest, j)
    ensures forall j :: Has([f] + rest, j) <==> f.key == j || Has(rest, j)
  {
    KeysConcat([f], rest);
    assert Keys([f]) == [f.key];
    assert ([f] + rest)[1..] == rest;
  }

  /** The `...rest` of `const {[k]: _, ...rest} = o`: every property except `k`. */
  function Remove(fs: seq<Field>, k: string): (r: seq<Field>)
    ensures Keys(r) == Without(Keys(fs), [k])
    ensures !Has(r, k)
    ensures forall j :: j != k ==> Get(r, j) == Get(fs, j)
    ensures forall j :: j != k ==> (Has(r, j) <==> Has(fs, j))
  {
    if |fs| == 0 then []
    else
      var tail := fs[1..];
      assert fs == [fs[0]] + tail;
      ConsFacts(fs[0], tail);
      WithoutCons(fs[0].key, Keys(tail), [k]);
      var rest := Remove(tail, k);
      if fs[0].key == k then rest
      else
        ConsFacts(fs[0], rest);
        [fs[0]] + rest
  }

  /** In an object with distinct names, reading a property's name yields its value. */
  lemma {:induction false} GetAt(fs: seq<Field>, i: nat)
    requires Distinct(Keys(fs))
    requires i < |fs|
    ensures Get(fs, fs[i].key) == fs[i].val
    decreases i
  {
    if i > 0 {
      assert fs[0].key != fs[i].key;
      assert fs[1..][i - 1] == fs[i];
      assert Keys(fs[1..]) == Keys(fs)[1..];
      GetAt(fs[1..], i - 1);
    }
  }

  /** Reading from a concatenation reads the first part that has the name. */
  lemma {:induction false} GetConcat(a: seq<Field>, b: seq<Field>, k: string)
    ensures Has(a + b, k) <==> Has(a, k) || Has(b, k)
    ensures Get(a + b, k) == if Has(a, k) then Get(a, k) else Get(b, k)
    decreases |a|
  {
    assert Keys(a + b) == Keys(a) + Keys(b);
    if |a| > 0 {
      assert (a + b)[1..] == a[1..] + b;
      assert Keys(a) == [a[0].key] + Keys(a[1..]);
      GetConcat(a[1..], b, k);
      assert (a + b)[0] == a[0];
    } else {
      assert a + b == b;
    }
  }

  /** A name that does not occur reads as `undefined`. */
  lemma {:induction false} GetAbsent(fs: seq<Field>, k: string)
    requires !Has(fs, k)
    ensures Get(fs, k) == Undefined
    decreases |fs|
  {
    if |fs| > 0 {
      assert Keys(fs) == [fs[0].key] + Keys(fs[1..]);
      GetAbsent(fs[1..], k);
    }
  }

  /** Writing the value a property already holds changes nothing. */
  lemma {:induction false} PutSame(fs: seq<Field>, k: string)
    requires Has(fs, k)
    ensures Put(fs, k, Get(fs, k)) == fs
    decreases |fs|
  {
    var v := Get(fs, k);
    if fs[0].key == k {
      assert Put(fs, k, v) == [Field(k, v)] + fs[1..];
      assert Field(k, v) == fs[0];
    } else {
      KeysCons(fs);
      assert v == Get(fs[1..], k);
      PutSame(fs[1..], k);
      assert Put(fs, k, v) == [fs[0]] + Put(fs[1..], k, v);
    }
    assert fs == [fs[0]] + fs[1..];
  }

  /**
   The property names after writing `names` one by one into an object whose
   names are `ks`: a name already present keeps its place, a new one is
   appended.
   */
  function AddNames(ks: seq<string>, names: seq<string>): (r: seq<string>)
    ensures |ks| <= |r| && r[..|ks|] == ks
    ensures forall x :: x in r <==> x in ks || x in names
    ensures Distinct(ks) ==> Distinct(r)
    decreases |names|
  {
    if |names| == 0 then ks
    else if names[0] in ks then AddNames(ks, names[1..])
    else
      var next := ks + [names[0]];
      assert next[..|ks|] == ks;
      var r := AddNames(next, names[1..]);
      assert r[..|ks|] == r[..|next|][..|ks|];
      r
  }

  /** Writing names in two batches is writing them in one. */
  lemma {:induction false} AddNamesConcat(ks: seq<string>, a: seq<string>, b: seq<string>)
    ensures AddNames(ks, a + b) == AddNames(AddNames(ks, a), b)
    decreases |a|
  {
    if |a| == 0 {
      assert a + b == b;
    } else {
      assert (a + b)[0] == a[0] && (a + b)[1..] == a[1..] + b;
      var next := if a[0] in ks then ks else ks + [a[0]];
      AddNamesConcat(next, a[1..], b);
    }
  }

  /** `o[k] = v` adds the name `k` to the object's names as AddNames does. */
  lemma PutNames(fs: seq<Field>, k: string, v: Value)
    ensures Keys(Put(fs, k, v)) == AddNames(Keys(fs), [k])
  {
    assert [k][1..] == [];
  }

  /** Every property of `Put(fs, k, v)` is one of fs's or the written one. */
  lemma {:induction false} PutFrom(fs: seq<Field>, k: string, v: Value)
    ensures forall f :: f in Put(fs, k, v) ==> f in fs || f == Field(k, v)
    decreases |fs|
  {
    if |fs| > 0 && fs[0].key != k {
      PutFrom(fs[1..], k, v);
      assert Put(fs, k, v) == [fs[0]] + Put(fs[1..], k, v);
    }
  }

  /** Every property of `{...a, ...b}` is a property of a or of b. */
  lemma {:induction false} SpreadFrom(a: seq<Field>, b: seq<Field>)
    ensures forall f :: f in Spread(a, b) ==> f in a || f in b
    decreases |b|
  {
    if |b| > 0 {
      var a' := Put(a, b[0].key, b[0].val);
      PutFrom(a, b[0].key, b[0].val);
      SpreadFrom(a', b[1..]);
      assert b == [b[0]] + b[1..];
    }
  }

  /** Writing a new name appends it. */
  lemma {:induction false} PutAppends(fs: seq<Field>, k: string, v: Value)
    requires !Has(fs, k)
    ensures Put(fs, k, v) == fs + [Field(k, v)]
    decreases |fs|
  {
    if |fs| > 0 {
      assert Keys(fs) == [fs[0].key] + Keys(fs[1..]);
      PutAppends(fs[1..], k, v);
      assert fs == [fs[0]] + fs[1..];
    }
  }

  lemma SnocConcat<T>(x: seq<T>, y: T, z: seq<T>)
    ensures (x + [y]) + z == x + ([y] + z)
  {
  }

  /** Spreading properties whose names are all new appends them in order. */
  lemma {:induction false} SpreadAppends(a: seq<Field>, b: seq<Field>)
    requires Distinct(Keys(b))
    requires forall x :: Has(b, x) ==> !Has(a, x)
    ensures Spread(a, b) == a + b
    decreases |b|
  {
    if |b| > 0 {
      var tail := b[1..];
      assert b == [b[0]] + tail;
      ConsFacts(b[0], tail);
      DistinctTail(Keys(b));
      PutAppends(a, b[0].key, b[0].val);
      var a' := a + [b[0]];
      forall x | Has(tail, x) ensures !Has(a', x) {
        GetConcat(a, [b[0]], x);
        ConsFacts(b[0], []);
        assert [b[0]] + [] == [b[0]];
      }
      assert Spread(a, b) == Spread(a', tail);
      SpreadAppends(a', tail);
      SnocConcat(a, b[0], tail);
    }
  }

  /** The last element of a list survives Without when it is not excluded. */
  lemma {:induction false} WithoutKeepsLast(s: seq<string>, ex: seq<string>)
    requires |s| > 0 && s[|s| - 1] !in ex
    ensures |Without(s, ex)| > 0 && Without(s, ex)[|Without(s, ex)| - 1] == s[|s| - 1]
    decreases |s|
  {
    if |s| > 1 {
      WithoutKeepsLast(s[1..], ex);
    }
  }

  /** The decimal digits of a natural number, as `String(n)` writes them. */
  function NatToString(n: nat): (r: string)
    ensures |r| > 0
    ensures |r| == 1 <==> n < 10
    ensures forall i :: 0 <= i < |r| ==> '0' <= r[i] <= '9'
  {
    var d := [(n % 10) as char + '0' as char];
    if n < 10 then d else NatToString(n / 10) + d
  }

  /** `String(n)` for an integer. */
  function IntToString(n: int): string
  {
    if n < 0 then "-" + NatToString(-n) else NatToString(n)
  }

  /**
   `String(v)`, the conversion a computed property name `{[v]: ...}` applies: an
   array joins its elements with commas, writing `null` and `undefined` elements
   as empty text; every plain object reads `[object Object]`.
   */
  function PropertyKey(v: Value): string
    decreases v
  {
    match v
    case Undefined => "undefined"
    case Null => "null"
    case Bool(b) => if b then "true" else "false"
    case Num(n) => IntToString(n)
    case Str(s) => s
    case Arr(items) => JoinKeys(items)
    case Obj(_) => "[object Object]"
  }

  /** `items.join(",")`. */
  function JoinKeys(items: seq<Value>): string
    decreases items
  {
    if |items| == 0 then ""
    else
      var head := if items[0].Undefined? || items[0].Null? then "" else PropertyKey(items[0]);
      if |items| == 1 then head else head + "," + JoinKeys(items[1..])
  }

  /**
   The own enumerable properties `{...v}` copies: an object's properties, a
   string's characters and an array's elements under their indices, and nothing
   for the other values.
   */
  function OwnProperties(v: Value): (r: seq<Field>)
    ensures v.Obj? ==> r == v.fields
    ensures !(v.Obj? || v.Str? || v.Arr?) ==> r == []
    ensures forall i :: 0 <= i < |r| ==> r[i].key == (if v.Obj? then v.fields[i].key else NatToString(i))
  {
    match v
    case Obj(fs) => fs
    case Str(s) => seq(|s|, i requires 0 <= i < |s| => Field(NatToString(i), Str([s[i]])))
    case Arr(items) => seq(|items|, i requires 0 <= i < |items| => Field(NatToString(i), items[i]))
    case _ => []
  }

  /** Different numbers are written differently, so array and string indices are distinct names. */
  lemma {:induction false} NatToStringInjective(a: nat, b: nat)
    requires NatToString(a) == NatToString(b)
    ensures a == b
    decreases a
  {
    var ra, rb := NatToString(a), NatToString(b);
    assert ra[|ra| - 1] == rb[|rb| - 1];
    assert (a % 10) as char + '0' as char == (b % 10) as char + '0' as char;
    if a >= 10 {
      assert ra[..|ra| - 1] == NatToString(a / 10);
      assert rb[..|rb| - 1] == NatToString(b / 10);
      NatToStringInjective(a / 10, b / 10);
    }
  }

  /** A value whose own properties, if it is an object, have distinct names (true of everything JSON parsing yields). */
  predicate ValueIsMap(v: Value) {
    v.Obj? ==> Distinct(Keys(v.fields))
  }

  /** `{...v}` never repeats a name. */
  lemma OwnPropertiesDistinct(v: Value)
    requires ValueIsMap(v)
    ensures Distinct(Keys(OwnProperties(v)))
  {
    var r := OwnProperties(v);
    if !v.Obj? {
      forall i, j | 0 <= i < j < |r| ensures Keys(r)[i] != Keys(r)[j] {
        if Keys(r)[i] == Keys(r)[j] {
          NatToStringInjective(i, j);
        }
      }
    }
  }

  function Reverse<T>(s: seq<T>): (r: seq<T>)
    ensures |r| == |s|
    ensures forall i :: 0 <= i < |s| ==> r[i] == s[|s| - 1 - i]
  {
    if |s| == 0 then [] else Reverse(s[1..]) + [s[0]]
  }
}
