/** The JavaScript values that packuments (parsed JSON documents) are made of,
    with the few built-in operations the gateway applies to them. */
module Json {
  import opened Wrappers

  /** A JavaScript value as found in a parsed JSON document; `Undefined` is
      what reading a missing property yields. Numbers are integers here. */
  datatype Value =
    | Undefined
    | Null
    | Bool(b: bool)
    | Number(n: int)
    | Str(s: string)
    | Array(items: seq<Value>)
    | Object(fields: map<string, Value>)

  /** A plain JavaScript object: property name to value. */
  type Obj = map<string, Value>

  /** Property read `o[key]`: `undefined` when the property is absent. */
  function Get(o: Obj, key: string): (v: Value)
    ensures key !in o ==> v == Undefined
    ensures key in o ==> v == o[key]
  {
    if key in o then o[key] else Undefined
  }

  /** ToBoolean: the values a JavaScript conditional treats as true. */
  predicate Truthy(v: Value) {
    match v
    case Undefined => false
    case Null => false
    case Bool(b) => b
    case Number(n) => n != 0
    case Str(s) => s != []
    case Array(_) => true
    case Object(_) => true
  }

  /** The decimal digits of a natural number, as ToString writes them. */
  function Decimal(n: nat): (r: string)
    ensures |r| > 0
    ensures n >= 10 ==> |r| >= 2
    decreases n
  {
    var digit := "0123456789"[n % 10];
    if n < 10 then [digit] else Decimal(n / 10) + [digit]
  }

  /** Different numbers are written differently, so array indices name
      distinct properties. */
  lemma {:induction false} DecimalInjective(n: nat, m: nat)
    requires Decimal(n) == Decimal(m)
    ensures n == m
    decreases n
  {
    var digits := "0123456789";
    var a, b := Decimal(n), Decimal(m);
    assert digits[n % 10] == a[|a| - 1] == b[|b| - 1] == digits[m % 10];
    assert n % 10 == m % 10;
    if n >= 10 && m >= 10 {
      assert Decimal(n / 10) == a[..|a| - 1] == b[..|b| - 1] == Decimal(m / 10);
      DecimalInjective(n / 10, m / 10);
    }
  }

  /** An array's elements under their indices. */
  function ElementProperties(items: seq<Value>): Obj
    decreases |items|
  {
    if items == [] then map[]
    else ElementProperties(items[..|items| - 1])[Decimal(|items| - 1) := items[|items| - 1]]
  }

  /** A string's characters, each a one-character string, under their
      indices. */
  function CharProperties(s: string): Obj
    decreases |s|
  {
    if s == [] then map[]
    else CharProperties(s[..|s| - 1])[Decimal(|s| - 1) := Str([s[|s| - 1]])]
  }

  /** The own enumerable properties that `Object.assign` copies out of a
      source value and `Object.keys` lists: an object's fields; a string's
      characters and an array's elements under their indices; nothing from
      `undefined`, `null`, booleans and numbers. */
  function OwnProperties(v: Value): Obj {
    match v
    case Object(fields) => fields
    case Str(s) => CharProperties(s)
    case Array(items) => ElementProperties(items)
    case _ => map[]
  }

  /** Index `i` of an array holds its element. */
  lemma {:induction false} ElementAt(items: seq<Value>, i: nat)
    requires i < |items|
    ensures Decimal(i) in ElementProperties(items) && ElementProperties(items)[Decimal(i)] == items[i]
    decreases |items|
  {
    var n := |items| - 1;
    if i < n {
      ElementAt(items[..n], i);
      if Decimal(i) == Decimal(n) {
        DecimalInjective(i, n);
      }
    }
  }

  /** An array has no property but its indices. */
  lemma {:induction false} ElementKeys(items: seq<Value>, name: string)
    requires name in ElementProperties(items)
    ensures exists i :: 0 <= i < |items| && name == Decimal(i)
    decreases |items|
  {
    var n := |items| - 1;
    if name != Decimal(n) {
      ElementKeys(items[..n], name);
    }
  }

  /** Index `i` of a string holds its character. */
  lemma {:induction false} CharAt(s: string, i: nat)
    requires i < |s|
    ensures Decimal(i) in CharProperties(s) && CharProperties(s)[Decimal(i)] == Str([s[i]])
    decreases |s|
  {
    var n := |s| - 1;
    if i < n {
      CharAt(s[..n], i);
      if Decimal(i) == Decimal(n) {
        DecimalInjective(i, n);
      }
    }
  }

  /** A string has no property but its indices. */
  lemma {:induction false} CharKeys(s: string, name: string)
    requires name in CharProperties(s)
    ensures exists i :: 0 <= i < |s| && name == Decimal(i)
    decreases |s|
  {
    var n := |s| - 1;
    if name != Decimal(n) {
      CharKeys(s[..n], name);
    }
  }

  /** The one property name that an ordinary property write does not
      create as an own property: on a plain object, writing `__proto__`
      calls the setter inherited from `Object.prototype`, which at most
      replaces the object's prototype. */
  const ProtoKey: string := "__proto__"

  /** `Object.assign({}, a, b)`: the own properties of `a` and then of `b`
      are written one by one onto a fresh object, so those of `b` win, and
      a `__proto__` property reaches the prototype setter instead of
      becoming an own property. (This is exact when `a` has no own
      `__proto__`, as for the merge, whose `a` is always a result of this
      function or `undefined`.) */
  function Assign(a: Value, b: Value): (r: Value)
    ensures r.Object?
    ensures r.fields.Keys == (OwnProperties(a).Keys + OwnProperties(b).Keys) - {ProtoKey}
    ensures forall k :: k in OwnProperties(b) && k != ProtoKey ==> r.fields[k] == OwnProperties(b)[k]
    ensures forall k :: k in OwnProperties(a) && k !in OwnProperties(b) && k != ProtoKey ==>
      r.fields[k] == OwnProperties(a)[k]
  {
    Object((OwnProperties(a) + OwnProperties(b)) - {ProtoKey})
  }

  /** `Object.assign({}, undefined, {"__proto__": {}})` is `{}`. */
  lemma AssignDropsProto()
    ensures Assign(Undefined, Object(map[ProtoKey := Object(map[])])) == Object(map[])
  {
    assert (map[] + map[ProtoKey := Object(map[])]) - {ProtoKey} == map[];
  }

  /** `Object.assign({}, undefined, "Bob")` is {0: "B", 1: "o", 2: "b"}. */
  lemma AssignString()
    ensures Assign(Undefined, Str("Bob")) == Object(map["0" := Str("B"), "1" := Str("o"), "2" := Str("b")])
  {
    assert Decimal(0) == "0" && Decimal(1) == "1" && Decimal(2) == "2";
    assert "Bob"[..2] == "Bo" && "Bo"[..1] == "B" && "B"[..0] == [];
    calc {
      CharProperties("Bob");
      CharProperties("Bo")["2" := Str("b")];
      CharProperties("B")["1" := Str("o")]["2" := Str("b")];
      CharProperties([])["0" := Str("B")]["1" := Str("o")]["2" := Str("b")];
      map["0" := Str("B"), "1" := Str("o"), "2" := Str("b")];
    }
    assert map[] + CharProperties("Bob") == CharProperties("Bob");
  }

  /** `Object.keys(v)`: `None` where JavaScript throws a TypeError
      (`undefined` and `null`); otherwise the own property names. */
  function Keys(v: Value): (r: Option<set<string>>)
    ensures r.None? <==> v.Undefined? || v.Null?
    ensures r.Some? ==> r.value == OwnProperties(v).Keys
  {
    match v
    case Undefined => None
    case Null => None
    case _ => Some(OwnProperties(v).Keys)
  }

  /** `Object.keys(packument.versions)`: `None` where that throws, because
      the document has no `versions` object (or is `null` itself). */
  function VersionsOf(packument: Value): (r: Option<set<string>>)
    ensures var versions := Get(OwnProperties(packument), "versions");
      r.None? <==> versions.Undefined? || versions.Null?
  {
    Keys(Get(OwnProperties(packument), "versions"))
  }
}
