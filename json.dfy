// JSON values as the config services and the mobile translation tables hold
// them. Numbers are integers. Member is property access on objects only;
// Index also reads strings and arrays, as `value[k]` does.
module Json {
  import opened Wrappers
  import opened Strings

  datatype Json =
    | Null
    | Bool(b: bool)
    | Num(n: int)
    | Str(s: string)
    | Arr(items: seq<Json>)
    | Obj(fields: map<string, Json>)

  /** `value[k]`, with None for undefined: a missing key or a non-object. */
  function Member(value: Option<Json>, k: string): (r: Option<Json>)
    ensures r.Some? <==> value.Some? && value.value.Obj? && k in value.value.fields
    ensures r.Some? ==> r.value == value.value.fields[k]
  {
    if value.Some? && value.value.Obj? && k in value.value.fields then Some(value.value.fields[k]) else None
  }

  /** The array index a property key names: the n whose String(n) the key is. */
  function ArrayIndex(k: string): (r: Option<nat>)
    ensures r.Some? ==> NatToString(r.value) == k
  {
    if k != [] && AllDigits(k) && NatToString(DecimalValue(k)) == k then Some(DecimalValue(k)) else None
  }

  /** Every decimal numeral that String(n) writes names the index n. */
  lemma ArrayIndexOf(n: nat)
    ensures ArrayIndex(NatToString(n)) == Some(n)
  {
    DecimalValueNatToString(n);
  }

  /**
   * `value[k]` on a value that is not null, with None for undefined: an
   * object's own property, a string's character or an array's element at
   * an index below its length, or either's `length`.
   */
  function Index(value: Option<Json>, k: string): (r: Option<Json>)
    ensures value.Some? && value.value.Obj? ==> r == Member(value, k)
    ensures r.Some? ==> value.Some? && (value.value.Obj? || value.value.Str? || value.value.Arr?)
  {
    if value.None? then None
    else match value.value
      case Obj(fields) => if k in fields then Some(fields[k]) else None
      case Str(s) =>
        if k == "length" then Some(Num(|s|))
        else if ArrayIndex(k).Some? && ArrayIndex(k).value < |s| then Some(Str([s[ArrayIndex(k).value]]))
        else None
      case Arr(items) =>
        if k == "length" then Some(Num(|items|))
        else if ArrayIndex(k).Some? && ArrayIndex(k).value < |items| then Some(items[ArrayIndex(k).value])
        else None
      case _ => None
  }

  /** A string indexed by a position below its length gives the one-character string there. */
  lemma IndexString(s: string, n: nat)
    requires n < |s|
    ensures Index(Some(Str(s)), NatToString(n)) == Some(Str([s[n]]))
  {
    ArrayIndexOf(n);
    assert NatToString(n) != "length" by {
      assert AllDigits(NatToString(n));
      assert !IsDigit("length"[0]);
    }
  }

  /** An array indexed by a position below its length gives the element there; `length` gives its length. */
  lemma IndexArray(items: seq<Json>, n: nat)
    requires n < |items|
    ensures Index(Some(Arr(items)), NatToString(n)) == Some(items[n])
    ensures Index(Some(Arr(items)), "length") == Some(Num(|items|))
  {
    ArrayIndexOf(n);
    assert NatToString(n) != "length" by {
      assert AllDigits(NatToString(n));
      assert !IsDigit("length"[0]);
    }
  }

  /** An object nesting `leaf` under the path `keys`. */
  function Nest(keys: seq<string>, leaf: Json): Json
  {
    if keys == [] then leaf else Obj(map[keys[0] := Nest(keys[1..], leaf)])
  }

  /** A property chain `value[k1][k2]...`: undefined from the first step that has no such property. */
  function Lookup(value: Option<Json>, keys: seq<string>): Option<Json>
    decreases |keys|
  {
    if keys == [] then value else Lookup(Member(value, keys[0]), keys[1..])
  }

  lemma {:induction false} LookupUndefined(keys: seq<string>)
    ensures Lookup(None, keys) == None
    decreases |keys|
  {
    if keys != [] {
      LookupUndefined(keys[1..]);
    }
  }

  /** The value a property path reaches in an object. */
  function At(obj: map<string, Json>, path: seq<string>): Option<Json>
  {
    Lookup(Some(Obj(obj)), path)
  }

  lemma AtOne(m: map<string, Json>, k: string)
    ensures At(m, [k]) == if k in m then Some(m[k]) else None
  {
    assert [k][1..] == [];
    assert At(m, [k]) == Lookup(Member(Some(Obj(m)), k), []);
  }

  /** One step into an object's property that holds an object. */
  lemma AtChild(m: map<string, Json>, k: string, f: map<string, Json>, q: seq<string>)
    requires k in m && m[k] == Obj(f)
    ensures At(m, [k] + q) == At(f, q)
  {
    assert ([k] + q)[1..] == q;
  }

  /** A path that leaves the object at its first step, or passes through a non-object, reaches nothing. */
  lemma AtOutside(m: map<string, Json>, p: seq<string>)
    requires |p| >= 2
    requires p[0] !in m || !m[p[0]].Obj?
    ensures At(m, p) == None
  {
    var first := Member(Some(Obj(m)), p[0]);
    assert At(m, p) == Lookup(first, p[1..]);
    assert p[1..][1..] == p[2..];
    assert Lookup(first, p[1..]) == Lookup(Member(first, p[1]), p[2..]);
    LookupUndefined(p[2..]);
  }

  /** A path whose first property differs from `k` sees the same values after `m[k]` is replaced. */
  lemma AtOtherKey(m: map<string, Json>, k: string, x: Json, p: seq<string>)
    requires p != [] && p[0] != k
    ensures At(m[k := x], p) == At(m, p)
  {
  }

  /** Nest's path reaches the nested leaf. */
  lemma {:induction false} LookupNest(keys: seq<string>, leaf: Json)
    ensures Lookup(Some(Nest(keys, leaf)), keys) == Some(leaf)
    decreases |keys|
  {
    if keys != [] {
      LookupNest(keys[1..], leaf);
    }
  }

  /** A path that leaves Nest's path, at its index j, reaches nothing. */
  lemma {:induction false} LookupNestOff(keys: seq<string>, leaf: Json, q: seq<string>, j: nat)
    requires j < |keys| && j < |q| && q[..j] == keys[..j] && q[j] != keys[j]
    ensures Lookup(Some(Nest(keys, leaf)), q) == None
    decreases j
  {
    if j == 0 {
      LookupUndefined(q[1..]);
    } else {
      assert q[1..][..j - 1] == q[..j][1..];
      assert keys[1..][..j - 1] == keys[..j][1..];
      LookupNestOff(keys[1..], leaf, q[1..], j - 1);
    }
  }

  /** A value JavaScript treats as true in a condition. */
  predicate Truthy(v: Json)
  {
    match v
    case Null => false
    case Bool(b) => b
    case Num(n) => n != 0
    case Str(s) => s != []
    case Arr(_) => true
    case Obj(_) => true
  }

  /** Truthy, `typeof` 'object' and not an array: the values deepMerge descends into. */
  predicate PlainObject(v: Json)
  {
    v.Obj?
  }

  lemma NatToStringsDistinct()
    ensures forall m: nat, n: nat :: NatToString(m) == NatToString(n) ==> m == n
  {
    forall m: nat, n: nat | NatToString(m) == NatToString(n)
      ensures m == n
    {
      NatToStringInjective(m, n);
    }
  }

  /** The outcome of reading and parsing a JSON file: absent, unreadable, or its text parsed (None: not JSON). */
  datatype FileRead = Missing | Unreadable | Read(parsed: Option<Json>)

  /** An array's elements under their decimal indexes. */
  function Indexed(items: seq<Json>): (r: map<string, Json>)
    ensures forall i :: 0 <= i < |items| ==> NatToString(i) in r && r[NatToString(i)] == items[i]
    ensures forall k :: k in r ==> exists i :: 0 <= i < |items| && k == NatToString(i)
  {
    NatToStringsDistinct();
    map i | 0 <= i < |items| :: NatToString(i) := items[i]
  }

  /** A string's characters, as one-character strings, under their indexes. */
  function Characters(s: string): (r: seq<Json>)
    ensures |r| == |s| && forall i :: 0 <= i < |s| ==> r[i] == Str([s[i]])
  {
    seq(|s|, i requires 0 <= i < |s| => Str([s[i]]))
  }

  /**
   * The own enumerable properties of a value, as `{ ...v }` copies them and
   * `Object.keys(v)` with `v[key]` visits them: an object's fields, an
   * array's elements or a string's characters under their decimal indexes,
   * and none for the other primitives.
   */
  function Spread(v: Json): (r: map<string, Json>)
    ensures v.Obj? ==> r == v.fields
    ensures v.Arr? ==> r == Indexed(v.items)
    ensures v.Str? ==> r == Indexed(Characters(v.s))
    ensures v.Null? || v.Bool? || v.Num? ==> r == map[]
  {
    match v
    case Obj(fields) => fields
    case Arr(items) => Indexed(items)
    case Str(s) => Indexed(Characters(s))
    case _ => map[]
  }

  /** Spreading an empty array or string, or a primitive, copies nothing. */
  lemma SpreadEmpty(v: Json)
    requires v.Null? || v.Bool? || v.Num? || v == Str([]) || v == Arr([])
    ensures Spread(v) == map[]
  {
    if v == Str([]) || v == Arr([]) {
      var r := Spread(v);
      forall k | k in r
        ensures false
      {
      }
    }
  }
}
