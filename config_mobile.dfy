// The mobile configuration service: its defaults, the deepMerge that always
// descends into a source object, and the `get`/`set` walks, which stop only
// at null or undefined.
module ConfigMobile {
  import opened Wrappers
  import opened Strings
  import opened Json
  import SyncModels
  import ConfigDesktop

  const DEFAULT_CONFIG: map<string, Json> := map[
    "version" := Num(1),
    "editor" := Obj(map[
      "defaultMode" := Str("wysiwyg"),
      "autoSaveDelay" := Num(1000),
      "fontSize" := Num(16),
      "fontFamily" := Str("monospace"),
      "maxWidth" := Num(800)]),
    "git" := Obj(map[
      "autoCommit" := Bool(true),
      "autoCommitInterval" := Num(300000),
      "autoCommitStrategy" := Str("immediate")]),
    "appearance" := Obj(map[
      "theme" := Str("system"),
      "locale" := Str("zh"),
      "sidebarWidth" := Num(260)]),
    "search" := Obj(map["debounceDelay" := Num(300)])]

  /** `{ ...(target[k] || {}) }`: what deepMerge merges a source object into. */
  function Base(target: map<string, Json>, k: string): (r: map<string, Json>)
    ensures k in target && target[k].Obj? ==> r == target[k].fields
    ensures k !in target ==> r == map[]
  {
    if k in target && Truthy(target[k]) then Spread(target[k]) else map[]
  }

  /**
   * deepMerge: a fresh object with the target's properties; a source
   * property holding a plain object is merged into whatever the target
   * holds there (spread, or {} when falsy), any other source value replaces.
   */
  function Merge(target: map<string, Json>, source: map<string, Json>): (r: map<string, Json>)
    ensures r.Keys == target.Keys + source.Keys
    ensures forall k :: k in target && k !in source ==> r[k] == target[k]
    decreases Obj(source)
  {
    map k | k in target.Keys + source.Keys ::
      if k !in source then target[k]
      else if PlainObject(source[k]) then Obj(Merge(Base(target, k), source[k].fields))
      else source[k]
  }

  /** Merging into nothing copies the source. */
  lemma {:induction false} MergeIntoEmpty(s: map<string, Json>)
    ensures Merge(map[], s) == s
    decreases Obj(s)
  {
    var r := Merge(map[], s);
    forall k | k in s
      ensures r[k] == s[k]
    {
      if PlainObject(s[k]) {
        MergeIntoEmpty(s[k].fields);
      }
    }
  }

  /** Whether the target holds an array or a string (which spread into index keys) at a proper prefix of p. */
  predicate SpreadsAlong(t: map<string, Json>, p: seq<string>)
  {
    exists i :: 1 <= i < |p| && At(t, p[..i]).Some? && (At(t, p[..i]).value.Arr? || At(t, p[..i]).value.Str?)
  }

  /**
   * Along a path on which the source holds objects and the target holds no
   * array or string, the merge shows the source's value at the end of the
   * path when it has one that is not an object, and the target's otherwise.
   */
  lemma {:induction false} MergeOverlay(t: map<string, Json>, s: map<string, Json>, p: seq<string>)
    requires p != [] && ConfigDesktop.ObjectsAlong(s, p) && !ConfigDesktop.ReachesObject(s, p)
    requires !SpreadsAlong(t, p)
    ensures At(Merge(t, s), p) == if At(s, p).Some? then At(s, p) else At(t, p)
    decreases |p|
  {
    var m := Merge(t, s);
    var k := p[0];
    var q := p[1..];
    assert p == [k] + q;
    if |p| == 1 {
      assert p == [k];
      AtOne(m, k);
      AtOne(s, k);
      AtOne(t, k);
    } else {
      assert p[..1] == [k];
      AtOne(s, k);
      AtOne(t, k);
      var sf := s[k].fields;
      var b := Base(t, k);
      AtChild(s, k, sf, q);
      AtChild(m, k, Merge(b, sf), q);
      forall i | 1 <= i < |q|
        ensures At(sf, q[..i]).Some? && At(sf, q[..i]).value.Obj?
      {
        assert p[..i + 1] == [k] + q[..i];
        AtChild(s, k, sf, q[..i]);
      }
      if k in t && t[k].Obj? {
        var tf := t[k].fields;
        forall i | 1 <= i < |q|
          ensures !(At(tf, q[..i]).Some? && (At(tf, q[..i]).value.Arr? || At(tf, q[..i]).value.Str?))
        {
          assert p[..i + 1] == [k] + q[..i];
          AtChild(t, k, tf, q[..i]);
        }
        MergeOverlay(tf, sf, q);
        AtChild(t, k, tf, q);
      } else {
        assert !(k in t && (t[k].Arr? || t[k].Str?));
        SpreadEmpty(if k in t then t[k] else Null);
        assert b == map[];
        MergeIntoEmpty(sf);
        AtOutside(t, p);
      }
    }
  }

  /** Where the target holds no non-empty array or string under a source object, the two apps merge alike. */
  predicate SameMerge(t: map<string, Json>, s: map<string, Json>)
    decreases Obj(s)
  {
    forall k :: k in s && PlainObject(s[k]) && k in t ==>
      && !(t[k].Arr? && t[k].items != [])
      && !(t[k].Str? && t[k].s != [])
      && (t[k].Obj? ==> SameMerge(t[k].fields, s[k].fields))
  }

  lemma {:induction false} MergeAgreesWithDesktop(t: map<string, Json>, s: map<string, Json>)
    requires SameMerge(t, s)
    ensures Merge(t, s) == ConfigDesktop.Merge(t, s)
    decreases Obj(s)
  {
    var r := Merge(t, s);
    var d := ConfigDesktop.Merge(t, s);
    forall k | k in r
      ensures r[k] == d[k]
    {
      if k in s && PlainObject(s[k]) {
        if k in t && t[k].Obj? {
          MergeAgreesWithDesktop(t[k].fields, s[k].fields);
        } else {
          SpreadEmpty(if k in t then t[k] else Null);
          MergeIntoEmpty(s[k].fields);
        }
      }
    }
  }

  /** Where the target holds an array and the source an object, mobile keeps the elements under their indexes and desktop drops them. */
  lemma MergeSpreadsArray()
    ensures var t := map["a" := Arr([Num(1)])];
      var s := map["a" := Obj(map["b" := Bool(true)])];
      && ConfigDesktop.Merge(t, s)["a"] == Obj(map["b" := Bool(true)])
      && Merge(t, s)["a"] == Obj(map["0" := Num(1), "b" := Bool(true)])
  {
    var t := map["a" := Arr([Num(1)])];
    var s := map["a" := Obj(map["b" := Bool(true)])];
    var b := Base(t, "a");
    assert NatToString(0) == "0";
    assert b == map["0" := Num(1)];
    var inner := Merge(b, map["b" := Bool(true)]);
    assert inner == map["0" := Num(1), "b" := Bool(true)];
  }

  /**
   * The config after `set`, or None when the walk reaches a primitive and
   * the next property write throws a TypeError. The walk creates {} only
   * where an intermediate is null or undefined. Writes into an array are
   * not modelled: the model leaves the array as it is.
   */
  function SetPath(c: map<string, Json>, keys: seq<string>, v: Json): (r: Option<map<string, Json>>)
    requires keys != []
    ensures r.Some? ==> r.value.Keys == c.Keys + {keys[0]}
    ensures r.Some? ==> forall k :: k in c && k != keys[0] ==> r.value[k] == c[k]
    decreases |keys|
  {
    var k := keys[0];
    if |keys| == 1 then Some(c[k := v])
    else if k !in c || c[k].Null? then Some(c[k := Nest(keys[1..], v)])
    else match c[k]
      case Obj(f) =>
        (match SetPath(f, keys[1..], v)
         case Some(g) => Some(c[k := Obj(g)])
         case None => None)
      case Arr(_) => Some(c)
      case _ => None
  }

  predicate Primitive(v: Json)
  {
    v.Bool? || v.Num? || v.Str?
  }

  /** Whether a proper prefix of the key path reaches a primitive. */
  predicate PrimitiveAlong(c: map<string, Json>, keys: seq<string>)
  {
    exists i :: 1 <= i < |keys| && At(c, keys[..i]).Some? && Primitive(At(c, keys[..i]).value)
  }

  /** `set` throws exactly when an intermediate on the key path is a boolean, number or string. */
  lemma {:induction false} SetFailsOnPrimitive(c: map<string, Json>, keys: seq<string>, v: Json)
    requires keys != []
    ensures SetPath(c, keys, v).None? <==> PrimitiveAlong(c, keys)
    decreases |keys|
  {
    var k := keys[0];
    var rest := keys[1..];
    assert keys == [k] + rest;
    if |keys| > 1 {
      assert keys[..1] == [k];
      AtOne(c, k);
      if k in c && c[k].Obj? {
        var f := c[k].fields;
        SetFailsOnPrimitive(f, rest, v);
        if PrimitiveAlong(f, rest) {
          var i :| 1 <= i < |rest| && At(f, rest[..i]).Some? && Primitive(At(f, rest[..i]).value);
          assert keys[..i + 1] == [k] + rest[..i];
          AtChild(c, k, f, rest[..i]);
        }
        if PrimitiveAlong(c, keys) {
          var i :| 1 <= i < |keys| && At(c, keys[..i]).Some? && Primitive(At(c, keys[..i]).value);
          assert i > 1;
          assert keys[..i] == [k] + rest[..i - 1];
          AtChild(c, k, f, rest[..i - 1]);
        }
      } else if k in c && Primitive(c[k]) {
      } else {
        forall i | 1 < i < |keys|
          ensures At(c, keys[..i]) == None
        {
          assert keys[..i][0] == k;
          AtOutside(c, keys[..i]);
        }
      }
    }
  }

  predicate NoArrayAlong(c: map<string, Json>, keys: seq<string>)
  {
    forall i :: 1 <= i < |keys| ==> !(At(c, keys[..i]).Some? && At(c, keys[..i]).value.Arr?)
  }

  /** When `set` succeeds off arrays, `get(key)` returns the value set. */
  lemma {:induction false} SetThenGet(c: map<string, Json>, keys: seq<string>, v: Json)
    requires keys != [] && SetPath(c, keys, v).Some? && NoArrayAlong(c, keys)
    ensures At(SetPath(c, keys, v).value, keys) == Some(v)
    decreases |keys|
  {
    var k := keys[0];
    var rest := keys[1..];
    assert keys == [k] + rest;
    var r := SetPath(c, keys, v).value;
    if |keys| == 1 {
      assert keys == [k];
      AtOne(r, k);
    } else {
      assert keys[..1] == [k];
      AtOne(c, k);
      if k in c && c[k].Obj? {
        var f := c[k].fields;
        forall i | 1 <= i < |rest|
          ensures !(At(f, rest[..i]).Some? && At(f, rest[..i]).value.Arr?)
        {
          assert keys[..i + 1] == [k] + rest[..i];
          AtChild(c, k, f, rest[..i]);
        }
        SetThenGet(f, rest, v);
        AtChild(r, k, SetPath(f, rest, v).value, rest);
      } else {
        LookupNest(rest, v);
      }
    }
  }

  /** A successful `set` leaves every path that branches off the key path as it was. */
  lemma {:induction false} SetKeepsSiblings(c: map<string, Json>, keys: seq<string>, v: Json, p: seq<string>, i: nat)
    requires keys != [] && SetPath(c, keys, v).Some?
    requires i < |keys| && i < |p| && p[..i] == keys[..i] && p[i] != keys[i]
    ensures At(SetPath(c, keys, v).value, p) == At(c, p)
    decreases i
  {
    var k := keys[0];
    var r := SetPath(c, keys, v).value;
    if i == 0 {
      AtOtherKey(c, k, if k in r then r[k] else Null, p);
    } else {
      assert p[0] == keys[..i][0];
      var rest := keys[1..];
      var q := p[1..];
      assert p == [k] + q;
      if k in c && c[k].Obj? {
        var f := c[k].fields;
        assert q[..i - 1] == rest[..i - 1];
        SetKeepsSiblings(f, rest, v, q, i - 1);
        AtChild(r, k, SetPath(f, rest, v).value, q);
        AtChild(c, k, f, q);
      } else if k !in c || c[k].Null? {
        assert q[..i - 1] == rest[..i - 1];
        LookupNestOff(rest, v, q, i - 1);
        AtOutside(c, p);
      }
    }
  }

  /** The config `load` keeps after reading an existing file. */
  function Loaded(parsed: Option<Json>): (r: map<string, Json>)
    ensures DEFAULT_CONFIG.Keys <= r.Keys
    ensures parsed.None? || parsed.value.Null? ==> r == DEFAULT_CONFIG
  {
    // Object.keys(null) throws, and the handler falls back to the defaults.
    if parsed.Some? && !parsed.value.Null? then Merge(DEFAULT_CONFIG, Spread(parsed.value)) else DEFAULT_CONFIG
  }

  class ConfigService {
    var configPath: string
    var config: map<string, Json>
    /** What the last save wrote to configPath. */
    var saved: Option<map<string, Json>>

    constructor ()
      ensures configPath == [] && config == DEFAULT_CONFIG && saved == None
    {
      configPath := [];
      config := DEFAULT_CONFIG;
      saved := None;
    }

    /** save: nothing until load has named the file; the write itself may fail. */
    method Save(writable: bool)
      modifies this
      ensures config == old(config) && configPath == old(configPath)
      ensures saved == if configPath != [] && writable then Some(config) else old(saved)
    {
      if configPath == [] {
        return;
      }
      if writable {
        saved := Some(config);
      }
    }

    /**
     * load: names the file under the workspace, then merges an existing file
     * over the defaults, or writes the defaults when there is none; any
     * failure leaves the defaults.
     */
    method Load(workspacePath: string, read: FileRead, writable: bool)
      modifies this
      ensures configPath == workspacePath + "/" + SyncModels.CONFIG_DIR + "/" + SyncModels.CONFIG_FILE
      ensures read.Missing? ==> config == DEFAULT_CONFIG && saved == (if writable then Some(DEFAULT_CONFIG) else old(saved))
      ensures read.Unreadable? ==> config == DEFAULT_CONFIG && saved == old(saved)
      ensures read.Read? ==> config == Loaded(read.parsed) && saved == old(saved)
    {
      configPath := workspacePath + "/" + SyncModels.CONFIG_DIR + "/" + SyncModels.CONFIG_FILE;
      match read
      case Missing =>
        config := DEFAULT_CONFIG;
        Save(writable);
      case Unreadable =>
        config := DEFAULT_CONFIG;
      case Read(parsed) =>
        config := Loaded(parsed);
    }

    /** get: the key's segments walked from the config, undefined once a step is null or undefined. */
    method Get(key: string) returns (r: Option<Json>)
      ensures r == At(config, Split(key, '.'))
    {
      var keys := Split(key, '.');
      var value := Some(Obj(config));
      var i := 0;
      while i < |keys|
        invariant 0 <= i <= |keys|
        invariant Lookup(value, keys[i..]) == At(config, keys)
      {
        assert keys[i..][1..] == keys[i + 1..];
        if value.None? || value.value.Null? {
          LookupUndefined(keys[i + 1..]);
          return None;
        }
        value := Member(value, keys[i]);
        i := i + 1;
      }
      assert keys[i..] == [];
      return value;
    }

    /** set: the value written at the key path and saved; false when the walk throws, changing nothing. */
    method Set(key: string, value: Json, writable: bool) returns (ok: bool)
      modifies this
      ensures configPath == old(configPath)
      ensures ok == SetPath(old(config), Split(key, '.'), value).Some?
      ensures ok ==> config == SetPath(old(config), Split(key, '.'), value).value
      ensures ok ==> saved == (if configPath != [] && writable then Some(config) else old(saved))
      ensures !ok ==> config == old(config) && saved == old(saved)
    {
      var r := SetPath(config, Split(key, '.'), value);
      if r.None? {
        return false;
      }
      config := r.value;
      Save(writable);
      return true;
    }

    /** getAll: a copy of the config. */
    method GetAll() returns (r: map<string, Json>)
      ensures r == config
    {
      r := config;
    }
  }
}
