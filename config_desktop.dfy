// The desktop main process's configuration service: the built-in defaults,
// the file loaded over them with deepMerge, and the '.'-separated key paths
// `get` and `set` walk. The config is always a plain object, so it is held
// as its property map.
module ConfigDesktop {
  import opened Wrappers
  import opened Strings
  import opened Json
  import SyncModels

  const DEFAULT_CONFIG: map<string, Json> := map[
    "version" := Num(1),
    "editor" := Obj(map[
      "defaultMode" := Str("wysiwyg"),
      "autoSaveDelay" := Num(1000),
      "fontSize" := Num(16),
      "fontFamily" := Str("system-ui, -apple-system, sans-serif"),
      "maxWidth" := Num(800)]),
    "git" := Obj(map[
      "autoCommit" := Bool(true),
      "autoCommitInterval" := Num(300000),
      "autoCommitStrategy" := Str("interval")]),
    "appearance" := Obj(map[
      "theme" := Str("system"),
      "sidebarWidth" := Num(260)]),
    "search" := Obj(map["debounceDelay" := Num(300)]),
    "session" := Obj(map[
      "openFiles" := Arr([]),
      "activeFile" := Null]),
    "sync" := Obj(map[
      "enabled" := Bool(false),
      "lanPort" := Num(SyncModels.SYNC_PORT),
      "lanEnabled" := Bool(true),
      "bleEnabled" := Bool(false),
      "conflictStrategy" := Str("last-write-wins"),
      "autoSync" := Bool(false),
      "pairedDevices" := Arr([])])]

  /** Whether a path's proper prefixes all reach objects in `m`. */
  predicate ObjectsAlong(m: map<string, Json>, p: seq<string>)
  {
    forall i :: 1 <= i < |p| ==> At(m, p[..i]).Some? && At(m, p[..i]).value.Obj?
  }

  predicate ReachesObject(m: map<string, Json>, p: seq<string>)
  {
    At(m, p).Some? && At(m, p).value.Obj?
  }

  /**
   * deepMerge: a fresh object with the target's properties and each source
   * property written over them, merged recursively only when both sides
   * hold plain objects; any other source value (an array, a primitive, a
   * falsy value) replaces the target's.
   */
  function Merge(target: map<string, Json>, source: map<string, Json>): (r: map<string, Json>)
    ensures r.Keys == target.Keys + source.Keys
    ensures forall k :: k in target && k !in source ==> r[k] == target[k]
    decreases Obj(source)
  {
    map k | k in target.Keys + source.Keys ::
      if k !in source then target[k]
      else if PlainObject(source[k]) && k in target && PlainObject(target[k]) then
        Obj(Merge(target[k].fields, source[k].fields))
      else source[k]
  }

  /**
   * Along a path on which the source holds objects, the merge shows the
   * source's value at the end of the path when it has one that is not an
   * object, and the target's value when the source has none.
   */
  lemma {:induction false} MergeOverlay(t: map<string, Json>, s: map<string, Json>, p: seq<string>)
    requires p != [] && ObjectsAlong(s, p) && !ReachesObject(s, p)
    ensures At(Merge(t, s), p) == if At(s, p).Some? then At(s, p) else At(t, p)
    decreases |p|
  {
    var m := Merge(t, s);
    var k := p[0];
    var q := p[1..];
    assert p == [k] + q;
    if |p| == 1 {
      assert p == [k];
      AtOne(m, k);
      AtOne(s, k);
      AtOne(t, k);
    } else {
      assert p[..1] == [k];
      AtOne(s, k);
      var sf := s[k].fields;
      AtChild(s, k, sf, q);
      if k in t && PlainObject(t[k]) {
        var tf := t[k].fields;
        forall i | 1 <= i < |q|
          ensures At(sf, q[..i]).Some? && At(sf, q[..i]).value.Obj?
        {
          assert p[..i + 1] == [k] + q[..i];
          AtChild(s, k, sf, q[..i]);
        }
        MergeOverlay(tf, sf, q);
        AtChild(m, k, Merge(tf, sf), q);
        AtChild(t, k, tf, q);
      } else {
        AtChild(m, k, sf, q);
        AtOutside(t, p);
      }
    }
  }

  /**
   * The config after `set`: the walk replaces a missing or non-object
   * intermediate with a fresh object, keeps an object or an array, and the
   * leaf is assigned. Writes into an array are not modelled: the model
   * leaves the array as it is.
   */
  function SetPath(c: map<string, Json>, keys: seq<string>, v: Json): (r: map<string, Json>)
    requires keys != []
    ensures r.Keys == c.Keys + {keys[0]}
    ensures forall k :: k in c && k != keys[0] ==> r[k] == c[k]
    decreases |keys|
  {
    var k := keys[0];
    if |keys| == 1 then c[k := v]
    else if k in c && c[k].Obj? then c[k := Obj(SetPath(c[k].fields, keys[1..], v))]
    else if k in c && c[k].Arr? then c
    else c[k := Nest(keys[1..], v)]
  }

  predicate NoArrayAlong(c: map<string, Json>, keys: seq<string>)
  {
    forall i :: 1 <= i < |keys| ==> !(At(c, keys[..i]).Some? && At(c, keys[..i]).value.Arr?)
  }

  /** After `set(key, v)`, `get(key)` returns v, unless the path runs through an array. */
  lemma {:induction false} SetThenGet(c: map<string, Json>, keys: seq<string>, v: Json)
    requires keys != [] && NoArrayAlong(c, keys)
    ensures At(SetPath(c, keys, v), keys) == Some(v)
    decreases |keys|
  {
    var k := keys[0];
    var rest := keys[1..];
    assert keys == [k] + rest;
    var r := SetPath(c, keys, v);
    if |keys| == 1 {
      assert keys == [k];
      AtOne(r, k);
    } else {
      assert keys[..1] == [k];
      AtOne(c, k);
      if k in c && c[k].Obj? {
        var f := c[k].fields;
        forall i | 1 <= i < |rest|
          ensures !(At(f, rest[..i]).Some? && At(f, rest[..i]).value.Arr?)
        {
          assert keys[..i + 1] == [k] + rest[..i];
          AtChild(c, k, f, rest[..i]);
        }
        SetThenGet(f, rest, v);
        AtChild(r, k, SetPath(f, rest, v), rest);
      } else {
        LookupNest(rest, v);
      }
    }
  }

  /** `set` leaves every path that branches off the key path, at any level, as it was. */
  lemma {:induction false} SetKeepsSiblings(c: map<string, Json>, keys: seq<string>, v: Json, p: seq<string>, i: nat)
    requires keys != [] && i < |keys| && i < |p| && p[..i] == keys[..i] && p[i] != keys[i]
    ensures At(SetPath(c, keys, v), p) == At(c, p)
    decreases i
  {
    var k := keys[0];
    var r := SetPath(c, keys, v);
    if i == 0 {
      AtOtherKey(c, k, if k in r then r[k] else Null, p);
    } else {
      assert p[0] == keys[..i][0];
      var rest := keys[1..];
      var q := p[1..];
      assert p == [k] + q;
      if k in c && c[k].Obj? {
        var f := c[k].fields;
        assert q[..i - 1] == rest[..i - 1];
        SetKeepsSiblings(f, rest, v, q, i - 1);
        AtChild(r, k, SetPath(f, rest, v), q);
        AtChild(c, k, f, q);
      } else if !(k in c && c[k].Arr?) {
        assert q[..i - 1] == rest[..i - 1];
        LookupNestOff(rest, v, q, i - 1);
        AtOutside(c, p);
      }
    }
  }

  /** The top-level keys the file supplies; none when it is null, since Object.keys(null) throws. */
  function FileKeys(parsed: Option<Json>): set<string>
  {
    if parsed.Some? && !parsed.value.Null? then Spread(parsed.value).Keys else {}
  }

  /** The config `load` keeps after reading the file: the file merged over the defaults, else the defaults. */
  function Loaded(defaults: map<string, Json>, parsed: Option<Json>): (r: map<string, Json>)
    ensures defaults.Keys <= r.Keys
    ensures parsed.None? || parsed.value.Null? ==> r == defaults
    ensures forall k :: k in defaults && k !in FileKeys(parsed) ==> r[k] == defaults[k]
  {
    // Object.keys(null) throws, and the handler falls back to the defaults.
    if parsed.Some? && !parsed.value.Null? then Merge(defaults, Spread(parsed.value)) else defaults
  }

  /** The top-level properties of the defaults that hold objects: what a spread copy shares. */
  function Sections(defaults: map<string, Json>): set<string>
  {
    set k | k in defaults && defaults[k].Obj?
  }

  /** A config object whose `shared` properties are the sections of `sections`, the rest its own. */
  function View(own: map<string, Json>, shared: set<string>, sections: map<string, Json>): map<string, Json>
  {
    map k | k in own.Keys + (shared * sections.Keys) ::
      if k in shared && k in sections then sections[k] else own[k]
  }

  /** A write below a shared section, made in the section itself, is the write made in the view. */
  lemma ViewThrough(own: map<string, Json>, shared: set<string>, sections: map<string, Json>,
                    keys: seq<string>, v: Json)
    requires |keys| > 1 && keys[0] in shared && keys[0] in sections && sections[keys[0]].Obj?
    ensures var next := SetPath(View(own, shared, sections), keys, v);
      View(own, shared, sections[keys[0] := next[keys[0]]]) == next
  {
  }

  /** Any other write replaces the view's own property, which stops being shared. */
  lemma ViewOwn(own: map<string, Json>, shared: set<string>, sections: map<string, Json>,
                keys: seq<string>, v: Json)
    requires keys != []
    ensures var next := SetPath(View(own, shared, sections), keys, v);
      View(next, shared - {keys[0]}, sections) == next
  {
  }

  /**
   * The module-level DEFAULT_CONFIG object. A spread copy holds its section
   * objects themselves, so a `set` below a shared section writes here.
   */
  class DefaultConfig {
    var sections: map<string, Json>

    constructor ()
      ensures sections == DEFAULT_CONFIG
    {
      sections := DEFAULT_CONFIG;
    }
  }

  class ConfigService {
    var configPath: string
    /** The defaults object this service's config is spread from. */
    const defaults: DefaultConfig
    /** The top-level properties of the config object. */
    var own: map<string, Json>
    /** The top-level properties that still hold the defaults' own section objects. */
    var shared: set<string>
    /** What the last successful save wrote to configPath. */
    var saved: Option<map<string, Json>>

    /** The config as read now: a shared property shows the defaults' section as it currently is. */
    function Config(): map<string, Json>
      reads this, defaults
    {
      View(own, shared, defaults.sections)
    }

    /** Whether `set` along these keys writes into a section object of the defaults. */
    predicate WritesThrough(keys: seq<string>)
      reads this, defaults
    {
      |keys| > 1 && keys[0] in shared && keys[0] in defaults.sections && defaults.sections[keys[0]].Obj?
    }

    /** The constructor: `{ ...DEFAULT_CONFIG }` copies the top level and shares every section object. */
    constructor (workspacePath: string, defaults: DefaultConfig)
      ensures configPath == workspacePath + "/" + SyncModels.CONFIG_DIR + "/" + SyncModels.CONFIG_FILE
      ensures this.defaults == defaults && saved == None
      ensures own == defaults.sections && shared == Sections(defaults.sections)
      ensures Config() == defaults.sections
    {
      configPath := workspacePath + "/" + SyncModels.CONFIG_DIR + "/" + SyncModels.CONFIG_FILE;
      this.defaults := defaults;
      own := defaults.sections;
      shared := Sections(defaults.sections);
      saved := None;
    }

    /**
     * The constructor intended: a deep copy of the defaults
     * (`structuredClone(DEFAULT_CONFIG)`), which shares no section.
     */
    constructor Cloned(workspacePath: string, defaults: DefaultConfig)
      ensures configPath == workspacePath + "/" + SyncModels.CONFIG_DIR + "/" + SyncModels.CONFIG_FILE
      ensures this.defaults == defaults && saved == None
      ensures own == defaults.sections && shared == {}
      ensures Config() == defaults.sections
    {
      configPath := workspacePath + "/" + SyncModels.CONFIG_DIR + "/" + SyncModels.CONFIG_FILE;
      this.defaults := defaults;
      own := defaults.sections;
      shared := {};
      saved := None;
    }

    /** save: writes the config when the directory and file can be written; a failure is only logged. */
    method Save(writable: bool)
      modifies this
      ensures configPath == old(configPath) && own == old(own) && shared == old(shared)
      ensures saved == if writable then Some(Config()) else old(saved)
    {
      if writable {
        saved := Some(Config());
      }
    }

    /**
     * load: the file merged over the defaults as they now are; a missing
     * file leaves the config as it is and saves it; any other failure falls
     * back to a fresh spread of the defaults. Either way the sections the
     * file does not supply stay shared with the defaults.
     */
    method Load(read: FileRead, writable: bool)
      modifies this
      ensures configPath == old(configPath)
      ensures read.Missing? ==>
        own == old(own) && shared == old(shared) && saved == (if writable then Some(Config()) else old(saved))
      ensures read.Unreadable? ==>
        Config() == defaults.sections && shared == Sections(defaults.sections) && saved == old(saved)
      ensures read.Read? ==>
        && Config() == Loaded(defaults.sections, read.parsed)
        && shared == Sections(defaults.sections) - FileKeys(read.parsed)
        && saved == old(saved)
    {
      match read
      case Missing =>
        Save(writable);
      case Unreadable =>
        own := defaults.sections;
        shared := Sections(defaults.sections);
      case Read(parsed) =>
        own := Loaded(defaults.sections, parsed);
        shared := Sections(defaults.sections) - FileKeys(parsed);
        assert Config() == own;
    }

    /** get: the key's segments walked from the config, undefined once a step is null or not an object. */
    method Get(key: string) returns (r: Option<Json>)
      ensures r == At(Config(), Split(key, '.'))
    {
      var keys := Split(key, '.');
      var current := Some(Obj(Config()));
      var i := 0;
      while i < |keys|
        invariant 0 <= i <= |keys|
        invariant Lookup(current, keys[i..]) == At(Config(), keys)
      {
        assert keys[i..][1..] == keys[i + 1..];
        if current.None? || !(current.value.Obj? || current.value.Arr?) {
          LookupUndefined(keys[i + 1..]);
          return None;
        }
        current := Member(current, keys[i]);
        i := i + 1;
      }
      assert keys[i..] == [];
      return current;
    }

    /**
     * set: the value written at the key path, then saved. Below a shared
     * section the write lands in the defaults' section object itself; any
     * other write replaces this config's own top-level property.
     */
    method Set(key: string, value: Json, writable: bool)
      modifies this, defaults
      ensures configPath == old(configPath)
      ensures Config() == SetPath(old(Config()), Split(key, '.'), value)
      ensures old(WritesThrough(Split(key, '.'))) ==>
        var k := Split(key, '.')[0];
        defaults.sections == old(defaults.sections)[k := Config()[k]] && shared == old(shared)
      ensures !old(WritesThrough(Split(key, '.'))) ==>
        defaults.sections == old(defaults.sections) && shared == old(shared) - {Split(key, '.')[0]}
      ensures saved == if writable then Some(Config()) else old(saved)
    {
      var keys := Split(key, '.');
      var next := SetPath(Config(), keys, value);
      var k := keys[0];
      if WritesThrough(keys) {
        ViewThrough(own, shared, defaults.sections, keys, value);
        defaults.sections := defaults.sections[k := next[k]];
      } else {
        ViewOwn(own, shared, defaults.sections, keys, value);
        own := next;
        shared := shared - {k};
      }
      Save(writable);
    }

    /** getAll: a copy of the config. */
    method GetAll() returns (r: map<string, Json>)
      ensures r == Config()
    {
      r := Config();
    }
  }

  // ---- the defaults shared through `{ ...DEFAULT_CONFIG }` ---------------

  /** A key of two names joined by '.' splits back into them. */
  lemma SplitDotted(a: string, b: string)
    requires '.' !in a && '.' !in b
    ensures Split(a + "." + b, '.') == [a, b]
  {
    SplitAppend(a, b, '.');
    SplitNoSep(a, '.');
    SplitNoSep(b, '.');
  }

  /** The value one key below a section that holds an object. */
  lemma AtSection(m: map<string, Json>, section: string, key: string)
    requires section in m && m[section].Obj?
    ensures At(m, [section, key]) == At(m[section].fields, [key])
  {
    assert [section, key] == [section] + [key];
    AtChild(m, section, m[section].fields, [key]);
  }

  /**
   * Whatever a service sets below an object-valued section of the defaults is
   * what the next service, built from the same defaults, reads there.
   */
  method SharedSectionLeaks(defaults: DefaultConfig, section: string, key: string, v: Json)
    returns (r: Option<Json>)
    requires section in defaults.sections && defaults.sections[section].Obj?
    requires '.' !in section && '.' !in key
    modifies defaults
    ensures r == Some(v)
  {
    SplitDotted(section, key);
    var f := defaults.sections[section].fields;
    var first := new ConfigService("first", defaults);
    first.Set(section + "." + key, v, true);
    assert SetPath(f, [key], v) == f[key := v];
    assert defaults.sections[section] == Obj(f[key := v]);
    var next := new ConfigService("next", defaults);
    r := next.Get(section + "." + key);
    AtSection(defaults.sections, section, key);
    AtOne(f[key := v], key);
  }

  /**
   * A service that sets a value below a section and then fails to read its
   * file is reset to a spread of the defaults, which still holds the value.
   */
  method SetSurvivesFailedLoad(defaults: DefaultConfig, section: string, key: string, v: Json)
    returns (r: Option<Json>)
    requires section in defaults.sections && defaults.sections[section].Obj?
    requires '.' !in section && '.' !in key
    modifies defaults
    ensures r == Some(v)
  {
    SplitDotted(section, key);
    var f := defaults.sections[section].fields;
    var service := new ConfigService("ws", defaults);
    service.Set(section + "." + key, v, true);
    assert SetPath(f, [key], v) == f[key := v];
    assert defaults.sections[section] == Obj(f[key := v]);
    service.Load(Unreadable, true);
    r := service.Get(section + "." + key);
    AtSection(defaults.sections, section, key);
    AtOne(f[key := v], key);
  }

  /**
   * A font size of 20 set in one service is what the next service, for
   * another workspace, starts from instead of the built-in 16.
   */
  method SetLeaksIntoNextService() returns (before: Option<Json>, after: Option<Json>)
    ensures before == Some(Num(16)) && after == Some(Num(20))
  {
    var defaults := new DefaultConfig();
    var ed := DEFAULT_CONFIG["editor"].fields;
    AtSection(DEFAULT_CONFIG, "editor", "fontSize");
    AtOne(ed, "fontSize");
    before := At(defaults.sections, ["editor", "fontSize"]);
    after := SharedSectionLeaks(defaults, "editor", "fontSize", Num(20));
  }

  /** With the intended deep copies, a new service starts from the built-in defaults whatever another one set. */
  method NextServiceAfterSet(workspaceA: string, workspaceB: string, key: string, v: Json)
    returns (c: map<string, Json>)
    ensures c == DEFAULT_CONFIG
  {
    var defaults := new DefaultConfig();
    var a := new ConfigService.Cloned(workspaceA, defaults);
    a.Set(key, v, true);
    var b := new ConfigService.Cloned(workspaceB, defaults);
    c := b.GetAll();
  }
}
